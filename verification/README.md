# URTC Flasher, verified

A Dafny model of the parts of the URTC Flasher that decide what reaches a board, with proofs of what those parts promise.

- **The CAN update** (`flasher_protocol.py`). `Flasher.dfy` is the imperative flasher on a bus that may answer anything. Every method returns, as a ghost
  result, the events it caused (frames sent, frames read, silence, a stop request, an expired deadline), and `Flash` is proved to follow the automaton of
  `FlashSpec.dfy`. The bus counts the looks at the stop flag and the polls left before a deadline, so a loop that skips the one or gives up before the other
  does not verify. What an update can do is then proved about that automaton, twice. Against an arbitrary bus: the frames sent are a prefix of one script
  (`TraceSafety.dfy`), every byte goes out once, pages and acknowledgements stay in lockstep (`Lockstep.dfy`), a wait is given up at its third failure
  (`Retries.dfy`), and it is known which events end an update and how (`Outcomes.dfy`). Against the bootloader the comments and the simulated board describe (`Bootloader.dfy`): end-to-end integrity when frames may be lost both
  ways (`Integrity.dfy`), what the lost-confirmation fallback is worth (`LostConfirmation.dfy`), and no deadlock and no failure when nothing is lost
  (`Progress.dfy`).
- **The other conversations**: the version query, the order of its answers and their fields (`VersionQuery.dfy`, `QueryOrder.dfy`, `VersionFields.dfy`), the
  readback (`Readback.dfy`), the slave's data loop (`SlaveTransfer.dfy`), the signature record and the version field (`SignatureRecord.dfy`).
- **Ed25519 verification** (`flasher_release_signature.py`, RFC 8032), over any prime p = 5 (mod 8), any i with i^2 = -1 and any non-square d: modular
  arithmetic and Fermat's little theorem (`Modular.dfy`, `Primes.dfy`), the complete addition law (`Edwards.dfy`), extended coordinates
  (`ExtendedPoints.dfy`), double-and-add (`ScalarMultiplication.dfy`), square roots and point decoding (`PointDecoding.dfy`), the verification equation
  (`SignatureVerification.dfy`), the literal constants (`Ed25519Constants.dfy`) and the non-squareness of the curve's own d (`Ed25519NonSquare.dfy`).
- **Image validation** (`flasher_validation.py`): raw, Intel HEX and ELF32 checks and their agreement (`Validation.dfy`, `IntelHex.dfy`, `Elf.dfy`,
  `OneVerdict.dfy`).
- **Version numbers** (`bump_manifest_version.py`, `bump_version.py`): the odometer, its two implementations, the synchronisation and the text splice
  (`Versions.dfy`, `Splice.dfy`), and the frame count of the plan (`flasher_plan.py`, in `Lockstep.dfy`).

Hypotheses, all explicit in `Good` and `GoodGroup`: p is prime, d is not a square mod p, affine addition is associative, and q times the base point is the
neutral element; `SecondHalfUnique` also asks that q is prime and the base point is not neutral. For the constants of the source the second one is
proved from the first (`DIsNotSquare`). Everything else is proved: completeness of the addition law, closure, commutativity, the neutral element and inverses.

What the proofs show about the code, each stated by a lemma:

- The fallback for a lost confirmation trusts any board that answers as an application. While no other node answers for the board, a successful end means
  that the image is installed exactly when the board has no other image to restart into, or the version cannot be sent at all (`SuccessIsInstallation`);
  otherwise the end of the update can be lost and a restart into the old application passes for success.
- A refusal of the board, or a stop, ends an update that waits for its verification, and no update that read one there is done (`RefusalEnds`,
  `DoneWasNotRefused`); but a refusal that arrives behind the deadline is passed over by the query that follows (`LateRefusalIsPassedOver`).
- A version query returns as soon as nothing more is expected, so the report can depend on the order of the answers: for the frames of one board it does not
  exactly when no complete answer can come before a frame that would change it (`ConfluentExactly`).
- A minor of 65536 or more can be sent only as its low byte, beside a patch, towards a bootloader that reads patches (`AnswerFits`).
- The minor field of END_UPDATE survives its trip beside a patch exactly when the minor is at most 255 (`PatchedFieldDecodes`).
- `--sync` cannot see a step of the fourth version component in a file that does not store it: it advances exactly when the file holds all components or the
  first three change (`SyncSeesStep`), and there accepts a file up to ten steps ahead (`AcceptedUpToSlack`).
- The two carries of the version scripts agree exactly on components that have not run over (`CarriesAgree`).
- With an address expected, the vector table there decides about a HEX or an ELF file; when no word is there, a file whose lowest part has no word either is
  accepted without any being looked at (`MemoryVerdictExact`, `SegmentsVerdictExact`).
- An image of fewer than eight bytes is refused as a raw file and judged by its stack pointer alone, or not at all, as a HEX
  file (`HexVerdictIsRawVerdict`); as an ELF file also by the bytes behind its segment (`ElfVerdictIsRawVerdict`).

Where the prose and the code differ the code was followed: a status frame of a length other than 1 or 2 is handed to the waiting caller unchecked
(`FlashSpec.Classify`); during a page acknowledgement a stop request or an error status only costs one of three attempts (`FlashSpec.Next`).

## Model

| member | source | states |
|---|---|---|
| Primes.Fermat | flasher_release_signature.py:65 | a^(p-1) = 1 for a prime p and a not divisible by p, from the permutation of the residues |
| Primes.QuotientUnique | flasher_release_signature.py:65-83 | n times pow(m, p-2) is the only residue r with r m = n |
| Edwards.DenominatorsNonZero | flasher_release_signature.py:37-45 | the addition law is complete: on curve points neither denominator ever vanishes |
| Edwards.SumOnCurve | flasher_release_signature.py:37-45 | the sum of two curve points is on the curve |
| ExtendedPoints.AddIsSum | flasher_release_signature.py:37-45 | `_add` of representatives represents the affine twisted Edwards sum |
| ExtendedPoints.AddCorrect | flasher_release_signature.py:37-45 | on extended points `_add` keeps XY = ZT, the curve equation and Z not 0, and its affine point is the sum |
| ExtendedPoints.EqualIffSameAffine | flasher_release_signature.py:58-59 | `_equal` decides equality of the affine points |
| ExtendedPoints.EqualIsCongruence | flasher_release_signature.py:37-59 | `_equal` is an equivalence and `_add` respects it |
| ScalarMultiplication.Mul | flasher_release_signature.py:48-55 | the loop computes the double-and-add function for every integer scalar |
| ScalarMultiplication.LadderIsTimes | flasher_release_signature.py:48-55 | result + scalar * point is kept through the loop, for every accumulator |
| ScalarMultiplication.MulIsTimes | flasher_release_signature.py:48-55 | `_mul(n, P)` represents n times the point of P |
| ScalarMultiplication.MulIsRepeatedAdd | flasher_release_signature.py:48-55 | `_mul(n, P)` is `_equal` to n-fold `_add` |
| PointDecoding.SquareRootExact | flasher_release_signature.py:68-72 | the two candidates give a canonical root exactly when the number is a square |
| PointDecoding.RecoverXExact | flasher_release_signature.py:62-73 | `_recover_x` returns x exactly when y < p and x is the canonical root of that parity; otherwise None |
| PointDecoding.DecodeEncode | flasher_release_signature.py:76-80 | decode(encode(P)) = P for every curve point |
| PointDecoding.EncodeDecode | flasher_release_signature.py:76-80 | an accepted 32-byte string decodes to a curve point that encodes to the same bytes |
| SignatureVerification.Verify | flasher_release_signature.py:88-97 | in a good group the method accepts exactly the signatures over the hash of R, the key and the message, in this order, for inputs of any length |
| SignatureVerification.VerificationExact | flasher_release_signature.py:88-97 | a signature is accepted exactly when the lengths are right, both points decode, s < q and sB = R + hA in the affine group |
| SignatureVerification.SignedIsAccepted | flasher_release_signature.py:88-97 | every signature made by section 5.1.6 of RFC 8032 is accepted, whatever key, nonce, message and hash |
| SignatureVerification.SecondHalfUnique | flasher_release_signature.py:93-97 | two accepted signatures with the same first half, key and message are the same bytes |
| Ed25519NonSquare.HalfPower | flasher_release_signature.py:31-33 | d to the power (p-1)/2 is -1, by squaring and multiplying |
| Ed25519NonSquare.DIsNotSquare | flasher_release_signature.py:33 | so d is not a square, if p is prime |
| Ed25519Constants.BasePointRecovered | flasher_release_signature.py:83-85 | if p is prime the curve is good, and y = 4/5 and its even root give the standard base point |
| VersionQuery.Confluent | flasher_protocol.py:115-173 | two orders of the same frames of one board, all of them read, give the same report |
| VersionQuery.KeyAttribution | flasher_protocol.py:161-170 | a key id is attributed exactly when it is the only fingerprint read, however many boards answer |
| VersionFields.VersionIsReported | flasher_protocol.py:136-151 | responder, hardware, major and minor are read back from the answer a board packs, among any frames of that board in any order |
| VersionFields.PatchIsReported | flasher_protocol.py:169-180 | the patch, with 0xFF for none, and bit 0 of the flags are read back from the patch frame, whatever follows them |
| VersionFields.NoPatchIsReported | flasher_protocol.py:143-145 | without a patch frame neither patch nor its acceptance is known |
| VersionFields.BootVersionIsReported | flasher_protocol.py:152-159 | the three bytes of the bootloader's version are reported |
| VersionFields.FirstVersionLastRest | flasher_protocol.py:136-173 | for any frames of any boards: the first version is kept, the last bootloader version and patch replace the ones before |
| VersionFields.OthersAreIgnored | flasher_protocol.py:132-173 | frames of other identifiers or lengths change nothing |
| QueryOrder.ConfluentExactly | flasher_protocol.py:115-173 | with the early return included, the report is independent of the order exactly when no complete answer can come too early |
| Flasher.QueryAnswers | flasher_protocol.py:115-173 | what the query returns is what the frames it read say, and no frame behind its end matters |
| Flasher.URTCFlasher.WaitFor | flasher_protocol.py:191-238 | the wait skips what does not match and ends with the answer, the error status, the stop or the deadline; the stop flag is looked at in every turn |
| Flasher.URTCFlasher.QueryVersion | flasher_protocol.py:83-180 | the report is that of the frames read, which end with the first complete state or the deadline |
| Flasher.URTCFlasher.SendRecord | flasher_protocol.py:625-630 | eleven frames, each with its index and seven bytes of the padded record |
| Flasher.URTCFlasher.StartUpdate | flasher_protocol.py:672-676 | follows the automaton through START_UPDATE and the wait for status 0x03 |
| Flasher.URTCFlasher.SendSignatures | flasher_protocol.py:678-689 | follows the automaton through the record and the HMAC chunks |
| Flasher.URTCFlasher.SendPage | flasher_protocol.py:704-733 | follows the automaton through the data frames of one page |
| Flasher.URTCFlasher.AwaitPageAck | flasher_protocol.py:757-784 | at most three waits, no data sent again, then the page index is checked |
| Flasher.URTCFlasher.Transfer | flasher_protocol.py:697-797 | follows the automaton through all pages; the last partial page is not waited for |
| Flasher.URTCFlasher.AskPatch | flasher_protocol.py:824-833 | follows the automaton through the query; the patch goes in only towards a bootloader that reads it |
| Flasher.URTCFlasher.Finish | flasher_protocol.py:800-890 | follows the automaton from the last byte to the outcome |
| Flasher.URTCFlasher.AwaitVerification | flasher_protocol.py:838-890 | follows the automaton through the final wait, looking at the stop flag in every turn, and the lost-confirmation query |
| Flasher.URTCFlasher.Flash | flasher_protocol.py:632-890 | refuses before sending, with which error, or causes exactly a log that leads the automaton to its outcome |
| FlashSpec.LegalPrefix | flasher_protocol.py:632-890 | every prefix of a log of the flasher is one too |
| TraceSafety.RunOnScript | flasher_protocol.py:672-890 | in every state what was sent is a fixed function of the state |
| TraceSafety.SentIsScriptPrefix | flasher_protocol.py:672-890 | under any input the frames sent are a prefix of START, record, HMAC, data, authorization, query, END and at most one more query; done means all of it |
| Lockstep.BytesSentInOrder | flasher_protocol.py:697-836 | the payloads are a prefix of the image, each byte once; END only behind the whole image, in exactly the planned number of frames |
| Lockstep.PlanCountsChunks | flasher_plan.py:71 | the plan's negated floor division is the number of eight-byte chunks |
| Lockstep.RunInStep | flasher_protocol.py:697-787 | bytes sent and acknowledgements read in every state, for every input |
| Lockstep.NoPageAhead | flasher_protocol.py:700-787 | when a byte of page k is sent the acknowledgements read are exactly 0..k-1, in order; never more than one page ahead |
| Retries.WaitsAreCounted | flasher_protocol.py:757-775 | the attempts used on a page are the failed waits in the log since its last byte, and fewer than three |
| Retries.GivenUpAtThird | flasher_protocol.py:757-775 | a wait is given up exactly at its third failure, stop requests included, with the error of the third |
| Outcomes.RefusalExact | flasher_protocol.py:642-664 | nothing is sent of an empty image, of one over 112 KB or of one with neither record nor HMAC; and of no other |
| Outcomes.WaitDecides | flasher_protocol.py:208-236 | what a wait makes of any frame: its answer first, then an error the board reports, nothing else |
| Outcomes.AckDecides | flasher_protocol.py:776-784 | an acknowledgement is accepted exactly when its first four bytes are the page's index, most significant first |
| Outcomes.EndsExactly | flasher_protocol.py:672-890 | for every log, event and outcome but an unsendable version: exactly which events end an update, in which states, and how |
| Outcomes.AnswerDecides | flasher_protocol.py:824-836 | the answer of the query decides what goes into the minor field, or that no version can be sent |
| Outcomes.NoPatchNoQuery | flasher_protocol.py:824-836 | without a patch nothing is asked and the field is the minor, if it fits |
| Outcomes.RefusalEnds | flasher_protocol.py:842-873 | an error status or a stop ends the update with its error, where it starts and where it is verified |
| Outcomes.StatusDecides | flasher_protocol.py:215-235 | what each status code does, with or without a reason, where an update starts and where it is verified |
| Outcomes.DoneWasNotRefused | flasher_protocol.py:842-873 | no update is done that read an error status while it waited for the verification |
| Outcomes.LateRefusalIsPassedOver | flasher_protocol.py:872-890 | behind the deadline an error status changes nothing |
| Outcomes.StopBetweenPages | flasher_protocol.py:700-702 | the stop flag cancels where a page begins and is not looked at inside one |
| Integrity.Conservation | flasher_protocol.py:736-755 | over a lossy bus what the board has and what is on its way is what was sent, or shorter |
| Integrity.AcceptedAckMeansWritten | flasher_protocol.py:757-787 | when the acknowledgement of page j is accepted nothing was lost and the flash holds the image's first j+1 pages |
| Integrity.ConfirmedMeansInstalled | flasher_protocol.py:838-873 | an update that ends with status 0x04 left exactly the image installed |
| Integrity.NothingElseIsInstalled | flasher_protocol.py:736-755 | over a lossy bus the board only ever has installed what it had before or the whole image |
| LostConfirmation.UndisturbedDoneIsInstalled | flasher_protocol.py:872-890 | while nobody else answers and the board restarts into no other image, every successful end means installed |
| LostConfirmation.RestartPassesForSuccess | flasher_protocol.py:872-890 | every update whose version can be sent has a run that ends as done with the old image still installed |
| LostConfirmation.SuccessIsInstallation | flasher_protocol.py:872-890 | success means installed exactly when the board had no other image, or the version can never be sent |
| Progress.AwaitedAckIsThere | flasher_protocol.py:749-784 | on a lossless bus an awaited acknowledgement is the one thing pending, and there once the board has its frames |
| Progress.AnswerFits | flasher_protocol.py:824-836 | exactly which versions can go into END_UPDATE, given the answer to the query |
| Progress.SmoothEndsWell | flasher_protocol.py:749-873 | on a lossless bus an update that ends has the image installed, or its version did not fit |
| Progress.SmoothCanFinish | flasher_protocol.py:749-873 | no deadlock: from every reachable state, for every size, the end can be reached, and it is success if the version fits |
| Readback.ReadBackFlash | flasher_protocol.py:892-994 | the method follows the readback automaton to its result |
| Readback.CollectPage | flasher_protocol.py:965-979 | collects one page, cut at its end, or fails |
| Readback.AcksAtPageEnds | flasher_protocol.py:959-982 | under any input the buffer stays within the announced size and the acknowledgements are 0,1,2,... at the page ends |
| Readback.HeaderDecides | flasher_protocol.py:918-931 | the first frame of exactly four bytes is the size, nought for nothing installed; others are passed over |
| Readback.PageAckDecodes | flasher_protocol.py:981 | the acknowledgement of a page reads back as its index |
| Readback.ChunkDecides | flasher_protocol.py:964-979 | any frame of one to eight bytes extends the buffer, cut at the end of the page or the image; others are passed over |
| Readback.NoImageExactly | flasher_protocol.py:917-970 | exactly which event ends a readback without an image, with which error |
| Readback.ReadbackRoundTrip | flasher_protocol.py:907-988 | hearing the frames of an image, among any others, gives back that image, for every size |
| SlaveTransfer.QuerySlaveProgress | flasher_protocol.py:1265-1275 | one poll, answered or not, and no data |
| SlaveTransfer.SendToSlave | flasher_protocol.py:1117-1169 | the loop follows the relay automaton and looks at the stop flag before every data frame |
| SlaveTransfer.PollsOnTheDot | flasher_protocol.py:1149-1151 | the k-th poll is at the k-th multiple of 2048 or at the end, and none is skipped; a finished loop sent everything |
| SlaveTransfer.StalledAfterThree | flasher_protocol.py:1158-1169 | given up as stalled exactly when three polls in a row went unanswered |
| SlaveTransfer.BlindAtMost6144 | flasher_protocol.py:1117-1169 | at every moment at most 6144 bytes past the last answered poll |
| SlaveTransfer.AnyByteAnswers | flasher_protocol.py:1265-1275 | a poll is answered by any progress frame with a byte in it and by nothing else |
| SlaveTransfer.StopBeforeFrame | flasher_protocol.py:1138-1140 | the user stops the transfer before a data frame, and nowhere else |
| SignatureRecord.RecordIsRead | flasher_protocol.py:606-623 | every spelling of a record, in either case, with white space around it, is read as that record |
| SignatureRecord.OnlyRecordsAreRead | flasher_protocol.py:606-623 | and nothing else is |
| SignatureRecord.SentRecordIsComplete | flasher_protocol.py:625-630 | the frames sent for a record are all its chunks |
| SignatureRecord.LastRecordFrame | flasher_protocol.py:625-630 | the last frame is padded with a nought |
| SignatureRecord.RecordRebuilt | flasher_protocol.py:625-630 | written by index, the chunks rebuild the record in any order and with duplicates |
| SignatureRecord.HmacChunksJoin | flasher_protocol.py:684-689 | the HMAC chunks, one after another, are the signature |
| SignatureRecord.EndFrameDecodes | flasher_protocol.py:835-836 | the end frame reads back as the CRC, the major and the minor field |
| SignatureRecord.StartFrameDecodes | flasher_protocol.py:672-674 | the start frame reads back as the size and the hardware identifier |
| SignatureRecord.PatchedFieldDecodes | flasher_protocol.py:182-189 | the patched field decodes to its minor and patch exactly when the minor is at most 255 |
| SignatureRecord.LegacyFieldIsPlain | flasher_protocol.py:182-189 | towards any other bootloader the field is the minor, never taken for a patch below 0x8000 |
| Validation.RawVerdict | flasher_validation.py:71-110 | accepted exactly when the size fits, the stack pointer is in RAM and the reset handler in the slot |
| Validation.StackPointerHasRoom | flasher_validation.py:14-16 | a stack pointer is accepted exactly inside 40 KB of main or 8 KB of CCM RAM, with 256 bytes below it |
| Validation.SlotAddresses | flasher_validation.py:97 | a slot has as many addresses as its size, from its base on |
| Validation.VectorTable | flasher_validation.py:71-110 | the first two words are the stack pointer and the reset handler, least significant byte first |
| Validation.ValidateRaw | flasher_validation.py:402-435 | the raw check accepts exactly the plausible images, and its reason for a refusal is true |
| Validation.Judge | flasher_validation.py:210-263 | the first candidate with a plausible stack pointer decides |
| IntelHex.LoadRecords | flasher_validation.py:140-191 | the loop loads what the records before the end record say, or names the first fault |
| IntelHex.ValidateIntelHex | flasher_validation.py:113-263 | the HEX check computes the verdict on the loaded memory |
| IntelHex.CorruptionIsRejected | flasher_validation.py:137-170 | changing one address, type, data or checksum byte of any record up to the end record makes an accepted file rejected |
| IntelHex.FileScans | flasher_validation.py:140-191 | a written file is read back as its records |
| IntelHex.HexVerdictIsRawVerdict | flasher_validation.py:113-263 | any records that cover an image, in any split, order and segments, are judged as the raw image is |
| IntelHex.LineEnds | flasher_validation.py:140-166 | what follows the checksum of a line does not count, and a line cut off before it is malformed |
| IntelHex.SegmentOfLast | flasher_validation.py:172-181 | the last extended address record decides: its two bytes times 65536, or times 16 |
| IntelHex.MemoryVerdictExact | flasher_validation.py:187-263 | for any memory, and any expected address: exactly when it is accepted |
| IntelHex.EndRecordEnds | flasher_validation.py:168-170 | nothing behind the end record is looked at |
| IntelHex.CutShort | flasher_validation.py:140-191 | a file without an end record is rejected |
| IntelHex.ListingCovers | flasher_validation.py:172-191 | every image that ends within 32 bits of address has records of linear addresses that cover it, and within 20 bits such of segments |
| Elf.ValidateElf | flasher_validation.py:266-380 | the ELF check computes the verdict on the loadable segments |
| Elf.ElfVerdictIsRawVerdict | flasher_validation.py:266-380 | a file whose one loadable segment is the image is judged as the raw image is, from eight bytes on; the short case is stated |
| Elf.HeaderExact | flasher_validation.py:283-300 | which header bytes are accepted, and which reason is given otherwise |
| Elf.LoadableExact | flasher_validation.py:303-319 | an entry is loaded exactly when its type is 1 and its size in the file is not nought |
| Elf.TruncatedIsRefused | flasher_validation.py:311-318 | a loadable segment that runs over the end of the file is refused |
| Elf.SegmentsVerdictExact | flasher_validation.py:328-380 | for any segments, and any expected address: exactly when they are accepted |
| Elf.ToElfReads | flasher_validation.py:286-320 | a written file of any parts has exactly the loadable ones of them as its segments |
| Elf.SeveralSegmentsVerdict | flasher_validation.py:322-380 | an image beside any other segments is accepted exactly when all of them fit together and the image is plausible |
| Elf.ToElfLoads | flasher_validation.py:286-320 | every image has an ELF file whose header is accepted and that loads it and nothing else, at its physical address, whatever the virtual one |
| OneVerdict.ValidateSwdImage | flasher_validation.py:383-435 | whatever image of at least eight bytes the file holds for the expected address is accepted exactly when plausible |
| OneVerdict.OneImageOneVerdict | flasher_validation.py:71-435 | two files of any form that hold one image of at least eight bytes get the same verdict |
| OneVerdict.EveryImageHasAllForms | flasher_validation.py:383-435 | every image that ends within reach can be had raw, as ELF, and as HEX with either kind of extended address |
| Versions.NextVersion | bump_manifest_version.py:36-57 | the carries compute the successor function |
| Versions.OdometerIsCounter | bump_manifest_version.py:36-57 | the n-th successor of 0.0.0 is n in three digits below 80, then 800+(n-80) in four |
| Versions.OdometerIncreases | bump_manifest_version.py:36-57 | strictly increasing, and never back to three components |
| Versions.CarriesAgree | bump_version.py:43-54 | the two carries agree on the first three components exactly when these have not run over |
| Versions.Project.Sync | bump_manifest_version.py:346-373 | refused or accepted, the whole new state, and agreement afterwards |
| Versions.Project.BumpBoth | bump_manifest_version.py:375-396 | one step of both, or nothing |
| Versions.SyncIsIdempotent | bump_manifest_version.py:346-373 | a second synchronisation changes nothing |
| Versions.DecidesByForm | bump_manifest_version.py:346-361 | what the decision compares, for any native version where all components are held |
| Versions.AcceptedUpToSlack | bump_manifest_version.py:346-361 | a file n steps ahead is accepted exactly up to one step, or up to the last version of the next three-part number where the fourth is dropped |
| Versions.SyncSeesStep | bump_manifest_version.py:102-106 | a step is noticed exactly when the file can show it |
| Versions.SameExactly | bump_manifest_version.py:102-106 | when the native version is the manifest's, for all four styles |
| Versions.RewrittenExactly | bump_manifest_version.py:355-365 | the native file is rewritten exactly when only the fourth component of the next version is missing in it |
| Versions.BumpedIsAccepted | bump_manifest_version.py:346-366 | what the project's own three-part script makes of the manifest's version is accepted, for all four styles |
| Splice.ReplaceFields | bump_manifest_version.py:187-202 | splicing disjoint spans from the right equals substituting them all at once |
| Splice.ReplacedFieldsAreRead | bump_manifest_version.py:187-202 | afterwards every field, moved by the ones before it, holds its value, and all other text is what it was |

## Left out

- Sockets, serial ports, python-can, environment variables, file reading and writing, downloads: frames, events and byte sequences stand for them.
- Seconds and sleeps: a deadline is an event that may happen after any number of polls; speed, progress figures and log texts are not modelled.
- The heartbeat percentage seen during a page retry: it only changes a log line.
- An exception raised by the transport itself: sending and reading always return.
- SHA-256, SHA-512, HMAC and CRC-32 internals: the hash of a signature is a parameter, the CRC is a field of the job, and the bootloader's checks are a free choice.
- Edwards.SumOnCurve: closure is proved, associativity is not: it is a hypothesis of the scalar multiplication and verification theorems.
- The primality of 2^255-19 and of q, and q times the base point being neutral: hypotheses, not computed.
- `_SQRT_M1` and `_D` are literals checked by their equations (i^2 = -1 and 121666 d = -121665), not by evaluating the powers in the source.
- Integrity.AcceptedAckMeansWritten: the bus may lose frames in both directions but neither duplicates nor reorders them, as the protocol assumes.
- Readback.ReadBackFlash: the two readback deadlines, of a page and of the whole, end in one and the same error.
- SignatureRecord.RecordIsRead: white space is blank, tab, line feed and carriage return; the search for the record file is left out.
- IntelHex.LoadRecords: a line is its bytes or garbled; what Python's number parsing tolerates (signs, blanks, odd digits) counts as garbled.
- OneVerdict.ValidateSwdImage: the form of a file is given, not taken from its name, and reading it does not fail.
- Versions.NextVersion: a version is three or four numbers, not a string.
- Versions.Project.Sync: separate native fields, the changelog, lock files and mirrors are left out.
- Splice.ReplaceFields: the spans are given, disjoint and not empty; finding them by regular expression is left out.
- The manifest and key prechecks, version resolution, slave status and verify phase, FRAM erase, bootloader entry and the SWD tools: decisions read off their branches.
- The window, the language files, configuration overrides and the virtual-clock scenario runner.
