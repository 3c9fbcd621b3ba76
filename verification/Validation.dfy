/** What makes an image plausible, and the check of a raw file. */
module Validation {
  import opened Bytes
  import opened Wrappers

  datatype Reason =
    | EmptyFile | TooLarge | TooSmall | BadStackPointer | BadResetHandler | WrongAddress
    | NotHex | MalformedLine | BadChecksum | NoEndRecord | NoData
    | NotElf | NotThirtyTwoBit | NotLittleEndian | WrongMachine | NoProgramHeaders | TruncatedSegment | NoSegments

  /** Unlocated: accepted, but no vector table was found to look at. */
  datatype Verdict = Plausible | Unlocated | Invalid(reason: Reason)

  predicate Accepts(v: Verdict) {
    !v.Invalid?
  }

  /** _stack_pointer_in_ram: the main SRAM or the CCM RAM. */
  predicate StackPointerInRam(sp: nat) {
    0x2000_0100 <= sp <= 0x2000_A000 || 0x1000_0100 <= sp <= 0x1000_2000
  }

  predicate InSlot(address: nat, base: nat, maxSize: nat) {
    base <= address < base + maxSize
  }

  /** The first two words of an image: its stack pointer and its reset handler. */
  function StackPointer(image: Data): nat
    requires |image| >= 4
  {
    FromLE(image[..4])
  }

  function ResetHandler(image: Data): nat
    requires |image| >= 8
  {
    FromLE(image[4..8])
  }

  /** An image that fits, with a stack pointer in RAM and a reset handler in its slot, if the slot is known. */
  predicate PlausibleFor(image: Data, maxSize: nat, expected: Option<nat>) {
    && 8 <= |image| <= maxSize && StackPointerInRam(StackPointer(image))
    && (expected.Some? ==> InSlot(ResetHandler(image), expected.value, maxSize))
  }

  /** The RAM of the chip: 40 KB of main SRAM and 8 KB of CCM. A stack pointer needs 256 bytes of room below it. */
  datatype Region = Region(base: nat, size: nat)

  const REGIONS := [Region(0x2000_0000, 40 * 1024), Region(0x1000_0000, 8 * 1024)]
  const HEADROOM: nat := 256

  lemma StackPointerHasRoom(sp: nat)
    ensures StackPointerInRam(sp) <==> exists i: nat :: i < |REGIONS| && InRegion(sp, i)
  {
    assert InRegion(sp, 0) <==> 0x2000_0100 <= sp <= 0x2000_A000;
    assert InRegion(sp, 1) <==> 0x1000_0100 <= sp <= 0x1000_2000;
  }

  predicate InRegion(sp: nat, i: nat)
    requires i < |REGIONS|
  {
    REGIONS[i].base + HEADROOM <= sp <= REGIONS[i].base + REGIONS[i].size
  }

  /** A slot is its size in addresses from its base on. */
  lemma SlotAddresses(base: nat, maxSize: nat, k: int)
    requires base + k >= 0
    ensures InSlot(base + k, base, maxSize) <==> 0 <= k < maxSize
  {
  }

  /** A vector table: the stack pointer, then the reset handler, each in four bytes from the least significant on. */
  lemma VectorTable(sp: nat, reset: nat, rest: Data)
    requires sp < 0x1_0000_0000 && reset < 0x1_0000_0000
    ensures var image := ToLE(sp, 4) + ToLE(reset, 4) + rest;
            StackPointer(image) == sp && ResetHandler(image) == reset
  {
    hide FromLE, ToLE;
    assert Pow256(4) == 0x1_0000_0000;
    var image := ToLE(sp, 4) + ToLE(reset, 4) + rest;
    assert image[..4] == ToLE(sp, 4) && image[4..8] == ToLE(reset, 4);
    FromToLE(sp, 4);
    FromToLE(reset, 4);
  }

  /** What a refusal of a raw image says about it. */
  predicate Explains(reason: Reason, image: Data, maxSize: nat, expected: Option<nat>) {
    match reason
    case EmptyFile => image == []
    case TooLarge => |image| > maxSize
    case TooSmall => 0 < |image| < 8
    case BadStackPointer => |image| >= 8 && !StackPointerInRam(StackPointer(image))
    case BadResetHandler =>
      |image| >= 8 && StackPointerInRam(StackPointer(image)) && expected.Some? && !InSlot(ResetHandler(image), expected.value, maxSize)
    case _ => false
  }

  /** The check of a raw file, for a slot that may not be known. */
  method ValidateRaw(image: Data, maxSize: nat, expected: Option<nat>) returns (v: Verdict)
    ensures Accepts(v) <==> PlausibleFor(image, maxSize, expected)
    ensures v.Invalid? ==> Explains(v.reason, image, maxSize, expected)
    ensures v == RawVerdict(image, maxSize, expected)
  {
    if |image| == 0 {
      return Invalid(EmptyFile);
    }
    if |image| > maxSize {
      return Invalid(TooLarge);
    }
    if |image| < 8 {
      return Invalid(TooSmall);
    }
    var sp, reset := FromLE(image[0..4]), FromLE(image[4..8]);
    if !StackPointerInRam(sp) {
      return Invalid(BadStackPointer);
    }
    if expected.Some? {
      if !InSlot(reset, expected.value, maxSize) {
        return Invalid(BadResetHandler);
      }
    }
    v := Plausible;
  }

  function RawVerdict(image: Data, maxSize: nat, expected: Option<nat>): (v: Verdict)
    ensures Accepts(v) <==> PlausibleFor(image, maxSize, expected)
    ensures v.Invalid? ==> Explains(v.reason, image, maxSize, expected)
  {
    if image == [] then Invalid(EmptyFile)
    else if |image| > maxSize then Invalid(TooLarge)
    else if |image| < 8 then Invalid(TooSmall)
    else if !StackPointerInRam(StackPointer(image)) then Invalid(BadStackPointer)
    else if expected.Some? && !InSlot(ResetHandler(image), expected.value, maxSize) then Invalid(BadResetHandler)
    else Plausible
  }

  // Where the vector table may be.

  /** A place where a vector table could start: its address and the words there, the second one if it is in the file. */
  datatype Candidate = Candidate(address: nat, sp: nat, reset: Option<nat>)

  /** The verdict of the first candidate with a plausible stack pointer. */
  function FirstPlausible(candidates: seq<Candidate>, maxSize: nat, expected: Option<nat>): Option<Verdict> {
    if candidates == [] then None
    else if !StackPointerInRam(candidates[0].sp) then FirstPlausible(candidates[1..], maxSize, expected)
    else if expected.Some? && candidates[0].address != expected.value then Some(Invalid(WrongAddress))
    else if candidates[0].reset.Some? && expected.Some? && !InSlot(candidates[0].reset.value, expected.value, maxSize)
      then Some(Invalid(BadResetHandler))
    else Some(Plausible)
  }

  function Judgement(candidates: seq<Candidate>, maxSize: nat, expected: Option<nat>): Verdict {
    match FirstPlausible(candidates, maxSize, expected)
    case Some(v) => v
    case None => if candidates != [] then Invalid(BadStackPointer) else Unlocated
  }

  method Judge(candidates: seq<Candidate>, maxSize: nat, expected: Option<nat>) returns (v: Verdict)
    ensures v == Judgement(candidates, maxSize, expected)
  {
    var k := 0;
    while k < |candidates|
      invariant k <= |candidates|
      invariant FirstPlausible(candidates, maxSize, expected) == FirstPlausible(candidates[k..], maxSize, expected)
    {
      var c := candidates[k];
      if StackPointerInRam(c.sp) {
        if expected.Some? && c.address != expected.value {
          return Invalid(WrongAddress);
        }
        if c.reset.Some? && expected.Some? && !InSlot(c.reset.value, expected.value, maxSize) {
          return Invalid(BadResetHandler);
        }
        return Plausible;
      }
      assert candidates[k..][1..] == candidates[k + 1..];
      k := k + 1;
    }
    if candidates != [] {
      v := Invalid(BadStackPointer);
    } else {
      v := Unlocated;
    }
  }

  /** One candidate, at the expected place, with both words there. */
  lemma OneCandidate(c: Candidate, maxSize: nat, expected: Option<nat>)
    requires expected.None? || expected.value == c.address
    ensures Accepts(Judgement([c], maxSize, expected)) <==>
              StackPointerInRam(c.sp) && (c.reset.Some? && expected.Some? ==> InSlot(c.reset.value, expected.value, maxSize))
  {
    assert [c][1..] == [] && FirstPlausible([], maxSize, expected) == None;
    assert FirstPlausible([c], maxSize, expected).None? <==> !StackPointerInRam(c.sp);
  }

  /** One candidate anywhere: a plausible one must be where it is expected. */
  lemma AnyCandidate(c: Candidate, maxSize: nat, expected: Option<nat>)
    ensures Accepts(Judgement([c], maxSize, expected)) <==> Decides(c, maxSize, expected)
  {
    assert [c][1..] == [] && FirstPlausible([], maxSize, expected) == None;
    assert FirstPlausible([c], maxSize, expected).None? <==> !StackPointerInRam(c.sp);
  }

  /** A candidate that makes the file acceptable. */
  predicate Decides(c: Candidate, maxSize: nat, expected: Option<nat>) {
    && StackPointerInRam(c.sp)
    && (expected.Some? ==> c.address == expected.value && (c.reset.Some? ==> InSlot(c.reset.value, expected.value, maxSize)))
  }

  /** The second candidate is looked at only when the first is not plausible. */
  lemma TwoCandidates(c: Candidate, d: Candidate, maxSize: nat, expected: Option<nat>)
    ensures Accepts(Judgement([c, d], maxSize, expected)) <==>
              if StackPointerInRam(c.sp) then Decides(c, maxSize, expected) else Decides(d, maxSize, expected)
  {
    AnyCandidate(c, maxSize, expected);
    AnyCandidate(d, maxSize, expected);
    assert [c, d][1..] == [d] && [c][1..] == [];
  }
}
