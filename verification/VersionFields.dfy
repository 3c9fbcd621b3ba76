/**
 What a board says in its answers to a version query, read back field by field from
 the bytes it sends.
 */
module VersionFields {
  import opened Bytes
  import opened CanBus
  import opened VersionQuery
  import opened Wrappers

  /** 0x7F9: who answers, the hardware identifier, and the version of the application. */
  function VersionAnswer(kind: byte, hardwareId: nat, major: nat, minor: byte): Frame {
    Frame(0x7F9, [kind] + ToBE(hardwareId, 4) + ToBE(major, 2) + [minor])
  }

  /** 0x7E9: one byte for the responder, the patch, the flags, and whatever a later board may add. */
  function PatchAnswer(kind: byte, patch: byte, flags: byte, more: Data): Frame {
    Frame(0x7E9, [kind, patch, flags] + more)
  }

  lemma VersionAnswerDecodes(kind: byte, hardwareId: nat, major: nat, minor: byte)
    requires hardwareId < 0x1_0000_0000 && major < 0x1_0000
    ensures var f := VersionAnswer(kind, hardwareId, major, minor);
            && IsVersion(f)
            && var h := FreshReport(f.data, None, None);
               h.bootloader == (kind != 0) && h.hardwareId == hardwareId && h.major == major && h.minor == minor
  {
    hide FromBE, ToBE;
    assert Pow256(4) == 0x1_0000_0000 && Pow256(2) == 0x1_0000;
    var data := VersionAnswer(kind, hardwareId, major, minor).data;
    assert data[1..5] == ToBE(hardwareId, 4) && data[5..7] == ToBE(major, 2) && data[7] == minor;
    FromToBE(hardwareId, 4);
    FromToBE(major, 2);
  }

  /** The report has the responder, the hardware and the version that the board packed into its answer. */
  lemma VersionIsReported(frames: seq<Frame>, kind: byte, hardwareId: nat, major: nat, minor: byte)
    requires OneVoice(frames) && VersionAnswer(kind, hardwareId, major, minor) in frames
    requires hardwareId < 0x1_0000_0000 && major < 0x1_0000
    ensures HearAll(frames).report.Some?
    ensures var r := HearAll(frames).report.value;
            (r.bootloader <==> kind != 0) && r.hardwareId == hardwareId && r.major == major && r.minor == minor
  {
    hide Hear, HearAll, VersionAnswer, FreshReport;
    VersionAnswerDecodes(kind, hardwareId, major, minor);
    HearAllDescribes(frames);
  }

  /** The patch and bit 0 of the flags, 0xFF being no patch; without the frame neither is known. */
  lemma PatchIsReported(frames: seq<Frame>, kind: byte, patch: byte, flags: nat, bit: bool, more: Data)
    requires 2 * flags + 1 < 256 && OneVoice(frames) && exists v :: v in frames && IsVersion(v)
    requires PatchAnswer(kind, patch, 2 * flags + if bit then 1 else 0, more) in frames
    ensures HearAll(frames).report.Some?
    ensures var r := HearAll(frames).report.value;
            r.patchAware && r.patch == (if patch == 0xFF then None else Some(patch)) && r.acceptsPatch == bit
  {
    hide Hear, HearAll;
    var f := PatchAnswer(kind, patch, 2 * flags + if bit then 1 else 0, more);
    assert f.data[1..3] == [patch, 2 * flags + if bit then 1 else 0];
    HearAllDescribes(frames);
  }

  lemma NoPatchIsReported(frames: seq<Frame>)
    requires OneVoice(frames) && (exists v :: v in frames && IsVersion(v))
    requires forall f :: f in frames && f.id == 0x7E9 ==> |f.data| < 3
    ensures HearAll(frames).report.Some?
    ensures var r := HearAll(frames).report.value;
            !r.patchAware && r.patch == None && !r.acceptsPatch
  {
    hide Hear, HearAll;
    HearAllDescribes(frames);
  }

  /** The bootloader's own version is the three bytes of its frame. */
  lemma BootVersionIsReported(frames: seq<Frame>, a: byte, b: byte, c: byte)
    requires OneVoice(frames) && (exists v :: v in frames && IsVersion(v)) && Frame(0x7FA, [a, b, c]) in frames
    ensures HearAll(frames).report.Some? && HearAll(frames).report.value.bootVersion == Some([a, b, c])
  {
    hide Hear, HearAll;
    assert IsBootVersion(Frame(0x7FA, [a, b, c]));
    HearAllDescribes(frames);
  }

  /** When several boards answer, the first version is reported, with the last bootloader version and the last patch. */
  lemma FirstVersionLastRest(frames: seq<Frame>, f: Frame)
    ensures var q, q' := HearAll(frames), HearAll(frames + [f]);
            && (IsVersion(f) && q.report.Some? ==> q' == q)
            && (IsBootVersion(f) ==>
                  q' == if q.report.Some? then q.(report := Some(q.report.value.(bootVersion := Some(f.data)))) else q.(boot := Some(f.data)))
            && (IsPatch(f) && q.report.None? ==> q' == q.(patch := Some(f.data[1..3])))
            && (IsPatch(f) && q.report.Some? ==>
                  q' == q.(report := Some(q.report.value.(
                    patchAware := true, patch := if f.data[1] == 0xFF then None else Some(f.data[1]), acceptsPatch := f.data[2] % 2 == 1))))
  {
    hide HearAll;
    HearAllStep(frames, f);
  }

  /** Frames of other identifiers or lengths are not answers. */
  lemma OthersAreIgnored(q: Inquiry, f: Frame)
    requires WellFormed(q)
    requires !(f.id == 0x7F9 && |f.data| == 8) && !(f.id == 0x7FA && |f.data| == 3)
    requires !(f.id == 0x7ED && |f.data| == 8) && !(f.id == 0x7E9 && |f.data| >= 3)
    ensures Hear(q, f) == q
  {
  }
}
