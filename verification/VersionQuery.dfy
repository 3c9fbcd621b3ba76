/**
 The answer to a version query, collected from up to four kinds of frames that
 may arrive in any order, as query_version keeps it.
 */
module VersionQuery {
  import opened Bytes
  import opened CanBus
  import opened Wrappers

  const QUERY_VERSION := 0x7F8
  const VERSION_RESPONSE := 0x7F9
  const BOOTLOADER_VERSION := 0x7FA
  const BOOTLOADER_KEY_ID := 0x7ED
  const VERSION_PATCH := 0x7E9
  const PATCH_UNKNOWN: byte := 0xFF

  const QueryFrame := Frame(QUERY_VERSION, [0])

  /** The result dictionary. */
  datatype Report = Report(
    bootloader: bool, hardwareId: nat, major: nat, minor: nat, patch: Option<byte>, patchAware: bool,
    acceptsPatch: bool, bootVersion: Option<Data>, keyId: Option<Data>)

  /** The local variables of the loop: the result, what arrived before it, and the distinct fingerprints heard. */
  datatype Inquiry = Inquiry(report: Option<Report>, boot: Option<Data>, key: Option<Data>, keysSeen: seq<Data>, patch: Option<Data>)

  const Nothing := Inquiry(None, None, None, [], None)

  predicate IsVersion(f: Frame) { f.id == VERSION_RESPONSE && |f.data| == 8 }
  predicate IsBootVersion(f: Frame) { f.id == BOOTLOADER_VERSION && |f.data| == 3 }
  predicate IsKey(f: Frame) { f.id == BOOTLOADER_KEY_ID && |f.data| == 8 }
  predicate IsPatch(f: Frame) { f.id == VERSION_PATCH && |f.data| >= 3 }

  /** _apply_patch_frame, on the patch byte and the flags. */
  function ApplyPatch(r: Report, patch: Data): Report
    requires |patch| == 2
  {
    r.(patchAware := true, patch := if patch[0] == PATCH_UNKNOWN then None else Some(patch[0]), acceptsPatch := patch[1] % 2 == 1)
  }

  function FreshReport(data: Data, boot: Option<Data>, key: Option<Data>): Report
    requires |data| == 8
  {
    Report(data[0] != 0, FromBE(data[1..5]), FromBE(data[5..7]), data[7], None, false, false, boot, key)
  }

  function NoteKey(seen: seq<Data>, key: Data): seq<Data> {
    if key in seen then seen else seen + [key]
  }

  function OnlyKey(seen: seq<Data>): Option<Data> {
    if |seen| == 1 then Some(seen[0]) else None
  }

  predicate WellFormed(q: Inquiry) {
    q.patch.Some? ==> |q.patch.value| == 2
  }

  /** One frame of the loop. */
  function Hear(q: Inquiry, f: Frame): (q': Inquiry)
    requires WellFormed(q)
    ensures WellFormed(q')
  {
    if IsVersion(f) && q.report.None? then
      var r := FreshReport(f.data, q.boot, q.key);
      q.(report := Some(if q.patch.Some? then ApplyPatch(r, q.patch.value) else r))
    else if IsBootVersion(f) then
      if q.report.Some? then q.(report := Some(q.report.value.(bootVersion := Some(f.data)))) else q.(boot := Some(f.data))
    else if IsKey(f) then
      var seen := NoteKey(q.keysSeen, f.data);
      if q.report.Some? then q.(keysSeen := seen, report := Some(q.report.value.(keyId := OnlyKey(seen))))
      else q.(keysSeen := seen, key := OnlyKey(seen))
    else if IsPatch(f) then
      if q.report.Some? then q.(report := Some(ApplyPatch(q.report.value, f.data[1..3]))) else q.(patch := Some(f.data[1..3]))
    else q
  }

  /** Everything a board can say has been said: the loop returns without waiting for its window. */
  predicate Complete(q: Inquiry) {
    q.report.Some? &&
    var r := q.report.value;
    (!r.bootloader || (r.bootVersion.Some? && r.keyId.Some?)) && r.patchAware
  }

  function HearAll(frames: seq<Frame>): (q: Inquiry)
    ensures WellFormed(q)
  {
    if frames == [] then Nothing else Hear(HearAll(frames[..|frames| - 1]), frames[|frames| - 1])
  }

  // Confluence.

  /** No two different frames of one kind: one board answered (fingerprints excepted). */
  ghost predicate OneVoice(frames: seq<Frame>) {
    forall f, g :: f in frames && g in frames ==>
      (IsVersion(f) && IsVersion(g) ==> f == g) &&
      (IsBootVersion(f) && IsBootVersion(g) ==> f == g) &&
      (IsPatch(f) && IsPatch(g) ==> f == g)
  }

  ghost predicate DistinctKeys(seen: seq<Data>) {
    forall i, j :: 0 <= i < j < |seen| ==> seen[i] != seen[j]
  }

  ghost predicate KeysTracked(q: Inquiry, frames: seq<Frame>) {
    && DistinctKeys(q.keysSeen)
    && (forall k: Data :: k in q.keysSeen <==> exists f :: f in frames && IsKey(f) && f.data == k)
  }

  ghost predicate BootAgrees(boot: Option<Data>, frames: seq<Frame>) {
    && (forall f :: f in frames && IsBootVersion(f) ==> boot == Some(f.data))
    && ((forall f :: f in frames ==> !IsBootVersion(f)) ==> boot == None)
  }

  ghost predicate PatchPending(patch: Option<Data>, frames: seq<Frame>) {
    && (forall f :: f in frames && IsPatch(f) ==> patch == Some(f.data[1..3]))
    && ((forall f :: f in frames ==> !IsPatch(f)) ==> patch == None)
  }

  ghost predicate PatchAgrees(r: Report, frames: seq<Frame>) {
    && (forall f :: f in frames && IsPatch(f) ==> r == ApplyPatch(r, f.data[1..3]))
    && ((forall f :: f in frames ==> !IsPatch(f)) ==> r.patch == None && !r.patchAware && !r.acceptsPatch)
  }

  ghost predicate HeaderAgrees(r: Report, frames: seq<Frame>) {
    forall f :: f in frames && IsVersion(f) ==>
      var h := FreshReport(f.data, None, None);
      r.bootloader == h.bootloader && r.hardwareId == h.hardwareId && r.major == h.major && r.minor == h.minor
  }

  /** The state of the loop as a function of the set of frames heard, whatever their order. */
  ghost predicate Describes(q: Inquiry, frames: seq<Frame>) {
    && KeysTracked(q, frames)
    && (q.report.Some? <==> exists f :: f in frames && IsVersion(f))
    && (match q.report
        case None => BootAgrees(q.boot, frames) && PatchPending(q.patch, frames) && q.key == OnlyKey(q.keysSeen)
        case Some(r) => HeaderAgrees(r, frames) && BootAgrees(r.bootVersion, frames) && PatchAgrees(r, frames) && r.keyId == OnlyKey(q.keysSeen))
  }

  lemma KeysStep(q: Inquiry, frames: seq<Frame>, f: Frame)
    requires WellFormed(q) && KeysTracked(q, frames)
    ensures KeysTracked(Hear(q, f), frames + [f])
  {
    var all := frames + [f];
    var q' := Hear(q, f);
    forall k: Data ensures k in q'.keysSeen <==> exists g :: g in all && IsKey(g) && g.data == k {
      if k in q.keysSeen {
        var g :| g in frames && IsKey(g) && g.data == k;
        assert g in all;
      } else if IsKey(f) && f.data == k {
        assert f in all;
      }
    }
  }

  lemma BootStep(boot: Option<Data>, frames: seq<Frame>, f: Frame)
    requires BootAgrees(boot, frames) && OneVoice(frames + [f])
    ensures BootAgrees(if IsBootVersion(f) then Some(f.data) else boot, frames + [f])
  {
    assert f in frames + [f] && forall g :: g in frames ==> g in frames + [f];
  }

  lemma PendingStep(patch: Option<Data>, frames: seq<Frame>, f: Frame)
    requires PatchPending(patch, frames) && OneVoice(frames + [f])
    ensures PatchPending(if IsPatch(f) then Some(f.data[1..3]) else patch, frames + [f])
  {
    assert f in frames + [f] && forall g :: g in frames ==> g in frames + [f];
  }

  lemma PatchStep(r: Report, r': Report, frames: seq<Frame>, f: Frame)
    requires PatchAgrees(r, frames) && OneVoice(frames + [f])
    requires r' == if IsPatch(f) then ApplyPatch(r, f.data[1..3]) else r.(bootVersion := r'.bootVersion, keyId := r'.keyId)
    ensures PatchAgrees(r', frames + [f])
  {
    assert f in frames + [f] && forall g :: g in frames ==> g in frames + [f];
  }

  lemma HeaderStep(r: Report, frames: seq<Frame>, f: Frame)
    requires HeaderAgrees(r, frames) && OneVoice(frames + [f]) && exists v :: v in frames && IsVersion(v)
    ensures HeaderAgrees(r, frames + [f])
  {
    var v :| v in frames && IsVersion(v);
    assert f in frames + [f] && v in frames + [f];
  }

  /** The version frame itself: what was pending goes into the report. */
  lemma FirstVersion(q: Inquiry, frames: seq<Frame>, f: Frame)
    requires WellFormed(q) && q.report.None? && Describes(q, frames) && IsVersion(f)
    ensures var r := Hear(q, f).report.value;
            HeaderAgrees(r, frames + [f]) && BootAgrees(r.bootVersion, frames + [f]) && PatchAgrees(r, frames + [f])
  {
    assert forall g :: g in frames + [f] ==> g in frames || g == f;
    assert forall g :: g in frames ==> g in frames + [f];
  }

  lemma DescribesStep(q: Inquiry, frames: seq<Frame>, f: Frame)
    requires WellFormed(q) && Describes(q, frames) && OneVoice(frames + [f])
    ensures Describes(Hear(q, f), frames + [f])
  {
    var q' := Hear(q, f);
    KeysStep(q, frames, f);
    assert (exists g :: g in frames + [f] && IsVersion(g)) <==> (exists g :: g in frames && IsVersion(g)) || IsVersion(f) by {
      assert f in frames + [f];
    }
    hide KeysTracked, OnlyKey, OneVoice, BootAgrees, PatchPending, PatchAgrees, HeaderAgrees;
    if q.report.Some? {
      HeaderStep(q.report.value, frames, f);
      SameHeader(q.report.value, q'.report.value, frames + [f]);
      BootStep(q.report.value.bootVersion, frames, f);
      PatchStep(q.report.value, q'.report.value, frames, f);
    } else if IsVersion(f) {
      FirstVersion(q, frames, f);
    } else {
      BootStep(q.boot, frames, f);
      PendingStep(q.patch, frames, f);
    }
  }

  lemma SameHeader(r: Report, r': Report, frames: seq<Frame>)
    requires HeaderAgrees(r, frames)
    requires r.bootloader == r'.bootloader && r.hardwareId == r'.hardwareId && r.major == r'.major && r.minor == r'.minor
    ensures HeaderAgrees(r', frames)
  {
  }

  lemma OneVoicePrefix(frames: seq<Frame>)
    requires frames != [] && OneVoice(frames)
    ensures OneVoice(frames[..|frames| - 1])
  {
    var front := frames[..|frames| - 1];
    assert forall f :: f in front ==> f in frames;
  }

  lemma {:induction false} HearAllDescribes(frames: seq<Frame>)
    requires OneVoice(frames)
    ensures Describes(HearAll(frames), frames)
  {
    if frames != [] {
      var front, last := frames[..|frames| - 1], frames[|frames| - 1];
      OneVoicePrefix(frames);
      assert frames == front + [last];
      HearAllDescribes(front);
      DescribesStep(HearAll(front), front, last);
    }
  }

  lemma OnlyKeyOfSet(a: seq<Data>, b: seq<Data>)
    requires DistinctKeys(a) && DistinctKeys(b) && forall k: Data :: k in a <==> k in b
    ensures OnlyKey(a) == OnlyKey(b)
  {
    if |a| == 1 {
      SingleKey(a[0], b);
    } else if |b| == 1 {
      SingleKey(b[0], a);
    }
  }

  lemma AnotherKey(b: seq<Data>, k: Data)
    requires DistinctKeys(b) && |b| > 1
    ensures exists j: Data :: j in b && j != k
  {
    assert b[0] in b && b[1] in b;
  }

  lemma SingleKey(k: Data, b: seq<Data>)
    requires DistinctKeys(b) && k in b && forall j: Data :: j in b ==> j == k
    ensures b == [k]
  {
    if |b| > 1 {
      AnotherKey(b, k);
    }
  }

  /**
   The order in which the frames arrive does not matter: two arrivals of the same
   frames (each kind said once, fingerprints any number of times) give the same report.
   */
  lemma Confluent(xs: seq<Frame>, ys: seq<Frame>)
    requires OneVoice(xs) && forall f: Frame :: f in xs <==> f in ys
    ensures HearAll(xs).report == HearAll(ys).report
  {
    var a, b := HearAll(xs), HearAll(ys);
    HearAllDescribes(xs);
    HearAllDescribes(ys);
    OnlyKeyOfSet(a.keysSeen, b.keysSeen);
    if a.report.Some? {
      SameReport(a.report.value, b.report.value, xs, ys);
    }
  }

  lemma SameReport(r: Report, s: Report, xs: seq<Frame>, ys: seq<Frame>)
    requires forall f: Frame :: f in xs <==> f in ys
    requires exists f :: f in xs && IsVersion(f)
    requires HeaderAgrees(r, xs) && BootAgrees(r.bootVersion, xs) && PatchAgrees(r, xs)
    requires HeaderAgrees(s, ys) && BootAgrees(s.bootVersion, ys) && PatchAgrees(s, ys)
    requires r.keyId == s.keyId
    ensures r == s
  {
    var v :| v in xs && IsVersion(v);
    if f :| f in xs && IsBootVersion(f) {
      assert r.bootVersion == s.bootVersion;
    }
    if f :| f in xs && IsPatch(f) {
      assert r.patch == s.patch && r.patchAware == s.patchAware && r.acceptsPatch == s.acceptsPatch;
    }
  }

  /** The fingerprints, whoever sent them: kept apart from everything else that is heard. */
  ghost predicate Keyed(q: Inquiry, frames: seq<Frame>) {
    && KeysTracked(q, frames)
    && (q.report.Some? <==> exists f :: f in frames && IsVersion(f))
    && OnlyKey(q.keysSeen) == match q.report case None => q.key case Some(r) => r.keyId
  }

  lemma KeyedStep(q: Inquiry, frames: seq<Frame>, f: Frame)
    requires WellFormed(q) && Keyed(q, frames)
    ensures Keyed(Hear(q, f), frames + [f])
  {
    KeysStep(q, frames, f);
    assert f in frames + [f] && forall g :: g in frames ==> g in frames + [f];
    assert forall g :: g in frames + [f] ==> g in frames || g == f;
  }

  lemma {:induction false} HearAllKeyed(frames: seq<Frame>)
    ensures Keyed(HearAll(frames), frames)
  {
    hide Hear;
    if frames != [] {
      var front, last := frames[..|frames| - 1], frames[|frames| - 1];
      assert frames == front + [last];
      HearAllKeyed(front);
      KeyedStep(HearAll(front), front, last);
    }
  }

  /**
   A key is attributed to the board that answered exactly when one distinct fingerprint
   was heard, however many boards there are and whatever else they say.
   */
  lemma KeyAttribution(frames: seq<Frame>, k: Data)
    requires exists f :: f in frames && IsVersion(f)
    ensures HearAll(frames).report.Some?
    ensures HearAll(frames).report.value.keyId == Some(k) <==>
            (exists f :: f in frames && IsKey(f) && f.data == k) && (forall f :: f in frames && IsKey(f) ==> f.data == k)
  {
    HearAllKeyed(frames);
    var seen := HearAll(frames).keysSeen;
    if (exists f :: f in frames && IsKey(f) && f.data == k) && (forall f :: f in frames && IsKey(f) ==> f.data == k) {
      SingleKey(k, seen);
    }
    if OnlyKey(seen) == Some(k) {
      assert k in seen;
      forall f | f in frames && IsKey(f) ensures f.data == k {
        assert f.data in seen;
      }
    }
  }

  // The frames of a log.

  /** The frames that were read, in order. */
  function FramesRead(log: seq<Event>): seq<Frame> {
    if log == [] then []
    else FramesRead(log[..|log| - 1]) + (match log[|log| - 1] case Read(f) => [f] case _ => [])
  }

  lemma FramesReadStep(log: seq<Event>, e: Event)
    ensures FramesRead(log + [e]) == FramesRead(log) + (match e case Read(f) => [f] case _ => [])
  {
    assert (log + [e])[..|log|] == log;
  }

  // Returning early.

  /** The loop on the frames in the order of their arrival: once everything has been said, the rest is not read. */
  function Heed(frames: seq<Frame>): (q: Inquiry)
    ensures WellFormed(q)
  {
    if frames == [] then Nothing
    else
      var q := Heed(frames[..|frames| - 1]);
      if Complete(q) then q else Hear(q, frames[|frames| - 1])
  }

  lemma HearAllStep(frames: seq<Frame>, f: Frame)
    ensures HearAll(frames + [f]) == Hear(HearAll(frames), f)
  {
    hide Hear;
    assert (frames + [f])[..|frames|] == frames;
  }

  lemma HeedStep(frames: seq<Frame>, f: Frame)
    ensures Heed(frames + [f]) == if Complete(Heed(frames)) then Heed(frames) else Hear(Heed(frames), f)
  {
    hide Hear, Complete;
    assert (frames + [f])[..|frames|] == frames;
  }

  /** Nothing that arrives behind the end of an inquiry changes it. */
  lemma {:induction false} HeedStops(frames: seq<Frame>, later: seq<Frame>)
    requires Complete(Heed(frames))
    ensures Heed(frames + later) == Heed(frames)
    decreases |later|
  {
    hide Hear, Complete, Heed;
    if later == [] {
      assert frames + later == frames;
    } else {
      var front := later[..|later| - 1];
      HeedStops(frames, front);
      HeedStep(frames + front, later[|later| - 1]);
      assert frames + later == (frames + front) + [later[|later| - 1]];
    }
  }
}
