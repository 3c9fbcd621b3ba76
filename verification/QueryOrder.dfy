/**
 When the order of arrival can change the answer to a version query. The loop stops
 as soon as everything a board can say has been said, so what comes behind that point
 is not read, and with some frames it depends on the order what that is.
 */
module QueryOrder {
  import opened Bytes
  import opened CanBus
  import opened VersionQuery
  import opened Wrappers

  // Where the loop stops.

  /** The loop reads the first n frames: nothing is complete before, and if it stops short, something is then. */
  ghost predicate StopsAt(frames: seq<Frame>, n: nat) {
    && n <= |frames| && Heed(frames) == HearAll(frames[..n])
    && (n < |frames| ==> Complete(HearAll(frames[..n])))
    && (forall m :: 0 <= m < n ==> !Complete(HearAll(frames[..m])))
  }

  lemma {:induction false} SomewhereItStops(frames: seq<Frame>) returns (n: nat)
    ensures StopsAt(frames, n)
  {
    hide Hear, Complete, HearAll, Heed;
    if frames == [] {
      NothingHeeded();
      n := 0;
      assert frames[..0] == [];
    } else {
      var front, last := frames[..|frames| - 1], frames[|frames| - 1];
      assert frames == front + [last];
      var m := SomewhereItStops(front);
      HeedStep(front, last);
      assert forall k :: 0 <= k <= |front| ==> front[..k] == frames[..k];
      if Complete(Heed(front)) {
        n := m;
      } else {
        HearAllStep(front, last);
        assert front[..|front|] == front && frames[..|frames|] == frames;
        n := |frames|;
      }
    }
  }

  lemma NothingHeeded()
    ensures Heed([]) == HearAll([])
  {
  }

  /** Once complete, the loop has stopped. */
  lemma StopsBefore(frames: seq<Frame>, n: nat, k: nat)
    requires StopsAt(frames, n) && k <= |frames| && Complete(HearAll(frames[..k]))
    ensures n <= k && Complete(HearAll(frames[..n]))
  {
    assert frames[..|frames|] == frames;
  }

  // What is complete.

  ghost predicate Has(frames: seq<Frame>, p: Frame -> bool) {
    exists f :: f in frames && p(f)
  }

  ghost predicate SaysApplication(frames: seq<Frame>) {
    exists f :: f in frames && IsVersion(f) && f.data[0] == 0
  }

  ghost predicate OneKey(frames: seq<Frame>) {
    forall f, g :: f in frames && g in frames && IsKey(f) && IsKey(g) ==> f.data == g.data
  }

  /** What a complete inquiry has heard. */
  lemma CompleteHas(frames: seq<Frame>)
    requires OneVoice(frames) && Complete(HearAll(frames))
    ensures Has(frames, IsVersion) && Has(frames, IsPatch)
    ensures !SaysApplication(frames) ==> Has(frames, IsBootVersion) && Has(frames, IsKey)
  {
    hide Hear, HearAll;
    HearAllDescribes(frames);
    var q := HearAll(frames);
    var r := q.report.value;
    var v :| v in frames && IsVersion(v);
    assert IsVersion(v);
    if !SaysApplication(frames) {
      assert r.bootloader;
      assert |q.keysSeen| == 1 && q.keysSeen[0] in q.keysSeen;
    }
  }

  /** An application is complete with its version and its patch. */
  lemma ApplicationIsComplete(frames: seq<Frame>)
    requires OneVoice(frames) && SaysApplication(frames) && Has(frames, IsPatch)
    ensures Complete(HearAll(frames))
  {
    hide Hear, HearAll;
    HearAllDescribes(frames);
    var v :| v in frames && IsVersion(v) && v.data[0] == 0;
    var p :| p in frames && IsPatch(p);
    var r := HearAll(frames).report.value;
    assert r == ApplyPatch(r, p.data[1..3]);
  }

  /** A bootloader is complete with its version, its patch, its own version and one fingerprint. */
  lemma BootloaderIsComplete(frames: seq<Frame>, k: Frame)
    requires OneVoice(frames) && Has(frames, IsVersion) && Has(frames, IsPatch) && Has(frames, IsBootVersion)
    requires k in frames && IsKey(k) && OneKey(frames)
    ensures Complete(HearAll(frames)) && HearAll(frames).report.value.keyId == Some(k.data)
  {
    hide Hear, HearAll;
    HearAllDescribes(frames);
    KeyAttribution(frames, k.data);
    var p :| p in frames && IsPatch(p);
    var b :| b in frames && IsBootVersion(b);
    var r := HearAll(frames).report.value;
    assert r == ApplyPatch(r, p.data[1..3]) && r.bootVersion == Some(b.data);
  }

  // When the order does not matter.

  /**
   No complete answer can come too early: there is no version, or no patch frame to complete
   it; or an application's answer is all there is; or a bootloader's lacks its own version,
   or there is at most one fingerprint to attribute.
   */
  ghost predicate OrderFree(frames: seq<Frame>) {
    || !Has(frames, IsVersion) || !Has(frames, IsPatch)
    || (if SaysApplication(frames) then !Has(frames, IsBootVersion) && !Has(frames, IsKey)
        else !Has(frames, IsBootVersion) || OneKey(frames))
  }

  ghost predicate AnyOrder(frames: seq<Frame>) {
    forall other :: multiset(other) == multiset(frames) ==> Heed(other).report == Heed(frames).report
  }

  lemma InMultiset(xs: seq<Frame>, ys: seq<Frame>)
    requires multiset(xs) == multiset(ys)
    ensures forall f :: f in xs <==> f in ys
  {
    forall f ensures f in xs <==> f in ys {
      assert f in xs <==> f in multiset(xs);
      assert f in ys <==> f in multiset(ys);
    }
  }

  lemma KeySeenIsHeard(q: Inquiry, frames: seq<Frame>)
    requires KeysTracked(q, frames) && q.keysSeen != []
    ensures Has(frames, IsKey)
  {
    assert q.keysSeen[0] in q.keysSeen;
  }

  lemma NothingMore(frames: seq<Frame>)
    requires OneVoice(frames) && Has(frames, IsVersion) && !Has(frames, IsBootVersion) && !Has(frames, IsKey)
    ensures HearAll(frames).report.Some? && HearAll(frames).report.value.bootVersion == None && HearAll(frames).report.value.keyId == None
  {
    hide Hear, HearAll;
    HearAllDescribes(frames);
    if HearAll(frames).keysSeen != [] {
      KeySeenIsHeard(HearAll(frames), frames);
    }
  }

  /** What a report takes from the frames, one kind at a time. */
  lemma ReportOf(frames: seq<Frame>, v: Frame, p: Frame)
    requires OneVoice(frames) && v in frames && p in frames && IsVersion(v) && IsPatch(p)
    ensures HearAll(frames).report.Some?
    ensures var r, h := HearAll(frames).report.value, ApplyPatch(FreshReport(v.data, None, None), p.data[1..3]);
            r == h.(bootVersion := r.bootVersion, keyId := r.keyId)
  {
    hide Hear, HearAll;
    HearAllDescribes(frames);
    var r := HearAll(frames).report.value;
    assert r == ApplyPatch(r, p.data[1..3]);
  }

  lemma BootOf(frames: seq<Frame>, b: Frame)
    requires OneVoice(frames) && b in frames && IsBootVersion(b) && Has(frames, IsVersion)
    ensures HearAll(frames).report.Some? && HearAll(frames).report.value.bootVersion == Some(b.data)
  {
    hide Hear, HearAll;
    HearAllDescribes(frames);
  }

  /** A complete prefix says all that the whole says, when the order does not matter. */
  lemma PrefixSaysAll(frames: seq<Frame>, n: nat)
    requires n <= |frames| && OneVoice(frames) && OrderFree(frames) && Complete(HearAll(frames[..n]))
    ensures HearAll(frames[..n]).report == HearAll(frames).report
  {
    hide Hear, HearAll, Complete, ApplyPatch, FreshReport, OrderFree, SaysApplication, OneKey;
    var part := frames[..n];
    assert forall f :: f in part ==> f in frames;
    OneVoiceOfPart(part, frames);
    CompleteHas(part);
    var v :| v in part && IsVersion(v);
    var p :| p in part && IsPatch(p);
    ReportOf(part, v, p);
    ReportOf(frames, v, p);
    Counted(frames, v, p);
    if SaysApplication(frames) {
      NothingMore(part);
      NothingMore(frames);
    } else {
      NotApplication(part, frames);
      var b :| b in part && IsBootVersion(b);
      var k :| k in part && IsKey(k);
      BootOf(part, b);
      BootOf(frames, b);
      CountedBoot(part, frames, b);
      BootloaderIsComplete(part, k);
      BootloaderIsComplete(frames, k);
    }
  }

  lemma OneVoiceOfPart(part: seq<Frame>, frames: seq<Frame>)
    requires OneVoice(frames) && forall f :: f in part ==> f in frames
    ensures OneVoice(part)
  {
  }

  lemma NotApplication(part: seq<Frame>, frames: seq<Frame>)
    requires !SaysApplication(frames) && forall f :: f in part ==> f in frames
    ensures !SaysApplication(part)
  {
  }

  lemma Counted(frames: seq<Frame>, v: Frame, p: Frame)
    requires OrderFree(frames) && v in frames && IsVersion(v) && p in frames && IsPatch(p)
    ensures Has(frames, IsVersion) && Has(frames, IsPatch)
    ensures SaysApplication(frames) ==> !Has(frames, IsBootVersion) && !Has(frames, IsKey)
    ensures !SaysApplication(frames) ==> !Has(frames, IsBootVersion) || OneKey(frames)
  {
  }

  lemma CountedBoot(part: seq<Frame>, frames: seq<Frame>, b: Frame)
    requires (forall f :: f in part ==> f in frames) && b in part && IsBootVersion(b) && (!Has(frames, IsBootVersion) || OneKey(frames))
    ensures Has(part, IsBootVersion) && Has(frames, IsBootVersion) && OneKey(part) && OneKey(frames)
  {
  }

  lemma OrderFreeIsSet(xs: seq<Frame>, ys: seq<Frame>)
    requires forall f :: f in xs <==> f in ys
    requires OneVoice(xs) && OrderFree(xs)
    ensures OneVoice(ys) && OrderFree(ys)
  {
  }

  lemma HeedIsHearAll(frames: seq<Frame>)
    requires OneVoice(frames) && OrderFree(frames)
    ensures Heed(frames).report == HearAll(frames).report
  {
    hide Hear, HearAll, Heed, Complete, OrderFree;
    var n := SomewhereItStops(frames);
    assert frames[..|frames|] == frames;
    if n < |frames| {
      PrefixSaysAll(frames, n);
    }
  }

  lemma OrderFreeIsAnyOrder(frames: seq<Frame>)
    requires OneVoice(frames) && OrderFree(frames)
    ensures AnyOrder(frames)
  {
    hide Hear, HearAll, Heed, OrderFree, OneVoice;
    HeedIsHearAll(frames);
    forall other | multiset(other) == multiset(frames) ensures Heed(other).report == Heed(frames).report {
      InMultiset(frames, other);
      OrderFreeIsSet(frames, other);
      HeedIsHearAll(other);
      Confluent(frames, other);
    }
  }

  // When it does: two orders, two answers.

  function Keep(frames: seq<Frame>, p: Frame -> bool): seq<Frame> {
    if frames == [] then []
    else (if p(frames[0]) then [frames[0]] else []) + Keep(frames[1..], p)
  }

  lemma {:induction false} KeepHas(frames: seq<Frame>, p: Frame -> bool)
    ensures forall f :: f in Keep(frames, p) <==> f in frames && p(f)
  {
    if frames != [] {
      KeepHas(frames[1..], p);
      assert frames == [frames[0]] + frames[1..];
    }
  }

  lemma {:induction false} KeepSplits(frames: seq<Frame>, p: Frame -> bool, q: Frame -> bool)
    requires forall f :: q(f) == !p(f)
    ensures multiset(Keep(frames, p) + Keep(frames, q)) == multiset(frames)
  {
    if frames != [] {
      KeepSplits(frames[1..], p, q);
      assert frames == [frames[0]] + frames[1..];
    }
  }

  /** First some of the frames, then others, then the rest. */
  function Arranged(frames: seq<Frame>, first: Frame -> bool, next: Frame -> bool): seq<Frame> {
    Keep(frames, first) + (Keep(Keep(frames, f => !first(f)), next) + Keep(Keep(frames, f => !first(f)), f => !next(f)))
  }

  lemma ArrangedIsAll(frames: seq<Frame>, first: Frame -> bool, next: Frame -> bool)
    ensures multiset(Arranged(frames, first, next)) == multiset(frames)
  {
    var rest := Keep(frames, f => !first(f));
    KeepSplits(frames, first, f => !first(f));
    KeepSplits(rest, next, f => !next(f));
  }

  /** When a + b is complete and a has no version, the loop stops somewhere in b. */
  lemma StopsWithin(a: seq<Frame>, b: seq<Frame>, c: seq<Frame>) returns (heard: seq<Frame>)
    requires Complete(HearAll(a + b)) && OneVoice(a + b) && !Has(a, IsVersion)
    ensures Heed(a + (b + c)) == HearAll(heard) && Complete(HearAll(heard)) && a <= heard <= a + b
  {
    hide Hear, HearAll, Heed, Complete, OneVoice, Has;
    var all := a + (b + c);
    assert all[..|a + b|] == a + b;
    forall m: nat | m <= |a| ensures !Complete(HearAll(all[..m])) {
      PrefixHasNoVersion(a, m, a + b);
      assert all[..m] == a[..m];
    }
    var n := SomewhereItStops(all);
    StopsBefore(all, n, |a + b|);
    heard := all[..n];
    assert heard == (a + b)[..n];
  }

  lemma PrefixHasNoVersion(a: seq<Frame>, n: nat, whole: seq<Frame>)
    requires n <= |a| && !Has(a, IsVersion) && OneVoice(whole) && a <= whole
    ensures !Complete(HearAll(a[..n]))
  {
    hide Hear, HearAll;
    var part := a[..n];
    assert forall f :: f in part ==> f in a;
    assert forall f :: f in a ==> f in whole by {
      assert forall i :: 0 <= i < |a| ==> a[i] == whole[i];
    }
    OneVoiceOfPart(part, whole);
    HearAllDescribes(part);
  }

  /** An arrangement whose first two parts are complete is answered from all of the first and some of the second. */
  lemma AnsweredEarly(frames: seq<Frame>, first: Frame -> bool, next: Frame -> bool) returns (heard: seq<Frame>)
    requires OneVoice(frames) && (forall f :: first(f) ==> !IsVersion(f))
    requires Complete(HearAll(Keep(frames, first) + Keep(Keep(frames, f => !first(f)), next)))
    ensures Heed(Arranged(frames, first, next)) == HearAll(heard) && Complete(HearAll(heard)) && OneVoice(heard)
    ensures forall f :: f in heard ==> f in frames && (first(f) || next(f))
    ensures forall f :: f in frames && first(f) ==> f in heard
  {
    hide Hear, HearAll, Heed, Complete, Keep, OneVoice;
    var rest := Keep(frames, f => !first(f));
    var a, b, c := Keep(frames, first), Keep(rest, next), Keep(rest, f => !next(f));
    KeepHas(frames, first);
    KeepHas(frames, f => !first(f));
    KeepHas(rest, next);
    assert forall f :: f in a + b ==> f in frames && (first(f) || next(f));
    OneVoiceOfPart(a + b, frames);
    heard := StopsWithin(a, b, c);
    assert forall f :: f in heard ==> f in a + b by {
      assert forall i :: 0 <= i < |heard| ==> heard[i] == (a + b)[i];
    }
    assert forall f :: f in a ==> f in heard by {
      assert forall i :: 0 <= i < |a| ==> a[i] == heard[i];
    }
    OneVoiceOfPart(heard, frames);
  }

  predicate IsFrame(f: Frame, g: Frame) {
    f == g
  }

  predicate IsVersionOrPatch(f: Frame) {
    IsVersion(f) || IsPatch(f)
  }

  predicate IsNotKey(f: Frame) {
    IsVersion(f) || IsPatch(f) || IsBootVersion(f)
  }

  /** The first two parts of an arrangement have every frame of the kinds put there. */
  lemma FirstPartsHave(frames: seq<Frame>, first: Frame -> bool, next: Frame -> bool)
    ensures var parts := Keep(frames, first) + Keep(Keep(frames, f => !first(f)), next);
            forall f :: f in parts <==> f in frames && (first(f) || next(f))
  {
    hide Keep;
    KeepHas(frames, first);
    KeepHas(frames, f => !first(f));
    KeepHas(Keep(frames, f => !first(f)), next);
  }

  /** An application with these frames in front: the answer has the versions and patches, and what is in front. */
  lemma ApplicationBehind(frames: seq<Frame>, first: Frame -> bool) returns (heard: seq<Frame>)
    requires OneVoice(frames) && SaysApplication(frames) && Has(frames, IsPatch)
    requires forall f :: first(f) ==> !IsVersion(f) && !IsPatch(f)
    ensures multiset(Arranged(frames, first, IsVersionOrPatch)) == multiset(frames)
    ensures Heed(Arranged(frames, first, IsVersionOrPatch)) == HearAll(heard) && Complete(HearAll(heard)) && OneVoice(heard)
    ensures forall f :: f in heard ==> f in frames && (first(f) || IsVersionOrPatch(f))
    ensures forall f :: f in frames && first(f) ==> f in heard
    ensures Has(heard, IsVersion)
  {
    hide HearAll, Heed, Complete, Keep, Arranged;
    ArrangedIsAll(frames, first, IsVersionOrPatch);
    var parts := Keep(frames, first) + Keep(Keep(frames, f => !first(f)), IsVersionOrPatch);
    FirstPartsHave(frames, first, IsVersionOrPatch);
    OneVoiceOfPart(parts, frames);
    var v :| v in frames && IsVersion(v) && v.data[0] == 0;
    var p :| p in frames && IsPatch(p);
    assert IsVersionOrPatch(v) && IsVersionOrPatch(p);
    assert v in parts && p in parts;
    ApplicationIsComplete(parts);
    heard := AnsweredEarly(frames, first, IsVersionOrPatch);
    CompleteHas(heard);
  }

  /** An application's answer with nothing in front knows neither a bootloader's version nor a key. */
  lemma ApplicationAlone(frames: seq<Frame>)
    requires OneVoice(frames) && SaysApplication(frames) && Has(frames, IsPatch)
    ensures exists other :: multiset(other) == multiset(frames) && AnswersNothingMore(other)
  {
    hide HearAll, Heed, Complete, Arranged;
    var heard := ApplicationBehind(frames, f => false);
    NothingMore(heard);
    assert AnswersNothingMore(Arranged(frames, f => false, IsVersionOrPatch));
  }

  ghost predicate AnswersNothingMore(frames: seq<Frame>) {
    var r := Heed(frames).report;
    r.Some? && r.value.bootVersion == None && r.value.keyId == None
  }

  lemma ApplicationWithBoot(frames: seq<Frame>)
    requires OneVoice(frames) && SaysApplication(frames) && Has(frames, IsPatch) && Has(frames, IsBootVersion)
    ensures exists other :: multiset(other) == multiset(frames) && AnswersBoot(other)
  {
    hide HearAll, Heed, Complete, Arranged;
    KindsAreApart();
    var heard := ApplicationBehind(frames, IsBootVersion);
    var b :| b in frames && IsBootVersion(b);
    BootOf(heard, b);
    assert AnswersBoot(Arranged(frames, IsBootVersion, IsVersionOrPatch));
  }

  ghost predicate AnswersBoot(frames: seq<Frame>) {
    var r := Heed(frames).report;
    r.Some? && r.value.bootVersion.Some?
  }

  lemma KindsAreApart()
    ensures forall f :: IsBootVersion(f) || IsKey(f) ==> !IsVersion(f) && !IsPatch(f)
  {
  }

  lemma ApplicationWithKey(frames: seq<Frame>, k: Frame)
    requires OneVoice(frames) && SaysApplication(frames) && Has(frames, IsPatch) && k in frames && IsKey(k)
    ensures exists other :: multiset(other) == multiset(frames) && AnswersKey(other, k.data)
  {
    hide HearAll, Heed, Complete, Arranged;
    KindsAreApart();
    var heard := ApplicationBehind(frames, f => IsFrame(f, k));
    KeyAttribution(heard, k.data);
    assert AnswersKey(Arranged(frames, f => IsFrame(f, k), IsVersionOrPatch), k.data);
  }

  ghost predicate AnswersKey(frames: seq<Frame>, k: Data) {
    var r := Heed(frames).report;
    r.Some? && r.value.keyId == Some(k)
  }

  /** A bootloader with one of its fingerprints in front: that one is attributed. */
  lemma BootloaderWithKey(frames: seq<Frame>, k: Frame)
    requires OneVoice(frames) && !SaysApplication(frames) && Has(frames, IsVersion) && Has(frames, IsPatch) && Has(frames, IsBootVersion)
    requires k in frames && IsKey(k)
    ensures exists other :: multiset(other) == multiset(frames) && AnswersKey(other, k.data)
  {
    hide HearAll, Heed, Complete, Keep, Arranged;
    var first := f => IsFrame(f, k);
    ArrangedIsAll(frames, first, IsNotKey);
    var parts := Keep(frames, first) + Keep(Keep(frames, f => !first(f)), IsNotKey);
    FirstPartsHave(frames, first, IsNotKey);
    OneVoiceOfPart(parts, frames);
    var v :| v in frames && IsVersion(v);
    var p :| p in frames && IsPatch(p);
    var b :| b in frames && IsBootVersion(b);
    assert IsNotKey(v) && IsNotKey(p) && IsNotKey(b);
    assert v in parts && p in parts && b in parts && k in parts;
    BootloaderIsComplete(parts, k);
    var heard := AnsweredEarly(frames, first, IsNotKey);
    CompleteHas(heard);
    KeyAttribution(heard, k.data);
    assert AnswersKey(Arranged(frames, first, IsNotKey), k.data);
  }

  lemma AnotherAnswer(frames: seq<Frame>)
    requires OneVoice(frames) && !OrderFree(frames)
    ensures !AnyOrder(frames)
  {
    hide Heed, OneVoice;
    if SaysApplication(frames) {
      ApplicationAlone(frames);
      var x :| multiset(x) == multiset(frames) && AnswersNothingMore(x);
      if Has(frames, IsBootVersion) {
        ApplicationWithBoot(frames);
        var y :| multiset(y) == multiset(frames) && AnswersBoot(y);
      } else {
        var k :| k in frames && IsKey(k);
        ApplicationWithKey(frames, k);
        var y :| multiset(y) == multiset(frames) && AnswersKey(y, k.data);
      }
    } else {
      var k, l :| k in frames && l in frames && IsKey(k) && IsKey(l) && k.data != l.data;
      BootloaderWithKey(frames, k);
      BootloaderWithKey(frames, l);
      var x :| multiset(x) == multiset(frames) && AnswersKey(x, k.data);
      var y :| multiset(y) == multiset(frames) && AnswersKey(y, l.data);
    }
  }

  /**
   When the report does not depend on the order of arrival, early return included: for the
   frames of one board (each kind said one way, fingerprints in any number) exactly when no
   complete answer can come too early.
   */
  lemma ConfluentExactly(frames: seq<Frame>)
    requires OneVoice(frames)
    ensures AnyOrder(frames) <==> OrderFree(frames)
  {
    hide OneVoice, AnyOrder, OrderFree;
    if OrderFree(frames) {
      OrderFreeIsAnyOrder(frames);
    } else {
      AnotherAnswer(frames);
    }
  }
}
