/** The version odometer: its successor, its two implementations and the synchronisation with the native file. */
module Versions {
  import opened Wrappers

  /** Three components, or four from 0.8.0 on. */
  datatype Version = Three(major: nat, minor: nat, patch: nat) | Four(major: nat, minor: nat, patch: nat, build: nat)

  /** (major, minor, patch) >= (0, 8, 0), as tuples. */
  predicate AtLeastFourPart(major: nat, minor: nat, patch: nat) {
    major > 0 || minor >= 8
  }

  /** next_version: every digit that reaches ten rolls over into the one to its left. */
  method NextVersion(v: Version) returns (next: Version)
    ensures next == Next(v)
  {
    var major, minor, patch := v.major, v.minor, v.patch;
    if v.Four? {
      var build := v.build + 1;
      if build == 10 {
        patch, build := patch + 1, 0;
      }
      if patch == 10 {
        minor, patch := minor + 1, 0;
      }
      if minor == 10 {
        major, minor := major + 1, 0;
      }
      return Four(major, minor, patch, build);
    }
    patch := patch + 1;
    if patch == 10 {
      minor, patch := minor + 1, 0;
    }
    if minor == 10 {
      major, minor := major + 1, 0;
    }
    if AtLeastFourPart(major, minor, patch) {
      next := Four(major, minor, patch, 0);
    } else {
      next := Three(major, minor, patch);
    }
  }

  function Carry(major: nat, minor: nat, patch: nat): (nat, nat, nat) {
    var (b, c) := if patch == 10 then (minor + 1, 0) else (minor, patch);
    if b == 10 then (major + 1, 0, c) else (major, b, c)
  }

  function Next(v: Version): Version {
    match v
    case Four(major, minor, patch, build) =>
      var d := if build + 1 == 10 then 0 else build + 1;
      var (a, b, c) := Carry(major, minor, if build + 1 == 10 then patch + 1 else patch);
      Four(a, b, c, d)
    case Three(major, minor, patch) =>
      var (a, b, c) := Carry(major, minor, patch + 1);
      if AtLeastFourPart(a, b, c) then Four(a, b, c, 0) else Three(a, b, c)
  }

  /** bump, of the script that numbers the flasher itself. */
  function Bump(major: nat, minor: nat, patch: nat): (nat, nat, nat) {
    var (b, c) := if patch + 1 > 9 then (minor + 1, 0) else (minor, patch + 1);
    if b > 9 then (major + 1, 0, c) else (major, b, c)
  }

  // The odometer counts.

  /** Every component but the first is one decimal digit. */
  predicate Decimal(v: Version) {
    v.minor < 10 && v.patch < 10 && (v.Four? ==> v.build < 10)
  }

  function Value(v: Version): nat {
    match v
    case Three(a, b, c) => 100 * a + 10 * b + c
    case Four(a, b, c, d) => 1000 * a + 100 * b + 10 * c + d
  }

  /** The version n steps after 0.0.0. */
  function Successor(n: nat): Version {
    if n == 0 then Three(0, 0, 0) else Next(Successor(n - 1))
  }

  lemma NextAdds(v: Version)
    requires Decimal(v)
    ensures Decimal(Next(v))
    ensures v.Four? ==> Next(v).Four? && Value(Next(v)) == Value(v) + 1
    ensures v.Three? && Next(v).Three? ==> Value(Next(v)) == Value(v) + 1
    ensures v.Three? && Next(v).Four? ==> Value(Next(v)) == 10 * (Value(v) + 1)
    ensures v.Three? ==> (Next(v).Three? <==> Value(v) + 1 < 80)
  {
  }

  /** The decimal digits of a number, as a version. */
  function Digits(n: nat): Version {
    if n < 80 then Three(0, n / 10, n % 10)
    else
      var m := 720 + n;
      Four(m / 1000, m / 100 % 10, m / 10 % 10, m % 10)
  }

  lemma DecimalDigits(v: Version)
    requires Decimal(v)
    ensures v.Three? && Value(v) < 80 ==> v == Digits(Value(v))
    ensures v.Four? && Value(v) >= 800 ==> v == Digits(Value(v) - 720)
  {
    if v.Four? {
      var m := Value(v);
      assert m % 10 == v.build && m / 10 == 100 * v.major + 10 * v.minor + v.patch;
      assert m / 10 % 10 == v.patch && m / 100 == 10 * v.major + v.minor;
      assert m / 100 % 10 == v.minor && m / 1000 == v.major;
    }
  }

  lemma {:induction false} SuccessorCounts(n: nat)
    ensures Decimal(Successor(n))
    ensures Successor(n).Three? <==> n < 80
    ensures Value(Successor(n)) == if n < 80 then n else 720 + n
  {
    if n != 0 {
      SuccessorCounts(n - 1);
      NextAdds(Successor(n - 1));
    }
  }

  /** The odometer is a base-ten counter: three digits for n < 80, from then on the four of 800 + (n - 80). */
  lemma OdometerIsCounter(n: nat)
    ensures Successor(n) == Digits(n)
  {
    SuccessorCounts(n);
    DecimalDigits(Successor(n));
  }

  /** The order of the components from left to right; a missing fourth one comes first. */
  predicate Before(v: Version, w: Version) {
    v.major < w.major || (v.major == w.major && (v.minor < w.minor || (v.minor == w.minor &&
      (v.patch < w.patch || (v.patch == w.patch && (if v.Three? then w.Four? else w.Four? && v.build < w.build))))))
  }

  lemma NextIsLater(v: Version)
    requires Decimal(v)
    ensures Before(v, Next(v))
  {
  }

  lemma BeforeTrans(u: Version, v: Version, w: Version)
    requires Before(u, v) && Before(v, w)
    ensures Before(u, w)
  {
  }

  lemma BeforeAsym(v: Version, w: Version)
    requires Before(v, w)
    ensures !Before(w, v)
  {
  }

  /** It only ever goes forward, and never back to three components. */
  lemma {:induction false} OdometerIncreases(m: nat, n: nat)
    requires m < n
    ensures Before(Successor(m), Successor(n)) && !Before(Successor(n), Successor(m))
    ensures Successor(m).Four? ==> Successor(n).Four?
    decreases n
  {
    hide Next, Value, Before;
    SuccessorCounts(m);
    SuccessorCounts(n - 1);
    NextIsLater(Successor(n - 1));
    if m < n - 1 {
      OdometerIncreases(m, n - 1);
      BeforeTrans(Successor(m), Successor(n - 1), Successor(n));
    }
    SuccessorCounts(n);
    BeforeAsym(Successor(m), Successor(n));
  }

  function FirstThree(v: Version): Version {
    Three(v.major, v.minor, v.patch)
  }

  /** The two carries agree exactly on components that have not already run over. */
  lemma CarriesAgree(major: nat, minor: nat, patch: nat)
    ensures var next := Next(Three(major, minor, patch));
            (next.major, next.minor, next.patch) == Bump(major, minor, patch) <==>
              patch <= 9 && minor + (if patch == 9 then 1 else 0) <= 10
  {
  }

  // The native file.

  datatype Style = Plain | Cargo | Pubspec | Npm

  /** to_native: what of a version a native file can say. */
  function ToNative(v: Version, style: Style): Version {
    if v.Three? || style == Plain || style == Cargo then v else FirstThree(v)
  }

  /** same_version */
  predicate SameVersion(native: Version, declared: Version, style: Style) {
    match style
    case Npm => native == declared || native == ToNative(declared, style)
    case Pubspec => ToNative(declared, style) == ToNative(native, style)
    case _ => native == declared
  }

  /** The three-part version that a fourth component is appended to. */
  predicate IsExtendedBy(current: Version, expected: Version) {
    current.Three? && expected == Four(current.major, current.minor, current.patch, 0)
  }

  datatype Decision = Synchronized | Advance(rewrite: bool) | Refuse

  /** main --sync: what is done with a native version, given the manifest's. */
  function Decide(native: Version, declared: Version, style: Style): Decision {
    if SameVersion(native, declared, style) then Synchronized
    else if SameVersion(native, Next(declared), style) then Advance(false)
    else if IsExtendedBy(native, Next(declared)) then Advance(true)
    else Refuse
  }

  /** The manifest and the native file of a project. */
  class Project {
    var declared: Version
    var native: Version
    const style: Style

    constructor (declared: Version, native: Version, style: Style)
      ensures this.declared == declared && this.native == native && this.style == style
    {
      this.declared, this.native, this.style := declared, native, style;
    }

    predicate Agrees()
      reads this
    {
      SameVersion(native, declared, style)
    }

    /** --sync: accept one native increment. */
    method Sync() returns (ok: bool)
      modifies this
      ensures ok == !Decide(old(native), old(declared), style).Refuse?
      ensures ok ==> Agrees() && Decide(native, declared, style).Synchronized?
      ensures declared == if Decide(old(native), old(declared), style).Advance? then Next(old(declared)) else old(declared)
      ensures native == if Decide(old(native), old(declared), style) == Advance(true) then ToNative(declared, style) else old(native)
    {
      if SameVersion(native, declared, style) {
        return true;
      }
      var expected := NextVersion(declared);
      if !SameVersion(native, expected, style) {
        if !IsExtendedBy(native, expected) {
          return false;
        }
        native := ToNative(expected, style);
        NativeIsSame(expected, style);
      }
      declared := expected;
      ok := true;
    }

    /** Without --sync: one step of both. */
    method BumpBoth() returns (ok: bool)
      modifies this
      ensures ok == old(Agrees())
      ensures ok ==> declared == Next(old(declared)) && native == ToNative(declared, style) && Agrees()
      ensures !ok ==> declared == old(declared) && native == old(native)
    {
      if !SameVersion(native, declared, style) {
        return false;
      }
      var next := NextVersion(declared);
      native := ToNative(next, style);
      declared := next;
      NativeIsSame(next, style);
      ok := true;
    }
  }

  lemma NativeIsSame(v: Version, style: Style)
    ensures SameVersion(ToNative(v, style), v, style)
  {
  }

  /** When a native version is the manifest's: npm may still hold all four components, pubspec never says the fourth. */
  lemma SameExactly(native: Version, declared: Version, style: Style)
    ensures SameVersion(native, declared, style) <==>
              || native == declared
              || (style == Npm && native == FirstThree(declared))
              || (style == Pubspec && FirstThree(native) == FirstThree(declared))
  {
  }

  /** The native file is rewritten exactly when it holds the next version but for the nought that has to follow. */
  lemma RewrittenExactly(native: Version, declared: Version, style: Style)
    ensures Decide(native, declared, style) == Advance(true) <==>
              && (style == Plain || style == Cargo)
              && native.Three? && native != declared
              && Next(declared) == Four(native.major, native.minor, native.patch, 0)
  {
    hide Next;
  }

  /** Whatever the project's own three-part script makes of the manifest's version is accepted. */
  lemma BumpedIsAccepted(declared: Version, style: Style)
    requires Decimal(declared) && declared.Three?
    ensures var (a, b, c) := Bump(declared.major, declared.minor, declared.patch);
            Decide(Three(a, b, c), declared, style) ==
              Advance(!(100 * a + 10 * b + c < 80) && (style == Plain || style == Cargo))
  {
  }

  /** A second --sync changes nothing. */
  lemma SyncIsIdempotent(native: Version, declared: Version, style: Style)
    requires Decide(native, declared, style).Advance?
    ensures var native' := if Decide(native, declared, style).rewrite then ToNative(Next(declared), style) else native;
            Decide(native', Next(declared), style) == Synchronized
  {
    NativeIsSame(Next(declared), style);
  }

  /** The version n steps after v. */
  function After(v: Version, n: nat): Version {
    if n == 0 then v else Next(After(v, n - 1))
  }

  /** The number the first three components make. */
  function Leading(v: Version): nat {
    100 * v.major + 10 * v.minor + v.patch
  }

  lemma LeadingDecides(v: Version, w: Version)
    requires Decimal(v) && Decimal(w)
    ensures Leading(v) == Leading(w) <==> FirstThree(v) == FirstThree(w)
  {
  }

  lemma {:induction false} AfterFour(v: Version, n: nat)
    requires Decimal(v) && v.Four?
    ensures Decimal(After(v, n)) && After(v, n).Four? && Value(After(v, n)) == Value(v) + n
    ensures Leading(After(v, n)) == Leading(v) + (v.build + n) / 10
  {
    if n != 0 {
      AfterFour(v, n - 1);
      NextAdds(After(v, n - 1));
    }
    var w := After(v, n);
    assert Value(w) == 10 * Leading(w) + w.build && Value(v) == 10 * Leading(v) + v.build;
  }

  lemma {:induction false} AfterFirst(v: Version, n: nat)
    requires n > 0
    ensures After(v, n) == After(Next(v), n - 1)
  {
    if n > 1 {
      AfterFirst(v, n - 1);
    }
  }

  /** Until the fourth component appears every step changes the first three. */
  lemma {:induction false} AfterThree(v: Version, n: nat)
    requires Decimal(v) && v.Three? && Next(v).Three?
    ensures Decimal(After(v, n)) && Leading(After(v, n)) >= Leading(v) + (if n < 1 then n else 1)
    ensures n > 1 ==> Leading(After(v, n)) > Leading(v) + 1
    decreases n
  {
    if n > 0 {
      NextAdds(v);
      AfterFirst(v, n);
      var w := Next(v);
      NextAdds(w);
      if w.Three? && Next(w).Three? {
        AfterThree(w, n - 1);
      } else if n > 1 {
        AfterFirst(w, n - 1);
        AfterFour(Next(w), n - 2);
        NewFourth(w);
      }
    }
  }

  /** The fourth component starts at nought, one step up in the first three. */
  lemma NewFourth(v: Version)
    requires Decimal(v) && v.Three? && Next(v).Four?
    ensures Decimal(Next(v)) && Next(v).build == 0 && Leading(Next(v)) == Leading(v) + 1
  {
  }

  /** How many steps ahead of the manifest a native file may be for --sync to take it. */
  function Slack(declared: Version, style: Style): nat {
    if style == Plain || style == Cargo then 1
    else if declared.Four? then if declared.build < 9 then 9 - declared.build else 10
    else if Next(declared).Four? then 10 else 1
  }

  lemma DroppingSlack(declared: Version, n: nat)
    requires Decimal(declared)
    ensures var w := FirstThree(After(declared, n));
            w == FirstThree(declared) || w == FirstThree(Next(declared)) <==> n <= Slack(declared, Npm)
  {
    var w := After(declared, n);
    NextAdds(declared);
    if declared.Four? {
      AfterFour(declared, n);
      AfterFour(declared, 1);
      assert After(declared, 1) == Next(declared) by { assert After(declared, 0) == declared; }
    } else if Next(declared).Four? {
      NewFourth(declared);
      if n > 0 {
        AfterFirst(declared, n);
        AfterFour(Next(declared), n - 1);
      }
    } else {
      AfterThree(declared, n);
      if n == 1 {
        assert After(declared, 0) == declared;
      }
    }
    LeadingDecides(w, declared);
    LeadingDecides(w, Next(declared));
  }

  lemma {:induction false} AfterIncreases(v: Version, n: nat)
    requires Decimal(v)
    ensures Decimal(After(v, n)) && (n > 0 ==> Before(v, After(v, n)))
  {
    hide Before, Next;
    if n > 0 {
      AfterIncreases(v, n - 1);
      NextAdds(After(v, n - 1));
      NextIsLater(After(v, n - 1));
      if n > 1 {
        BeforeTrans(v, After(v, n - 1), After(v, n));
      }
    }
  }

  /** Where all components are held, only the version itself and the next one are taken. */
  lemma HoldingSlack(declared: Version, n: nat)
    requires Decimal(declared)
    ensures var w := After(declared, n);
            w == declared || w == Next(declared) || IsExtendedBy(w, Next(declared)) <==> n <= 1
  {
    AfterIncreases(declared, n);
    NextAdds(declared);
    assert After(declared, 0) == declared;
    if n > 1 {
      AfterFirst(declared, n);
      AfterIncreases(Next(declared), n - 1);
      Irreflexive(declared, Next(declared), After(declared, n));
      if Next(declared).Four? {
        AfterFour(Next(declared), n - 1);
      }
    } else {
      NextIsLater(declared);
    }
  }

  lemma Irreflexive(u: Version, v: Version, w: Version)
    requires Before(u, w) && Before(v, w)
    ensures w != u && w != v
  {
  }

  /**
   How far ahead a native file may be: --sync accepts the file of a version n steps after the
   manifest's exactly up to a slack, which is one step where the file holds all components
   and reaches to the last version of the next three-part number where it drops the fourth.
   */
  lemma AcceptedUpToSlack(declared: Version, n: nat, style: Style)
    requires Decimal(declared)
    ensures !Decide(ToNative(After(declared, n), style), declared, style).Refuse? <==> n <= Slack(declared, style)
  {
    hide Next, After;
    DroppingSlack(declared, n);
    HoldingSlack(declared, n);
    DecidesByForm(After(declared, n), declared, style);
  }

  /** What the decision compares: the versions themselves, or their first three components. */
  lemma DecidesByForm(w: Version, declared: Version, style: Style)
    ensures style == Plain || style == Cargo ==>
              (!Decide(ToNative(w, style), declared, style).Refuse? <==> w == declared || w == Next(declared) || IsExtendedBy(w, Next(declared)))
    ensures style == Pubspec || style == Npm ==>
              (!Decide(ToNative(w, style), declared, style).Refuse? <==>
                 FirstThree(w) == FirstThree(declared) || FirstThree(w) == FirstThree(Next(declared)))
  {
    hide Next;
  }

  /**
   Whether --sync notices that the native file went one step ahead: always where the
   file holds all components; where it drops the fourth, only when the first three change.
   */
  lemma SyncSeesStep(v: Version, style: Style)
    requires Decimal(v)
    ensures Decide(ToNative(Next(v), style), v, style) == Advance(false) <==>
              style == Plain || style == Cargo || v.Three? || v.build == 9
  {
  }
}
