/** Replacing the separate version fields of a text, from right to left. */
module Splice {
  import opened Wrappers

  /** A field of the text, from start to end, and what is to stand there. */
  datatype Field = Field(start: nat, end: nat, value: string)

  predicate Inside(text: string, f: Field) {
    f.start < f.end <= |text|
  }

  predicate Apart(f: Field, g: Field) {
    f.end <= g.start || g.end <= f.start
  }

  /** The fields were found in the text, and no two of them overlap. */
  predicate Disjoint(text: string, fields: seq<Field>) {
    && (forall f :: f in fields ==> Inside(text, f))
    && (forall i, j :: 0 <= i < j < |fields| ==> Apart(fields[i], fields[j]))
  }

  predicate Ascending(text: string, fields: seq<Field>) {
    && (forall f :: f in fields ==> Inside(text, f))
    && (forall i, j :: 0 <= i < j < |fields| ==> fields[i].end <= fields[j].start)
  }

  /** All replacements at once, from left to right, of the text from position `from` on. */
  function Substitute(text: string, fields: seq<Field>, from: nat): string
    requires Ascending(text, fields) && from <= |text| && (fields != [] ==> from <= fields[0].start)
    decreases |fields|
  {
    if fields == [] then text[from..]
    else
      var f := fields[0];
      assert f in fields;
      AscendingTail(text, fields);
      text[from..f.start] + f.value + Substitute(text, fields[1..], f.end)
  }

  lemma AscendingTail(text: string, fields: seq<Field>)
    requires Ascending(text, fields) && fields != []
    ensures Ascending(text, fields[1..]) && fields[0] in fields && Inside(text, fields[0])
    ensures |fields| > 1 ==> fields[0].end <= fields[1..][0].start
  {
    assert forall f :: f in fields[1..] ==> f in fields;
  }

  // Sorting by position.

  function Insert(f: Field, sorted: seq<Field>): seq<Field> {
    if sorted == [] || f.start <= sorted[0].start then [f] + sorted else [sorted[0]] + Insert(f, sorted[1..])
  }

  function Sort(fields: seq<Field>): seq<Field> {
    if fields == [] then [] else Insert(fields[0], Sort(fields[1..]))
  }

  lemma {:induction false} InsertKeeps(f: Field, sorted: seq<Field>)
    ensures multiset(Insert(f, sorted)) == multiset{f} + multiset(sorted)
  {
    if sorted != [] && f.start > sorted[0].start {
      InsertKeeps(f, sorted[1..]);
      assert sorted == [sorted[0]] + sorted[1..];
    }
  }

  lemma {:induction false} SortKeeps(fields: seq<Field>)
    ensures multiset(Sort(fields)) == multiset(fields)
  {
    if fields != [] {
      SortKeeps(fields[1..]);
      InsertKeeps(fields[0], Sort(fields[1..]));
      assert fields == [fields[0]] + fields[1..];
    }
  }

  lemma InSameMultiset(a: seq<Field>, b: seq<Field>, f: Field)
    requires multiset(a) == multiset(b)
    ensures f in a <==> f in b
  {
    assert f in a <==> f in multiset(a);
    assert f in b <==> f in multiset(b);
  }

  lemma {:induction false} InsertAdds(f: Field, sorted: seq<Field>, g: Field)
    requires g in Insert(f, sorted)
    ensures g == f || g in sorted
  {
    if sorted != [] && f.start > sorted[0].start && g != sorted[0] {
      InsertAdds(f, sorted[1..], g);
    }
  }

  lemma AscendingCons(text: string, f: Field, rest: seq<Field>)
    requires Inside(text, f) && Ascending(text, rest) && forall g :: g in rest ==> f.end <= g.start
    ensures Ascending(text, [f] + rest)
  {
    var all := [f] + rest;
    forall i, j | 0 <= i < j < |all| ensures all[i].end <= all[j].start {
      assert all[j] == rest[j - 1] && rest[j - 1] in rest;
      if i > 0 {
        assert all[i] == rest[i - 1];
      }
    }
  }

  lemma {:induction false} InsertAscends(text: string, f: Field, sorted: seq<Field>)
    requires Ascending(text, sorted) && Inside(text, f) && forall g :: g in sorted ==> Apart(f, g)
    ensures Ascending(text, Insert(f, sorted))
  {
    if sorted == [] {
      AscendingCons(text, f, []);
    } else if f.start <= sorted[0].start {
      forall g | g in sorted ensures f.end <= g.start {
        var i :| 0 <= i < |sorted| && sorted[i] == g;
        assert Inside(text, sorted[0]) && (i > 0 ==> sorted[0].end <= sorted[i].start);
        assert Apart(f, g) && Inside(text, g);
      }
      AscendingCons(text, f, sorted);
    } else {
      AscendingTail(text, sorted);
      assert Apart(f, sorted[0]);
      InsertAscends(text, f, sorted[1..]);
      forall g | g in Insert(f, sorted[1..]) ensures sorted[0].end <= g.start {
        InsertAdds(f, sorted[1..], g);
      }
      AscendingCons(text, sorted[0], Insert(f, sorted[1..]));
    }
  }

  lemma {:induction false} SortAscends(text: string, fields: seq<Field>)
    requires Disjoint(text, fields)
    ensures Ascending(text, Sort(fields))
  {
    if fields != [] {
      var rest := fields[1..];
      assert forall f :: f in rest ==> f in fields;
      SortAscends(text, rest);
      SortKeeps(rest);
      forall g | g in Sort(rest) ensures Apart(fields[0], g) {
        InSameMultiset(Sort(rest), rest, g);
      }
      InsertAscends(text, fields[0], Sort(rest));
    }
  }

  // The method.

  lemma {:induction false} SubstituteTail(text: string, fields: seq<Field>, from: nat, to: nat)
    requires Ascending(text, fields) && from <= to <= |text| && (fields != [] ==> to <= fields[0].start)
    ensures Substitute(text, fields, from) == text[from..to] + Substitute(text, fields, to)
  {
    if fields == [] {
      assert text[from..] == text[from..to] + text[to..];
    } else {
      var f := fields[0];
      AscendingTail(text, fields);
      assert text[from..f.start] == text[from..to] + text[to..f.start];
      var rest := Substitute(text, fields[1..], f.end);
      assert (text[from..to] + text[to..f.start]) + f.value + rest == text[from..to] + (text[to..f.start] + f.value + rest);
    }
  }

  lemma SuffixAscends(text: string, fields: seq<Field>, k: nat)
    requires Ascending(text, fields) && k <= |fields|
    ensures Ascending(text, fields[k..])
  {
    assert forall f :: f in fields[k..] ==> f in fields;
  }

  /** One replacement in a text whose replacements further right are done. */
  lemma SpliceStep(text: string, fields: seq<Field>, k: nat, done: string)
    requires Ascending(text, fields) && k < |fields|
    requires Ascending(text, fields[k + 1..]) && done == Substitute(text, fields[k + 1..], 0)
    ensures Ascending(text, fields[k..])
    ensures var f := fields[k];
            f.start <= f.end <= |done| && done[..f.start] + f.value + done[f.end..] == Substitute(text, fields[k..], 0)
  {
    var f, rest := fields[k], fields[k + 1..];
    SuffixAscends(text, fields, k);
    AscendingTail(text, fields[k..]);
    assert fields[k..][1..] == rest;
    SubstituteTail(text, rest, 0, f.end);
    assert done[f.end..] == Substitute(text, rest, f.end);
    assert done[..f.start] == text[..f.start];
    assert text[0..f.start] == text[..f.start];
  }

  /** replace_version on separate fields: the spans, in any order, spliced from the right. */
  method ReplaceFields(text: string, fields: seq<Field>) returns (result: string)
    requires Disjoint(text, fields)
    ensures Ascending(text, Sort(fields)) && result == Substitute(text, Sort(fields), 0)
  {
    var sorted := Sort(fields);
    SortAscends(text, fields);
    result := text;
    var k := |sorted|;
    assert sorted[k..] == [];
    while k > 0
      invariant k <= |sorted| && Ascending(text, sorted[k..])
      invariant result == Substitute(text, sorted[k..], 0)
    {
      k := k - 1;
      SpliceStep(text, sorted, k, result);
      var f := sorted[k];
      result := result[..f.start] + f.value + result[f.end..];
    }
    assert sorted[0..] == sorted;
  }

  // What is read afterwards.

  /** How far the fields before move the text behind them. */
  function Shift(fields: seq<Field>): int {
    if fields == [] then 0 else |fields[0].value| - (fields[0].end - fields[0].start) + Shift(fields[1..])
  }

  lemma {:induction false} SubstituteLength(text: string, fields: seq<Field>, from: nat)
    requires Ascending(text, fields) && from <= |text| && (fields != [] ==> from <= fields[0].start)
    ensures |Substitute(text, fields, from)| == |text| - from + Shift(fields)
    decreases |fields|
  {
    if fields != [] {
      AscendingTail(text, fields);
      SubstituteLength(text, fields[1..], fields[0].end);
    }
  }

  predicate HoldsAt(text: string, at: int, value: string) {
    0 <= at && at + |value| <= |text| && text[at..at + |value|] == value
  }

  lemma HoldsBehind(head: string, rest: string, at: int, value: string)
    requires HoldsAt(rest, at, value)
    ensures HoldsAt(head + rest, |head| + at, value)
  {
    assert (head + rest)[|head| + at..|head| + at + |value|] == rest[at..at + |value|];
  }

  lemma HoldsFirst(before: string, value: string, rest: string)
    ensures HoldsAt(before + value + rest, |before|, value)
  {
    assert (before + value + rest)[|before|..|before| + |value|] == value;
  }

  lemma ShiftFirst(fields: seq<Field>, k: nat)
    requires 0 < k <= |fields|
    ensures Shift(fields[..k]) == |fields[0].value| - (fields[0].end - fields[0].start) + Shift(fields[1..][..k - 1])
  {
    assert fields[..k][0] == fields[0] && fields[..k][1..] == fields[1..][..k - 1];
  }

  lemma {:induction false} FieldHoldsValue(text: string, fields: seq<Field>, from: nat, k: nat)
    requires Ascending(text, fields) && from <= |text| && k < |fields| && from <= fields[0].start
    ensures HoldsAt(Substitute(text, fields, from), fields[k].start + Shift(fields[..k]) - from, fields[k].value)
    decreases k
  {
    hide HoldsAt, Shift;
    var f := fields[0];
    AscendingTail(text, fields);
    var before, rest := text[from..f.start], Substitute(text, fields[1..], f.end);
    if k == 0 {
      ShiftNothing(fields);
      HoldsFirst(before, f.value, rest);
    } else {
      ShiftFirst(fields, k);
      FieldHoldsValue(text, fields[1..], f.end, k - 1);
      HoldsBehind(before + f.value, rest, fields[k].start + Shift(fields[1..][..k - 1]) - f.end, fields[k].value);
    }
  }

  /** Where field k starts, or the text ends. */
  function StartOf(text: string, fields: seq<Field>, k: nat): (start: nat)
    requires Ascending(text, fields) && k <= |fields|
    ensures start <= |text|
  {
    if k < |fields| then
      assert fields[k] in fields;
      fields[k].start
    else |text|
  }

  /** The text behind field k, up to the next field or the end. */
  function Gap(text: string, fields: seq<Field>, k: nat): string
    requires Ascending(text, fields) && k < |fields|
  {
    assert fields[k] in fields;
    text[fields[k].end..StartOf(text, fields, k + 1)]
  }

  lemma HeadHolds(head: string, rest: string)
    ensures HoldsAt(head + rest, 0, head)
  {
  }

  lemma SubstituteHead(text: string, fields: seq<Field>, from: nat)
    requires Ascending(text, fields) && from <= |text| && (fields != [] ==> from <= fields[0].start)
    ensures HoldsAt(Substitute(text, fields, from), 0, text[from..StartOf(text, fields, 0)])
  {
    hide HoldsAt;
    var head := text[from..StartOf(text, fields, 0)];
    if fields == [] {
      assert text[from..] == head + [];
      HeadHolds(head, []);
    } else {
      AscendingTail(text, fields);
      var f := fields[0];
      assert Substitute(text, fields, from) == head + (f.value + Substitute(text, fields[1..], f.end));
      HeadHolds(head, f.value + Substitute(text, fields[1..], f.end));
    }
  }

  lemma {:induction false} GapStays(text: string, fields: seq<Field>, from: nat, k: nat)
    requires Ascending(text, fields) && from <= |text| && k < |fields| && from <= fields[0].start
    ensures HoldsAt(Substitute(text, fields, from), fields[k].end + Shift(fields[..k + 1]) - from, Gap(text, fields, k))
    decreases k
  {
    hide HoldsAt, Shift;
    var f, tail := fields[0], fields[1..];
    AscendingTail(text, fields);
    var head, rest := text[from..f.start] + f.value, Substitute(text, tail, f.end);
    ShiftFirst(fields, k + 1);
    if k == 0 {
      ShiftNothing(tail);
      SubstituteHead(text, tail, f.end);
      HoldsBehind(head, rest, 0, Gap(text, fields, 0));
    } else {
      GapStays(text, tail, f.end, k - 1);
      HoldsBehind(head, rest, fields[k].end + Shift(tail[..k]) - f.end, Gap(text, fields, k));
    }
  }

  lemma ShiftNothing(fields: seq<Field>)
    ensures Shift(fields[..0]) == 0
  {
  }

  lemma SameLength(a: seq<Field>, b: seq<Field>)
    requires multiset(a) == multiset(b)
    ensures |a| == |b|
  {
    assert |a| == |multiset(a)| && |b| == |multiset(b)|;
  }

  /**
   After the replacement every field, moved by what the fields before it grew or shrank, holds its
   new value, and all the text before, between and behind the fields is what it was.
   */
  lemma ReplacedFieldsAreRead(text: string, fields: seq<Field>, k: nat)
    requires Disjoint(text, fields) && k < |fields| && Ascending(text, Sort(fields))
    ensures multiset(Sort(fields)) == multiset(fields) && |Sort(fields)| == |fields|
    ensures var sorted := Sort(fields);
            && HoldsAt(Substitute(text, sorted, 0), sorted[k].start + Shift(sorted[..k]), sorted[k].value)
            && HoldsAt(Substitute(text, sorted, 0), sorted[k].end + Shift(sorted[..k + 1]), Gap(text, sorted, k))
            && HoldsAt(Substitute(text, sorted, 0), 0, text[0..StartOf(text, sorted, 0)])
  {
    hide HoldsAt, Shift, Substitute, Ascending, Disjoint, Gap, Sort, StartOf;
    SortKeeps(fields);
    SameLength(Sort(fields), fields);
    FieldHoldsValue(text, Sort(fields), 0, k);
    GapStays(text, Sort(fields), 0, k);
    SubstituteHead(text, Sort(fields), 0);
  }
}
