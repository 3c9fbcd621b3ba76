/** The check of a 32-bit ELF file. */
module Elf {
  import opened Bytes
  import opened Validation
  import opened Wrappers

  const EM_ARM := 0x28
  const PT_LOAD := 1
  const HEADER_BYTES: nat := 52
  const ENTRY_BYTES: nat := 32

  /** A little-endian field of n bytes. */
  function Field(file: Data, offset: nat, n: nat): nat
    requires offset + n <= |file|
  {
    FromLE(file[offset..offset + n])
  }

  /** What is loaded from a file: where to, from where in the file, and how much. */
  datatype Segment = Segment(address: nat, offset: nat, size: nat)

  predicate IsElf(file: Data) {
    |file| >= HEADER_BYTES && file[..4] == [0x7F, 0x45, 0x4C, 0x46]
  }

  function TableOffset(file: Data): nat
    requires IsElf(file)
  {
    Field(file, 28, 4)
  }

  function EntrySize(file: Data): nat
    requires IsElf(file)
  {
    Field(file, 42, 2)
  }

  function EntryCount(file: Data): nat
    requires IsElf(file)
  {
    Field(file, 44, 2)
  }

  function EntryAt(file: Data, i: nat): nat
    requires IsElf(file)
  {
    TableOffset(file) + i * EntrySize(file)
  }

  /** Entry i of the program header table, if it says that something is to be loaded. */
  function Loadable(file: Data, i: nat): Option<Segment>
    requires IsElf(file) && EntryAt(file, i) + ENTRY_BYTES <= |file|
  {
    var at := EntryAt(file, i);
    if Field(file, at, 4) == PT_LOAD && Field(file, at + 16, 4) > 0
    then Some(Segment(Field(file, at + 12, 4), Field(file, at + 4, 4), Field(file, at + 16, 4)))
    else None
  }

  /** The loadable segments of the first n entries; the table ends where the file does. */
  datatype Table = Open(segments: seq<Segment>) | Ended(segments: seq<Segment>) | Truncated

  function Segments(file: Data, n: nat): Table
    requires IsElf(file)
  {
    if n == 0 then Open([])
    else
      match Segments(file, n - 1)
      case Truncated => Truncated
      case Ended(segments) => Ended(segments)
      case Open(segments) =>
        if EntryAt(file, n - 1) + ENTRY_BYTES > |file| then Ended(segments)
        else
          match Loadable(file, n - 1)
          case None => Open(segments)
          case Some(s) => if s.offset + s.size > |file| then Truncated else Open(segments + [s])
  }

  function TotalSize(segments: seq<Segment>): nat {
    if segments == [] then 0 else TotalSize(segments[..|segments| - 1]) + segments[|segments| - 1].size
  }

  /** The first segment with the lowest address. */
  function Lowest(segments: seq<Segment>): (low: Segment)
    requires segments != []
    ensures low in segments && forall s :: s in segments ==> low.address <= s.address
  {
    var front, last := segments[..|segments| - 1], segments[|segments| - 1];
    if front == [] then
      assert segments == [last];
      last
    else
      assert segments == front + [last];
      var low := Lowest(front);
      if last.address < low.address then last else low
  }

  predicate InFile(file: Data, segments: seq<Segment>) {
    forall s :: s in segments ==> s.offset + s.size <= |file|
  }

  function CandidateOf(file: Data, s: Segment): Candidate
    requires s.offset + 4 <= |file|
  {
    Candidate(s.address, Field(file, s.offset, 4), if s.offset + 8 <= |file| then Some(Field(file, s.offset + 4, 4)) else None)
  }

  /** The segments at the expected address that hold a word. */
  function AtExpected(file: Data, segments: seq<Segment>, expected: Option<nat>): seq<Candidate>
    requires InFile(file, segments)
  {
    if segments == [] || expected.None? then []
    else
      var front, last := segments[..|segments| - 1], segments[|segments| - 1];
      assert last in segments && forall s :: s in front ==> s in segments;
      AtExpected(file, front, expected)
      + if last.address == expected.value && last.size >= 4 then [CandidateOf(file, last)] else []
  }

  function Candidates(file: Data, segments: seq<Segment>, expected: Option<nat>): seq<Candidate>
    requires InFile(file, segments) && segments != []
  {
    var low := Lowest(segments);
    AtExpected(file, segments, expected) + if low.size >= 4 then [CandidateOf(file, low)] else []
  }

  function HeaderFault(file: Data): Option<Reason> {
    if !IsElf(file) then Some(NotElf)
    else if file[4] != 1 then Some(NotThirtyTwoBit)
    else if file[5] != 1 then Some(NotLittleEndian)
    else if Field(file, 18, 2) != EM_ARM then Some(WrongMachine)
    else if EntryCount(file) == 0 || TableOffset(file) == 0 then Some(NoProgramHeaders)
    else None
  }

  lemma {:induction false} SegmentsInFile(file: Data, n: nat)
    requires IsElf(file)
    ensures !Segments(file, n).Truncated? ==> InFile(file, Segments(file, n).segments)
  {
    hide Field;
    if n != 0 {
      SegmentsInFile(file, n - 1);
    }
  }

  function SegmentsVerdict(file: Data, segments: seq<Segment>, maxSize: nat, expected: Option<nat>): Verdict
    requires InFile(file, segments)
  {
    if segments == [] then Invalid(NoSegments)
    else if TotalSize(segments) > maxSize then Invalid(TooLarge)
    else Judgement(Candidates(file, segments, expected), maxSize, expected)
  }

  function ElfVerdict(file: Data, maxSize: nat, expected: Option<nat>): Verdict {
    if HeaderFault(file).Some? then Invalid(HeaderFault(file).value)
    else
      var table := Segments(file, EntryCount(file));
      SegmentsInFile(file, EntryCount(file));
      if table.Truncated? then Invalid(TruncatedSegment) else SegmentsVerdict(file, table.segments, maxSize, expected)
  }

  lemma SegmentsStep(file: Data, i: nat)
    requires IsElf(file) && Segments(file, i).Open?
    ensures var at := EntryAt(file, i);
            var segments := Segments(file, i).segments;
            Segments(file, i + 1) ==
              if at + ENTRY_BYTES > |file| then Ended(segments)
              else
                var s := Segment(Field(file, at + 12, 4), Field(file, at + 4, 4), Field(file, at + 16, 4));
                if Field(file, at, 4) != PT_LOAD || s.size == 0 then Open(segments)
                else if s.offset + s.size > |file| then Truncated
                else Open(segments + [s])
  {
    hide Field, EntryAt;
  }

  lemma {:induction false} TruncatedStays(file: Data, i: nat, count: nat)
    requires IsElf(file) && i <= count && Segments(file, i).Truncated?
    ensures Segments(file, count).Truncated?
    decreases count
  {
    hide Loadable, EntryAt;
    if i < count {
      TruncatedStays(file, i, count - 1);
    }
  }

  lemma {:induction false} EndedStays(file: Data, i: nat, count: nat, segments: seq<Segment>)
    requires IsElf(file) && i <= count && Segments(file, i) == Ended(segments)
    ensures Segments(file, count) == Ended(segments)
    decreases count
  {
    hide Loadable, EntryAt;
    if i < count {
      EndedStays(file, i, count - 1, segments);
    }
  }

  lemma AtExpectedStep(file: Data, segments: seq<Segment>, k: nat, expected: Option<nat>)
    requires InFile(file, segments) && k < |segments| && expected.Some?
    ensures InFile(file, segments[..k]) && InFile(file, segments[..k + 1])
    ensures AtExpected(file, segments[..k + 1], expected)
         == AtExpected(file, segments[..k], expected)
            + if segments[k].address == expected.value && segments[k].size >= 4 then [CandidateOf(file, segments[k])] else []
  {
    assert segments[..k + 1] == segments[..k] + [segments[k]];
    LastExpected(file, segments[..k], segments[k], expected);
  }

  lemma NoSegmentsYet(file: Data, expected: Option<nat>)
    requires IsElf(file)
    ensures Segments(file, 0) == Open([]) && AtExpected(file, [], expected) == []
  {
  }

  lemma AtExpectedEnds(file: Data, segments: seq<Segment>, expected: Option<nat>)
    requires InFile(file, segments)
    ensures segments[..|segments|] == segments
    ensures expected.None? ==> AtExpected(file, segments, expected) == []
  {
  }

  // The method.

  /** _validate_elf */
  method ValidateElf(file: Data, maxSize: nat, expected: Option<nat>) returns (v: Verdict)
    ensures v == ElfVerdict(file, maxSize, expected)
  {
    hide Field, EntryAt, TotalSize, AtExpected, Lowest, FirstPlausible, Segments, Loadable;
    var fault := HeaderFault(file);
    if fault.Some? {
      return Invalid(fault.value);
    }
    var count := EntryCount(file);
    var segments, i, ended := [], 0, false;
    NoSegmentsYet(file, expected);
    while i < count && !ended
      invariant i <= count
      invariant Segments(file, i) == if ended then Ended(segments) else Open(segments)
      invariant InFile(file, segments)
      decreases count - i
    {
      SegmentsStep(file, i);
      var at := EntryAt(file, i);
      if at + ENTRY_BYTES > |file| {
        ended := true;
      } else {
        var kind, offset, address, size := Field(file, at, 4), Field(file, at + 4, 4), Field(file, at + 12, 4), Field(file, at + 16, 4);
        if kind == PT_LOAD && size > 0 {
          if offset + size > |file| {
            TruncatedStays(file, i + 1, count);
            return Invalid(TruncatedSegment);
          }
          segments := segments + [Segment(address, offset, size)];
        }
      }
      i := i + 1;
    }
    if ended {
      EndedStays(file, i, count, segments);
    }
    assert ElfVerdict(file, maxSize, expected) == SegmentsVerdict(file, segments, maxSize, expected);
    if segments == [] {
      return Invalid(NoSegments);
    }
    if TotalSize(segments) > maxSize {
      return Invalid(TooLarge);
    }
    var candidates := [];
    if expected.Some? {
      for k := 0 to |segments|
        invariant InFile(file, segments[..k])
        invariant candidates == AtExpected(file, segments[..k], expected)
      {
        AtExpectedStep(file, segments, k, expected);
        var s := segments[k];
        if s.address == expected.value && s.size >= 4 {
          candidates := candidates + [CandidateOf(file, s)];
        }
      }
    }
    AtExpectedEnds(file, segments, expected);
    var low := Lowest(segments);
    if low.size >= 4 {
      candidates := candidates + [CandidateOf(file, low)];
    }
    assert candidates == Candidates(file, segments, expected);
    v := Judge(candidates, maxSize, expected);
  }

  // The verdict on an image.

  /** Entry k, and no other, loads something: the image, at the base. */
  predicate LoadsOnly(file: Data, k: nat, base: nat, image: Data)
    requires IsElf(file)
  {
    && k < EntryCount(file)
    && (forall i: nat :: i < EntryCount(file) ==>
          EntryAt(file, i) + ENTRY_BYTES <= |file| && (i != k ==> Loadable(file, i).None?))
    && Loadable(file, k).Some?
    && var s := Loadable(file, k).value;
       s.address == base && s.offset + s.size <= |file| && file[s.offset..s.offset + s.size] == image
  }

  lemma {:induction false} OnlySegment(file: Data, k: nat, base: nat, image: Data, n: nat)
    requires IsElf(file) && LoadsOnly(file, k, base, image) && n <= EntryCount(file)
    ensures Segments(file, n) == Open(if k < n then [Loadable(file, k).value] else [])
  {
    hide Loadable, EntryAt, EntryCount;
    if n != 0 {
      OnlySegment(file, k, base, image, n - 1);
    }
  }

  lemma PartOfSlice(file: Data, offset: nat, size: nat, from: nat, to: nat)
    requires from <= to <= size && offset + size <= |file|
    ensures file[offset..offset + size][from..to] == file[offset + from..offset + to]
  {
    var slice := file[offset..offset + size];
    assert forall k :: 0 <= k < size ==> slice[k] == file[offset + k];
    var inner, outer := slice[from..to], file[offset + from..offset + to];
    assert forall k :: 0 <= k < to - from ==> inner[k] == slice[from + k] && outer[k] == file[offset + from + k];
    assert inner == outer;
  }

  lemma SegmentWords(file: Data, s: Segment, image: Data)
    requires s.offset + s.size <= |file| && file[s.offset..s.offset + s.size] == image && |image| >= 8
    ensures CandidateOf(file, s) == Candidate(s.address, StackPointer(image), Some(ResetHandler(image)))
  {
    hide FromLE;
    PartOfSlice(file, s.offset, s.size, 0, 4);
    PartOfSlice(file, s.offset, s.size, 4, 8);
    assert image[..4] == image[0..4];
  }

  lemma OneSegmentVerdict(file: Data, s: Segment, image: Data, maxSize: nat, expected: Option<nat>)
    requires s.offset + s.size <= |file| && file[s.offset..s.offset + s.size] == image && |image| >= 8
    requires expected.None? || expected == Some(s.address)
    ensures Accepts(SegmentsVerdict(file, [s], maxSize, expected)) <==> Accepts(RawVerdict(image, maxSize, expected))
  {
    hide StackPointerInRam, Field;
    SegmentWords(file, s, image);
    var c := CandidateOf(file, s);
    OneSegmentCandidates(file, s, expected);
    OneCandidate(c, maxSize, expected);
    SameCandidateTwice(c, maxSize, expected);
  }

  lemma OneSegmentCandidates(file: Data, s: Segment, expected: Option<nat>)
    requires s.offset + s.size <= |file| && s.size >= 4 && (expected.None? || expected == Some(s.address))
    ensures TotalSize([s]) == s.size
    ensures var c := CandidateOf(file, s);
            Candidates(file, [s], expected) == if expected.Some? then [c, c] else [c]
  {
    hide CandidateOf;
    assert [s][..0] == [];
    var c := CandidateOf(file, s);
    NothingExpected(file, expected);
    if expected.Some? {
      LastExpected(file, [], s, expected);
    }
    assert [] + [s] == [s] && [] + [c] == [c] && [c] + [c] == [c, c];
    assert TotalSize([]) == 0;
    assert Lowest([s]) == s;
  }

  lemma NothingExpected(file: Data, expected: Option<nat>)
    ensures AtExpected(file, [], expected) == []
  {
  }

  lemma LastExpected(file: Data, front: seq<Segment>, s: Segment, expected: Option<nat>)
    requires InFile(file, front + [s]) && expected.Some?
    ensures InFile(file, front)
    ensures AtExpected(file, front + [s], expected)
         == AtExpected(file, front, expected) + if s.address == expected.value && s.size >= 4 then [CandidateOf(file, s)] else []
  {
    hide CandidateOf;
    var all := front + [s];
    assert all[..|all| - 1] == front && all[|all| - 1] == s;
    assert forall t :: t in front ==> t in all;
  }

  lemma SameCandidateTwice(c: Candidate, maxSize: nat, expected: Option<nat>)
    ensures Judgement([c, c], maxSize, expected) == Judgement([c], maxSize, expected)
  {
    assert [c, c][1..] == [c] && [c][1..] == [];
  }

  lemma NoWordNoCandidate(file: Data, s: Segment, expected: Option<nat>)
    requires s.offset + s.size <= |file| && s.size < 4
    ensures TotalSize([s]) == s.size && Candidates(file, [s], expected) == []
  {
    assert [s][..0] == [];
    NothingExpected(file, expected);
    if expected.Some? {
      LastExpected(file, [], s, expected);
    }
    assert [] + [s] == [s] && TotalSize([]) == 0 && Lowest([s]) == s;
  }

  /**
   A segment shorter than a vector table: below four bytes there is nothing to look at; from
   four on its stack pointer counts, and where a reset handler would be, behind the segment,
   the file is read on, if it goes on.
   */
  lemma ShortSegmentVerdict(file: Data, s: Segment, image: Data, maxSize: nat, expected: Option<nat>)
    requires s.offset + s.size <= |file| && file[s.offset..s.offset + s.size] == image && 0 < |image| < 8
    requires expected.None? || expected == Some(s.address)
    ensures Accepts(SegmentsVerdict(file, [s], maxSize, expected)) <==> ShortAccepted(file, s, image, maxSize, expected)
  {
    hide StackPointerInRam, Field;
    if |image| < 4 {
      NoWordNoCandidate(file, s, expected);
    } else {
      var c := CandidateOf(file, s);
      PartOfSlice(file, s.offset, s.size, 0, 4);
      assert image[..4] == image[0..4];
      FirstWord(file, s, image);
      OneSegmentCandidates(file, s, expected);
      OneCandidate(c, maxSize, expected);
      SameCandidateTwice(c, maxSize, expected);
    }
  }

  lemma FirstWord(file: Data, s: Segment, image: Data)
    requires s.offset + 4 <= |file| && |image| >= 4 && file[s.offset..s.offset + 4] == image[..4]
    ensures CandidateOf(file, s).sp == StackPointer(image)
  {
  }

  predicate ShortAccepted(file: Data, s: Segment, image: Data, maxSize: nat, expected: Option<nat>) {
    && |image| <= maxSize
    && (|image| >= 4 ==>
          && StackPointerInRam(StackPointer(image))
          && (expected.Some? && s.offset + 8 <= |file| ==> InSlot(Field(file, s.offset + 4, 4), expected.value, maxSize)))
  }

  /**
   An ELF file that loads an image, and nothing else, is judged as the raw image is; a
   shorter image by its stack pointer and whatever the file has behind it.
   */
  lemma ElfVerdictIsRawVerdict(file: Data, k: nat, base: nat, image: Data, maxSize: nat, expected: Option<nat>)
    requires HeaderFault(file).None? && LoadsOnly(file, k, base, image)
    requires expected.None? || expected == Some(base)
    ensures |image| >= 8 ==> (Accepts(ElfVerdict(file, maxSize, expected)) <==> Accepts(RawVerdict(image, maxSize, expected)))
    ensures |image| < 8 ==>
              (Accepts(ElfVerdict(file, maxSize, expected)) <==> ShortAccepted(file, Loadable(file, k).value, image, maxSize, expected))
  {
    LoadedIsNotEmpty(file, k);
    hide Loadable, EntryAt, Field, RawVerdict, SegmentsVerdict, ShortAccepted;
    OnlySegment(file, k, base, image, EntryCount(file));
    if |image| >= 8 {
      OneSegmentVerdict(file, Loadable(file, k).value, image, maxSize, expected);
    } else {
      ShortSegmentVerdict(file, Loadable(file, k).value, image, maxSize, expected);
    }
  }

  lemma LoadedIsNotEmpty(file: Data, k: nat)
    requires IsElf(file) && EntryAt(file, k) + ENTRY_BYTES <= |file| && Loadable(file, k).Some?
    ensures Loadable(file, k).value.size > 0
  {
  }

  // The header, byte by byte.

  lemma FieldIs(file: Data, offset: nat, n: nat, value: nat)
    requires offset + n <= |file| && value < Pow256(n)
    ensures Field(file, offset, n) == value <==> file[offset..offset + n] == ToLE(value, n)
  {
    hide FromLE, ToLE, Pow256;
    FromToLE(value, n);
    ToFromLE(file[offset..offset + n]);
  }

  lemma LittleEndianValues()
    ensures ToLE(0, 2) == [0, 0] && ToLE(0x28, 2) == [0x28, 0] && ToLE(0, 4) == [0, 0, 0, 0] && ToLE(1, 4) == [1, 0, 0, 0]
    ensures Pow256(2) == 0x1_0000 && Pow256(4) == 0x1_0000_0000
  {
  }

  /**
   What a header must be: the magic number, the classes of 32 bits and little endian, the
   machine ARM, and a program header table that is somewhere and has entries.
   */
  lemma HeaderExact(file: Data)
    ensures HeaderFault(file).None? <==>
              && |file| >= 52 && file[..6] == [0x7F, 0x45, 0x4C, 0x46, 1, 1] && file[18..20] == [0x28, 0]
              && file[28..32] != [0, 0, 0, 0] && file[44..46] != [0, 0]
  {
    hide Field, ToLE, Pow256;
    LittleEndianValues();
    if |file| >= HEADER_BYTES {
      FieldIs(file, 18, 2, 0x28);
      FieldIs(file, 28, 4, 0);
      FieldIs(file, 44, 2, 0);
      assert file[..6][..4] == file[..4];
      assert file[..6] == file[..4] + [file[4], file[5]];
    }
  }

  /** Only an entry of type 1 that has bytes in the file is loaded. */
  lemma LoadableExact(file: Data, i: nat)
    requires IsElf(file) && EntryAt(file, i) + ENTRY_BYTES <= |file|
    ensures var at := EntryAt(file, i);
            Loadable(file, i).Some? <==> file[at..at + 4] == [1, 0, 0, 0] && file[at + 16..at + 20] != [0, 0, 0, 0]
  {
    hide Field, ToLE, Pow256, EntryAt;
    LittleEndianValues();
    var at := EntryAt(file, i);
    FieldIs(file, at, 4, 1);
    FieldIs(file, at + 16, 4, 0);
    assert file[at + 16..at + 16 + 4] == file[at + 16..at + 20];
  }

  /** A segment that the file does not hold to its end makes the file rejected, whatever else is in it. */
  lemma {:induction false} TruncatedIsRefused(file: Data, i: nat, n: nat)
    requires IsElf(file) && i < n && (forall j: nat :: j <= i ==> EntryAt(file, j) + ENTRY_BYTES <= |file|)
    requires Loadable(file, i).Some? && Loadable(file, i).value.offset + Loadable(file, i).value.size > |file|
    ensures Segments(file, n).Truncated?
  {
    hide Loadable, EntryAt;
    NotEnded(file, i);
    TruncatedStays(file, i + 1, n);
  }

  lemma {:induction false} NotEnded(file: Data, n: nat)
    requires IsElf(file) && forall j: nat :: j < n ==> EntryAt(file, j) + ENTRY_BYTES <= |file|
    ensures !Segments(file, n).Ended?
  {
    hide Loadable, EntryAt;
    if n != 0 {
      NotEnded(file, n - 1);
    }
  }

  // The verdict on any segments.

  lemma {:induction false} TotalSizeJoins(a: seq<Segment>, b: seq<Segment>)
    ensures TotalSize(a + b) == TotalSize(a) + TotalSize(b)
  {
    if b == [] {
      assert a + b == a;
    } else {
      TotalSizeJoins(a, b[..|b| - 1]);
      assert (a + b)[..|a + b| - 1] == a + b[..|b| - 1];
    }
  }

  /** Segment j has a word at the expected address. */
  predicate StartsAt(segments: seq<Segment>, j: nat, e: nat) {
    j < |segments| && segments[j].address == e && segments[j].size >= 4
  }

  predicate PlausibleAt(file: Data, segments: seq<Segment>, j: nat, e: nat)
    requires InFile(file, segments)
  {
    StartsAt(segments, j, e) && StackPointerInRam(Field(file, segments[j].offset, 4))
  }

  /** Segment j is the first at the expected address with a plausible stack pointer. */
  predicate FirstAt(file: Data, segments: seq<Segment>, j: nat, e: nat)
    requires InFile(file, segments)
  {
    PlausibleAt(file, segments, j, e) && forall i: nat :: i < j ==> !PlausibleAt(file, segments, i, e)
  }

  /** Behind its stack pointer, if the file goes on, there is a reset handler of the slot. */
  predicate ResetFits(file: Data, s: Segment, maxSize: nat, e: nat) {
    s.offset + 8 <= |file| ==> InSlot(Field(file, s.offset + 4, 4), e, maxSize)
  }

  /** Where a vector table is looked for: in the first plausible segment at the expected address, or in the lowest segment. */
  ghost predicate LocatedIn(file: Data, segments: seq<Segment>, maxSize: nat, expected: Option<nat>)
    requires InFile(file, segments) && segments != []
  {
    var low := Lowest(segments);
    match expected
    case None => low.size >= 4 ==> StackPointerInRam(Field(file, low.offset, 4))
    case Some(e) =>
      if exists j: nat :: FirstAt(file, segments, j, e) then forall j: nat :: FirstAt(file, segments, j, e) ==> ResetFits(file, segments[j], maxSize, e)
      else low.size < 4 && forall j: nat :: !StartsAt(segments, j, e)
  }

  lemma {:induction false} FirstPlausibleJoins(a: seq<Candidate>, b: seq<Candidate>, maxSize: nat, expected: Option<nat>)
    ensures FirstPlausible(a + b, maxSize, expected) ==
            if FirstPlausible(a, maxSize, expected).Some? then FirstPlausible(a, maxSize, expected) else FirstPlausible(b, maxSize, expected)
  {
    if a == [] {
      assert a + b == b;
    } else {
      assert (a + b)[0] == a[0] && (a + b)[1..] == a[1..] + b;
      FirstPlausibleJoins(a[1..], b, maxSize, expected);
    }
  }

  lemma FirstPlausibleOne(c: Candidate, maxSize: nat, expected: Option<nat>)
    ensures FirstPlausible([c], maxSize, expected).None? <==> !StackPointerInRam(c.sp)
    ensures FirstPlausible([c], maxSize, expected).Some? ==>
              (Accepts(FirstPlausible([c], maxSize, expected).value) <==> Decides(c, maxSize, expected))
  {
    assert [c][1..] == [] && FirstPlausible([], maxSize, expected) == None;
  }

  lemma AppendedAt(file: Data, front: seq<Segment>, last: Segment, i: nat, e: nat)
    requires InFile(file, front + [last]) && InFile(file, front)
    ensures var all := front + [last];
            && StartsAt(all, i, e) == (if i == |front| then last.address == e && last.size >= 4 else StartsAt(front, i, e))
            && PlausibleAt(file, all, i, e) == (if i == |front| then last.address == e && last.size >= 4 && StackPointerInRam(Field(file, last.offset, 4))
                                                else PlausibleAt(file, front, i, e))
  {
    hide Field, StackPointerInRam;
    assert last in front + [last];
  }

  /** What the candidates at the expected address decide. */
  lemma {:induction false} DecidedAtExpected(file: Data, segments: seq<Segment>, maxSize: nat, e: nat) returns (j: nat)
    requires InFile(file, segments)
    ensures FirstPlausible(AtExpected(file, segments, Some(e)), maxSize, Some(e)).None? ==> forall i: nat :: !PlausibleAt(file, segments, i, e)
    ensures var v := FirstPlausible(AtExpected(file, segments, Some(e)), maxSize, Some(e));
            v.Some? ==> FirstAt(file, segments, j, e) && (Accepts(v.value) <==> ResetFits(file, segments[j], maxSize, e))
    ensures AtExpected(file, segments, Some(e)) == [] <==> forall i: nat :: !StartsAt(segments, i, e)
  {
    hide Field, StackPointerInRam, InSlot, FirstPlausible, StartsAt, PlausibleAt, CandidateOf, Decides;
    if segments == [] {
      j := 0;
      NoneOfNothing(maxSize, e);
      NowhereInNothing(file, e);
    } else {
      var front, last := segments[..|segments| - 1], segments[|segments| - 1];
      assert segments == front + [last] && last in segments && forall s :: s in front ==> s in segments;
      j := DecidedAtExpected(file, front, maxSize, e);
      forall i: nat
        ensures StartsAt(segments, i, e) == (if i == |front| then last.address == e && last.size >= 4 else StartsAt(front, i, e))
        ensures PlausibleAt(file, segments, i, e) ==
                (if i == |front| then last.address == e && last.size >= 4 && StackPointerInRam(Field(file, last.offset, 4))
                 else PlausibleAt(file, front, i, e))
      {
        AppendedAt(file, front, last, i, e);
      }
      LastExpected(file, front, last, Some(e));
      var before := AtExpected(file, front, Some(e));
      if last.address == e && last.size >= 4 {
        var c := CandidateOf(file, last);
        assert AtExpected(file, segments, Some(e)) == before + [c];
        assert StartsAt(segments, |front|, e);
        FirstPlausibleJoins(before, [c], maxSize, Some(e));
        FirstPlausibleOne(c, maxSize, Some(e));
        CandidateFits(file, last, maxSize, e);
        if FirstPlausible(before, maxSize, Some(e)).None? {
          j := |front|;
        } else {
          InsideFront(file, front, j, e);
        }
      } else {
        assert AtExpected(file, segments, Some(e)) == before;
        if FirstPlausible(before, maxSize, Some(e)).Some? {
          InsideFront(file, front, j, e);
        }
        if before != [] {
          var i: nat :| StartsAt(front, i, e);
          InFront(front, i, e);
          assert StartsAt(segments, i, e);
        }
      }
    }
  }

  lemma NowhereInNothing(file: Data, e: nat)
    ensures forall i: nat :: !StartsAt([], i, e) && !PlausibleAt(file, [], i, e)
  {
  }

  lemma InFront(front: seq<Segment>, i: nat, e: nat)
    requires StartsAt(front, i, e)
    ensures i < |front|
  {
  }

  lemma InsideFront(file: Data, front: seq<Segment>, j: nat, e: nat)
    requires InFile(file, front) && PlausibleAt(file, front, j, e)
    ensures j < |front|
  {
  }

  lemma CandidateFits(file: Data, s: Segment, maxSize: nat, e: nat)
    requires s.offset + 4 <= |file| && s.address == e
    ensures CandidateOf(file, s).sp == Field(file, s.offset, 4)
    ensures Decides(CandidateOf(file, s), maxSize, Some(e)) <==>
              StackPointerInRam(Field(file, s.offset, 4)) && ResetFits(file, s, maxSize, e)
  {
    hide Field, StackPointerInRam, InSlot;
  }

  lemma NoneOfNothing(maxSize: nat, e: nat)
    ensures FirstPlausible([], maxSize, Some(e)) == None
  {
  }

  lemma OnlyFirst(file: Data, segments: seq<Segment>, j: nat, e: nat)
    requires InFile(file, segments) && FirstAt(file, segments, j, e)
    ensures forall i: nat :: FirstAt(file, segments, i, e) ==> i == j
  {
  }

  lemma SegmentsVerdictExact(file: Data, segments: seq<Segment>, maxSize: nat, expected: Option<nat>)
    requires InFile(file, segments)
    ensures Accepts(SegmentsVerdict(file, segments, maxSize, expected)) <==>
              segments != [] && TotalSize(segments) <= maxSize && LocatedIn(file, segments, maxSize, expected)
  {
    hide Field, StackPointerInRam, InSlot, TotalSize, FirstPlausible, CandidateOf, Decides, PlausibleAt, StartsAt, AtExpected;
    if segments != [] {
      var low := Lowest(segments);
      if expected.None? {
        LowestAlone(file, segments, maxSize);
      } else {
        ExpectedThenLowest(file, segments, maxSize, expected.value);
      }
    }
  }

  lemma LowestAlone(file: Data, segments: seq<Segment>, maxSize: nat)
    requires InFile(file, segments) && segments != []
    ensures Accepts(Judgement(Candidates(file, segments, None), maxSize, None)) <==> LocatedIn(file, segments, maxSize, None)
  {
    hide Field, StackPointerInRam;
    var low := Lowest(segments);
    assert AtExpected(file, segments, None) == [];
    if low.size >= 4 {
      assert Candidates(file, segments, None) == [CandidateOf(file, low)];
      AnyCandidate(CandidateOf(file, low), maxSize, None);
    }
  }

  lemma ExpectedThenLowest(file: Data, segments: seq<Segment>, maxSize: nat, e: nat)
    requires InFile(file, segments) && segments != []
    ensures Accepts(Judgement(Candidates(file, segments, Some(e)), maxSize, Some(e))) <==> LocatedIn(file, segments, maxSize, Some(e))
  {
    hide Field, StackPointerInRam, InSlot, FirstPlausible, CandidateOf, Decides, AtExpected, PlausibleAt, StartsAt;
    var low, first := Lowest(segments), AtExpected(file, segments, Some(e));
    var rest := if low.size >= 4 then [CandidateOf(file, low)] else [];
    var j := DecidedAtExpected(file, segments, maxSize, e);
    FirstPlausibleJoins(first, rest, maxSize, Some(e));
    if FirstPlausible(first, maxSize, Some(e)).Some? {
      OnlyFirst(file, segments, j, e);
    } else {
      NoneOfNothing(maxSize, e);
      if low.size >= 4 {
        LowestElsewhere(file, segments, e);
        FirstPlausibleOne(CandidateOf(file, low), maxSize, Some(e));
        CandidateIsElsewhere(file, low, maxSize, e);
      }
    }
  }

  /** With nothing plausible at the expected address, the lowest segment is elsewhere or not plausible. */
  lemma LowestElsewhere(file: Data, segments: seq<Segment>, e: nat)
    requires InFile(file, segments) && segments != [] && forall i: nat :: !PlausibleAt(file, segments, i, e)
    ensures var low := Lowest(segments);
            low.size >= 4 ==> low.address != e || !StackPointerInRam(Field(file, low.offset, 4))
  {
    hide Field, StackPointerInRam;
    var low := Lowest(segments);
    var i :| 0 <= i < |segments| && segments[i] == low;
    assert !PlausibleAt(file, segments, i, e);
  }

  lemma CandidateIsElsewhere(file: Data, s: Segment, maxSize: nat, e: nat)
    requires s.offset + 4 <= |file| && (s.address != e || !StackPointerInRam(Field(file, s.offset, 4)))
    ensures !Decides(CandidateOf(file, s), maxSize, Some(e))
  {
    hide Field, StackPointerInRam, InSlot;
  }

  // Writing a file.

  /** What a program header describes: a segment to be loaded at its physical address, or anything else. */
  datatype Part = Part(kind: nat, virtualAddress: nat, address: nat, data: Data)

  predicate Loads(part: Part) {
    part.kind == PT_LOAD && part.data != []
  }

  function Zeros(n: nat): Data {
    seq(n, _ => 0)
  }

  /** A header with the table of program headers right behind it. */
  function FileHeader(count: nat): Data {
    [0x7F, 0x45, 0x4C, 0x46, 1, 1] + Zeros(12) + ToLE(EM_ARM, 2) + Zeros(8) + ToLE(HEADER_BYTES, 4) + Zeros(10)
    + ToLE(ENTRY_BYTES, 2) + ToLE(count, 2) + Zeros(6)
  }

  /** The program header of a part whose bytes are at `offset`: type, offset, virtual and physical address, size. */
  function ProgramHeader(part: Part, offset: nat): Data {
    ToLE(part.kind, 4) + ToLE(offset, 4) + ToLE(part.virtualAddress, 4) + ToLE(part.address, 4) + ToLE(|part.data|, 4) + Zeros(12)
  }

  function Headers(parts: seq<Part>, offset: nat): Data {
    if parts == [] then [] else ProgramHeader(parts[0], offset) + Headers(parts[1..], offset + |parts[0].data|)
  }

  function Bodies(parts: seq<Part>): Data {
    if parts == [] then [] else parts[0].data + Bodies(parts[1..])
  }

  function DataOffset(parts: seq<Part>): nat {
    HEADER_BYTES + ENTRY_BYTES * |parts|
  }

  function ToElf(parts: seq<Part>): Data {
    FileHeader(|parts|) + Headers(parts, DataOffset(parts)) + Bodies(parts)
  }

  predicate FitsElf(parts: seq<Part>) {
    && 0 < |parts| < 0x1_0000 && DataOffset(parts) + |Bodies(parts)| < 0x1_0000_0000
    && forall p :: p in parts ==> p.kind < 0x1_0000_0000 && p.virtualAddress < 0x1_0000_0000 && p.address < 0x1_0000_0000
  }

  /** A field written at its place is read back. */
  lemma FieldAt(before: Data, n: nat, k: nat, after: Data)
    requires n < Pow256(k)
    ensures Field(before + ToLE(n, k) + after, |before|, k) == n
  {
    hide FromLE, ToLE, Pow256;
    var file := before + ToLE(n, k) + after;
    assert file[|before|..|before| + k] == ToLE(n, k);
    FromToLE(n, k);
  }

  lemma HeaderReads(count: nat, rest: Data)
    requires 0 < count < 0x1_0000
    ensures var file := FileHeader(count) + rest;
            IsElf(file) && HeaderFault(file).None? && TableOffset(file) == HEADER_BYTES && EntrySize(file) == ENTRY_BYTES && EntryCount(file) == count
  {
    hide FromLE, ToLE, Field;
    var file := FileHeader(count) + rest;
    assert Pow256(2) == 0x1_0000 && Pow256(4) == 0x1_0000_0000;
    var magic := [0x7F, 0x45, 0x4C, 0x46, 1, 1];
    assert file[..4] == magic[..4];
    var a := magic + Zeros(12);
    var b := a + ToLE(EM_ARM, 2) + Zeros(8);
    var c := b + ToLE(HEADER_BYTES, 4) + Zeros(10);
    var d := c + ToLE(ENTRY_BYTES, 2);
    FieldAt(a, EM_ARM, 2, file[20..]);
    assert file == a + ToLE(EM_ARM, 2) + file[20..];
    FieldAt(b, HEADER_BYTES, 4, file[32..]);
    assert file == b + ToLE(HEADER_BYTES, 4) + file[32..];
    FieldAt(c, ENTRY_BYTES, 2, file[44..]);
    assert file == c + ToLE(ENTRY_BYTES, 2) + file[44..];
    FieldAt(d, count, 2, file[46..]);
    assert file == d + ToLE(count, 2) + file[46..];
  }

  lemma HeaderLengths(count: nat, part: Part, offset: nat)
    ensures |FileHeader(count)| == HEADER_BYTES && |ProgramHeader(part, offset)| == ENTRY_BYTES
  {
  }

  lemma ProgramHeaderReads(head: Data, part: Part, offset: nat, rest: Data)
    requires offset < 0x1_0000_0000 && part.kind < 0x1_0000_0000 && |part.data| < 0x1_0000_0000
    requires part.virtualAddress < 0x1_0000_0000 && part.address < 0x1_0000_0000
    ensures var file, at := head + ProgramHeader(part, offset) + rest, |head|;
            && at + ENTRY_BYTES <= |file|
            && Field(file, at, 4) == part.kind && Field(file, at + 4, 4) == offset
            && Field(file, at + 12, 4) == part.address && Field(file, at + 16, 4) == |part.data|
  {
    hide FromLE, ToLE, Field;
    var file, at := head + ProgramHeader(part, offset) + rest, |head|;
    assert Pow256(4) == 0x1_0000_0000;
    var a := head + ToLE(part.kind, 4);
    var b := a + ToLE(offset, 4) + ToLE(part.virtualAddress, 4);
    var c := b + ToLE(part.address, 4);
    FieldAt(head, part.kind, 4, file[at + 4..]);
    assert file == head + ToLE(part.kind, 4) + file[at + 4..];
    FieldAt(a, offset, 4, file[at + 8..]);
    assert file == a + ToLE(offset, 4) + file[at + 8..];
    FieldAt(b, part.address, 4, file[at + 16..]);
    assert file == b + ToLE(part.address, 4) + file[at + 16..];
    FieldAt(c, |part.data|, 4, file[at + 20..]);
    assert file == c + ToLE(|part.data|, 4) + file[at + 20..];
  }

  // Where part i is.

  lemma {:induction false} HeadersLength(parts: seq<Part>, offset: nat)
    ensures |Headers(parts, offset)| == ENTRY_BYTES * |parts|
    decreases |parts|
  {
    hide ProgramHeader;
    if parts != [] {
      HeaderLengths(0, parts[0], offset);
      HeadersLength(parts[1..], offset + |parts[0].data|);
    }
  }

  lemma BodiesBefore(parts: seq<Part>, i: nat)
    requires i <= |parts|
    ensures |Bodies(parts[..i])| == if i == 0 then 0 else |parts[0].data| + |Bodies(parts[1..][..i - 1])|
  {
    if i > 0 {
      assert parts[..i][0] == parts[0] && parts[..i][1..] == parts[1..][..i - 1];
    }
  }

  lemma {:induction false} HeadersAt(parts: seq<Part>, offset: nat, i: nat)
    requires i < |parts|
    ensures |Headers(parts, offset)| == ENTRY_BYTES * |parts|
    ensures Headers(parts, offset)[ENTRY_BYTES * i..ENTRY_BYTES * (i + 1)] == ProgramHeader(parts[i], offset + |Bodies(parts[..i])|)
    decreases |parts|
  {
    hide ProgramHeader, Bodies;
    var first, rest := ProgramHeader(parts[0], offset), Headers(parts[1..], offset + |parts[0].data|);
    HeaderLengths(0, parts[0], offset);
    HeadersLength(parts, offset);
    BodiesBefore(parts, i);
    if i > 0 {
      HeadersLength(parts[1..], offset + |parts[0].data|);
      HeadersAt(parts[1..], offset + |parts[0].data|, i - 1);
      Behind(first, rest, ENTRY_BYTES * (i - 1), ENTRY_BYTES * i);
    }
  }

  lemma Behind(first: Data, rest: Data, from: nat, to: nat)
    requires from <= to <= |rest|
    ensures (first + rest)[|first| + from..|first| + to] == rest[from..to]
  {
  }

  lemma {:induction false} BodiesAt(parts: seq<Part>, i: nat)
    requires i < |parts|
    ensures |Bodies(parts[..i])| + |parts[i].data| <= |Bodies(parts)|
    ensures Bodies(parts)[|Bodies(parts[..i])|..|Bodies(parts[..i])| + |parts[i].data|] == parts[i].data
    decreases i
  {
    BodiesBefore(parts, i);
    if i > 0 {
      BodiesAt(parts[1..], i - 1);
      var before := |Bodies(parts[1..][..i - 1])|;
      Behind(parts[0].data, Bodies(parts[1..]), before, before + |parts[i].data|);
    }
  }

  /** Where the bytes of part i are. */
  function BodyOffset(parts: seq<Part>, i: nat): nat
    requires i <= |parts|
  {
    DataOffset(parts) + |Bodies(parts[..i])|
  }

  lemma PartReads(parts: seq<Part>, i: nat)
    requires FitsElf(parts) && i < |parts|
    ensures var file, at := ToElf(parts), BodyOffset(parts, i);
            && IsElf(file) && HeaderFault(file).None? && EntryCount(file) == |parts|
            && EntryAt(file, i) == HEADER_BYTES + ENTRY_BYTES * i && EntryAt(file, i) + ENTRY_BYTES <= |file|
            && Loadable(file, i) == (if Loads(parts[i]) then Some(Segment(parts[i].address, at, |parts[i].data|)) else None)
            && at + |parts[i].data| <= |file| && file[at..at + |parts[i].data|] == parts[i].data
  {
    hide FromLE, ToLE, Field, FileHeader, ProgramHeader, Headers, Bodies, HeaderFault, TableOffset, EntrySize, EntryCount, IsElf;
    var file, headers, bodies := ToElf(parts), Headers(parts, DataOffset(parts)), Bodies(parts);
    var part, offset := parts[i], BodyOffset(parts, i);
    assert part in parts;
    HeaderLengths(|parts|, part, offset);
    assert file == FileHeader(|parts|) + (headers + bodies);
    HeaderReads(|parts|, headers + bodies);
    HeadersAt(parts, DataOffset(parts), i);
    BodiesAt(parts, i);
    var at := HEADER_BYTES + ENTRY_BYTES * i;
    TableIndex(file, i);
    assert file[at..at + ENTRY_BYTES] == headers[ENTRY_BYTES * i..ENTRY_BYTES * (i + 1)] by {
      Behind(FileHeader(|parts|), headers + bodies, ENTRY_BYTES * i, ENTRY_BYTES * (i + 1));
    }
    assert file == file[..at] + ProgramHeader(part, offset) + file[at + ENTRY_BYTES..];
    ProgramHeaderReads(file[..at], part, offset, file[at + ENTRY_BYTES..]);
    Behind(FileHeader(|parts|) + headers, bodies, |Bodies(parts[..i])|, |Bodies(parts[..i])| + |part.data|);
  }

  lemma TableIndex(file: Data, i: nat)
    requires IsElf(file) && TableOffset(file) == HEADER_BYTES && EntrySize(file) == ENTRY_BYTES
    ensures EntryAt(file, i) == HEADER_BYTES + ENTRY_BYTES * i
  {
  }

  /** The segments of the first n parts. */
  function Loaded(parts: seq<Part>, n: nat): seq<Segment>
    requires n <= |parts|
  {
    if n == 0 then []
    else
      Loaded(parts, n - 1)
      + if Loads(parts[n - 1]) then [Segment(parts[n - 1].address, BodyOffset(parts, n - 1), |parts[n - 1].data|)] else []
  }

  /** What a written file loads is its parts to be loaded, in their order, and nothing else. */
  lemma {:induction false} ToElfReads(parts: seq<Part>, n: nat)
    requires FitsElf(parts) && n <= |parts|
    ensures IsElf(ToElf(parts)) && HeaderFault(ToElf(parts)).None? && EntryCount(ToElf(parts)) == |parts|
    ensures Segments(ToElf(parts), n) == Open(Loaded(parts, n))
  {
    hide Loadable, EntryAt, HeaderFault, EntryCount, IsElf, ToElf, BodyOffset, FitsElf;
    PartsExist(parts);
    PartReads(parts, 0);
    if n != 0 {
      ToElfReads(parts, n - 1);
      PartReads(parts, n - 1);
    }
  }

  lemma PartsExist(parts: seq<Part>)
    requires FitsElf(parts)
    ensures |parts| > 0
  {
  }

  /** A file with the image alone. */
  lemma ToElfLoads(base: nat, virtualAddress: nat, image: Data)
    requires image != [] && base < 0x1_0000_0000 && virtualAddress < 0x1_0000_0000
    requires HEADER_BYTES + ENTRY_BYTES + |image| < 0x1_0000_0000
    ensures var file := ToElf([Part(PT_LOAD, virtualAddress, base, image)]);
            HeaderFault(file).None? && LoadsOnly(file, 0, base, image)
  {
    hide ToElf, Loadable, HeaderFault, EntryAt;
    var parts := [Part(PT_LOAD, virtualAddress, base, image)];
    assert parts[1..] == [];
    assert Bodies(parts) == image + [] == image;
    PartReads(parts, 0);
  }

  // Several segments.

  function LoadedBytes(parts: seq<Part>): nat {
    if parts == [] then 0
    else LoadedBytes(parts[..|parts| - 1]) + if Loads(parts[|parts| - 1]) then |parts[|parts| - 1].data| else 0
  }

  lemma {:induction false} LoadedSize(parts: seq<Part>, n: nat)
    requires n <= |parts|
    ensures TotalSize(Loaded(parts, n)) == LoadedBytes(parts[..n])
  {
    hide Loads, BodyOffset;
    if n != 0 {
      LoadedSize(parts, n - 1);
      assert parts[..n][..n - 1] == parts[..n - 1] && parts[..n][n - 1] == parts[n - 1];
      if Loads(parts[n - 1]) {
        var s := Segment(parts[n - 1].address, BodyOffset(parts, n - 1), |parts[n - 1].data|);
        TotalSizeJoins(Loaded(parts, n - 1), [s]);
        assert [s][..0] == [] && TotalSize([]) == 0 && TotalSize([s]) == s.size;
      } else {
        assert Loaded(parts, n - 1) + [] == Loaded(parts, n - 1);
      }
    }
  }

  lemma {:induction false} LoadedGrows(parts: seq<Part>, m: nat, n: nat)
    requires m <= n <= |parts|
    ensures Loaded(parts, m) <= Loaded(parts, n)
  {
    hide Loads, BodyOffset;
    if m < n {
      LoadedGrows(parts, m, n - 1);
    }
  }

  /** Segment i is that of some part. */
  lemma {:induction false} SegmentIsPart(parts: seq<Part>, n: nat, i: nat) returns (m: nat)
    requires n <= |parts| && i < |Loaded(parts, n)|
    ensures m < n && Loads(parts[m]) && i == |Loaded(parts, m)|
    ensures Loaded(parts, n)[i] == Segment(parts[m].address, BodyOffset(parts, m), |parts[m].data|)
  {
    hide Loads, BodyOffset;
    if i < |Loaded(parts, n - 1)| {
      m := SegmentIsPart(parts, n - 1, i);
      assert Loaded(parts, n)[i] == Loaded(parts, n - 1)[i];
    } else {
      m := n - 1;
    }
  }

  /** The one part at the base. */
  predicate OnlyAt(parts: seq<Part>, k: nat, base: nat) {
    && k < |parts| && Loads(parts[k]) && parts[k].address == base
    && forall j: nat :: j < |parts| && j != k && Loads(parts[j]) ==> parts[j].address != base
  }

  lemma StartsOnlyThere(parts: seq<Part>, k: nat, base: nat)
    requires OnlyAt(parts, k, base) && |parts[k].data| >= 8
    ensures var segments, j := Loaded(parts, |parts|), |Loaded(parts, k)|;
            && j < |segments| && segments[j] == Segment(base, BodyOffset(parts, k), |parts[k].data|)
            && forall i: nat :: StartsAt(segments, i, base) <==> i == j
  {
    hide Loads, BodyOffset;
    var segments, j := Loaded(parts, |parts|), |Loaded(parts, k)|;
    LoadedGrows(parts, k + 1, |parts|);
    assert Loaded(parts, k + 1)[j] == Segment(base, BodyOffset(parts, k), |parts[k].data|);
    assert segments[j] == Loaded(parts, k + 1)[j];
    forall i: nat | StartsAt(segments, i, base) ensures i == j {
      var m := SegmentIsPart(parts, |parts|, i);
    }
  }

  lemma OneStart(file: Data, segments: seq<Segment>, j: nat, image: Data, maxSize: nat, base: nat)
    requires InFile(file, segments) && j < |segments| && (forall i: nat :: StartsAt(segments, i, base) <==> i == j)
    requires |image| >= 8 && segments[j].size == |image|
    requires file[segments[j].offset..segments[j].offset + segments[j].size] == image
    ensures LocatedIn(file, segments, maxSize, Some(base)) <==>
              StackPointerInRam(StackPointer(image)) && InSlot(ResetHandler(image), base, maxSize)
  {
    var s := segments[j];
    assert StartsAt(segments, j, base);
    SegmentWords(file, s, image);
    assert Field(file, s.offset, 4) == StackPointer(image) && Field(file, s.offset + 4, 4) == ResetHandler(image);
    hide Field, StackPointerInRam, InSlot, StartsAt;
    if StackPointerInRam(StackPointer(image)) {
      assert FirstAt(file, segments, j, base);
      OnlyFirst(file, segments, j, base);
    } else {
      assert forall i: nat :: !FirstAt(file, segments, i, base);
    }
  }

  /**
   A file that loads an image at the expected address, and other things elsewhere, is accepted
   exactly when all that it loads fits the slot together and the image has a plausible vector table.
   */
  lemma SeveralSegmentsVerdict(parts: seq<Part>, k: nat, base: nat, maxSize: nat)
    requires FitsElf(parts) && OnlyAt(parts, k, base) && |parts[k].data| >= 8
    ensures Accepts(ElfVerdict(ToElf(parts), maxSize, Some(base))) <==>
              && LoadedBytes(parts) <= maxSize
              && StackPointerInRam(StackPointer(parts[k].data)) && InSlot(ResetHandler(parts[k].data), base, maxSize)
  {
    hide ToElf, HeaderFault, EntryCount, EntryAt, IsElf, Loads, Loaded, SegmentsVerdict, LocatedIn, LoadedBytes, TotalSize,
         StackPointerInRam, InSlot, FitsElf, BodyOffset, StackPointer, ResetHandler;
    var file, segments := ToElf(parts), Loaded(parts, |parts|);
    ToElfReads(parts, |parts|);
    SegmentsInFile(file, |parts|);
    LoadedSize(parts, |parts|);
    assert parts[..|parts|] == parts;
    StartsOnlyThere(parts, k, base);
    PartReads(parts, k);
    SegmentsVerdictExact(file, segments, maxSize, Some(base));
    OneStart(file, segments, |Loaded(parts, k)|, parts[k].data, maxSize, base);
  }
}
