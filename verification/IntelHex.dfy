/** The check of an Intel HEX file. */
module IntelHex {
  import opened Bytes
  import opened Validation
  import opened Wrappers

  /**
   A line of the file: the bytes its hexadecimal digits stand for after the colon, or
   anything that does not start with a colon or is not made of pairs of digits.
   */
  datatype Line = Line(bytes: Data) | Garbled

  const DATA_RECORD: byte := 0
  const EOF_RECORD: byte := 1
  const SEGMENT_RECORD: byte := 2
  const LINEAR_RECORD: byte := 4

  datatype Record = Record(address: nat, kind: byte, data: Data)

  datatype Decoded = Good(record: Record) | Bad(reason: Reason)

  function Sum(bytes: Data): nat {
    if bytes == [] then 0 else Sum(bytes[..|bytes| - 1]) + bytes[|bytes| - 1]
  }

  /** The bytes of a line that count: count, address, type, data and checksum. */
  predicate Complete(line: Line) {
    line.Line? && |line.bytes| >= 5 && |line.bytes| >= 5 + line.bytes[0] as int
  }

  function Decode(line: Line): Decoded {
    if !Complete(line) then Bad(MalformedLine)
    else
      var b := line.bytes;
      var count := b[0] as int;
      if Sum(b[..5 + count]) % 256 != 0 then Bad(BadChecksum)
      else Good(Record(256 * b[1] as int + b[2] as int, b[3], b[4..4 + count]))
  }

  datatype Parse = Records(records: seq<Record>) | Broken(reason: Reason)

  /** The records before the end record. */
  function Scan(lines: seq<Line>): Parse {
    if lines == [] then Broken(NoEndRecord)
    else
      match Decode(lines[0])
      case Bad(reason) => Broken(reason)
      case Good(record) =>
        if record.kind == EOF_RECORD then Records([])
        else
          match Scan(lines[1..])
          case Records(rest) => Records([record] + rest)
          case Broken(reason) => Broken(reason)
  }

  type Memory = map<nat, byte>

  function SegmentOf(r: Record, before: nat): nat {
    if r.kind == LINEAR_RECORD && |r.data| == 2 then (256 * r.data[0] as int + r.data[1] as int) * 0x1_0000
    else if r.kind == SEGMENT_RECORD && |r.data| == 2 then (256 * r.data[0] as int + r.data[1] as int) * 16
    else before
  }

  /** The base address after some records. */
  function Segment(records: seq<Record>): nat {
    if records == [] then 0 else SegmentOf(records[|records| - 1], Segment(records[..|records| - 1]))
  }

  function Write(memory: Memory, address: nat, data: Data): Memory {
    if data == [] then memory
    else Write(memory, address, data[..|data| - 1])[address + |data| - 1 := data[|data| - 1]]
  }

  function WriteRecord(memory: Memory, base: nat, r: Record): Memory {
    if r.kind == DATA_RECORD then Write(memory, base + r.address, r.data) else memory
  }

  /** The bytes the records put in memory. */
  function Contents(records: seq<Record>): Memory {
    if records == [] then map[]
    else
      var front, last := records[..|records| - 1], records[|records| - 1];
      WriteRecord(Contents(front), Segment(front), last)
  }

  lemma {:induction false} LeastExists(s: set<nat>, x: nat)
    requires x in s
    ensures exists m :: m in s && forall a :: a in s ==> m <= a
    decreases x
  {
    if y :| y in s && y < x {
      LeastExists(s, y);
    }
  }

  function Least(s: set<nat>): (m: nat)
    requires s != {}
    ensures m in s && forall a :: a in s ==> m <= a
  {
    assert exists x :: x in s;
    assert exists m :: m in s && forall a :: a in s ==> m <= a by {
      var x :| x in s;
      LeastExists(s, x);
    }
    var m :| m in s && forall a :: a in s ==> m <= a;
    m
  }

  predicate HasWord(memory: Memory, address: nat) {
    address in memory && address + 1 in memory && address + 2 in memory && address + 3 in memory
  }

  function Word(memory: Memory, address: nat): nat
    requires HasWord(memory, address)
  {
    FromLE([memory[address], memory[address + 1], memory[address + 2], memory[address + 3]])
  }

  function CandidateAt(memory: Memory, address: nat): Candidate
    requires HasWord(memory, address)
  {
    Candidate(address, Word(memory, address), if HasWord(memory, address + 4) then Some(Word(memory, address + 4)) else None)
  }

  /** The expected address first, then the lowest one. */
  function Candidates(memory: Memory, expected: Option<nat>): seq<Candidate>
    requires memory != map[]
  {
    var first := if expected.Some? && HasWord(memory, expected.value) then [CandidateAt(memory, expected.value)] else [];
    var low := Least(memory.Keys);
    var again := expected.Some? && HasWord(memory, expected.value) && low == expected.value;
    if !again && HasWord(memory, low) then first + [CandidateAt(memory, low)] else first
  }

  function MemoryVerdict(memory: Memory, maxSize: nat, expected: Option<nat>): Verdict {
    if memory == map[] then Invalid(NoData)
    else if |memory| > maxSize then Invalid(TooLarge)
    else Judgement(Candidates(memory, expected), maxSize, expected)
  }

  function HexVerdict(lines: seq<Line>, maxSize: nat, expected: Option<nat>): Verdict {
    if lines == [] || lines[0].Garbled? then Invalid(NotHex)
    else
      match Scan(lines)
      case Broken(reason) => Invalid(reason)
      case Records(records) => MemoryVerdict(Contents(records), maxSize, expected)
  }

  // The method.

  function Prepend(done: seq<Record>, rest: Parse): Parse {
    match rest
    case Records(records) => Records(done + records)
    case Broken(_) => rest
  }

  lemma ScanStep(lines: seq<Line>, i: nat, done: seq<Record>)
    requires i < |lines| && Scan(lines) == Prepend(done, Scan(lines[i..]))
    ensures Decode(lines[i]).Bad? ==> Scan(lines) == Broken(Decode(lines[i]).reason)
    ensures Decode(lines[i]).Good? && Decode(lines[i]).record.kind == EOF_RECORD ==> Scan(lines) == Records(done)
    ensures Decode(lines[i]).Good? && Decode(lines[i]).record.kind != EOF_RECORD ==>
              Scan(lines) == Prepend(done + [Decode(lines[i]).record], Scan(lines[i + 1..]))
  {
    hide Decode, Scan;
    var rest := lines[i..];
    assert rest[0] == lines[i] && rest[1..] == lines[i + 1..];
    ScanFirst(rest);
    assert done + [] == done;
    if Decode(lines[i]).Good? {
      PrependTwice(done, Decode(lines[i]).record, Scan(rest[1..]));
    }
  }

  lemma ScanFirst(lines: seq<Line>)
    requires lines != []
    ensures Scan(lines) == match Decode(lines[0])
      case Bad(reason) => Broken(reason)
      case Good(record) => if record.kind == EOF_RECORD then Records([]) else Prepend([record], Scan(lines[1..]))
  {
    hide Decode;
  }

  lemma PrependTwice(done: seq<Record>, record: Record, rest: Parse)
    ensures Prepend(done, Prepend([record], rest)) == Prepend(done + [record], rest)
  {
    if rest.Records? {
      assert done + ([record] + rest.records) == (done + [record]) + rest.records;
    }
  }

  lemma ContentsStep(done: seq<Record>, r: Record)
    ensures Contents(done + [r]) == WriteRecord(Contents(done), Segment(done), r)
    ensures Segment(done + [r]) == SegmentOf(r, Segment(done))
  {
    assert (done + [r])[..|done|] == done;
  }

  /** The loop over the lines: what the records before the end record put in memory. */
  method LoadRecords(lines: seq<Line>) returns (memory: Memory, fault: Option<Reason>)
    ensures match Scan(lines)
            case Records(records) => fault == None && memory == Contents(records)
            case Broken(reason) => fault == Some(reason)
  {
    hide Scan, Contents, Segment, Sum, Write;
    memory := map[];
    var sawEnd, base := false, 0;
    ghost var done: seq<Record> := [];
    ScanStarts(lines);
    var i := 0;
    while i < |lines| && !sawEnd
      invariant i <= |lines|
      invariant memory == Contents(done) && base == Segment(done)
      invariant Scan(lines) == if sawEnd then Records(done) else Prepend(done, Scan(lines[i..]))
      decreases |lines| - i, if sawEnd then 0 else 1
    {
      var line := lines[i];
      ScanStep(lines, i, done);
      if !Complete(line) {
        return memory, Some(MalformedLine);
      }
      var b := line.bytes;
      var count := b[0] as int;
      if Sum(b[..5 + count]) % 256 != 0 {
        return memory, Some(BadChecksum);
      }
      var address, kind, data := 256 * b[1] as int + b[2] as int, b[3], b[4..4 + count];
      if kind == EOF_RECORD {
        sawEnd := true;
      } else {
        ContentsStep(done, Record(address, kind, data));
        if kind == LINEAR_RECORD && |data| == 2 {
          base := (256 * data[0] as int + data[1] as int) * 0x1_0000;
        } else if kind == SEGMENT_RECORD && |data| == 2 {
          base := (256 * data[0] as int + data[1] as int) * 16;
        } else if kind == DATA_RECORD {
          memory := Store(memory, base + address, data);
        }
        done := done + [Record(address, kind, data)];
        i := i + 1;
      }
    }
    if !sawEnd {
      ScanEnds(lines, done);
      return memory, Some(NoEndRecord);
    }
    fault := None;
  }

  /** The bytes of one data record, one after another. */
  method Store(before: Memory, address: nat, data: Data) returns (memory: Memory)
    ensures memory == Write(before, address, data)
  {
    memory := before;
    for j := 0 to |data|
      invariant memory == Write(before, address, data[..j])
    {
      memory := memory[address + j := data[j]];
      assert data[..j + 1][..j] == data[..j];
    }
    assert data[..|data|] == data;
  }

  /** _validate_intel_hex */
  method ValidateIntelHex(lines: seq<Line>, maxSize: nat, expected: Option<nat>) returns (v: Verdict)
    ensures v == HexVerdict(lines, maxSize, expected)
  {
    hide Scan, Contents, Judgement, Word, HasWord;
    if lines == [] || lines[0].Garbled? {
      return Invalid(NotHex);
    }
    var memory, fault := LoadRecords(lines);
    if fault.Some? {
      return Invalid(fault.value);
    }
    if memory == map[] {
      return Invalid(NoData);
    }
    if |memory| > maxSize {
      return Invalid(TooLarge);
    }
    var candidates := [];
    if expected.Some? && HasWord(memory, expected.value) {
      candidates := [CandidateAt(memory, expected.value)];
    }
    var low := Least(memory.Keys);
    if !(candidates != [] && low == expected.value) && HasWord(memory, low) {
      candidates := candidates + [CandidateAt(memory, low)];
    }
    assert candidates == Candidates(memory, expected);
    v := Judge(candidates, maxSize, expected);
  }

  lemma ScanStarts(lines: seq<Line>)
    ensures Scan(lines) == Prepend([], Scan(lines[0..])) && Contents([]) == map[] && Segment([]) == 0
  {
    assert lines[0..] == lines;
    if Scan(lines).Records? {
      assert [] + Scan(lines).records == Scan(lines).records;
    }
  }

  lemma ScanEnds(lines: seq<Line>, done: seq<Record>)
    ensures Prepend(done, Scan(lines[|lines|..])) == Broken(NoEndRecord)
  {
  }

  // Corruption.

  /** Line k is read: the lines before it are good and none of them is the end record. */
  predicate Reached(lines: seq<Line>, k: nat) {
    k < |lines| && forall m :: 0 <= m < k ==> Decode(lines[m]).Good? && Decode(lines[m]).record.kind != EOF_RECORD
  }

  lemma {:induction false} ReachedIsScanned(lines: seq<Line>, k: nat)
    requires Reached(lines, k) && Decode(lines[k]).Bad?
    ensures Scan(lines) == Broken(Decode(lines[k]).reason)
    decreases k
  {
    hide Decode;
    if k > 0 {
      assert forall m :: 0 <= m < k - 1 ==> lines[1..][m] == lines[m + 1];
      ReachedIsScanned(lines[1..], k - 1);
    }
  }

  lemma {:induction false} SumUpdated(bytes: Data, j: nat, v: byte)
    requires j < |bytes|
    ensures Sum(bytes[j := v]) == Sum(bytes) - bytes[j] + v
  {
    var front := bytes[..|bytes| - 1];
    if j < |front| {
      SumUpdated(front, j, v);
      assert bytes[j := v][..|bytes| - 1] == front[j := v];
    } else {
      assert bytes[j := v][..|bytes| - 1] == front;
    }
  }

  lemma Residues(sum: int, before: byte, after: byte)
    requires sum % 256 == 0 && before != after
    ensures (sum - before as int + after as int) % 256 != 0
  {
  }

  /** One byte of a good line, other than its count, takes another value. */
  lemma ChangedByteBreaksLine(b: Data, j: nat, v: byte)
    requires Decode(Line(b)).Good? && 1 <= j < 5 + b[0] as int && v != b[j]
    ensures Decode(Line(b[j := v])) == Bad(BadChecksum)
  {
    var n := 5 + b[0] as int;
    assert b[j := v][..n] == b[..n][j := v];
    SumUpdated(b[..n], j, v);
    Residues(Sum(b[..n]), b[j], v);
  }

  /**
   An accepted file is rejected when one address, type, data or checksum byte of any
   record up to and including the end record takes another value, for whatever slot.
   */
  lemma CorruptionIsRejected(
    lines: seq<Line>, k: nat, j: nat, v: byte, maxSize: nat, expected: Option<nat>, maxSize': nat, expected': Option<nat>)
    requires Accepts(HexVerdict(lines, maxSize, expected)) && Reached(lines, k)
    requires lines[k].Line? && 1 <= j < |lines[k].bytes| && j < 5 + lines[k].bytes[0] as int && v != lines[k].bytes[j]
    ensures HexVerdict(lines[k := Line(lines[k].bytes[j := v])], maxSize', expected') == Invalid(BadChecksum)
  {
    hide Decode;
    if Decode(lines[k]).Bad? {
      ReachedIsScanned(lines, k);
    }
    var corrupt := lines[k := Line(lines[k].bytes[j := v])];
    ChangedByteBreaksLine(lines[k].bytes, j, v);
    assert forall m :: 0 <= m < k ==> corrupt[m] == lines[m];
    ReachedIsScanned(corrupt, k);
  }

  // Writing a file.

  predicate Writable(r: Record) {
    r.address < 0x1_0000 && |r.data| < 256
  }

  function Head(r: Record): Data
    requires Writable(r)
  {
    [|r.data|, r.address / 256, r.address % 256, r.kind] + r.data
  }

  /** The line of a record, with the checksum that makes its sum a multiple of 256. */
  function ToLine(r: Record): Line
    requires Writable(r)
  {
    Line(Head(r) + [(256 - Sum(Head(r)) % 256) % 256])
  }

  const EndRecord := Record(0, EOF_RECORD, [])

  /** The file of some records, ended by the end record. */
  function ToFile(records: seq<Record>): seq<Line>
    requires forall r :: r in records ==> Writable(r)
  {
    if records == [] then [ToLine(EndRecord)] else [ToLine(records[0])] + ToFile(records[1..])
  }

  lemma SumOne(bytes: Data, b: byte)
    ensures Sum(bytes + [b]) == Sum(bytes) + b
  {
    assert (bytes + [b])[..|bytes|] == bytes;
  }

  lemma Completed(sum: nat)
    ensures (sum + (256 - sum % 256) % 256) % 256 == 0
  {
  }

  lemma LineDecodes(r: Record)
    requires Writable(r)
    ensures Decode(ToLine(r)) == Good(r)
  {
    hide Sum;
    var b := ToLine(r).bytes;
    assert b[..5 + |r.data|] == b;
    SumOne(Head(r), (256 - Sum(Head(r)) % 256) % 256);
    Completed(Sum(Head(r)));
    assert b[4..4 + |r.data|] == r.data;
  }

  /** What stands behind the checksum does not count, and a line cut off anywhere before its end is malformed. */
  lemma LineEnds(r: Record, tail: Data, n: nat)
    requires Writable(r) && n < |ToLine(r).bytes|
    ensures Decode(Line(ToLine(r).bytes + tail)) == Good(r)
    ensures Decode(Line(ToLine(r).bytes[..n])) == Bad(MalformedLine)
  {
    hide Sum;
    LineDecodes(r);
    var b := ToLine(r).bytes;
    assert (b + tail)[..5 + |r.data|] == b == b[..5 + |r.data|];
    assert (b + tail)[4..4 + |r.data|] == b[4..4 + |r.data|];
  }

  lemma {:induction false} FileScans(records: seq<Record>)
    requires forall r :: r in records ==> Writable(r) && r.kind != EOF_RECORD
    ensures Scan(ToFile(records)) == Records(records) && ToFile(records) != [] && ToFile(records)[0].Line?
  {
    hide Decode;
    if records == [] {
      LineDecodes(EndRecord);
    } else {
      LineDecodes(records[0]);
      FileScans(records[1..]);
      var file := ToFile(records);
      assert file[1..] == ToFile(records[1..]);
      assert [records[0]] + records[1..] == records;
    }
  }

  // A list of records that covers an image.

  /** The address of the first byte of record k, with the segment in force there. */
  function AddressOf(records: seq<Record>, k: nat): nat
    requires k < |records|
  {
    Segment(records[..k]) + records[k].address
  }

  /** Record k puts a byte at address a. */
  predicate Puts(records: seq<Record>, k: nat, a: nat) {
    k < |records| && records[k].kind == DATA_RECORD && AddressOf(records, k) <= a < AddressOf(records, k) + |records[k].data|
  }

  ghost predicate IsPut(records: seq<Record>, a: nat) {
    exists k: nat :: Puts(records, k, a)
  }

  /** Every byte put is the image's, and every byte of the image is put. */
  ghost predicate Covers(records: seq<Record>, base: nat, image: Data) {
    && (forall k: nat, a: nat :: Puts(records, k, a) ==>
          base <= a < base + |image| && records[k].data[a - AddressOf(records, k)] == image[a - base])
    && (forall a: nat :: base <= a < base + |image| ==> IsPut(records, a))
  }

  ghost predicate IsImage(memory: Memory, base: nat, image: Data) {
    forall a: nat :: (a in memory <==> base <= a < base + |image|) && (a in memory ==> memory[a] == image[a - base])
  }

  lemma {:induction false} WriteAt(memory: Memory, address: nat, data: Data, a: nat)
    ensures a in Write(memory, address, data) <==> a in memory || address <= a < address + |data|
    ensures address <= a < address + |data| ==> Write(memory, address, data)[a] == data[a - address]
    ensures a in memory && !(address <= a < address + |data|) ==> Write(memory, address, data)[a] == memory[a]
  {
    if data != [] {
      WriteAt(memory, address, data[..|data| - 1], a);
    }
  }

  /** What is at address a after some records: nothing, or the byte of some record that puts one there. */
  lemma {:induction false} ContentsAt(records: seq<Record>, a: nat)
    ensures a in Contents(records) <==> IsPut(records, a)
    ensures a in Contents(records) ==>
              exists k: nat :: Puts(records, k, a) && Contents(records)[a] == records[k].data[a - AddressOf(records, k)]
  {
    hide Segment, Write;
    if records != [] {
      var n := |records| - 1;
      var front, last := records[..n], records[n];
      ContentsAt(front, a);
      forall k: nat | k < n ensures Puts(front, k, a) == Puts(records, k, a) && AddressOf(front, k) == AddressOf(records, k) {
        assert front[..k] == records[..k];
      }
      assert forall k: nat :: Puts(records, k, a) ==> k < n || k == n;
      if last.kind == DATA_RECORD {
        WriteAt(Contents(front), Segment(front) + last.address, last.data, a);
        assert Puts(records, n, a) <==> AddressOf(records, n) <= a < AddressOf(records, n) + |last.data|;
      }
    }
  }

  lemma CoveredIsImage(records: seq<Record>, base: nat, image: Data)
    requires Covers(records, base, image)
    ensures IsImage(Contents(records), base, image)
  {
    hide Contents, Puts, AddressOf;
    forall a: nat
      ensures (a in Contents(records) <==> base <= a < base + |image|) && (a in Contents(records) ==> Contents(records)[a] == image[a - base])
    {
      ContentsAt(records, a);
    }
  }

  // The verdict on an image.

  lemma {:induction false} CountRange(s: set<nat>, base: nat, n: nat)
    requires forall a: nat :: a in s <==> base <= a < base + n
    ensures |s| == n
    decreases n
  {
    if n == 0 {
      assert s == {};
    } else {
      CountRange(s - {base + n - 1}, base, n - 1);
    }
  }

  lemma ImageMemory(memory: Memory, base: nat, image: Data)
    requires IsImage(memory, base, image) && image != []
    ensures memory != map[] && |memory| == |image| && Least(memory.Keys) == base
    ensures HasWord(memory, base) <==> |image| >= 4
    ensures |image| >= 4 ==> Word(memory, base) == StackPointer(image)
    ensures HasWord(memory, base + 4) <==> |image| >= 8
    ensures |image| >= 8 ==> Word(memory, base + 4) == ResetHandler(image)
  {
    hide FromLE;
    assert base in memory;
    CountRange(memory.Keys, base, |image|);
    assert |memory| == |memory.Keys|;
    if |image| >= 4 {
      assert [memory[base], memory[base + 1], memory[base + 2], memory[base + 3]] == image[..4];
    }
    if |image| >= 8 {
      var w := base + 4;
      assert [memory[w], memory[w + 1], memory[w + 2], memory[w + 3]] == image[4..8];
    }
  }

  /** An image in memory at the place where it is expected, or anywhere when no place is known. */
  lemma MemoryVerdictOfImage(memory: Memory, base: nat, image: Data, maxSize: nat, expected: Option<nat>)
    requires IsImage(memory, base, image) && image != [] && (expected.None? || expected == Some(base))
    ensures |image| >= 8 ==> (Accepts(MemoryVerdict(memory, maxSize, expected)) <==> Accepts(RawVerdict(image, maxSize, expected)))
    ensures |image| < 8 ==> (Accepts(MemoryVerdict(memory, maxSize, expected)) <==>
              |image| <= maxSize && (|image| >= 4 ==> StackPointerInRam(StackPointer(image))))
  {
    hide FromLE, Word, HasWord, FirstPlausible, IsImage;
    ImageMemory(memory, base, image);
    var candidates := Candidates(memory, expected);
    if |image| >= 4 {
      assert candidates == [CandidateAt(memory, base)];
      OneCandidate(CandidateAt(memory, base), maxSize, expected);
    } else {
      assert candidates == [];
      NoCandidate(maxSize, expected);
    }
  }

  lemma NoCandidate(maxSize: nat, expected: Option<nat>)
    ensures Judgement([], maxSize, expected) == Unlocated
  {
  }

  /**
   A HEX file of any records that cover an image, in any split, order and segments, is
   judged as the raw image is, from eight bytes on; a shorter image, which is refused
   raw, is judged by what there is of its stack pointer.
   */
  lemma HexVerdictIsRawVerdict(records: seq<Record>, base: nat, image: Data, maxSize: nat, expected: Option<nat>)
    requires forall r :: r in records ==> Writable(r) && r.kind != EOF_RECORD
    requires Covers(records, base, image) && image != [] && (expected.None? || expected == Some(base))
    ensures |image| >= 8 ==>
              (Accepts(HexVerdict(ToFile(records), maxSize, expected)) <==> Accepts(RawVerdict(image, maxSize, expected)))
    ensures |image| < 8 ==> (Accepts(HexVerdict(ToFile(records), maxSize, expected)) <==>
              |image| <= maxSize && (|image| >= 4 ==> StackPointerInRam(StackPointer(image))))
  {
    hide ToFile, Scan, Contents, Covers, Writable, MemoryVerdict, RawVerdict;
    FileScans(records);
    CoveredIsImage(records, base, image);
    MemoryVerdictOfImage(Contents(records), base, image, maxSize, expected);
  }

  // The verdict on any contents.

  /**
   Where a vector table is looked for: at the expected address, if there is a word there, and
   then its reset handler counts, if that is there too; with no word there the lowest
   address may not have one either. With no address expected, the lowest one decides.
   */
  predicate Located(memory: Memory, maxSize: nat, expected: Option<nat>)
    requires memory != map[]
  {
    var low := Least(memory.Keys);
    match expected
    case None => HasWord(memory, low) ==> StackPointerInRam(Word(memory, low))
    case Some(e) =>
      if HasWord(memory, e) then
        StackPointerInRam(Word(memory, e)) && (HasWord(memory, e + 4) ==> InSlot(Word(memory, e + 4), e, maxSize))
      else !HasWord(memory, low)
  }

  lemma MemoryVerdictExact(memory: Memory, maxSize: nat, expected: Option<nat>)
    ensures Accepts(MemoryVerdict(memory, maxSize, expected)) <==>
              memory != map[] && |memory| <= maxSize && Located(memory, maxSize, expected)
  {
    hide Word, HasWord, StackPointerInRam, InSlot, Least;
    if memory != map[] {
      var low := Least(memory.Keys);
      var candidates := Candidates(memory, expected);
      if expected.Some? && HasWord(memory, expected.value) && low != expected.value && HasWord(memory, low) {
        var e, l := CandidateAt(memory, expected.value), CandidateAt(memory, low);
        assert candidates == [e, l];
        TwoCandidates(e, l, maxSize, expected);
      } else if |candidates| == 1 {
        assert candidates == [candidates[0]];
        AnyCandidate(candidates[0], maxSize, expected);
      } else {
        NoCandidate(maxSize, expected);
      }
    }
  }

  // Every image has such a file, with either kind of segment.

  /** The addresses that segments of one kind reach: 20 bits of them, or 32. */
  function Reach(segmented: bool): nat {
    if segmented then 0x10_0000 else 0x1_0000_0000
  }

  /** The record in front of a byte: its address over 16, or its upper half, in two bytes. */
  function Upper(address: nat, segmented: bool): Record
    requires address < Reach(segmented)
  {
    if segmented then Record(0, SEGMENT_RECORD, [address / 0x1000, address / 0x10 % 256])
    else Record(0, LINEAR_RECORD, [address / 0x100_0000, address / 0x1_0000 % 256])
  }

  /** The address in the record of the byte itself. */
  function Lower(address: nat, segmented: bool): nat {
    if segmented then address % 0x10 else address % 0x1_0000
  }

  /** The image byte by byte, each behind the record of its segment. */
  function Listing(base: nat, image: Data, segmented: bool): seq<Record>
    requires base + |image| <= Reach(segmented)
  {
    if image == [] then []
    else
      var at := base + |image| - 1;
      Listing(base, image[..|image| - 1], segmented)
      + [Upper(at, segmented), Record(Lower(at, segmented), DATA_RECORD, [image[|image| - 1]])]
  }

  lemma UpperAddress(records: seq<Record>, address: nat, segmented: bool)
    requires address < Reach(segmented)
    ensures Segment(records + [Upper(address, segmented)]) + Lower(address, segmented) == address
  {
    assert (records + [Upper(address, segmented)])[..|records|] == records;
  }

  lemma PutsOfTwo(records: seq<Record>, address: nat, segmented: bool, b: byte, k: nat, a: nat)
    requires address < Reach(segmented)
    ensures var all := records + [Upper(address, segmented), Record(Lower(address, segmented), DATA_RECORD, [b])];
            && (k < |records| ==> Puts(all, k, a) == Puts(records, k, a) && AddressOf(all, k) == AddressOf(records, k) && all[k] == records[k])
            && (k >= |records| ==> (Puts(all, k, a) <==> k == |records| + 1 && a == address))
            && AddressOf(all, |records| + 1) == address && all[|records| + 1].data == [b]
  {
    hide Segment, Lower;
    var all := records + [Upper(address, segmented), Record(Lower(address, segmented), DATA_RECORD, [b])];
    UpperAddress(records, address, segmented);
    assert all[..|records| + 1] == records + [Upper(address, segmented)];
    if k < |records| {
      assert all[..k] == records[..k];
    }
  }

  lemma CoversStep(records: seq<Record>, base: nat, image: Data, segmented: bool)
    requires image != [] && base + |image| <= Reach(segmented) && Covers(records, base, image[..|image| - 1])
    ensures var at := base + |image| - 1;
            Covers(records + [Upper(at, segmented), Record(Lower(at, segmented), DATA_RECORD, [image[|image| - 1]])], base, image)
  {
    hide Puts, AddressOf, Upper, Lower;
    var at, last, front := base + |image| - 1, image[|image| - 1], image[..|image| - 1];
    var all := records + [Upper(at, segmented), Record(Lower(at, segmented), DATA_RECORD, [last])];
    forall k: nat, a: nat | Puts(all, k, a)
      ensures k < |all| && AddressOf(all, k) <= a < AddressOf(all, k) + |all[k].data|
      ensures base <= a < base + |image| && all[k].data[a - AddressOf(all, k)] == image[a - base]
    {
      PutsInside(all, k, a);
      PutsOfTwo(records, at, segmented, last, k, a);
    }
    forall a: nat | base <= a < base + |image| ensures IsPut(all, a) {
      PutsOfTwo(records, at, segmented, last, |records| + 1, a);
      if a < at {
        assert IsPut(records, a);
        var k: nat :| Puts(records, k, a);
        PutsInside(records, k, a);
        PutsOfTwo(records, at, segmented, last, k, a);
      }
    }
  }

  lemma PutsInside(records: seq<Record>, k: nat, a: nat)
    requires Puts(records, k, a)
    ensures k < |records| && AddressOf(records, k) <= a < AddressOf(records, k) + |records[k].data|
  {
  }

  lemma {:induction false} ListingCovers(base: nat, image: Data, segmented: bool)
    requires base + |image| <= Reach(segmented)
    ensures Covers(Listing(base, image, segmented), base, image)
    ensures forall r :: r in Listing(base, image, segmented) ==> Writable(r) && r.kind != EOF_RECORD
  {
    hide Covers;
    if image == [] {
      NothingCovers(base);
    } else {
      ListingCovers(base, image[..|image| - 1], segmented);
      CoversStep(Listing(base, image[..|image| - 1], segmented), base, image, segmented);
    }
  }

  lemma NothingCovers(base: nat)
    ensures Covers([], base, [])
  {
  }

  // What the segment is.

  predicate SetsSegment(r: Record) {
    (r.kind == LINEAR_RECORD || r.kind == SEGMENT_RECORD) && |r.data| == 2
  }

  /** The last record that sets a segment decides: its two bytes, times 65536 in the one kind and 16 in the other. */
  lemma {:induction false} SegmentOfLast(records: seq<Record>, m: nat)
    requires m < |records| && SetsSegment(records[m])
    requires forall k :: m < k < |records| ==> !SetsSegment(records[k])
    ensures Segment(records) == FromBE(records[m].data) * if records[m].kind == 0x04 then 0x1_0000 else 0x10
    decreases |records|
  {
    var front, last := records[..|records| - 1], records[|records| - 1];
    if m < |front| {
      SegmentOfLast(front, m);
    } else {
      PairOfBytes(last.data);
    }
  }

  lemma PairOfBytes(data: Data)
    requires |data| == 2
    ensures FromBE(data) == 256 * data[0] as int + data[1] as int
  {
    assert data[..1][..0] == [] && data[..1][0] == data[0];
    assert FromBE(data[..1]) == data[0];
  }

  lemma {:induction false} NoSegment(records: seq<Record>)
    requires forall r :: r in records ==> !SetsSegment(r)
    ensures Segment(records) == 0
  {
    if records != [] {
      assert records[|records| - 1] in records;
      NoSegment(records[..|records| - 1]);
    }
  }

  // Where the file ends.

  /** Nothing behind the end record is looked at. */
  lemma {:induction false} EndRecordEnds(records: seq<Record>, later: seq<Line>)
    requires forall r :: r in records ==> Writable(r) && r.kind != EOF_RECORD
    ensures Scan(ToFile(records) + later) == Records(records)
  {
    hide Decode;
    var file := ToFile(records) + later;
    if records == [] {
      LineDecodes(EndRecord);
      assert file[0] == ToLine(EndRecord);
    } else {
      LineDecodes(records[0]);
      EndRecordEnds(records[1..], later);
      assert file[0] == ToLine(records[0]) && file[1..] == ToFile(records[1..]) + later;
      assert [records[0]] + records[1..] == records;
    }
  }

  /** A file whose good lines run out before the end record is rejected as cut short. */
  lemma {:induction false} CutShort(lines: seq<Line>)
    requires forall l :: l in lines ==> Decode(l).Good? && Decode(l).record.kind != EOF_RECORD
    ensures Scan(lines) == Broken(NoEndRecord)
  {
    hide Decode;
    if lines != [] {
      CutShort(lines[1..]);
    }
  }
}
