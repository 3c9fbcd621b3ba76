/** The signature record of an image, from its text to the board, and the version field of END_UPDATE. */
module SignatureRecord {
  import opened Bytes
  import opened CanBus
  import opened FlashSpec
  import opened Lockstep
  import opened TraceSafety
  import opened Wrappers

  const RECORD_DIGITS: nat := 152

  // The text.

  function DigitValue(c: char): Option<nat> {
    if '0' <= c <= '9' then Some(c as int - '0' as int)
    else if 'a' <= c <= 'f' then Some(c as int - 'a' as int + 10)
    else if 'A' <= c <= 'F' then Some(c as int - 'A' as int + 10)
    else None
  }

  predicate IsHex(text: string) {
    forall c :: c in text ==> DigitValue(c).Some?
  }

  predicate IsSpace(c: char) {
    c == ' ' || c == '\t' || c == '\n' || c == '\r'
  }

  function Strip(text: string): string {
    if text != [] && IsSpace(text[0]) then Strip(text[1..])
    else if text != [] && IsSpace(text[|text| - 1]) then Strip(text[..|text| - 1])
    else text
  }

  /** bytes.fromhex, on digits only. */
  function FromHex(text: string): (data: Data)
    requires IsHex(text) && |text| % 2 == 0
    ensures |data| == |text| / 2
  {
    if text == [] then []
    else
      var high, low := DigitValue(text[0]).value, DigitValue(text[1]).value;
      assert DigitRange(text[0]) && DigitRange(text[1]);
      [16 * high + low] + FromHex(text[2..])
  }

  predicate DigitRange(c: char) {
    DigitValue(c).Some? ==> DigitValue(c).value < 16
  }

  /** The text of a .imgsig file; None where the flasher reports that it is not a record. */
  function ParseRecord(text: string): Option<Data> {
    var digits := Strip(text);
    if |digits| == RECORD_DIGITS && IsHex(digits) then Some(FromHex(digits)) else None
  }

  /** The digit of a value, in either case. */
  function Digit(value: nat, upper: bool): char
    requires value < 16
  {
    if value < 10 then '0' + value as char
    else if upper then 'A' + (value - 10) as char
    else 'a' + (value - 10) as char
  }

  /** The digits of some bytes, each in the case chosen for it. */
  function ToHex(data: Data, upper: seq<bool>): (text: string)
    requires |upper| == 2 * |data|
    ensures |text| == 2 * |data|
  {
    if data == [] then []
    else [Digit(data[0] / 16, upper[0]), Digit(data[0] % 16, upper[1])] + ToHex(data[1..], upper[2..])
  }

  lemma DigitOfValue(value: nat, upper: bool)
    requires value < 16
    ensures DigitValue(Digit(value, upper)) == Some(value) && !IsSpace(Digit(value, upper))
  {
  }

  lemma ValueOfDigit(c: char)
    requires DigitValue(c).Some?
    ensures DigitValue(c).value < 16 && Digit(DigitValue(c).value, 'A' <= c <= 'F') == c && !IsSpace(c)
  {
  }

  lemma {:induction false} HexRoundTrip(data: Data, upper: seq<bool>)
    requires |upper| == 2 * |data|
    ensures IsHex(ToHex(data, upper)) && FromHex(ToHex(data, upper)) == data
    ensures forall c :: c in ToHex(data, upper) ==> !IsSpace(c)
  {
    hide DigitValue, Digit, IsSpace;
    if data != [] {
      DigitOfValue(data[0] / 16, upper[0]);
      DigitOfValue(data[0] % 16, upper[1]);
      HexRoundTrip(data[1..], upper[2..]);
      var text := ToHex(data, upper);
      assert text[2..] == ToHex(data[1..], upper[2..]);
      assert 16 * (data[0] / 16) + data[0] % 16 == data[0];
      assert [data[0]] + data[1..] == data;
    }
  }

  predicate Blank(text: string) {
    forall c :: c in text ==> IsSpace(c)
  }

  lemma {:induction false} StripBlanks(before: string, digits: string, after: string)
    requires Blank(before) && Blank(after) && digits != [] && !IsSpace(digits[0]) && !IsSpace(digits[|digits| - 1])
    ensures Strip(before + digits + after) == digits
    decreases |before| + |after|
  {
    hide IsSpace;
    var text := before + digits + after;
    if before != [] {
      assert text[0] == before[0] && text[1..] == before[1..] + digits + after;
      StripBlanks(before[1..], digits, after);
    } else if after != [] {
      assert text[0] == digits[0];
      assert text[|text| - 1] == after[|after| - 1] && text[..|text| - 1] == before + digits + after[..|after| - 1];
      StripBlanks(before, digits, after[..|after| - 1]);
    } else {
      assert text == digits;
    }
  }

  /** Every spelling of a record, in either case and with white space around it, is read as that record. */
  lemma RecordIsRead(record: Data, upper: seq<bool>, before: string, after: string)
    requires |record| == RECORD_BYTES && |upper| == RECORD_DIGITS && Blank(before) && Blank(after)
    ensures ParseRecord(before + ToHex(record, upper) + after) == Some(record)
  {
    hide IsSpace;
    HexRoundTrip(record, upper);
    StripBlanks(before, ToHex(record, upper), after);
  }

  lemma {:induction false} HexIsSpelled(text: string) returns (upper: seq<bool>)
    requires IsHex(text) && |text| % 2 == 0
    ensures |upper| == |text| && ToHex(FromHex(text), upper) == text
  {
    hide DigitValue, Digit, IsSpace;
    if text == [] {
      upper := [];
    } else {
      ValueOfDigit(text[0]);
      ValueOfDigit(text[1]);
      var rest := HexIsSpelled(text[2..]);
      upper := ['A' <= text[0] <= 'F', 'A' <= text[1] <= 'F'] + rest;
      var data := FromHex(text);
      assert data[1..] == FromHex(text[2..]) && upper[2..] == rest;
      var high, low := DigitValue(text[0]).value, DigitValue(text[1]).value;
      Nibbles(high, low);
      assert text == [text[0], text[1]] + text[2..];
    }
  }

  lemma Nibbles(high: nat, low: nat)
    requires high < 16 && low < 16
    ensures (16 * high + low) / 16 == high && (16 * high + low) % 16 == low
  {
  }

  /** And nothing else is: what is read as a record is a spelling of it. */
  lemma OnlyRecordsAreRead(text: string)
    requires ParseRecord(text).Some?
    ensures |ParseRecord(text).value| == RECORD_BYTES
    ensures exists upper: seq<bool> :: |upper| == RECORD_DIGITS && Strip(text) == ToHex(ParseRecord(text).value, upper)
  {
    var upper := HexIsSpelled(Strip(text));
  }

  // The frames.

  /** A receiver that writes the seven bytes of a frame where its index says. */
  function Assemble(frames: seq<Frame>): (buffer: Data)
    ensures |buffer| == 7 * RECORD_CHUNKS
  {
    if frames == [] then seq(7 * RECORD_CHUNKS, _ => 0)
    else Place(Assemble(frames[..|frames| - 1]), frames[|frames| - 1])
  }

  function Place(buffer: Data, f: Frame): (buffer': Data)
    requires |buffer| == 7 * RECORD_CHUNKS
    ensures |buffer'| == |buffer|
  {
    if |f.data| == 8 && f.data[0] < RECORD_CHUNKS then
      buffer[..7 * f.data[0]] + f.data[1..] + buffer[7 * f.data[0] + 7..]
    else buffer
  }

  predicate FramesOf(frames: seq<Frame>, id: nat, record: Data)
    requires |record| == RECORD_BYTES
  {
    forall f :: f in frames ==> exists i: nat :: i < RECORD_CHUNKS && f == RecordFrame(id, record, i)
  }

  /** Chunk i has arrived. */
  predicate Arrived(frames: seq<Frame>, id: nat, record: Data, i: nat)
    requires |record| == RECORD_BYTES && i < RECORD_CHUNKS
  {
    RecordFrame(id, record, i) in frames
  }

  /** Seven bytes written at `at` change no others. */
  lemma Overwrites(buffer: Data, chunk: Data, at: nat, from: nat)
    requires |chunk| == 7 && at + 7 <= |buffer| && from + 7 <= |buffer| && (from == at || from + 7 <= at || at + 7 <= from)
    ensures (buffer[..at] + chunk + buffer[at + 7..])[from..from + 7] == if from == at then chunk else buffer[from..from + 7]
  {
    var after := buffer[..at] + chunk + buffer[at + 7..];
    var expected := if from == at then chunk else buffer[from..from + 7];
    var slice := after[from..from + 7];
    forall k | 0 <= k < 7 ensures slice[k] == expected[k] {
      assert slice[k] == after[from + k];
    }
    assert slice == expected;
  }

  lemma ChunkOf(id: nat, record: Data, i: nat)
    requires |record| == RECORD_BYTES && i < RECORD_CHUNKS
    ensures var f := RecordFrame(id, record, i);
            |f.data| == 8 && f.data[0] == i && f.data[1..] == (record + [0])[7 * i..7 * i + 7]
  {
  }

  lemma PlaceWrites(buffer: Data, id: nat, record: Data, i: nat, j: nat)
    requires |buffer| == 7 * RECORD_CHUNKS && |record| == RECORD_BYTES && i < RECORD_CHUNKS && j < RECORD_CHUNKS
    ensures var after := Place(buffer, RecordFrame(id, record, i));
            after[7 * j..7 * j + 7] == if i == j then (record + [0])[7 * j..7 * j + 7] else buffer[7 * j..7 * j + 7]
  {
    hide RecordFrame;
    ChunkOf(id, record, i);
    Overwrites(buffer, RecordFrame(id, record, i).data[1..], 7 * i, 7 * j);
  }

  lemma {:induction false} ArrivedIsPlaced(frames: seq<Frame>, id: nat, record: Data, j: nat)
    requires |record| == RECORD_BYTES && j < RECORD_CHUNKS && FramesOf(frames, id, record) && Arrived(frames, id, record, j)
    ensures Assemble(frames)[7 * j..7 * j + 7] == (record + [0])[7 * j..7 * j + 7]
  {
    hide RecordFrame, Place;
    var front, last := frames[..|frames| - 1], frames[|frames| - 1];
    assert last in frames;
    assert forall f :: f in front ==> f in frames;
    var i: nat :| i < RECORD_CHUNKS && last == RecordFrame(id, record, i);
    PlaceWrites(Assemble(front), id, record, i, j);
    if i != j {
      DifferentChunks(id, record, i, j);
      ArrivedIsPlaced(front, id, record, j);
    }
  }

  lemma DifferentChunks(id: nat, record: Data, i: nat, j: nat)
    requires |record| == RECORD_BYTES && i < RECORD_CHUNKS && j < RECORD_CHUNKS && i != j
    ensures RecordFrame(id, record, i) != RecordFrame(id, record, j)
  {
    assert RecordFrame(id, record, i).data[0] == i && RecordFrame(id, record, j).data[0] == j;
  }

  /** The record is rebuilt once every chunk has arrived, in any order and however often. */
  lemma RecordRebuilt(frames: seq<Frame>, id: nat, record: Data)
    requires |record| == RECORD_BYTES && FramesOf(frames, id, record)
    requires forall i: nat :: i < RECORD_CHUNKS ==> Arrived(frames, id, record, i)
    ensures Assemble(frames)[..RECORD_BYTES] == record
  {
    hide Arrived, Assemble, FramesOf;
    var buffer, padded := Assemble(frames), record + [0];
    forall k: nat | k < RECORD_BYTES ensures buffer[k] == record[k] {
      var j := k / 7;
      assert Arrived(frames, id, record, j);
      ArrivedIsPlaced(frames, id, record, j);
      assert buffer[k] == buffer[7 * j..7 * j + 7][k - 7 * j];
      assert padded[k] == padded[7 * j..7 * j + 7][k - 7 * j];
    }
  }

  /** The last frame has six bytes of the record and one of nought. */
  lemma LastRecordFrame(id: nat, record: Data)
    requires |record| == RECORD_BYTES
    ensures RecordFrame(id, record, RECORD_CHUNKS - 1) == Frame(id, [10] + record[70..] + [0])
  {
    assert (record + [0])[70..77] == record[70..] + [0];
  }

  /** The frames _send_record sends are such frames, all eleven of them. */
  lemma {:induction false} SentRecordIsComplete(job: Job, n: nat)
    requires WellFormedJob(job) && job.record.Some? && n <= RECORD_CHUNKS
    ensures FramesOf(Records(job, n), SIGNATURE_CHUNK, job.record.value)
    ensures forall i: nat :: i < n ==> Arrived(Records(job, n), SIGNATURE_CHUNK, job.record.value, i)
  {
    hide RecordFrame;
    if n != 0 {
      SentRecordIsComplete(job, n - 1);
      var front, last := Records(job, n - 1), RecordFrame(SIGNATURE_CHUNK, job.record.value, n - 1);
      assert Records(job, n) == front + [last];
      forall i: nat | i < n ensures Arrived(Records(job, n), SIGNATURE_CHUNK, job.record.value, i) {
        assert i < n - 1 ==> Arrived(front, SIGNATURE_CHUNK, job.record.value, i);
      }
    }
  }

  // The HMAC and the end frame.

  function Joined(frames: seq<Frame>): Data {
    if frames == [] then [] else Joined(frames[..|frames| - 1]) + frames[|frames| - 1].data
  }

  lemma JoinedStep(frames: seq<Frame>, f: Frame)
    ensures Joined(frames + [f]) == Joined(frames) + f.data
  {
    assert (frames + [f])[..|frames|] == frames;
  }

  lemma PrefixStep(data: Data, from: nat, to: nat)
    requires from <= to <= |data|
    ensures data[..from] + data[from..to] == data[..to]
  {
  }

  /** The HMAC chunks, one after another, are the signature. */
  lemma {:induction false} HmacChunksJoin(job: Job, n: nat)
    requires WellFormedJob(job) && job.signature.Some? && n <= HMAC_CHUNKS
    ensures Joined(Hmacs(job, n)) == job.signature.value[..8 * n]
  {
    hide Joined;
    if n == 0 {
      NothingJoined();
    } else {
      HmacChunksJoin(job, n - 1);
      JoinedStep(Hmacs(job, n - 1), HmacFrame(job.signature.value, n - 1));
      PrefixStep(job.signature.value, 8 * (n - 1), 8 * n);
    }
  }

  lemma NothingJoined()
    ensures Joined([]) == []
  {
  }

  /** What a board reads off END_UPDATE: the CRC, the major and the minor field, while these fit. */
  lemma EndFrameDecodes(job: Job, field: nat)
    requires WellFormedJob(job) && job.major < 0x1_0000 && field < 0x1_0000
    ensures var data := EndFrame(job, field).data;
            EndFrame(job, field).id == 0x7F4 && |data| == 8 && FromBE(data[..4]) == job.crc32 && FromBE(data[4..6]) == job.major && FromBE(data[6..8]) == field
  {
    hide FromBE;
    assert Pow256(4) == 0x1_0000_0000 && Pow256(2) == 0x1_0000;
    var data := EndFrame(job, field).data;
    assert data[..4] == ToBE(job.crc32, 4) && data[4..6] == ToBE(job.major, 2) && data[6..8] == ToBE(field, 2);
    FromToBE(job.crc32, 4);
    FromToBE(job.major, 2);
    FromToBE(field, 2);
  }

  /** START_UPDATE reads back as the size of the image and the hardware it is for. */
  lemma StartFrameDecodes(job: Job)
    requires GoodJob(job)
    ensures var data := StartFrame(job).data;
            StartFrame(job).id == 0x7F1 && |data| == 8 && FromBE(data[..4]) == |job.firmware| && FromBE(data[4..]) == job.hardwareId
  {
    hide FromBE, ToBE;
    assert Pow256(4) == 0x1_0000_0000;
    var data := StartFrame(job).data;
    assert data[..4] == ToBE(|job.firmware|, 4) && data[4..] == ToBE(job.hardwareId, 4);
    FromToBE(|job.firmware|, 4);
    FromToBE(job.hardwareId, 4);
  }

  // The minor field of END_UPDATE.

  /** A bootloader that knows patches: the flag in the high byte says that there is one. */
  function DecodeMinor(field: nat): (nat, Option<nat>) {
    if (field / 256) % 256 >= PATCH_FLAG then (field % 256, Some(field / 256 % 256 - PATCH_FLAG)) else (field, None)
  }

  /** The field survives the trip exactly when the minor fits in a byte. */
  lemma PatchedFieldDecodes(minor: nat, patch: nat)
    requires patch <= 0x7F
    ensures EndMinorField(minor, Some(patch), true) < 0x1_0000
    ensures DecodeMinor(EndMinorField(minor, Some(patch), true)) == (minor, Some(patch)) <==> minor <= 0xFF
  {
    var field := EndMinorField(minor, Some(patch), true);
    assert field == 256 * (PATCH_FLAG + patch) + minor % 256;
    assert field / 256 == PATCH_FLAG + patch && field % 256 == minor % 256;
  }

  /** A bootloader that did not say it reads patches gets the plain minor; it is never taken for a patch below 0x8000. */
  lemma LegacyFieldIsPlain(minor: nat, patch: Option<nat>, accepts: bool)
    requires !accepts || patch.None? || patch.value > 0x7F
    ensures EndMinorField(minor, patch, accepts) == minor
    ensures minor < 0x8000 ==> DecodeMinor(EndMinorField(minor, patch, accepts)) == (minor, None)
  {
    if minor < 0x8000 {
      assert minor / 256 < 0x80;
    }
  }
}
