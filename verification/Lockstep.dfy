/**
 The accounting of an update against an arbitrary bus: the bytes sent are the
 bytes of the image, each once and in order; END_UPDATE comes after all of them,
 in as many frames as the plan announces; and no page is begun before every page
 before it was acknowledged, in order.
 */
module Lockstep {
  import opened Bytes
  import opened CanBus
  import opened VersionQuery
  import opened FlashSpec
  import opened TraceSafety
  import opened Wrappers

  /** The payloads of the data frames, one after another. */
  function Payload(frames: seq<Frame>): Data {
    if frames == [] then []
    else
      var last := frames[|frames| - 1];
      Payload(frames[..|frames| - 1]) + if last.id == DATA then last.data else []
  }

  function DataFrameCount(frames: seq<Frame>): nat {
    if frames == [] then 0
    else DataFrameCount(frames[..|frames| - 1]) + if frames[|frames| - 1].id == DATA then 1 else 0
  }

  /** The frame count of the plan, -(-size // 8): Python's // rounds down, as / does here. */
  function PlannedFrames(size: nat): int {
    if size > 0 then 0 - ((0 - size) / 8) else 0
  }

  /** The page indices acknowledged since the first data frame, in the order they were read. */
  function Acks(log: seq<Event>): seq<nat> {
    if log == [] then []
    else
      var front, last := log[..|log| - 1], log[|log| - 1];
      if last.Read? && last.frame.id == PAGE_ACK && |last.frame.data| >= 4 && Payload(Sends(front)) != []
      then Acks(front) + [FromBE(last.frame.data[..4])]
      else Acks(front)
  }

  /** 0, 1, ..., n - 1 */
  function UpTo(n: nat): seq<nat> {
    seq(n, i => i)
  }

  lemma PlanCountsChunks(size: nat)
    ensures PlannedFrames(size) == Chunks(size)
  {
  }

  lemma {:induction false} PayloadConcat(a: seq<Frame>, b: seq<Frame>)
    ensures Payload(a + b) == Payload(a) + Payload(b)
    ensures DataFrameCount(a + b) == DataFrameCount(a) + DataFrameCount(b)
  {
    if b == [] {
      assert a + b == a;
    } else {
      PayloadConcat(a, b[..|b| - 1]);
      assert (a + b)[..|a + b| - 1] == a + b[..|b| - 1];
    }
  }

  lemma PayloadOne(f: Frame)
    ensures Payload([f]) == if f.id == DATA then f.data else []
    ensures DataFrameCount([f]) == if f.id == DATA then 1 else 0
  {
    assert [f][..0] == [];
  }

  predicate Without(frames: seq<Frame>, id: nat) {
    forall i :: 0 <= i < |frames| ==> frames[i].id != id
  }

  lemma {:induction false} NoPayload(frames: seq<Frame>)
    requires Without(frames, DATA)
    ensures Payload(frames) == [] && DataFrameCount(frames) == 0
  {
    if frames != [] {
      NoPayload(frames[..|frames| - 1]);
    }
  }

  lemma {:induction false} RecordsWithout(job: Job, n: nat, id: nat)
    requires WellFormedJob(job) && job.record.Some? && n <= RECORD_CHUNKS && id != SIGNATURE_CHUNK
    ensures Without(Records(job, n), id)
  {
    if n != 0 {
      RecordsWithout(job, n - 1, id);
    }
  }

  lemma {:induction false} HmacsWithout(job: Job, n: nat, id: nat)
    requires WellFormedJob(job) && job.signature.Some? && n <= HMAC_CHUNKS && id != HMAC_CHUNK
    ensures Without(Hmacs(job, n), id)
  {
    if n != 0 {
      HmacsWithout(job, n - 1, id);
    }
  }

  lemma {:induction false} DataFramesWithout(firmware: Data, n: nat, id: nat)
    requires n <= Chunks(|firmware|) && id != DATA
    ensures Without(DataFrames(firmware, n), id)
  {
    if n != 0 {
      DataFramesWithout(firmware, n - 1, id);
    }
  }

  lemma OpeningWithout(job: Job, id: nat)
    requires WellFormedJob(job) && id != START_UPDATE && id != SIGNATURE_CHUNK && id != HMAC_CHUNK
    ensures Without(Opening(job), id)
  {
    hide Records, Hmacs;
    if job.record.Some? {
      RecordsWithout(job, RECORD_CHUNKS, id);
    }
    if job.signature.Some? {
      HmacsWithout(job, HMAC_CHUNKS, id);
    }
  }

  function Min(a: nat, b: nat): nat {
    if a <= b then a else b
  }

  /** One more chunk on the grid. */
  lemma ChunkJoin(firmware: Data, n: nat)
    requires 0 < n <= Chunks(|firmware|)
    ensures 8 * (n - 1) < |firmware| && DataFrame(firmware, 8 * (n - 1)).id == DATA
    ensures firmware[..8 * (n - 1)] + DataFrame(firmware, 8 * (n - 1)).data == firmware[..Min(8 * n, |firmware|)]
  {
    var from, to := 8 * (n - 1), Min(8 * n, |firmware|);
    assert ChunkEnd(|firmware|, from) == to;
    assert firmware[..to][..from] == firmware[..from] && firmware[..to][from..] == firmware[from..to];
  }

  lemma {:induction false} DataFramesPayload(firmware: Data, n: nat)
    requires n <= Chunks(|firmware|)
    ensures Payload(DataFrames(firmware, n)) == firmware[..Min(8 * n, |firmware|)]
    ensures DataFrameCount(DataFrames(firmware, n)) == n
  {
    hide DataFrame, Chunks, Payload, DataFrameCount;
    if n == 0 {
      NoPayload([]);
    } else {
      ChunkJoin(firmware, n);
      DataFramesPayload(firmware, n - 1);
      var frame := DataFrame(firmware, 8 * (n - 1));
      PayloadConcat(DataFrames(firmware, n - 1), [frame]);
      PayloadOne(frame);
    }
  }

  /** What the opening and n data frames carry. */
  lemma OpenedPayload(job: Job, n: nat)
    requires WellFormedJob(job) && n <= Chunks(|job.firmware|)
    ensures var sends := Opening(job) + DataFrames(job.firmware, n);
            && Payload(sends) == job.firmware[..Min(8 * n, |job.firmware|)]
            && DataFrameCount(sends) == n
  {
    hide Opening, DataFrames;
    OpeningWithout(job, DATA);
    NoPayload(Opening(job));
    PayloadConcat(Opening(job), DataFrames(job.firmware, n));
    DataFramesPayload(job.firmware, n);
  }

  lemma ScriptPayload(job: Job, field: nat)
    requires WellFormedJob(job)
    ensures var whole := Script(job, field) + [QueryFrame];
            && Payload(whole) == job.firmware && DataFrameCount(whole) == Chunks(|job.firmware|)
  {
    hide Opening, DataFrames, ToBE;
    var n := Chunks(|job.firmware|);
    OpenedPayload(job, n);
    var head, whole := Transferred(job), Script(job, field) + [QueryFrame];
    assert head <= whole;
    var tail := whole[|head|..];
    assert Without(tail, DATA);
    NoPayload(tail);
    PayloadConcat(head, tail);
    assert whole == head + tail;
    assert job.firmware[..Min(8 * n, |job.firmware|)] == job.firmware;
  }

  lemma PrefixPayload(part: seq<Frame>, whole: seq<Frame>)
    requires part <= whole
    ensures Payload(part) <= Payload(whole) && DataFrameCount(part) <= DataFrameCount(whole)
  {
    assert whole == part + whole[|part|..];
    PayloadConcat(part, whole[|part|..]);
  }

  lemma AskedWithoutEnd(job: Job)
    requires WellFormedJob(job)
    ensures Without(Asked(job), END_UPDATE)
  {
    hide Opening, DataFrames;
    OpeningWithout(job, END_UPDATE);
    DataFramesWithout(job.firmware, Chunks(|job.firmware|), END_UPDATE);
  }

  lemma AskedPayload(job: Job)
    requires WellFormedJob(job)
    ensures Payload(Asked(job)) == job.firmware && DataFrameCount(Asked(job)) == Chunks(|job.firmware|)
  {
    hide Opening, DataFrames;
    var n := Chunks(|job.firmware|);
    OpenedPayload(job, n);
    var head, tail := Transferred(job), Asked(job)[|Transferred(job)|..];
    assert Without(tail, DATA);
    NoPayload(tail);
    PayloadConcat(head, tail);
    assert Asked(job) == head + tail;
    assert job.firmware[..Min(8 * n, |job.firmware|)] == job.firmware;
  }

  /** In the script END_UPDATE stands in one place, behind all the data. */
  lemma EndIsBehindTheData(job: Job, field: nat, sends: seq<Frame>, i: nat)
    requires WellFormedJob(job) && sends <= Script(job, field) + [QueryFrame]
    requires i < |sends| && sends[i].id == END_UPDATE
    ensures Payload(sends[..i]) == job.firmware && DataFrameCount(sends[..i]) == Chunks(|job.firmware|)
  {
    hide Asked;
    AskedWithoutEnd(job);
    var whole := Script(job, field) + [QueryFrame];
    assert sends[i] == whole[i];
    assert forall k :: 0 <= k < |Asked(job)| ==> whole[k] == Asked(job)[k];
    assert i == |Asked(job)|;
    assert sends[..i] == whole[..i] == Asked(job);
    AskedPayload(job);
  }

  /**
   Each byte of the image is sent once and in order, whatever happens; END_UPDATE
   is sent only behind the whole image, and then the data frames are as many as planned.
   */
  lemma BytesSentInOrder(job: Job, log: seq<Event>)
    requires GoodJob(job) && Run(job, Begin, log) != Illegal
    ensures Payload(Sends(log)) <= job.firmware
    ensures DataFrameCount(Sends(log)) <= PlannedFrames(|job.firmware|)
    ensures forall i: nat :: i < |Sends(log)| && Sends(log)[i].id == END_UPDATE ==>
              Payload(Sends(log)[..i]) == job.firmware && DataFrameCount(Sends(log)[..i]) == PlannedFrames(|job.firmware|)
  {
    hide Next, Run, Script, AllowedField, Payload, DataFrameCount;
    SentIsScriptPrefix(job, log);
    var field: nat :| PartOfScript(job, Sends(log), field);
    ScriptPayload(job, field);
    PrefixPayload(Sends(log), Script(job, field) + [QueryFrame]);
    PlanCountsChunks(|job.firmware|);
    forall i: nat | i < |Sends(log)| && Sends(log)[i].id == END_UPDATE
      ensures Payload(Sends(log)[..i]) == job.firmware && DataFrameCount(Sends(log)[..i]) == PlannedFrames(|job.firmware|)
    {
      EndIsBehindTheData(job, field, Sends(log), i);
    }
  }

  // Lockstep.

  /** The bytes sent and the acknowledgements read when the host is in state h. */
  predicate InStep(h: Host, sent: nat, acks: seq<nat>) {
    match h
    case Begin => sent == 0 && acks == []
    case AwaitReceiving => sent == 0 && acks == []
    case RecordFrames(_) => sent == 0 && acks == []
    case HmacFrames(_) => sent == 0 && acks == []
    case PageData(offset) => sent == offset && acks == UpTo(offset / PAGE)
    case AwaitAck(offset, _) => sent == offset && offset >= PAGE && acks == UpTo(offset / PAGE - 1)
    case _ => true
  }

  /** The acknowledgement an event adds, if data was sent before it. */
  function AckOf(e: Event, sent: nat): seq<nat> {
    if e.Read? && e.frame.id == PAGE_ACK && |e.frame.data| >= 4 && sent > 0 then [FromBE(e.frame.data[..4])] else []
  }

  function SentBytes(e: Event): nat {
    if e.Sent? && e.frame.id == DATA then |e.frame.data| else 0
  }

  lemma ObserveStep(log: seq<Event>, e: Event)
    ensures Acks(log + [e]) == Acks(log) + AckOf(e, |Payload(Sends(log))|)
    ensures |Payload(Sends(log + [e]))| == |Payload(Sends(log))| + SentBytes(e)
  {
    hide FromBE;
    assert (log + [e])[..|log|] == log;
    SendsStep(log, e);
    if e.Sent? {
      PayloadConcat(Sends(log), [e.frame]);
      PayloadOne(e.frame);
    } else {
      assert Sends(log) + [] == Sends(log);
    }
  }

  lemma UpToStep(n: nat)
    ensures UpTo(n) + [n] == UpTo(n + 1)
  {
  }

  lemma OpeningInStep(job: Job, h: Host, e: Event)
    requires GoodJob(job) && ValidHost(job, h)
    requires h.Begin? || h.AwaitReceiving? || h.RecordFrames? || h.HmacFrames?
    ensures InStep(Next(job, h, e), SentBytes(e), AckOf(e, 0))
  {
    hide RecordFrame, HmacFrame, StartFrame, Classify, FromBE, ToBE;
    if h.RecordFrames? || h.HmacFrames? || h.Begin? {
      OpeningFrameIds(job, h);
    }
  }

  lemma OpeningFrameIds(job: Job, h: Host)
    requires GoodJob(job) && ValidHost(job, h)
    ensures h.RecordFrames? ==> RecordFrame(SIGNATURE_CHUNK, job.record.value, h.sent).id == SIGNATURE_CHUNK
    ensures h.HmacFrames? ==> HmacFrame(job.signature.value, h.sent).id == HMAC_CHUNK
    ensures h.Begin? ==> StartFrame(job).id == START_UPDATE
  {
  }

  /** Inside a page the number of full pages does not change. */
  lemma SamePage(size: nat, offset: nat)
    requires offset < size && offset % 8 == 0
    ensures ChunkEnd(size, offset) % PAGE != 0 ==> ChunkEnd(size, offset) / PAGE == offset / PAGE
    ensures ChunkEnd(size, offset) % PAGE == 0 ==> ChunkEnd(size, offset) / PAGE - 1 == offset / PAGE && ChunkEnd(size, offset) >= PAGE
  {
    var page, end := offset / PAGE, ChunkEnd(size, offset);
    assert offset == PAGE * page + offset % PAGE;
    assert offset % PAGE <= PAGE - 8 by {
      assert (offset % PAGE) % 8 == 0;
    }
    assert PAGE * page < end <= PAGE * page + PAGE;
  }

  lemma PageDataInStep(job: Job, h: Host, e: Event)
    requires GoodJob(job) && ValidHost(job, h) && h.PageData?
    ensures InStep(Next(job, h, e), h.offset + SentBytes(e), UpTo(h.offset / PAGE) + AckOf(e, h.offset))
  {
    hide UpTo, FromBE;
    if e == Sent(DataFrame(job.firmware, h.offset)) {
      SamePage(|job.firmware|, h.offset);
      ChunkGrid(|job.firmware|, h.offset);
      assert SentBytes(e) == ChunkEnd(|job.firmware|, h.offset) - h.offset;
    }
    assert UpTo(h.offset / PAGE) + [] == UpTo(h.offset / PAGE);
  }

  lemma AwaitAckInStep(job: Job, h: Host, e: Event)
    requires GoodJob(job) && ValidHost(job, h) && h.AwaitAck? && h.offset >= PAGE
    ensures InStep(Next(job, h, e), h.offset + SentBytes(e), UpTo(h.offset / PAGE - 1) + AckOf(e, h.offset))
  {
    hide UpTo, FromBE;
    var page := h.offset / PAGE - 1;
    UpToStep(page);
    assert UpTo(page) + [] == UpTo(page);
  }

  lemma InStepStep(job: Job, h: Host, e: Event, sent: nat, acks: seq<nat>)
    requires GoodJob(job) && ValidHost(job, h) && InStep(h, sent, acks)
    ensures InStep(Next(job, h, e), sent + SentBytes(e), acks + AckOf(e, sent))
  {
    hide SentBytes, AckOf, UpTo;
    match h
    case PageData(_) => PageDataInStep(job, h, e);
    case AwaitAck(_, _) => AwaitAckInStep(job, h, e);
    case Begin => OpeningInStep(job, h, e);
    case AwaitReceiving => OpeningInStep(job, h, e);
    case RecordFrames(_) => OpeningInStep(job, h, e);
    case HmacFrames(_) => OpeningInStep(job, h, e);
    case _ => LaterStaysLater(job, h, e);
  }

  lemma LaterStaysLater(job: Job, h: Host, e: Event)
    requires GoodJob(job) && ValidHost(job, h)
    requires !(h.Begin? || h.AwaitReceiving? || h.RecordFrames? || h.HmacFrames? || h.PageData? || h.AwaitAck?)
    ensures forall sent: nat, acks :: InStep(Next(job, h, e), sent, acks)
  {
    hide Hear, Complete, EndMinorField, EndFrame;
  }

  lemma {:induction false} RunInStep(job: Job, log: seq<Event>)
    requires GoodJob(job)
    ensures InStep(Run(job, Begin, log), |Payload(Sends(log))|, Acks(log))
  {
    hide Next, Payload, UpTo, AckOf, SentBytes;
    if log == [] {
      NoPayload([]);
    } else {
      var front, e := log[..|log| - 1], log[|log| - 1];
      RunInStep(job, front);
      InStepStep(job, Run(job, Begin, front), e, |Payload(Sends(front))|, Acks(front));
      ObserveStep(front, e);
      assert front + [e] == log;
    }
  }

  /**
   Lockstep. When a byte of page k is sent, the acknowledgements read since the data
   began are exactly those of the pages before it, each once and in order; so the
   flasher is never more than one unacknowledged page ahead.
   */
  lemma NoPageAhead(job: Job, log: seq<Event>, i: nat)
    requires GoodJob(job) && Run(job, Begin, log) != Illegal
    requires i < |log| && log[i].Sent? && log[i].frame.id == DATA
    ensures Acks(log[..i]) == UpTo(|Payload(Sends(log[..i]))| / PAGE)
    ensures |Payload(Sends(log[..i]))| + |log[i].frame.data| <= PAGE * (|Acks(log[..i])| + 1)
  {
    hide Run, Next, Payload, UpTo, Acks, Sends;
    LegalPrefix(job, Begin, log, i + 1);
    assert log[..i + 1] == log[..i] + [log[i]];
    NextPage(job, log[..i], log[i].frame);
  }

  lemma NextPage(job: Job, log: seq<Event>, frame: Frame)
    requires GoodJob(job) && frame.id == DATA && Run(job, Begin, log + [Sent(frame)]) != Illegal
    ensures Acks(log) == UpTo(|Payload(Sends(log))| / PAGE)
    ensures |Payload(Sends(log))| + |frame.data| <= PAGE * (|Acks(log)| + 1)
  {
    hide Run, Payload, UpTo, Acks;
    RunStep(job, Begin, log, Sent(frame));
    RunInStep(job, log);
    var h := Run(job, Begin, log);
    OnlyPagesCarryData(job, h, frame);
    SamePage(|job.firmware|, h.offset);
    UpToLength(h.offset / PAGE);
    PageRoom(|job.firmware|, h.offset);
  }

  lemma UpToLength(n: nat)
    ensures |UpTo(n)| == n
  {
  }

  lemma PageRoom(size: nat, offset: nat)
    requires offset < size && offset % 8 == 0
    ensures ChunkEnd(size, offset) <= PAGE * (offset / PAGE + 1)
  {
    assert offset == PAGE * (offset / PAGE) + offset % PAGE;
    assert (offset % PAGE) % 8 == 0;
  }

  lemma OnlyPagesCarryData(job: Job, h: Host, frame: Frame)
    requires GoodJob(job) && ValidHost(job, h) && frame.id == DATA && Next(job, h, Sent(frame)) != Illegal
    ensures h.PageData? && frame == DataFrame(job.firmware, h.offset)
  {
    hide FromBE, ToBE;
    OpeningFrameIds(job, h);
  }
}
