/**
 URTCFlasher.flash and the methods it is made of, on an unconstrained
 environment. Every method returns, as a ghost result, the events it caused;
 Flash is proved to follow FlashSpec.
 */
module Flasher {
  import opened Bytes
  import opened CanBus
  import opened VersionQuery
  import opened FlashSpec
  import opened Wrappers

  /** The log of a wait: nothing but silence and unwanted frames before the event that ended it. */
  predicate WaitLog(log: seq<Event>, expectedId: nat, expectedStatus: Option<byte>, verdict: Verdict) {
    && log != [] && verdict != Keep
    && (forall i :: 0 <= i < |log| - 1 ==> WaitStep(log[i], expectedId, expectedStatus) == Some(Keep))
    && WaitStep(log[|log| - 1], expectedId, expectedStatus) == Some(verdict)
  }

  lemma {:induction false} WaitReceivingRun(job: Job, log: seq<Event>, verdict: Verdict)
    requires GoodJob(job) && WaitLog(log, STATUS, Some(STATUS_RECEIVING), verdict)
    ensures Run(job, AwaitReceiving, log) == if verdict.Answer? then AfterStart(job) else Finished(Failed(verdict.error))
  {
    KeepRun(job, AwaitReceiving, log[..|log| - 1]);
  }

  lemma {:induction false} KeepRun(job: Job, h: Host, log: seq<Event>)
    requires GoodJob(job) && ValidHost(job, h)
    requires h == AwaitReceiving || h.AwaitAck?
    requires forall i :: 0 <= i < |log| ==>
      (if h == AwaitReceiving then WaitStep(log[i], STATUS, Some(STATUS_RECEIVING)) else WaitStep(log[i], PAGE_ACK, None)) == Some(Keep)
    ensures Run(job, h, log) == h
  {
    if log != [] {
      KeepRun(job, h, log[..|log| - 1]);
    }
  }

  lemma {:induction false} WaitAckRun(job: Job, offset: nat, failures: nat, log: seq<Event>, verdict: Verdict)
    requires GoodJob(job) && ValidHost(job, AwaitAck(offset, failures)) && WaitLog(log, PAGE_ACK, None, verdict)
    ensures Run(job, AwaitAck(offset, failures), log) ==
            if verdict.Answer? then AckStep(job, offset, verdict.data)
            else if failures + 1 < ATTEMPTS then AwaitAck(offset, failures + 1) else Finished(Failed(verdict.error))
  {
    KeepRun(job, AwaitAck(offset, failures), log[..|log| - 1]);
  }

  /** The state of a version query after the events of its loop. */
  function Collect(log: seq<Event>): (q: Inquiry)
    ensures WellFormed(q)
  {
    if log == [] then Nothing
    else match log[|log| - 1]
      case Read(f) => Hear(Collect(log[..|log| - 1]), f)
      case _ => Collect(log[..|log| - 1])
  }

  predicate Listened(log: seq<Event>) {
    forall i :: 0 <= i < |log| ==> log[i] == Quiet || log[i].Read?
  }

  predicate NeverComplete(log: seq<Event>) {
    forall n :: 0 <= n <= |log| ==> !Complete(Collect(log[..n]))
  }

  /**
   The log of query_version after its own frame: silence and frames, then the
   deadline or the frame after which nothing more is expected.
   */
  predicate QueryLog(heard: seq<Event>, last: Event, q: Inquiry) {
    && Listened(heard) && NeverComplete(heard)
    && (match last
        case Late => q == Collect(heard)
        case Read(f) => q == Hear(Collect(heard), f) && Complete(q)
        case _ => false)
  }

  /** The loop keeps what the frames read so far say. */
  lemma {:induction false} CollectHearsAll(log: seq<Event>)
    ensures Collect(log) == HearAll(FramesRead(log))
  {
    hide Hear, HearAll;
    if log == [] {
      NothingHeard();
    } else {
      var front, e := log[..|log| - 1], log[|log| - 1];
      CollectHearsAll(front);
      assert FramesRead(front) + [] == FramesRead(front);
      if e.Read? {
        HearAllStep(FramesRead(front), e.frame);
      }
    }
  }

  lemma NothingHeard()
    ensures HearAll([]) == Heed([]) == Nothing
  {
  }

  /** A query that never was complete has heeded all it heard. */
  lemma {:induction false} CollectHeeds(log: seq<Event>)
    requires NeverComplete(log)
    ensures Collect(log) == Heed(FramesRead(log)) && !Complete(Collect(log))
  {
    hide Hear, Heed, Complete;
    assert log[..|log|] == log;
    if log == [] {
      NothingHeard();
    } else {
      var front, e := log[..|log| - 1], log[|log| - 1];
      assert forall n :: 0 <= n <= |front| ==> front[..n] == log[..n];
      CollectHeeds(front);
      assert FramesRead(front) + [] == FramesRead(front);
      if e.Read? {
        HeedStep(FramesRead(front), e.frame);
      }
    }
  }

  /**
   What a query returns: what all the frames it read say, and no less than the loop
   makes of those frames and any that arrived behind them.
   */
  lemma QueryAnswers(heard: seq<Event>, last: Event, q: Inquiry, later: seq<Frame>)
    requires QueryLog(heard, last, q)
    ensures q == HearAll(FramesRead(heard + [last])) == Heed(FramesRead(heard + [last]))
    ensures last.Read? ==> q == Heed(FramesRead(heard + [last]) + later)
  {
    hide Hear, Complete, Heed, HearAll, FramesRead, Collect, NeverComplete;
    CollectHearsAll(heard);
    CollectHeeds(heard);
    FramesReadStep(heard, last);
    var read := FramesRead(heard);
    assert read + [] == read;
    if last.Read? {
      HearAllStep(read, last.frame);
      HeedStep(read, last.frame);
      HeedStops(read + [last.frame], later);
    }
  }

  lemma NeverCompleteAtFirst()
    ensures NeverComplete([]) && Collect([]) == Nothing
  {
  }

  lemma NeverCompleteStep(log: seq<Event>, e: Event)
    requires NeverComplete(log) && (e == Quiet || (e.Read? && !Complete(Hear(Collect(log), e.frame))))
    ensures NeverComplete(log + [e])
    ensures Collect(log + [e]) == if e == Quiet then Collect(log) else Hear(Collect(log), e.frame)
  {
    var all := log + [e];
    assert all[..|log|] == log && all[..|all|] == all && log[..|log|] == log;
    forall n | 0 <= n <= |all| ensures !Complete(Collect(all[..n])) {
      if n <= |log| {
        assert all[..n] == log[..n];
      }
    }
  }

  lemma {:induction false} ListenRun(job: Job, log: seq<Event>, again: bool)
    requires GoodJob(job) && Listened(log) && NeverComplete(log)
    ensures Run(job, Listener(again, Nothing), log) == Listener(again, Collect(log))
  {
    assert log[..|log|] == log;
    if log != [] {
      var front := log[..|log| - 1];
      assert forall n :: 0 <= n <= |front| ==> front[..n] == log[..n];
      ListenRun(job, front, again);
    }
  }

  function Listener(again: bool, q: Inquiry): Host {
    if again then ListeningAgain(q) else Listening(q)
  }

  function AfterListening(job: Job, again: bool, q: Inquiry): Host {
    if again then AfterLastAnswer(q) else AfterAnswer(job, q)
  }

  /** The event that ends a query. */
  lemma ListenEnd(job: Job, again: bool, q: Inquiry, e: Event)
    requires GoodJob(job) && WellFormed(q) && !Complete(q) && (e == Late || e == Quiet || e.Read?)
    ensures Next(job, Listener(again, q), Late) == AfterListening(job, again, q)
    ensures e.Read? && Complete(Hear(q, e.frame)) ==> Next(job, Listener(again, q), e) == AfterListening(job, again, Hear(q, e.frame))
  {
  }

  lemma QueryRun(job: Job, heard: seq<Event>, last: Event, q: Inquiry, again: bool)
    requires GoodJob(job) && QueryLog(heard, last, q)
    ensures Run(job, Listener(again, Nothing), heard + [last]) == AfterListening(job, again, q)
  {
    hide Next;
    ListenRun(job, heard, again);
    ListenEnd(job, again, Collect(heard), last);
    RunStep(job, Listener(again, Nothing), heard, last);
  }

  lemma Started(job: Job)
    requires GoodJob(job)
    ensures Run(job, Begin, [Sent(StartFrame(job))]) == AwaitReceiving
  {
    hide StartFrame;
    RunNothing(job, Begin);
    RunStep(job, Begin, [], Sent(StartFrame(job)));
    assert [] + [Sent(StartFrame(job))] == [Sent(StartFrame(job))];
  }

  function RecordEvents(id: nat, record: Data, n: nat): seq<Event>
    requires |record| == RECORD_BYTES && n <= RECORD_CHUNKS
  {
    if n == 0 then [] else RecordEvents(id, record, n - 1) + [Sent(RecordFrame(id, record, n - 1))]
  }

  lemma {:induction false} RecordRun(job: Job, n: nat)
    requires GoodJob(job) && job.record.Some? && n <= RECORD_CHUNKS
    ensures Run(job, RecordFrames(0), RecordEvents(SIGNATURE_CHUNK, job.record.value, n))
         == if n < RECORD_CHUNKS then RecordFrames(n) else AfterRecord(job)
  {
    hide Next, Run, RecordFrame;
    RunNothing(job, RecordFrames(0));
    if n != 0 {
      RecordRun(job, n - 1);
      RecordStep(job, n - 1);
      RunStep(job, RecordFrames(0), RecordEvents(SIGNATURE_CHUNK, job.record.value, n - 1),
              Sent(RecordFrame(SIGNATURE_CHUNK, job.record.value, n - 1)));
    }
  }

  lemma RecordStep(job: Job, n: nat)
    requires GoodJob(job) && job.record.Some? && n < RECORD_CHUNKS
    ensures Next(job, RecordFrames(n), Sent(RecordFrame(SIGNATURE_CHUNK, job.record.value, n)))
         == if n + 1 < RECORD_CHUNKS then RecordFrames(n + 1) else AfterRecord(job)
  {
  }

  lemma HmacSent(job: Job, i: nat)
    requires GoodJob(job) && job.signature.Some? && i < HMAC_CHUNKS
    ensures Next(job, HmacFrames(i), Sent(HmacFrame(job.signature.value, i))) == AfterHmac(i + 1)
  {
    hide HmacFrame;
  }

  function AfterHmac(sent: nat): Host {
    if sent < HMAC_CHUNKS then HmacFrames(sent) else PageData(0)
  }

  lemma StopAtPage(job: Job, page: nat)
    requires GoodJob(job) && page * PAGE < |job.firmware|
    ensures ValidHost(job, PageData(page * PAGE)) && Next(job, PageData(page * PAGE), Stop) == Finished(Failed(Cancelled))
  {
    PageMultiple(page);
    PagesAreChunks(page * PAGE);
  }

  lemma PageMultiple(page: nat)
    ensures (page * PAGE) % PAGE == 0 && (page * PAGE) / PAGE == page
  {
  }

  /** A chunk inside the page that starts at `offset`: the page boundary is the next place where the host waits. */
  lemma DataStep(job: Job, offset: nat, pos: nat)
    requires GoodJob(job) && offset <= pos < |job.firmware| && pos < offset + PAGE && offset % PAGE == 0 && pos % 8 == 0
    ensures var size := |job.firmware|;
            var pageEnd := if offset + PAGE <= size then offset + PAGE else size;
            var next := if pos + 8 <= pageEnd then pos + 8 else pageEnd;
            && next == ChunkEnd(size, pos) && pos < next && (next < pageEnd ==> next % 8 == 0)
            && Next(job, PageData(pos), Sent(DataFrame(job.firmware, pos))) == if next < pageEnd then PageData(next) else AfterChunk(job, pageEnd)
  {
    hide Next;
    ChunkInPage(|job.firmware|, offset, pos);
    DataSent(job, pos);
    var next := ChunkEnd(|job.firmware|, pos);
    if next < |job.firmware| && next < offset + PAGE {
      BetweenPages(job, offset, next);
    }
  }

  lemma ChunkInPage(size: nat, offset: nat, pos: nat)
    requires offset <= pos < size && pos < offset + PAGE && offset % PAGE == 0 && pos % 8 == 0
    ensures var pageEnd := if offset + PAGE <= size then offset + PAGE else size;
            var next := if pos + 8 <= pageEnd then pos + 8 else pageEnd;
            next == ChunkEnd(size, pos) && pos < next && (next < pageEnd ==> next % 8 == 0)
  {
    PagesAreChunks(offset);
    assert pos + 8 <= offset + PAGE;
  }

  lemma DataSent(job: Job, pos: nat)
    requires GoodJob(job) && pos < |job.firmware| && pos % 8 == 0
    ensures ValidHost(job, PageData(pos))
    ensures Next(job, PageData(pos), Sent(DataFrame(job.firmware, pos))) == AfterChunk(job, ChunkEnd(|job.firmware|, pos))
  {
    ChunkGrid(|job.firmware|, pos);
  }

  lemma BetweenPages(job: Job, offset: nat, next: nat)
    requires offset % PAGE == 0 && offset < next < offset + PAGE && next < |job.firmware|
    ensures AfterChunk(job, next) == PageData(next)
  {
    NotAtBoundary(offset, next);
  }

  lemma NotAtBoundary(offset: nat, x: nat)
    requires offset % PAGE == 0 && offset < x < offset + PAGE
    ensures x % PAGE != 0
  {
  }

  /** The frames after the data, each sent in its own state. */
  lemma FrameSteps(job: Job)
    requires GoodJob(job)
    ensures Next(job, Authorizing, Sent(AuthorizeFrame)) == AfterAuthorize(job)
    ensures Next(job, Asking, Sent(QueryFrame)) == Listening(Nothing)
    ensures Next(job, AskingAgain, Sent(QueryFrame)) == ListeningAgain(Nothing)
    ensures forall field: nat :: Next(job, Ending(field), Sent(EndFrame(job, field))) == Verifying
  {
  }

  lemma VerifySteps(job: Job, e: Event)
    requires GoodJob(job) && !e.Sent?
    ensures Next(job, Verifying, e) == match e
      case Quiet => Verifying
      case Read(f) => FinalVerdict(f)
      case Stop => Finished(Failed(Cancelled))
      case Late => AskingAgain
      case Sent(_) => Illegal
  {
  }

  lemma AttemptIsValid(job: Job, offset: nat, attempt: nat)
    requires ValidHost(job, AwaitAck(offset, 0)) && attempt < ATTEMPTS
    ensures ValidHost(job, AwaitAck(offset, attempt))
  {
  }

  /** Only the first four bytes carry the page index; a longer acknowledgement is accepted. */
  function CheckAck(ack: Data, page: nat): Option<FlashError> {
    if |ack| < 4 then Some(ShortAck)
    else if FromBE(ack[..4]) != page then Some(AckMismatch)
    else None
  }

  lemma AckDecided(job: Job, page: nat, offset: nat, ack: Data)
    requires offset == (page + 1) * PAGE
    ensures AckStep(job, offset, ack) == if CheckAck(ack, page).Some? then Finished(Failed(CheckAck(ack, page).value)) else NextChunk(job, offset)
  {
  }

  // Counting turns and bytes.

  lemma {:induction false} TurnsConcat(log: seq<Event>, more: seq<Event>)
    ensures Turns(log + more) == Turns(log) + Turns(more)
  {
    if more == [] {
      assert log + more == log;
    } else {
      TurnsConcat(log, more[..|more| - 1]);
      assert (log + more)[..|log + more| - 1] == log + more[..|more| - 1];
    }
  }

  lemma NoTurn(e: Event)
    requires e.Sent?
    ensures Turns([e]) == 0
  {
    assert [e][..0] == [];
  }

  /** The bytes of the data frames in a log. */
  function DataBytes(log: seq<Event>): nat {
    if log == [] then 0
    else
      var e := log[|log| - 1];
      DataBytes(log[..|log| - 1]) + if e.Sent? && e.frame.id == DATA then |e.frame.data| else 0
  }

  lemma DataBytesStep(log: seq<Event>, e: Event)
    ensures DataBytes(log + [e]) == DataBytes(log) + if e.Sent? && e.frame.id == DATA then |e.frame.data| else 0
  {
    assert (log + [e])[..|log|] == log;
  }

  lemma {:induction false} DataBytesConcat(log: seq<Event>, more: seq<Event>)
    ensures DataBytes(log + more) == DataBytes(log) + DataBytes(more)
  {
    if more == [] {
      assert log + more == log;
    } else {
      DataBytesConcat(log, more[..|more| - 1]);
      assert (log + more)[..|log + more| - 1] == log + more[..|more| - 1];
    }
  }

  lemma {:induction false} NothingSent(log: seq<Event>)
    requires forall e :: e in log ==> !e.Sent?
    ensures DataBytes(log) == 0
  {
    if log != [] {
      assert log[|log| - 1] in log;
      NothingSent(log[..|log| - 1]);
    }
  }

  lemma WaitSendsNothing(log: seq<Event>, wait: seq<Event>, expectedId: nat, expectedStatus: Option<byte>, verdict: Verdict)
    requires WaitLog(wait, expectedId, expectedStatus, verdict)
    ensures DataBytes(log + wait) == DataBytes(log)
  {
    hide Classify;
    forall e | e in wait ensures !e.Sent? {
      var i :| 0 <= i < |wait| && wait[i] == e;
    }
    NothingSent(wait);
    DataBytesConcat(log, wait);
  }

  lemma CountNothing()
    ensures Turns([]) == 0 && DataBytes([]) == 0 && BeforeLate([]) == []
  {
  }

  /** The pages that these first bytes of an image have begun. */
  function PagesOf(bytes: nat): nat {
    (bytes + PAGE - 1) / PAGE
  }

  lemma PageCounted(offset: nat, pageEnd: nat, page: nat)
    requires offset == page * PAGE && offset < pageEnd <= offset + PAGE
    ensures PagesOf(pageEnd) == page + 1
  {
  }

  /** What happened before the deadline was found passed. */
  function BeforeLate(log: seq<Event>): seq<Event> {
    if log == [] || log[0] == Late then [] else [log[0]] + BeforeLate(log[1..])
  }

  lemma {:induction false} LateAfter(timely: seq<Event>, rest: seq<Event>)
    requires Late !in timely
    ensures BeforeLate(timely + [Late] + rest) == timely
  {
    var log := timely + [Late] + rest;
    if timely == [] {
      assert log[0] == Late;
    } else {
      LateAfter(timely[1..], rest);
      assert log[0] == timely[0] && log[1..] == timely[1..] + [Late] + rest;
    }
  }

  lemma {:induction false} NeverLate(log: seq<Event>)
    requires Late !in log
    ensures BeforeLate(log) == log
  {
    if log != [] {
      NeverLate(log[1..]);
    }
  }

  class URTCFlasher {
    const bus: Bus

    constructor (bus: Bus)
      ensures this.bus == bus
    {
      this.bus := bus;
    }

    /** _wait_for */
    method WaitFor(expectedId: nat, expectedStatus: Option<byte>) returns (verdict: Verdict, ghost log: seq<Event>)
      modifies bus
      ensures bus.log == old(bus.log) + log
      ensures WaitLog(log, expectedId, expectedStatus, verdict) && verdict != Keep
      ensures bus.checks == old(bus.checks) + Turns(log)
    {
      hide Turns, Classify;
      log := [];
      CountNothing();
      var polls := bus.PollBudget();
      while polls > 0
        invariant bus.log == old(bus.log) + log && bus.budget == polls
        invariant bus.checks == old(bus.checks) + Turns(log)
        invariant forall i :: 0 <= i < |log| ==> WaitStep(log[i], expectedId, expectedStatus) == Some(Keep)
      {
        polls := polls - 1;
        var stop := bus.StopRequested();
        if stop {
          TurnsStep(log, Stop);
          log := log + [Stop];
          return Error(Cancelled), log;
        }
        var frame := bus.ReadFrame();
        TurnsStep(log, if frame.Some? then Read(frame.value) else Quiet);
        if frame.Some? {
          log := log + [Read(frame.value)];
          verdict := Classify(frame.value, expectedId, expectedStatus);
          if verdict != Keep {
            return;
          }
        } else {
          log := log + [Quiet];
        }
      }
      bus.DeadlinePassed();
      TurnsStep(log, Late);
      log := log + [Late];
      verdict := Error(TimedOut);
    }

    /** query_version: its answer is the report collected, None when no board answered. */
    method QueryVersion() returns (report: Option<Report>, ghost heard: seq<Event>, ghost last: Event, ghost q: Inquiry)
      modifies bus`log, bus`budget
      ensures bus.log == old(bus.log) + [Sent(QueryFrame)] + heard + [last]
      ensures QueryLog(heard, last, q) && report == q.report
      ensures report == HearAll(FramesRead(heard + [last])).report == Heed(FramesRead(heard + [last])).report
    {
      hide Hear, Complete, Collect, NeverComplete;
      bus.SendFrame(QueryFrame);
      heard := [];
      NeverCompleteAtFirst();
      var inquiry := Nothing;
      var polls := bus.PollBudget();
      while polls > 0
        invariant bus.log == old(bus.log) + [Sent(QueryFrame)] + heard && bus.budget == polls
        invariant Listened(heard) && inquiry == Collect(heard) && NeverComplete(heard)
      {
        polls := polls - 1;
        var frame := bus.ReadFrame();
        if frame.Some? {
          inquiry := Hear(inquiry, frame.value);
          if Complete(inquiry) {
            QueryAnswers(heard, Read(frame.value), inquiry, []);
            return inquiry.report, heard, Read(frame.value), inquiry;
          }
        }
        NeverCompleteStep(heard, if frame.Some? then Read(frame.value) else Quiet);
        heard := heard + [if frame.Some? then Read(frame.value) else Quiet];
      }
      bus.DeadlinePassed();
      report, last, q := inquiry.report, Late, inquiry;
      QueryAnswers(heard, last, q, []);
    }

    /** _send_record: the index and seven bytes of the record in each of 11 frames. */
    method SendRecord(id: nat, record: Data) returns (ghost log: seq<Event>)
      requires |record| == RECORD_BYTES
      modifies bus`log
      ensures bus.log == old(bus.log) + log
      ensures log == RecordEvents(id, record, RECORD_CHUNKS)
    {
      var padded := record + [0];
      log := [];
      for i := 0 to RECORD_CHUNKS
        invariant bus.log == old(bus.log) + log
        invariant log == RecordEvents(id, record, i)
      {
        var frame := Frame(id, [i] + padded[7 * i..7 * (i + 1)]);
        bus.SendFrame(frame);
        log := log + [Sent(frame)];
      }
    }

    /** START_UPDATE and the wait for the status that says the backup slot is erased. */
    method StartUpdate(job: Job) returns (error: Option<FlashError>, ghost log: seq<Event>)
      requires GoodJob(job)
      modifies bus
      ensures bus.log == old(bus.log) + log
      ensures Run(job, Begin, log) == if error.Some? then Finished(Failed(error.value)) else AfterStart(job)
      ensures bus.checks == old(bus.checks) + Turns(log)
    {
      hide Next, Run, WaitLog, Turns, StartFrame, AfterStart;
      bus.SendFrame(StartFrame(job));
      var verdict;
      ghost var wait;
      verdict, wait := WaitFor(STATUS, Some(STATUS_RECEIVING));
      ghost var start := [Sent(StartFrame(job))];
      log := start + wait;
      error := if verdict.Error? then Some(verdict.error) else None;
      Started(job);
      TurnsConcat(start, wait);
      NoTurn(Sent(StartFrame(job)));
      RunConcat(job, Begin, start, wait);
      WaitReceivingRun(job, wait, verdict);
    }

    /** The record of the image and its HMAC, each if there is one. */
    method SendSignatures(job: Job) returns (ghost log: seq<Event>)
      requires GoodJob(job)
      modifies bus`log
      ensures bus.log == old(bus.log) + log
      ensures Run(job, AfterStart(job), log) == PageData(0)
    {
      hide Next, Run, HmacFrame;
      log := [];
      RunNothing(job, AfterStart(job));
      if job.record.Some? {
        log := SendRecord(SIGNATURE_CHUNK, job.record.value);
        RecordRun(job, RECORD_CHUNKS);
      }
      assert Run(job, AfterStart(job), log) == AfterRecord(job);
      if job.signature.Some? {
        for i := 0 to HMAC_CHUNKS
          invariant bus.log == old(bus.log) + log
          invariant Run(job, AfterStart(job), log) == AfterHmac(i)
        {
          bus.SendFrame(HmacFrame(job.signature.value, i));
          HmacSent(job, i);
          RunStep(job, AfterStart(job), log, Sent(HmacFrame(job.signature.value, i)));
          log := log + [Sent(HmacFrame(job.signature.value, i))];
        }
      }
    }

    /**
     Up to three waits for the acknowledgement of page `page`, after whose last byte
     the host is at `offset`. Only the wait is repeated: the data is never sent again.
     */
    method AwaitPageAck(job: Job, page: nat, offset: nat) returns (error: Option<FlashError>, ghost log: seq<Event>)
      requires GoodJob(job) && ValidHost(job, AwaitAck(offset, 0)) && offset == (page + 1) * PAGE
      modifies bus
      ensures bus.log == old(bus.log) + log
      ensures Run(job, AwaitAck(offset, 0), log) == if error.Some? then Finished(Failed(error.value)) else NextChunk(job, offset)
      ensures bus.checks == old(bus.checks) + Turns(log) && DataBytes(log) == 0
    {
      hide Turns, DataBytes, Next, Run, WaitLog, AckStep, CheckAck, NextChunk, ValidHost;
      RunNothing(job, AwaitAck(offset, 0));
      log := [];
      CountNothing();
      error := None;
      var attempt := 0;
      while attempt < ATTEMPTS
        invariant attempt <= ATTEMPTS
        invariant bus.log == old(bus.log) + log
        invariant bus.checks == old(bus.checks) + Turns(log) && DataBytes(log) == 0
        invariant attempt > 0 ==> error.Some?
        invariant Run(job, AwaitAck(offset, 0), log) ==
                  if attempt < ATTEMPTS then AwaitAck(offset, attempt) else Finished(Failed(error.value))
      {
        AttemptIsValid(job, offset, attempt);
        var verdict;
        ghost var wait;
        verdict, wait := WaitFor(PAGE_ACK, None);
        RunConcat(job, AwaitAck(offset, 0), log, wait);
        WaitAckRun(job, offset, attempt, wait, verdict);
        TurnsConcat(log, wait);
        WaitSendsNothing(log, wait, PAGE_ACK, None, verdict);
        log := log + wait;
        if verdict.Answer? {
          AckDecided(job, page, offset, verdict.data);
          error := CheckAck(verdict.data, page);
          return;
        }
        error := Some(verdict.error);
        attempt := attempt + 1;
      }
    }

    /** The page loop: eight bytes per frame, then the acknowledgement of the page, except for a last partial page. */
    method Transfer(job: Job) returns (error: Option<FlashError>, ghost log: seq<Event>)
      requires GoodJob(job)
      modifies bus
      ensures bus.log == old(bus.log) + log
      ensures Run(job, PageData(0), log) == if error.Some? then Finished(Failed(error.value)) else AfterData(job)
      ensures bus.checks == old(bus.checks) + Turns(log) + PagesOf(DataBytes(log))
    {
      hide Next, Run, Turns, DataBytes, BeforeLate, WellFormedJob, AfterData;
      RunNothing(job, PageData(0));
      CountNothing();
      var size := |job.firmware|;
      var offset, page := 0, 0;
      log := [];
      while offset < size
        invariant offset <= size && (offset == page * PAGE || offset == size)
        invariant bus.log == old(bus.log) + log
        invariant DataBytes(log) == offset && PagesOf(offset) == page
        invariant bus.checks == old(bus.checks) + Turns(log) + page
        invariant Run(job, PageData(0), log) == NextChunk(job, offset)
      {
        var stop := bus.StopRequested();
        if stop {
          StopAtPage(job, page);
          RunStep(job, PageData(0), log, Stop);
          TurnsStep(log, Stop);
          DataBytesStep(log, Stop);
          log := log + [Stop];
          return Some(Cancelled), log;
        }
        var pageEnd := if offset + PAGE <= size then offset + PAGE else size;
        ghost var sent := SendPage(job, offset, pageEnd);
        RunConcat(job, PageData(0), log, sent);
        TurnsConcat(log, sent);
        DataBytesConcat(log, sent);
        PageCounted(offset, pageEnd, page);
        log := log + sent;
        if pageEnd != size || size % PAGE == 0 {
          ghost var wait;
          error, wait := AwaitPageAck(job, page, pageEnd);
          RunConcat(job, PageData(0), log, wait);
          TurnsConcat(log, wait);
          DataBytesConcat(log, wait);
          log := log + wait;
          if error.Some? {
            return;
          }
        }
        offset := pageEnd;
        page := page + 1;
      }
      error := None;
    }

    /** The data frames of one page. */
    method SendPage(job: Job, offset: nat, pageEnd: nat) returns (ghost log: seq<Event>)
      requires GoodJob(job) && offset < |job.firmware| && offset % PAGE == 0
      requires pageEnd == if offset + PAGE <= |job.firmware| then offset + PAGE else |job.firmware|
      modifies bus`log
      ensures bus.log == old(bus.log) + log
      ensures Run(job, PageData(offset), log) == AfterChunk(job, pageEnd)
      ensures Turns(log) == 0 && DataBytes(log) == pageEnd - offset
    {
      hide Next, Run, Turns, DataBytes;
      CountNothing();
      RunNothing(job, PageData(offset));
      var pos := offset;
      log := [];
      while pos < pageEnd
        invariant offset <= pos <= pageEnd && (pos < pageEnd ==> pos % 8 == 0)
        invariant bus.log == old(bus.log) + log
        invariant Turns(log) == 0 && DataBytes(log) == pos - offset
        invariant Run(job, PageData(offset), log) == if pos < pageEnd then PageData(pos) else AfterChunk(job, pageEnd)
      {
        var chunkEnd := if pos + 8 <= pageEnd then pos + 8 else pageEnd;
        var frame := Frame(DATA, job.firmware[pos..chunkEnd]);
        bus.SendFrame(frame);
        DataStep(job, offset, pos);
        RunStep(job, PageData(offset), log, Sent(frame));
        TurnsStep(log, Sent(frame));
        DataBytesStep(log, Sent(frame));
        log := log + [Sent(frame)];
        pos := chunkEnd;
      }
    }

    /** What comes between the data and END_UPDATE: the authorization and the question about the patch, if asked for. */
    method BeforeEnd(job: Job) returns (field: nat, ghost log: seq<Event>)
      requires GoodJob(job)
      modifies bus`log, bus`budget
      ensures bus.log == old(bus.log) + log
      ensures Run(job, AfterData(job), log) == ToEnd(job, field)
    {
      hide Next, Run;
      log := [];
      RunNothing(job, AfterData(job));
      if job.allowDowngrade {
        bus.SendFrame(AuthorizeFrame);
        FrameSteps(job);
        RunStep(job, Authorizing, log, Sent(AuthorizeFrame));
        log := log + [Sent(AuthorizeFrame)];
      }
      assert Run(job, AfterData(job), log) == AfterAuthorize(job);
      field := job.minor;
      if job.patch.Some? {
        ghost var asked;
        field, asked := AskPatch(job);
        RunConcat(job, AfterData(job), log, asked);
        log := log + asked;
      }
    }

    /** END_UPDATE and the wait for the final status. */
    method Finish(job: Job) returns (outcome: Outcome, ghost log: seq<Event>)
      requires GoodJob(job)
      modifies bus
      ensures bus.log == old(bus.log) + log
      ensures Run(job, AfterData(job), log) == Finished(outcome)
    {
      hide Next, Run, Turns, BeforeLate, EndFrame, WellFormedJob;
      var field;
      field, log := BeforeEnd(job);
      if job.major >= 0x1_0000 || field >= 0x1_0000 {
        return Failed(FieldOverflow), log;
      }
      bus.SendFrame(EndFrame(job, field));
      FrameSteps(job);
      RunStep(job, AfterData(job), log, Sent(EndFrame(job, field)));
      log := log + [Sent(EndFrame(job, field))];
      ghost var wait;
      outcome, wait := AwaitVerification(job);
      RunConcat(job, AfterData(job), log, wait);
      log := log + wait;
    }

    /** The minor field of END_UPDATE, with the patch in it when the answering bootloader reads it there. */
    method AskPatch(job: Job) returns (field: nat, ghost log: seq<Event>)
      requires GoodJob(job) && job.patch.Some?
      modifies bus`log, bus`budget
      ensures bus.log == old(bus.log) + log
      ensures Run(job, Asking, log) == ToEnd(job, field)
    {
      hide Next, Run, QueryLog, HearAll, Heed, FramesRead, Hear, Complete;
      RunNothing(job, Asking);
      var report;
      ghost var heard, last, q;
      report, heard, last, q := QueryVersion();
      field := job.minor;
      if report.Some? && report.value.bootloader && report.value.acceptsPatch {
        field := EndMinorField(job.minor, job.patch, true);
      }
      log := [Sent(QueryFrame)] + (heard + [last]);
      FrameSteps(job);
      RunStep(job, Asking, [], Sent(QueryFrame));
      assert [] + [Sent(QueryFrame)] == [Sent(QueryFrame)];
      RunConcat(job, Asking, [Sent(QueryFrame)], heard + [last]);
      QueryRun(job, heard, last, q, false);
    }

    /** The final wait; when the confirmation never comes, one more query decides. */
    method AwaitVerification(job: Job) returns (outcome: Outcome, ghost log: seq<Event>)
      requires GoodJob(job)
      modifies bus
      ensures bus.log == old(bus.log) + log
      ensures Run(job, Verifying, log) == Finished(outcome)
      ensures bus.checks == old(bus.checks) + Turns(BeforeLate(log))
    {
      hide Turns, BeforeLate, Next, Run;
      RunNothing(job, Verifying);
      log := [];
      CountNothing();
      var polls := bus.PollBudget();
      while polls > 0
        invariant bus.log == old(bus.log) + log && bus.budget == polls
        invariant Late !in log && bus.checks == old(bus.checks) + Turns(log)
        invariant Run(job, Verifying, log) == Verifying
      {
        polls := polls - 1;
        var stop := bus.StopRequested();
        if stop {
          VerifySteps(job, Stop);
          RunStep(job, Verifying, log, Stop);
          TurnsStep(log, Stop);
          log := log + [Stop];
          NeverLate(log);
          return Failed(Cancelled), log;
        }
        var frame := bus.ReadFrame();
        ghost var event := if frame.Some? then Read(frame.value) else Quiet;
        VerifySteps(job, event);
        RunStep(job, Verifying, log, event);
        TurnsStep(log, event);
        log := log + [event];
        NeverLate(log);
        if frame.Some? && frame.value.id == STATUS && (|frame.value.data| == 1 || |frame.value.data| == 2) {
          var status := frame.value.data[0];
          if status == STATUS_VERIFY_OK {
            return Done, log;
          } else if status == STATUS_VERIFY_FAIL {
            return Failed(VerifyFailure), log;
          } else if status == STATUS_ERROR {
            return Failed(BoardError), log;
          }
        }
      }
      bus.DeadlinePassed();
      VerifySteps(job, Late);
      RunStep(job, Verifying, log, Late);
      ghost var again;
      outcome, again := AskAgain(job);
      LateAfter(log, again);
      RunConcat(job, Verifying, log + [Late], again);
      log := log + [Late] + again;
    }

    /** Whether the board answers as an application although its confirmation never came. */
    method AskAgain(job: Job) returns (outcome: Outcome, ghost log: seq<Event>)
      requires GoodJob(job)
      modifies bus`log, bus`budget
      ensures bus.log == old(bus.log) + log
      ensures Run(job, AskingAgain, log) == Finished(outcome)
    {
      hide Next, Run, QueryLog, HearAll, Heed, FramesRead, Hear, Complete;
      RunNothing(job, AskingAgain);
      var report;
      ghost var heard, last, q;
      report, heard, last, q := QueryVersion();
      log := [Sent(QueryFrame)] + (heard + [last]);
      FrameSteps(job);
      RunStep(job, AskingAgain, [], Sent(QueryFrame));
      assert [] + [Sent(QueryFrame)] == [Sent(QueryFrame)];
      RunConcat(job, AskingAgain, [Sent(QueryFrame)], heard + [last]);
      QueryRun(job, heard, last, q, true);
      outcome := if report.Some? && !report.value.bootloader then Done else Failed(FinalTimeout);
    }

    /** flash, from the refusals to the last answer. */
    method Flash(job: Job) returns (outcome: Outcome, ghost log: seq<Event>)
      requires WellFormedJob(job)
      modifies bus
      ensures bus.log == old(bus.log) + log
      ensures job.firmware == [] ==> outcome == Failed(EmptyImage) && log == []
      ensures |job.firmware| > 112 * 1024 ==> outcome == Failed(TooBig) && log == []
      ensures 0 < |job.firmware| <= 112 * 1024 && job.record == None && job.signature == None ==> outcome == Failed(NoSignature) && log == []
      ensures 0 < |job.firmware| <= 112 * 1024 && (job.record.Some? || job.signature.Some?) ==>
                GoodJob(job) && Run(job, Begin, log) == Finished(outcome)
    {
      hide Next, Run;
      if Refusal(job).Some? {
        return Failed(Refusal(job).value), [];
      }
      var error;
      error, log := StartUpdate(job);
      if error.Some? {
        return Failed(error.value), log;
      }
      ghost var part := SendSignatures(job);
      RunConcat(job, Begin, log, part);
      log := log + part;
      error, part := Transfer(job);
      RunConcat(job, Begin, log, part);
      log := log + part;
      if error.Some? {
        return Failed(error.value), log;
      }
      outcome, part := Finish(job);
      RunConcat(job, Begin, log, part);
      log := log + part;
    }
  }
}
