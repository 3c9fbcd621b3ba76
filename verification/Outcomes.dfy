/**
 How an update ends. For every state and every event: whether the event ends the update,
 and with which outcome. What the board refuses, and what the user stops, ends it.
 */
module Outcomes {
  import opened Bytes
  import opened CanBus
  import opened VersionQuery
  import opened FlashSpec
  import opened Retries
  import opened Wrappers

  // Before anything is sent.

  /** Nothing is sent of an empty image, of one over 112 KB, or of one with neither a record nor an HMAC; and of no other. */
  lemma RefusalExact(job: Job)
    ensures Refusal(job) ==
      if |job.firmware| == 0 then Some(EmptyImage)
      else if |job.firmware| >= 114689 then Some(TooBig)
      else if job.record == None && job.signature == None then Some(NoSignature)
      else None
  {
  }

  // One frame of a wait.

  /** A status of one or two bytes answers a wait for a status only with the value waited for. */
  predicate AnswersWait(f: Frame, expectedId: nat, expectedStatus: Option<byte>) {
    && f.id == expectedId
    && (f.id == STATUS && (|f.data| == 1 || |f.data| == 2) && expectedStatus.Some? ==> f.data[0] == expectedStatus.value)
  }

  /** A wait takes its answer first, then an error the board reports, and keeps waiting otherwise. */
  lemma WaitDecides(f: Frame, expectedId: nat, expectedStatus: Option<byte>)
    ensures Classify(f, expectedId, expectedStatus) ==
      if AnswersWait(f, expectedId, expectedStatus) then Answer(f.data)
      else if ReportsError(f) then Error(ErrorOf(Read(f)))
      else Keep
  {
  }

  /** A page acknowledgement is the big-endian index of the page, and whatever follows. */
  lemma AckDecides(job: Job, page: nat, ack: Data)
    requires page < APP_MAX_SIZE
    ensures AckStep(job, PAGE * (page + 1), ack) ==
      if |ack| < 4 then Finished(Failed(ShortAck))
      else if ack[..4] != ToBE(page, 4) then Finished(Failed(AckMismatch))
      else NextChunk(job, PAGE * (page + 1))
  {
    hide FromBE, ToBE, NextChunk;
    assert Pow256(4) == 0x1_0000_0000;
    FromToBE(page, 4);
    if |ack| >= 4 {
      ToFromBE(ack[..4]);
    }
  }

  // The end.

  /** The status of a finished update. */
  predicate ReportsSuccess(f: Frame) {
    f.id == STATUS && (|f.data| == 1 || |f.data| == 2) && f.data[0] == STATUS_VERIFY_OK
  }

  predicate ApplicationAnswered(q: Inquiry) {
    q.report.Some? && !q.report.value.bootloader
  }

  /** The state in which the last query has its answer, complete or cut off by the deadline. */
  function LastAnswer(q: Inquiry, e: Event): Option<Inquiry>
    requires WellFormed(q)
  {
    if e == Late then Some(q)
    else if e.Read? && Complete(Hear(q, e.frame)) then Some(Hear(q, e.frame))
    else None
  }

  /** Event e ends the update in state h with this outcome, other than by a version that cannot be sent. */
  predicate Ends(h: Host, e: Event, outcome: Outcome)
    requires h.ListeningAgain? ==> WellFormed(h.q)
  {
    match h
    case AwaitReceiving => FailsWait(e) && outcome == Failed(ErrorOf(e))
    case PageData(offset) => e == Stop && offset % PAGE == 0 && outcome == Failed(Cancelled)
    case AwaitAck(offset, failures) =>
      || (FailsWait(e) && failures + 1 == ATTEMPTS && outcome == Failed(ErrorOf(e)))
      || (e.Read? && e.frame.id == PAGE_ACK && |e.frame.data| < 4 && outcome == Failed(ShortAck))
      || (e.Read? && e.frame.id == PAGE_ACK && |e.frame.data| >= 4 && FromBE(e.frame.data[..4]) != offset / PAGE - 1
          && outcome == Failed(AckMismatch))
    case Verifying =>
      || (e.Read? && ReportsSuccess(e.frame) && outcome == Done)
      || (FailsWait(e) && e != Late && outcome == Failed(ErrorOf(e)))
    case ListeningAgain(q) =>
      LastAnswer(q, e).Some? && outcome == if ApplicationAnswered(LastAnswer(q, e).value) then Done else Failed(FinalTimeout)
    case _ => false
  }

  /** The version of the update cannot be sent; AnswerDecides and NoPatchNoQuery say when. */
  predicate IsOverflow(outcome: Outcome) {
    outcome == Failed(FieldOverflow)
  }

  lemma WaitEnds(job: Job, h: Host, e: Event, outcome: Outcome)
    requires GoodJob(job) && ValidHost(job, h) && (h.AwaitReceiving? || h.AwaitAck?) && !IsOverflow(outcome)
    ensures Next(job, h, e) == Finished(outcome) <==> Ends(h, e, outcome)
  {
    hide FromBE, ToBE;
    if e.Read? {
      if h.AwaitReceiving? {
        WaitDecides(e.frame, STATUS, Some(STATUS_RECEIVING));
      } else {
        WaitDecides(e.frame, PAGE_ACK, None);
      }
    }
  }

  lemma OtherEnds(job: Job, h: Host, e: Event, outcome: Outcome)
    requires GoodJob(job) && ValidHost(job, h) && !h.AwaitReceiving? && !h.AwaitAck? && !IsOverflow(outcome)
    ensures Next(job, h, e) == Finished(outcome) <==> Ends(h, e, outcome)
  {
    hide FromBE, ToBE, Hear, Complete, Classify, RecordFrame, HmacFrame, StartFrame, EndFrame, EndMinorField;
    if h.PageData? {
      ChunkGrid(|job.firmware|, h.offset);
    }
  }

  /** An update ends exactly by these events, in these states, with these outcomes. */
  lemma EndsExactly(job: Job, log: seq<Event>, e: Event, outcome: Outcome)
    requires GoodJob(job) && !IsOverflow(outcome)
    ensures Run(job, Begin, log + [e]) == Finished(outcome) <==> Ends(Run(job, Begin, log), e, outcome)
  {
    hide Run, Next, Ends, IsOverflow;
    RunStep(job, Begin, log, e);
    var h := Run(job, Begin, log);
    if h.AwaitReceiving? || h.AwaitAck? {
      WaitEnds(job, h, e, outcome);
    } else {
      OtherEnds(job, h, e, outcome);
    }
  }

  // The version that goes into END_UPDATE.

  /** What goes into the minor field: the patch beside the low byte, towards a bootloader that reads it, or the minor alone. */
  function FieldFor(job: Job, q: Inquiry): nat {
    if job.patch.Some? && q.report.Some? && q.report.value.bootloader && q.report.value.acceptsPatch
    then 0x8000 + 0x100 * job.patch.value + job.minor % 0x100
    else job.minor
  }

  /** A field and a major of 16 bits each; anything larger ends the update. */
  predicate Fits(job: Job, field: nat) {
    job.major <= 0xFFFF && field <= 0xFFFF
  }

  /** The query ends with its complete answer or at the deadline, and its answer decides about the patch. */
  lemma AnswerDecides(job: Job, log: seq<Event>, e: Event)
    requires GoodJob(job) && Run(job, Begin, log).Listening?
    ensures var h := Run(job, Begin, log + [e]);
            var answer := LastAnswer(Run(job, Begin, log).q, e);
            answer.Some? ==>
              h == if Fits(job, FieldFor(job, answer.value)) then Ending(FieldFor(job, answer.value)) else Finished(Failed(FieldOverflow))
    ensures LastAnswer(Run(job, Begin, log).q, e).None? ==> !Run(job, Begin, log + [e]).Ending? && !Run(job, Begin, log + [e]).Finished?
  {
    hide Run, Hear, Complete;
    RunStep(job, Begin, log, e);
  }

  /** Without a patch nothing is asked, and the field is the minor. */
  lemma NoPatchNoQuery(job: Job)
    requires GoodJob(job) && job.patch.None?
    ensures AfterAuthorize(job) == if Fits(job, job.minor) then Ending(job.minor) else Finished(Failed(FieldOverflow))
  {
  }

  // What follows for a refusal, and for a stop.

  /** The board's refusal ends the update, when it starts and when it verifies, and so does the user's stop. */
  lemma RefusalEnds(job: Job, log: seq<Event>, e: Event)
    requires GoodJob(job) && FailsWait(e)
    ensures Run(job, Begin, log) == AwaitReceiving ==> Run(job, Begin, log + [e]) == Finished(Failed(ErrorOf(e)))
    ensures Run(job, Begin, log) == Verifying && e != Late ==> Run(job, Begin, log + [e]) == Finished(Failed(ErrorOf(e)))
  {
    hide Run, Next, FailsWait;
    ErrorIsNotOverflow(e);
    EndsExactly(job, log, e, Failed(ErrorOf(e)));
  }

  /** What the codes of a status frame mean, with or without a reason behind them, where an update starts and where it is verified. */
  lemma StatusDecides(job: Job, log: seq<Event>, code: byte, reason: Data)
    requires GoodJob(job) && |reason| <= 1
    ensures var h := Run(job, Begin, log);
            var h' := Run(job, Begin, log + [Read(Frame(0x7F5, [code] + reason))]);
            h == AwaitReceiving || h == Verifying ==>
              h' == if h == AwaitReceiving && code == 0x03 then AfterStart(job)
                    else if h == Verifying && code == 0x04 then Finished(Done)
                    else if code == 0x05 then Finished(Failed(VerifyFailure))
                    else if code == 0xFF then Finished(Failed(BoardError))
                    else h
  {
    hide Run, AfterStart;
    var f := Frame(0x7F5, [code] + reason);
    RunStep(job, Begin, log, Read(f));
    WaitDecides(f, STATUS, Some(STATUS_RECEIVING));
  }

  lemma ErrorIsNotOverflow(e: Event)
    requires FailsWait(e)
    ensures !IsOverflow(Failed(ErrorOf(e)))
  {
  }

  lemma {:induction false} EndedStaysEnded(job: Job, log: seq<Event>, n: nat)
    requires GoodJob(job) && n <= |log| && Run(job, Begin, log[..n]).Finished?
    ensures n == |log| || Run(job, Begin, log) == Illegal
    decreases |log|
  {
    hide Next;
    if n < |log| {
      var front, e := log[..|log| - 1], log[|log| - 1];
      assert front[..n] == log[..n];
      EndedStaysEnded(job, front, n);
      assert n == |front| ==> front[..n] == front;
      NothingFollows(job, Run(job, Begin, front), e);
    }
  }

  lemma NothingFollows(job: Job, h: Host, e: Event)
    requires GoodJob(job) && ValidHost(job, h)
    ensures h.Finished? || h == Illegal ==> Next(job, h, e) == Illegal
  {
  }

  /** No update ends as done that read a refusal while it waited for the verification. */
  lemma DoneWasNotRefused(job: Job, log: seq<Event>, i: nat)
    requires GoodJob(job) && Run(job, Begin, log) == Finished(Done)
    requires i < |log| && Run(job, Begin, log[..i]) == Verifying && log[i].Read?
    ensures !ReportsError(log[i].frame)
  {
    hide Run, Next;
    assert log[..i + 1] == log[..i] + [log[i]] && log[..|log|] == log;
    if ReportsError(log[i].frame) {
      RefusalEnds(job, log[..i], log[i]);
      EndedStaysEnded(job, log, i + 1);
    }
  }

  /** Behind the deadline it is too late: the query of a lost confirmation passes over a refusal. */
  lemma LateRefusalIsPassedOver(job: Job, log: seq<Event>, f: Frame)
    requires GoodJob(job) && Run(job, Begin, log).ListeningAgain? && ReportsError(f)
    ensures Run(job, Begin, log + [Read(f)]) == Run(job, Begin, log)
  {
    hide Run;
    RunStep(job, Begin, log, Read(f));
  }

  /** The stop flag is heeded wherever a page begins; inside a page it is not looked at. */
  lemma StopBetweenPages(job: Job, log: seq<Event>)
    requires GoodJob(job) && Run(job, Begin, log).PageData?
    ensures Run(job, Begin, log + [Stop]) == if Run(job, Begin, log).offset % PAGE == 0 then Finished(Failed(Cancelled)) else Illegal
  {
    hide Run;
    RunStep(job, Begin, log, Stop);
  }
}
