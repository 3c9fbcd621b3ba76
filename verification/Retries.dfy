/**
 Waiting for a page acknowledgement: what a failed wait costs, whoever causes it.
 A stop request, a missed deadline and an error status each use up one of three
 attempts; only the third ends the update, with the error of that third attempt.
 */
module Retries {
  import opened Bytes
  import opened CanBus
  import opened VersionQuery
  import opened FlashSpec
  import opened Wrappers

  /** The status frames that report an error. */
  predicate ReportsError(f: Frame) {
    f.id == STATUS && (|f.data| == 1 || |f.data| == 2) && (f.data[0] == STATUS_VERIFY_FAIL || f.data[0] == STATUS_ERROR)
  }

  /** An event that ends a wait without the frame waited for. */
  predicate FailsWait(e: Event) {
    e == Stop || e == Late || (e.Read? && ReportsError(e.frame))
  }

  /** The error such an event is reported as. */
  function ErrorOf(e: Event): FlashError
    requires FailsWait(e)
  {
    if e == Stop then Cancelled
    else if e == Late then TimedOut
    else if e.frame.data[0] == STATUS_VERIFY_FAIL then VerifyFailure
    else BoardError
  }

  /** The waits that failed since the last frame was sent. */
  function FailedWaits(log: seq<Event>): nat {
    if log == [] then 0
    else
      var e := log[|log| - 1];
      if e.Sent? then 0 else FailedWaits(log[..|log| - 1]) + if FailsWait(e) then 1 else 0
  }

  lemma FailedWaitsStep(log: seq<Event>, e: Event)
    ensures FailedWaits(log + [e]) == if e.Sent? then 0 else FailedWaits(log) + if FailsWait(e) then 1 else 0
  {
    assert (log + [e])[..|log|] == log;
  }

  /** What an event does to a wait: nothing, the end of an attempt, or the end of the wait. */
  lemma AckWaitStep(job: Job, offset: nat, failures: nat, e: Event)
    requires GoodJob(job) && ValidHost(job, AwaitAck(offset, failures)) && !e.Sent?
    ensures var h' := Next(job, AwaitAck(offset, failures), e);
            if FailsWait(e) then
              h' == if failures + 1 < ATTEMPTS then AwaitAck(offset, failures + 1) else Finished(Failed(ErrorOf(e)))
            else if e.Read? && e.frame.id == PAGE_ACK then h' == AckStep(job, offset, e.frame.data)
            else h' == AwaitAck(offset, failures)
  {
    hide AckStep;
  }

  /** Only a data frame leads into a wait. */
  lemma WaitBegins(job: Job, h: Host, e: Event)
    requires GoodJob(job) && ValidHost(job, h) && Next(job, h, e).AwaitAck? && !h.AwaitAck?
    ensures e.Sent? && Next(job, h, e).failures == 0
  {
    hide FromBE, ToBE, Hear, Complete;
  }

  lemma AckEndsWait(job: Job, offset: nat, ack: Data)
    ensures !AckStep(job, offset, ack).AwaitAck?
    ensures var h' := AckStep(job, offset, ack);
            h'.Finished? && h'.outcome.Failed? ==> h'.outcome.error in {ShortAck, AckMismatch, FieldOverflow}
  {
    hide FromBE;
  }

  lemma WaitCountsStep(job: Job, h: Host, waits: nat, e: Event)
    requires GoodJob(job) && ValidHost(job, h) && (h.AwaitAck? ==> h.failures == waits)
    ensures var h' := Next(job, h, e);
            h'.AwaitAck? ==> h'.failures == if e.Sent? then 0 else waits + if FailsWait(e) then 1 else 0
  {
    hide Next, FailsWait, AckStep;
    if h.AwaitAck? {
      if e.Sent? {
        NothingSentInWait(job, h, e);
      } else {
        AckWaitStep(job, h.offset, h.failures, e);
        if e.Read? {
          AckEndsWait(job, h.offset, e.frame.data);
        }
      }
    } else if Next(job, h, e).AwaitAck? {
      WaitBegins(job, h, e);
    }
  }

  lemma NothingSentInWait(job: Job, h: Host, e: Event)
    requires GoodJob(job) && ValidHost(job, h) && h.AwaitAck? && e.Sent?
    ensures Next(job, h, e) == Illegal
  {
  }

  /** While a page is waited for, the host's count is the number of failed waits in the log. */
  lemma {:induction false} WaitsAreCounted(job: Job, log: seq<Event>)
    requires GoodJob(job)
    ensures var h := Run(job, Begin, log);
            h.AwaitAck? ==> h.failures == FailedWaits(log) < ATTEMPTS
  {
    hide Next, FailsWait;
    if log == [] {
      RunNothing(job, Begin);
    } else {
      var front, e := log[..|log| - 1], log[|log| - 1];
      WaitsAreCounted(job, front);
      WaitCountsStep(job, Run(job, Begin, front), FailedWaits(front), e);
    }
  }

  /**
   A wait for an acknowledgement is given up exactly at its third failure, whatever the
   failures are, and with the error of the third; a stop request before that is outlived.
   */
  lemma GivenUpAtThird(job: Job, log: seq<Event>, e: Event)
    requires GoodJob(job) && Run(job, Begin, log).AwaitAck? && FailsWait(e)
    ensures var h := Run(job, Begin, log + [e]);
            if FailedWaits(log + [e]) == 3 then h == Finished(Failed(ErrorOf(e)))
            else h == AwaitAck(Run(job, Begin, log).offset, FailedWaits(log + [e]))
  {
    hide Run, Next, FailsWait, FailedWaits, ErrorOf;
    WaitsAreCounted(job, log);
    RunStep(job, Begin, log, e);
    FailedWaitsStep(log, e);
    var h := Run(job, Begin, log);
    FailsIsNotSent(e);
    AckWaitStep(job, h.offset, h.failures, e);
  }

  lemma FailsIsNotSent(e: Event)
    requires FailsWait(e)
    ensures !e.Sent?
  {
  }
}
