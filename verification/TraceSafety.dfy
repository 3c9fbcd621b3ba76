/**
 What an update can put on the bus, whatever the bus answers: the frames sent
 are a prefix of one fixed script, and a page is begun only after every page
 before it was acknowledged.
 */
module TraceSafety {
  import opened Bytes
  import opened CanBus
  import opened VersionQuery
  import opened FlashSpec
  import opened Wrappers

  // The script.

  function Records(job: Job, n: nat): seq<Frame>
    requires WellFormedJob(job) && job.record.Some? && n <= RECORD_CHUNKS
  {
    if n == 0 then [] else Records(job, n - 1) + [RecordFrame(SIGNATURE_CHUNK, job.record.value, n - 1)]
  }

  function Hmacs(job: Job, n: nat): seq<Frame>
    requires WellFormedJob(job) && job.signature.Some? && n <= HMAC_CHUNKS
  {
    if n == 0 then [] else Hmacs(job, n - 1) + [HmacFrame(job.signature.value, n - 1)]
  }

  /** The number of eight-byte chunks that hold `size` bytes, the last one possibly short. */
  function Chunks(size: nat): nat {
    (size + 7) / 8
  }

  function DataFrames(firmware: Data, n: nat): seq<Frame>
    requires n <= Chunks(|firmware|)
  {
    if n == 0 then [] else DataFrames(firmware, n - 1) + [DataFrame(firmware, 8 * (n - 1))]
  }

  function Identified(job: Job): seq<Frame>
    requires WellFormedJob(job)
  {
    [StartFrame(job)] + if job.record.Some? then Records(job, RECORD_CHUNKS) else []
  }

  function Opening(job: Job): seq<Frame>
    requires WellFormedJob(job)
  {
    Identified(job) + if job.signature.Some? then Hmacs(job, HMAC_CHUNKS) else []
  }

  function Transferred(job: Job): seq<Frame>
    requires WellFormedJob(job)
  {
    Opening(job) + DataFrames(job.firmware, Chunks(|job.firmware|))
  }

  function Authorized(job: Job): seq<Frame>
    requires WellFormedJob(job)
  {
    Transferred(job) + if job.allowDowngrade then [AuthorizeFrame] else []
  }

  function Asked(job: Job): seq<Frame>
    requires WellFormedJob(job)
  {
    Authorized(job) + if job.patch.Some? then [QueryFrame] else []
  }

  /** START, record, HMAC, data, authorization, query, END. */
  function Script(job: Job, field: nat): seq<Frame>
    requires WellFormedJob(job)
  {
    Asked(job) + [EndFrame(job, field)]
  }

  /** The minor field of END_UPDATE is the plain minor, or the one with the patch in it. */
  predicate AllowedField(job: Job, field: nat) {
    field == job.minor || (job.patch.Some? && field == EndMinorField(job.minor, job.patch, true))
  }

  /** What a host that has not sent END_UPDATE has sent when it is in state h. */
  function Before(job: Job, h: Host): seq<Frame>
    requires GoodJob(job) && ValidHost(job, h)
  {
    match h
    case AwaitReceiving => [StartFrame(job)]
    case RecordFrames(n) => [StartFrame(job)] + Records(job, n)
    case HmacFrames(n) => Identified(job) + Hmacs(job, n)
    case PageData(offset) => Opening(job) + DataFrames(job.firmware, offset / 8)
    case AwaitAck(offset, _) => Opening(job) + DataFrames(job.firmware, Chunks(offset))
    case Authorizing => Transferred(job)
    case Asking => Authorized(job)
    case Listening(_) => Asked(job)
    case Ending(_) => Asked(job)
    case _ => []
  }

  ghost predicate WholeScript(job: Job, sends: seq<Frame>, field: nat)
    requires WellFormedJob(job)
  {
    AllowedField(job, field) && sends == Script(job, field)
  }

  /** The extra query is that of a lost confirmation. */
  ghost predicate WholeScriptAndQuery(job: Job, sends: seq<Frame>, field: nat)
    requires WellFormedJob(job)
  {
    AllowedField(job, field) && sends == Script(job, field) + [QueryFrame]
  }

  ghost predicate PartOfScript(job: Job, sends: seq<Frame>, field: nat)
    requires WellFormedJob(job)
  {
    AllowedField(job, field) && sends <= Script(job, field) + [QueryFrame]
  }

  /** What has been sent when the host is in state h. */
  ghost predicate OnScript(job: Job, sends: seq<Frame>, h: Host)
    requires GoodJob(job) && ValidHost(job, h)
  {
    match h
    case Verifying => exists field: nat :: WholeScript(job, sends, field)
    case AskingAgain => exists field: nat :: WholeScript(job, sends, field)
    case ListeningAgain(_) => exists field: nat :: WholeScriptAndQuery(job, sends, field)
    case Finished(outcome) =>
      && (exists field: nat :: PartOfScript(job, sends, field))
      && (outcome == Done ==> exists field: nat :: WholeScript(job, sends, field) || WholeScriptAndQuery(job, sends, field))
    case Illegal => true
    case Ending(field) => sends == Before(job, h) && AllowedField(job, field)
    case Authorizing => sends == Before(job, h) && job.allowDowngrade
    case Asking => sends == Before(job, h) && job.patch.Some?
    case Listening(_) => sends == Before(job, h) && job.patch.Some?
    case _ => sends == Before(job, h)
  }

  function SendsOf(e: Event): seq<Frame> {
    match e case Sent(f) => [f] case _ => []
  }

  lemma SendsStep(log: seq<Event>, e: Event)
    ensures Sends(log + [e]) == Sends(log) + SendsOf(e)
  {
    assert (log + [e])[..|log|] == log;
  }

  lemma ChunkStep(size: nat, offset: nat)
    requires offset < size && offset % 8 == 0
    ensures Chunks(ChunkEnd(size, offset)) == offset / 8 + 1 <= Chunks(size) && 8 * (offset / 8) == offset
  {
  }

  lemma GridIsChunks(size: nat, offset: nat)
    requires offset <= size && (offset % 8 == 0 || offset == size)
    ensures offset % 8 == 0 ==> Chunks(offset) == offset / 8
    ensures offset <= size ==> Chunks(offset) <= Chunks(size)
  {
  }

  lemma DataFramesStep(firmware: Data, offset: nat)
    requires offset < |firmware| && offset % 8 == 0
    ensures Chunks(ChunkEnd(|firmware|, offset)) <= Chunks(|firmware|) && offset / 8 <= Chunks(|firmware|)
    ensures DataFrames(firmware, Chunks(ChunkEnd(|firmware|, offset)))
         == DataFrames(firmware, offset / 8) + [DataFrame(firmware, offset)]
  {
    ChunkStep(|firmware|, offset);
  }

  lemma {:induction false} RecordsPrefix(job: Job, n: nat, m: nat)
    requires WellFormedJob(job) && job.record.Some? && n <= m <= RECORD_CHUNKS
    ensures Records(job, n) <= Records(job, m)
  {
    hide RecordFrame;
    if n < m {
      RecordsPrefix(job, n, m - 1);
    }
  }

  lemma {:induction false} HmacsPrefix(job: Job, n: nat, m: nat)
    requires WellFormedJob(job) && job.signature.Some? && n <= m <= HMAC_CHUNKS
    ensures Hmacs(job, n) <= Hmacs(job, m)
  {
    hide HmacFrame;
    if n < m {
      HmacsPrefix(job, n, m - 1);
    }
  }

  lemma {:induction false} DataFramesPrefix(firmware: Data, n: nat, m: nat)
    requires n <= m <= Chunks(|firmware|)
    ensures DataFrames(firmware, n) <= DataFrames(firmware, m)
  {
    hide DataFrame;
    if n < m {
      DataFramesPrefix(firmware, n, m - 1);
    }
  }

  predicate BeforeEnd(h: Host) {
    match h
    case Verifying => false
    case AskingAgain => false
    case ListeningAgain(_) => false
    case Finished(_) => false
    case Illegal => false
    case _ => true
  }

  lemma BeforeIsPart(job: Job, h: Host)
    requires GoodJob(job) && ValidHost(job, h) && BeforeEnd(h)
    ensures Before(job, h) <= Asked(job)
    ensures PartOfScript(job, Before(job, h), job.minor)
  {
    hide RecordFrame, HmacFrame, DataFrame, StartFrame, EndFrame, Records, Hmacs, DataFrames, FromBE, ToBE;
    match h
    case RecordFrames(n) =>
      RecordsPrefix(job, n, RECORD_CHUNKS);
    case HmacFrames(n) =>
      HmacsPrefix(job, n, HMAC_CHUNKS);
    case PageData(offset) =>
      DataFramesPrefix(job.firmware, offset / 8, Chunks(|job.firmware|));
    case AwaitAck(offset, _) =>
      DataFramesPrefix(job.firmware, Chunks(offset), Chunks(|job.firmware|));
    case _ =>
  }

  lemma FailedBeforeEnd(job: Job, h: Host, error: FlashError)
    requires GoodJob(job) && ValidHost(job, h) && BeforeEnd(h)
    ensures OnScript(job, Before(job, h), Finished(Failed(error)))
  {
    BeforeIsPart(job, h);
  }

  /** Every transition before END_UPDATE keeps to the script. */
  lemma OpeningStep(job: Job, h: Host, e: Event)
    requires GoodJob(job) && ValidHost(job, h)
    requires h.Begin? || h.AwaitReceiving? || h.RecordFrames? || h.HmacFrames?
    ensures OnScript(job, Before(job, h) + SendsOf(e), Next(job, h, e))
  {
    hide RecordFrame, HmacFrame, StartFrame, DataFrame, Classify, FromBE, ToBE;
    var h' := Next(job, h, e);
    if h'.Finished? {
      FailedBeforeEnd(job, h, h'.outcome.error);
      assert Before(job, h) + SendsOf(e) == Before(job, h);
    } else if h' != Illegal {
      assert Before(job, h') == Before(job, h) + SendsOf(e);
    }
  }

  lemma ToEndOnScript(job: Job, field: nat)
    requires GoodJob(job) && AllowedField(job, field)
    ensures OnScript(job, Asked(job), ToEnd(job, field))
  {
    hide Asked;
    assert PartOfScript(job, Asked(job), job.minor);
  }

  lemma AfterAuthorizeOnScript(job: Job)
    requires GoodJob(job)
    ensures OnScript(job, Authorized(job), AfterAuthorize(job))
  {
    hide Authorized;
    if job.patch.None? {
      assert Asked(job) == Authorized(job);
      ToEndOnScript(job, job.minor);
    }
  }

  lemma AfterDataOnScript(job: Job)
    requires GoodJob(job)
    ensures OnScript(job, Transferred(job), AfterData(job))
  {
    hide Transferred;
    if !job.allowDowngrade {
      assert Authorized(job) == Transferred(job);
      AfterAuthorizeOnScript(job);
    }
  }

  lemma NextChunkOnScript(job: Job, offset: nat)
    requires GoodJob(job) && offset <= |job.firmware| && (offset % 8 == 0 || offset == |job.firmware|)
    requires Chunks(offset) <= Chunks(|job.firmware|)
    ensures OnScript(job, Opening(job) + DataFrames(job.firmware, Chunks(offset)), NextChunk(job, offset))
  {
    hide Opening, DataFrames;
    GridIsChunks(|job.firmware|, offset);
    if offset == |job.firmware| {
      AfterDataOnScript(job);
    }
  }

  lemma PageDataStep(job: Job, h: Host, e: Event)
    requires GoodJob(job) && ValidHost(job, h) && h.PageData?
    ensures OnScript(job, Before(job, h) + SendsOf(e), Next(job, h, e))
  {
    hide DataFrame, DataFrames, Opening, Transferred, Authorized, Asked;
    var size := |job.firmware|;
    if e == Stop {
      FailedBeforeEnd(job, h, Cancelled);
      assert Before(job, h) + SendsOf(e) == Before(job, h);
    } else if e == Sent(DataFrame(job.firmware, h.offset)) {
      var end := ChunkEnd(size, h.offset);
      ChunkGrid(size, h.offset);
      DataFramesStep(job.firmware, h.offset);
      assert Before(job, h) + SendsOf(e) == Opening(job) + DataFrames(job.firmware, Chunks(end));
      if end % PAGE != 0 {
        NextChunkOnScript(job, end);
      }
    }
  }

  lemma AwaitAckStep(job: Job, h: Host, e: Event)
    requires GoodJob(job) && ValidHost(job, h) && h.AwaitAck?
    ensures OnScript(job, Before(job, h) + SendsOf(e), Next(job, h, e))
  {
    hide DataFrames, Opening, Transferred, Authorized, Asked, Classify, FromBE;
    PagesAreChunks(h.offset);
    NextChunkOnScript(job, h.offset);
    assert Before(job, h) + [] == Before(job, h);
    var h' := Next(job, h, e);
    if h'.Finished? && h'.outcome.Failed? {
      FailedBeforeEnd(job, h, h'.outcome.error);
    }
  }

  lemma ClosingStep(job: Job, h: Host, e: Event)
    requires GoodJob(job) && ValidHost(job, h) && ((h.Authorizing? && job.allowDowngrade) || ((h.Asking? || h.Listening?) && job.patch.Some?))
    ensures OnScript(job, Before(job, h) + SendsOf(e), Next(job, h, e))
  {
    hide Transferred, EndMinorField, EndFrame, Hear, Complete;
    assert Before(job, h) + [] == Before(job, h);
    AfterAuthorizeOnScript(job);
    if h.Listening? {
      var h' := Next(job, h, e);
      if !h'.Listening? && h' != Illegal {
        AnswerIsAllowed(job, h.q);
        if e.Read? {
          AnswerIsAllowed(job, Hear(h.q, e.frame));
        } else {
          assert e == Late || e == Quiet;
        }
      }
    }
  }

  lemma AnswerIsAllowed(job: Job, q: Inquiry)
    requires GoodJob(job)
    ensures OnScript(job, Asked(job), AfterAnswer(job, q))
  {
    var accepts := q.report.Some? && q.report.value.bootloader && q.report.value.acceptsPatch;
    ToEndOnScript(job, EndMinorField(job.minor, job.patch, accepts));
  }

  lemma EndingStep(job: Job, h: Host, e: Event)
    requires GoodJob(job) && h.Ending? && AllowedField(job, h.field)
    ensures OnScript(job, Before(job, h) + SendsOf(e), Next(job, h, e))
  {
    hide Asked, EndFrame;
    if e == Sent(EndFrame(job, h.field)) {
      assert WholeScript(job, Before(job, h) + SendsOf(e), h.field);
    }
  }

  lemma VerifyingStep(job: Job, sends: seq<Frame>, h: Host, e: Event, field: nat)
    requires GoodJob(job) && (h.Verifying? || h.AskingAgain?) && WholeScript(job, sends, field)
    ensures OnScript(job, sends + SendsOf(e), Next(job, h, e))
  {
    hide Script, AllowedField;
    assert PartOfScript(job, sends, field);
    assert sends + [] == sends;
    if e == Sent(QueryFrame) {
      assert WholeScriptAndQuery(job, sends + SendsOf(e), field);
    }
  }

  lemma ListeningAgainStep(job: Job, sends: seq<Frame>, h: Host, e: Event, field: nat)
    requires GoodJob(job) && ValidHost(job, h) && h.ListeningAgain? && WholeScriptAndQuery(job, sends, field)
    ensures OnScript(job, sends + SendsOf(e), Next(job, h, e))
  {
    hide Script, AllowedField, Hear, Complete;
    assert PartOfScript(job, sends, field);
    assert sends + [] == sends;
  }

  lemma OnScriptStep(job: Job, sends: seq<Frame>, h: Host, e: Event)
    requires GoodJob(job) && ValidHost(job, h) && OnScript(job, sends, h)
    ensures OnScript(job, sends + SendsOf(e), Next(job, h, e))
  {
    hide Next, Script, AllowedField, Before;
    if h.Verifying? || h.AskingAgain? {
      var field: nat :| WholeScript(job, sends, field);
      VerifyingStep(job, sends, h, e, field);
    } else if h.ListeningAgain? {
      var field: nat :| WholeScriptAndQuery(job, sends, field);
      ListeningAgainStep(job, sends, h, e, field);
    } else if h.Finished? || h.Illegal? {
      AfterTheEnd(job, sends, h, e);
    } else {
      EarlyStep(job, h, e);
    }
  }

  lemma EarlyStep(job: Job, h: Host, e: Event)
    requires GoodJob(job) && ValidHost(job, h) && BeforeEnd(h)
    requires OnScript(job, Before(job, h), h)
    ensures OnScript(job, Before(job, h) + SendsOf(e), Next(job, h, e))
  {
    hide Before, OnScript;
    match h
    case PageData(_) => PageDataStep(job, h, e);
    case AwaitAck(_, _) => AwaitAckStep(job, h, e);
    case Ending(_) => ReadyIsAllowed(job, h); EndingStep(job, h, e);
    case Authorizing => ReadyIsAllowed(job, h); ClosingStep(job, h, e);
    case Asking => ReadyIsAllowed(job, h); ClosingStep(job, h, e);
    case Listening(_) => ReadyIsAllowed(job, h); ClosingStep(job, h, e);
    case _ => OpeningStep(job, h, e);
  }

  lemma AfterTheEnd(job: Job, sends: seq<Frame>, h: Host, e: Event)
    requires GoodJob(job) && (h.Finished? || h.Illegal?)
    ensures OnScript(job, sends + SendsOf(e), Next(job, h, e))
  {
  }

  lemma ReadyIsAllowed(job: Job, h: Host)
    requires GoodJob(job) && ValidHost(job, h) && OnScript(job, Before(job, h), h)
    ensures h.Ending? ==> AllowedField(job, h.field)
    ensures h.Asking? || h.Listening? ==> job.patch.Some?
    ensures h.Authorizing? ==> job.allowDowngrade
  {
  }

  /** Every run keeps to the script. */
  lemma {:induction false} RunOnScript(job: Job, log: seq<Event>)
    requires GoodJob(job)
    ensures OnScript(job, Sends(log), Run(job, Begin, log))
  {
    hide Next, Before, Script, AllowedField, OnScript;
    if log == [] {
      NothingSent(job);
    } else {
      var front, e := log[..|log| - 1], log[|log| - 1];
      RunOnScript(job, front);
      OnScriptStep(job, Sends(front), Run(job, Begin, front), e);
      SendsStep(front, e);
      assert front + [e] == log;
    }
  }

  lemma NothingSent(job: Job)
    requires GoodJob(job)
    ensures OnScript(job, [], Begin)
  {
  }

  lemma OnScriptIsPart(job: Job, sends: seq<Frame>, h: Host)
    requires GoodJob(job) && ValidHost(job, h) && h != Illegal && OnScript(job, sends, h)
    ensures exists field: nat :: PartOfScript(job, sends, field)
  {
    hide Script, AllowedField, Before;
    if BeforeEnd(h) {
      BeforeIsPart(job, h);
    } else if h.Verifying? || h.AskingAgain? {
      var field: nat :| WholeScript(job, sends, field);
      assert PartOfScript(job, sends, field);
    } else if h.ListeningAgain? {
      var field: nat :| WholeScriptAndQuery(job, sends, field);
      assert PartOfScript(job, sends, field);
    }
  }

  /**
   Trace safety. Whatever the bus delivers, loses or makes up, and wherever the
   update ends, the frames sent are a prefix of the script, which one more query
   may follow; an update reported as done has sent all of the script.
   */
  lemma SentIsScriptPrefix(job: Job, log: seq<Event>)
    requires GoodJob(job) && Run(job, Begin, log) != Illegal
    ensures exists field: nat :: PartOfScript(job, Sends(log), field)
    ensures Run(job, Begin, log) == Finished(Done) ==>
              exists field: nat :: WholeScript(job, Sends(log), field) || WholeScriptAndQuery(job, Sends(log), field)
  {
    hide Next, Run, Script, AllowedField, Before;
    RunOnScript(job, log);
    OnScriptIsPart(job, Sends(log), Run(job, Begin, log));
  }
}
