/**
 The CAN-OTA update as a protocol: for every event between the flasher and its
 environment, what the flasher does next. Flasher.Flash is proved to follow it;
 the properties of an update are proved about it.
 */
module FlashSpec {
  import opened Bytes
  import opened CanBus
  import opened VersionQuery
  import opened Wrappers

  const SIGNATURE_CHUNK := 0x7EC
  const START_UPDATE := 0x7F1
  const DATA := 0x7F2
  const PAGE_ACK := 0x7F3
  const END_UPDATE := 0x7F4
  const STATUS := 0x7F5
  const HMAC_CHUNK := 0x7F7
  const AUTHORIZE_DOWNGRADE := 0x7FD

  const STATUS_RECEIVING: byte := 0x03
  const STATUS_VERIFY_OK: byte := 0x04
  const STATUS_VERIFY_FAIL: byte := 0x05
  const STATUS_ERROR: byte := 0xFF

  const PAGE: nat := 2048
  const APP_MAX_SIZE: nat := 112 * 1024
  const RECORD_CHUNKS: nat := 11
  const RECORD_BYTES: nat := 76
  const HMAC_CHUNKS: nat := 4
  const ATTEMPTS: nat := 3
  const PATCH_FLAG: nat := 0x80

  /** An update: the image, what is published next to it, the version to report and the caller's choice. */
  datatype Job = Job(
    firmware: Data, hardwareId: nat, crc32: nat, record: Option<Data>, signature: Option<Data>,
    major: nat, minor: nat, patch: Option<nat>, allowDowngrade: bool)

  /** Sizes the source guarantees: a 32-byte HMAC, a 76-byte record, 32-bit fields, a patch of at most 127. */
  predicate WellFormedJob(job: Job) {
    && (job.signature.Some? ==> |job.signature.value| == 8 * HMAC_CHUNKS)
    && (job.record.Some? ==> |job.record.value| == RECORD_BYTES)
    && (job.patch.Some? ==> job.patch.value <= 0x7F)
    && job.crc32 < 0x1_0000_0000 && job.hardwareId < 0x1_0000_0000
  }

  datatype FlashError =
    | EmptyImage | TooBig | NoSignature | Cancelled | TimedOut | VerifyFailure | BoardError
    | ShortAck | AckMismatch | FieldOverflow | FinalTimeout

  datatype Outcome = Done | Failed(error: FlashError)

  /** The refusals before anything is sent. */
  function Refusal(job: Job): Option<FlashError> {
    if job.firmware == [] then Some(EmptyImage)
    else if |job.firmware| > APP_MAX_SIZE then Some(TooBig)
    else if job.record.None? && job.signature.None? then Some(NoSignature)
    else None
  }

  // The frames.

  function StartFrame(job: Job): Frame {
    Frame(START_UPDATE, ToBE(|job.firmware|, 4) + ToBE(job.hardwareId, 4))
  }

  function RecordFrame(id: nat, record: Data, i: nat): Frame
    requires |record| == RECORD_BYTES && i < RECORD_CHUNKS
  {
    Frame(id, [i] + (record + [0])[7 * i..7 * (i + 1)])
  }

  function HmacFrame(signature: Data, i: nat): Frame
    requires |signature| == 8 * HMAC_CHUNKS && i < HMAC_CHUNKS
  {
    Frame(HMAC_CHUNK, signature[8 * i..8 * (i + 1)])
  }

  function ChunkEnd(size: nat, offset: nat): nat {
    if offset + 8 <= size then offset + 8 else size
  }

  function DataFrame(firmware: Data, offset: nat): Frame
    requires offset < |firmware|
  {
    Frame(DATA, firmware[offset..ChunkEnd(|firmware|, offset)])
  }

  const AuthorizeFrame := Frame(AUTHORIZE_DOWNGRADE, [0xD0, 0x9E, 0x12, 0xAD])

  /** _end_update_minor_field */
  function EndMinorField(minor: nat, patch: Option<nat>, acceptsPatch: bool): nat {
    if acceptsPatch && patch.Some? && patch.value <= 0x7F then (PATCH_FLAG + patch.value) * 256 + minor % 256
    else minor
  }

  function EndFrame(job: Job, field: nat): Frame {
    Frame(END_UPDATE, ToBE(job.crc32, 4) + ToBE(job.major, 2) + ToBE(field, 2))
  }

  // Waiting for an answer.

  datatype Verdict = Keep | Answer(data: Data) | Error(error: FlashError)

  /** What _wait_for makes of one frame. A STATUS frame of another length than 1 or 2 is returned unchecked. */
  function Classify(f: Frame, expectedId: nat, expectedStatus: Option<byte>): Verdict {
    if f.id == STATUS && (|f.data| == 1 || |f.data| == 2) then
      if expectedId == STATUS && (expectedStatus.None? || f.data[0] == expectedStatus.value) then Answer(f.data)
      else if f.data[0] == STATUS_VERIFY_FAIL then Error(VerifyFailure)
      else if f.data[0] == STATUS_ERROR then Error(BoardError)
      else Keep
    else if f.id == expectedId then Answer(f.data)
    else Keep
  }

  /** One event of a wait: None while it goes on. */
  function WaitStep(e: Event, expectedId: nat, expectedStatus: Option<byte>): Option<Verdict> {
    match e
    case Quiet => Some(Keep)
    case Read(f) => Some(Classify(f, expectedId, expectedStatus))
    case Stop => Some(Error(Cancelled))
    case Late => Some(Error(TimedOut))
    case Sent(_) => None
  }

  // The protocol.

  datatype Host =
    | Begin
    | AwaitReceiving
    | RecordFrames(sent: nat)
    | HmacFrames(sent: nat)
    | PageData(offset: nat)
    | AwaitAck(offset: nat, failures: nat)
    | Authorizing
    | Asking
    | Listening(q: Inquiry)
    | Ending(field: nat)
    | Verifying
    | AskingAgain
    | ListeningAgain(q: Inquiry)
    | Finished(outcome: Outcome)
    | Illegal

  function AfterStart(job: Job): Host {
    if job.record.Some? then RecordFrames(0) else AfterRecord(job)
  }

  function AfterRecord(job: Job): Host {
    if job.signature.Some? then HmacFrames(0) else PageData(0)
  }

  /** The bytes before `offset` are sent. A full page is waited for; the last, partial one is acknowledged only after END_UPDATE. */
  function AfterChunk(job: Job, offset: nat): Host {
    if offset % PAGE == 0 then AwaitAck(offset, 0) else NextChunk(job, offset)
  }

  function NextChunk(job: Job, offset: nat): Host {
    if offset < |job.firmware| then PageData(offset) else AfterData(job)
  }

  function AfterData(job: Job): Host {
    if job.allowDowngrade then Authorizing else AfterAuthorize(job)
  }

  function AfterAuthorize(job: Job): Host {
    if job.patch.Some? then Asking else ToEnd(job, job.minor)
  }

  /** struct.pack refuses a version field over 16 bits. */
  function ToEnd(job: Job, field: nat): Host {
    if job.major < 0x1_0000 && field < 0x1_0000 then Ending(field) else Finished(Failed(FieldOverflow))
  }

  function AfterAnswer(job: Job, q: Inquiry): Host {
    var accepts := q.report.Some? && q.report.value.bootloader && q.report.value.acceptsPatch;
    ToEnd(job, EndMinorField(job.minor, job.patch, accepts))
  }

  /** The first four bytes of a page acknowledgement are the page index. */
  function AckStep(job: Job, offset: nat, ack: Data): Host {
    if |ack| < 4 then Finished(Failed(ShortAck))
    else if FromBE(ack[..4]) != offset / PAGE - 1 then Finished(Failed(AckMismatch))
    else NextChunk(job, offset)
  }

  function InquiryStep(q: Inquiry, e: Event): Option<Inquiry>
    requires WellFormed(q)
  {
    match e
    case Quiet => Some(q)
    case Read(f) => Some(Hear(q, f))
    case _ => None
  }

  function FinalVerdict(f: Frame): Host {
    if f.id == STATUS && (|f.data| == 1 || |f.data| == 2) then
      if f.data[0] == STATUS_VERIFY_OK then Finished(Done)
      else if f.data[0] == STATUS_VERIFY_FAIL then Finished(Failed(VerifyFailure))
      else if f.data[0] == STATUS_ERROR then Finished(Failed(BoardError))
      else Verifying
    else Verifying
  }

  function AfterLastAnswer(q: Inquiry): Host {
    if q.report.Some? && !q.report.value.bootloader then Finished(Done) else Finished(Failed(FinalTimeout))
  }

  predicate ValidHost(job: Job, h: Host) {
    match h
    case RecordFrames(sent) => job.record.Some? && sent < RECORD_CHUNKS
    case HmacFrames(sent) => job.signature.Some? && sent < HMAC_CHUNKS
    case PageData(offset) => offset < |job.firmware| && offset % 8 == 0
    case AwaitAck(offset, failures) => 0 < offset <= |job.firmware| && offset % PAGE == 0 && failures < ATTEMPTS
    case Listening(q) => WellFormed(q) && !Complete(q)
    case ListeningAgain(q) => WellFormed(q) && !Complete(q)
    case _ => true
  }

  predicate GoodJob(job: Job) {
    WellFormedJob(job) && Refusal(job).None?
  }

  lemma PagesAreChunks(x: nat)
    requires x % PAGE == 0
    ensures x % 8 == 0
  {
    assert x == 8 * (256 * (x / PAGE));
  }

  lemma ChunkGrid(size: nat, offset: nat)
    requires offset < size && offset % 8 == 0
    ensures offset < ChunkEnd(size, offset) <= size
    ensures ChunkEnd(size, offset) % 8 == 0 || ChunkEnd(size, offset) == size
    ensures ChunkEnd(size, offset) % PAGE == 0 ==> ChunkEnd(size, offset) % 8 == 0
  {
    if ChunkEnd(size, offset) % PAGE == 0 {
      PagesAreChunks(ChunkEnd(size, offset));
    }
  }

  /** The flasher's next state. Illegal: the flasher does not do that. */
  function Next(job: Job, h: Host, e: Event): (h': Host)
    requires GoodJob(job) && ValidHost(job, h)
    ensures ValidHost(job, h')
  {
    match h
    case Begin => if e == Sent(StartFrame(job)) then AwaitReceiving else Illegal
    case AwaitReceiving =>
      (match WaitStep(e, STATUS, Some(STATUS_RECEIVING))
       case Some(Keep) => h
       case Some(Answer(_)) => AfterStart(job)
       case Some(Error(error)) => Finished(Failed(error))
       case None => Illegal)
    case RecordFrames(sent) =>
      if e != Sent(RecordFrame(SIGNATURE_CHUNK, job.record.value, sent)) then Illegal
      else if sent + 1 < RECORD_CHUNKS then RecordFrames(sent + 1) else AfterRecord(job)
    case HmacFrames(sent) =>
      if e != Sent(HmacFrame(job.signature.value, sent)) then Illegal
      else if sent + 1 < HMAC_CHUNKS then HmacFrames(sent + 1) else PageData(0)
    case PageData(offset) =>
      if e == Stop && offset % PAGE == 0 then Finished(Failed(Cancelled))
      else if e == Sent(DataFrame(job.firmware, offset)) then
        ChunkGrid(|job.firmware|, offset);
        AfterChunk(job, ChunkEnd(|job.firmware|, offset))
      else Illegal
    case AwaitAck(offset, failures) =>
      (match WaitStep(e, PAGE_ACK, None)
       case Some(Keep) => h
       case Some(Answer(ack)) => AckStep(job, offset, ack)
       case Some(Error(error)) => if failures + 1 < ATTEMPTS then AwaitAck(offset, failures + 1) else Finished(Failed(error))
       case None => Illegal)
    case Authorizing => if e == Sent(AuthorizeFrame) then AfterAuthorize(job) else Illegal
    case Asking => if e == Sent(QueryFrame) then Listening(Nothing) else Illegal
    case Listening(q) =>
      if e == Late then AfterAnswer(job, q)
      else
        (match InquiryStep(q, e)
         case Some(q') => if Complete(q') then AfterAnswer(job, q') else Listening(q')
         case None => Illegal)
    case Ending(field) => if e == Sent(EndFrame(job, field)) then Verifying else Illegal
    case Verifying =>
      (match e
       case Quiet => h
       case Read(f) => FinalVerdict(f)
       case Stop => Finished(Failed(Cancelled))
       case Late => AskingAgain
       case Sent(_) => Illegal)
    case AskingAgain => if e == Sent(QueryFrame) then ListeningAgain(Nothing) else Illegal
    case ListeningAgain(q) =>
      if e == Late then AfterLastAnswer(q)
      else
        (match InquiryStep(q, e)
         case Some(q') => if Complete(q') then AfterLastAnswer(q') else ListeningAgain(q')
         case None => Illegal)
    case Finished(_) => Illegal
    case Illegal => Illegal
  }

  /** The state after a whole log, from h. */
  function Run(job: Job, h: Host, log: seq<Event>): (h': Host)
    requires GoodJob(job) && ValidHost(job, h)
    ensures ValidHost(job, h')
  {
    if log == [] then h else Next(job, Run(job, h, log[..|log| - 1]), log[|log| - 1])
  }

  lemma RunStep(job: Job, h: Host, log: seq<Event>, e: Event)
    requires GoodJob(job) && ValidHost(job, h)
    ensures Run(job, h, log + [e]) == Next(job, Run(job, h, log), e)
  {
    hide Next;
    assert (log + [e])[..|log|] == log;
  }

  lemma NothingAfterIllegal(job: Job, e: Event)
    requires GoodJob(job)
    ensures Next(job, Illegal, e) == Illegal
  {
  }

  lemma RunNothing(job: Job, h: Host)
    requires GoodJob(job) && ValidHost(job, h)
    ensures Run(job, h, []) == h
  {
  }

  lemma {:induction false} RunConcat(job: Job, h: Host, log: seq<Event>, more: seq<Event>)
    requires GoodJob(job) && ValidHost(job, h)
    ensures Run(job, h, log + more) == Run(job, Run(job, h, log), more)
  {
    hide Next;
    if more == [] {
      assert log + more == log;
    } else {
      var front, last := more[..|more| - 1], more[|more| - 1];
      RunConcat(job, h, log, front);
      assert log + more == (log + front) + [last];
      RunStep(job, h, log + front, last);
    }
  }

  /** Nothing legal leads out of Illegal: a log the flasher can produce has only legal prefixes. */
  lemma {:induction false} LegalPrefix(job: Job, h: Host, log: seq<Event>, n: nat)
    requires GoodJob(job) && ValidHost(job, h) && n <= |log| && Run(job, h, log) != Illegal
    ensures Run(job, h, log[..n]) != Illegal
    decreases |log|
  {
    hide Next;
    if n < |log| {
      var front := log[..|log| - 1];
      NothingAfterIllegal(job, log[|log| - 1]);
      LegalPrefix(job, h, front, n);
      assert front[..n] == log[..n];
    } else {
      assert log[..n] == log;
    }
  }
}
