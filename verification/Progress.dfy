/**
 No deadlock: on a bus that loses nothing, and with a bootloader that finds nothing
 wrong with the image, whatever the flasher waits for is on its way, and every
 update can go on to its end, for an image of any size.
 */
module Progress {
  import opened Bytes
  import opened Bootloader
  import opened CanBus
  import opened FlashSpec
  import opened Integrity
  import opened Lockstep
  import opened TraceSafety
  import opened VersionQuery
  import opened Wrappers

  /** Nothing is lost, nobody stops, and only the query, which nobody need answer, is allowed to time out. */
  predicate Smooth(job: Job, w: World, s: Step)
    requires GoodJob(job)
  {
    match s
    case HostDoes(e) => e != Stop && (e == Late ==> Run(job, Begin, w.log).Listening?)
    case Deliver(reason) => reason.None?
    case Chatter(_) => true
    case _ => false
  }

  function Smoothly(job: Job, w: World, steps: seq<Step>): Option<World>
    requires GoodJob(job)
  {
    if steps == [] then Some(w)
    else
      match Smoothly(job, w, steps[..|steps| - 1])
      case None => None
      case Some(w') =>
        var s := steps[|steps| - 1];
        if Enabled(job, w', s) && Smooth(job, w', s) then Some(Take(job, w', s)) else None
  }

  lemma {:induction false} SmoothIsRun(job: Job, w: World, steps: seq<Step>)
    requires GoodJob(job) && Smoothly(job, w, steps).Some?
    ensures Execute(job, w, steps) == Smoothly(job, w, steps)
  {
    hide Enabled, Take, Smooth;
    if steps != [] {
      SmoothIsRun(job, w, steps[..|steps| - 1]);
    }
  }

  // The frames in transit do not matter: the board as it will be once it has them all.

  function Settle(b: Board, down: seq<Frame>): (Board, seq<Frame>)
    decreases |down|
  {
    if down == [] then (b, [])
    else
      var r := React(b, down[0], None);
      var rest := Settle(r.0, down[1..]);
      (rest.0, r.1 + rest.1)
  }

  lemma {:induction false} SettleAppend(b: Board, down: seq<Frame>, f: Frame)
    ensures var s := Settle(b, down);
            var r := React(s.0, f, None);
            Settle(b, down + [f]) == (r.0, s.1 + r.1)
    decreases |down|
  {
    hide React;
    if down == [] {
      var r := React(b, f, None);
      assert down + [f] == [f] && [f][1..] == [];
      assert r.1 + [] == r.1 && [] + r.1 == r.1;
    } else {
      var r := React(b, down[0], None);
      SettleAppend(r.0, down[1..], f);
      assert (down + [f])[1..] == down[1..] + [f];
      var s := Settle(r.0, down[1..]);
      assert r.1 + (s.1 + React(s.0, f, None).1) == (r.1 + s.1) + React(s.0, f, None).1;
    }
  }

  /** The acknowledgements and statuses among some frames. */
  function Signals(frames: seq<Frame>): seq<Frame> {
    if frames == [] then []
    else (if IsSignal(frames[0]) then [frames[0]] else []) + Signals(frames[1..])
  }

  predicate IsSignal(f: Frame) {
    f.id == PAGE_ACK || f.id == STATUS
  }

  lemma {:induction false} SignalsConcat(a: seq<Frame>, b: seq<Frame>)
    ensures Signals(a + b) == Signals(a) + Signals(b)
  {
    if a == [] {
      assert a + b == b;
    } else {
      hide IsSignal;
      SignalsConcat(a[1..], b);
      assert (a + b)[0] == a[0] && (a + b)[1..] == a[1..] + b;
      var one := if IsSignal(a[0]) then [a[0]] else [];
      assert one + (Signals(a[1..]) + Signals(b)) == (one + Signals(a[1..])) + Signals(b);
    }
  }

  /** What the flasher still has to hear, from the bus and from the board. */
  function Pending(w: World): seq<Frame> {
    Signals(w.up + Settle(w.board, w.down).1)
  }

  function Settled(w: World): Board {
    Settle(w.board, w.down).0
  }

  /** A board that has received exactly these bytes, its full pages written. */
  predicate Receiving(job: Job, b: Board, data: Data) {
    && !b.application && b.receiving && b.declared == |job.firmware|
    && b.written + b.buffer == data && |b.written| == PAGE * (|data| / PAGE)
  }

  function FinalSignals(job: Job): seq<Frame> {
    (if |job.firmware| % PAGE != 0 then [AckFrame(|job.firmware| / PAGE)] else [])
    + [StatusFrame([STATUS_VERIFYING]), StatusFrame([STATUS_VERIFY_OK])]
  }

  predicate TailOf(part: seq<Frame>, whole: seq<Frame>) {
    0 < |part| <= |whole| && part == whole[|whole| - |part|..]
  }

  /** The version fits the two 16-bit fields of END_UPDATE as it is. */
  predicate FieldsFit(job: Job) {
    job.major < 0x1_0000 && job.minor < 0x1_0000
  }

  /** The flasher's state, the settled board's, and what is pending between them. */
  predicate InTouch(job: Job, h: Host, b: Board, pending: seq<Frame>)
    requires GoodJob(job) && ValidHost(job, h)
  {
    match h
    case Begin => !b.application && pending == []
    case AwaitReceiving =>
      Receiving(job, b, []) && TailOf(pending, [StatusFrame([STATUS_ERASING]), StatusFrame([STATUS_RECEIVING])])
    case RecordFrames(_) => Receiving(job, b, []) && pending == []
    case HmacFrames(_) => Receiving(job, b, []) && pending == []
    case PageData(offset) => Receiving(job, b, job.firmware[..offset]) && pending == []
    case AwaitAck(offset, failures) =>
      failures == 0 && Receiving(job, b, job.firmware[..offset]) && pending == [AckFrame(offset / PAGE - 1)]
    case Verifying => TailOf(pending, FinalSignals(job))
    case Finished(outcome) => outcome == Done || (outcome == Failed(FieldOverflow) && !FieldsFit(job))
    case AskingAgain => false
    case ListeningAgain(_) => false
    case Illegal => false
    case _ => Receiving(job, b, job.firmware) && pending == []
  }

  ghost predicate Synchronous(job: Job, w: World)
    requires GoodJob(job)
  {
    InTouch(job, Run(job, Begin, w.log), Settled(w), Pending(w))
  }

  // The flasher sends.

  lemma ChunkAbsorbed(job: Job, b: Board, offset: nat)
    requires GoodJob(job) && offset < |job.firmware| && offset % 8 == 0 && Receiving(job, b, job.firmware[..offset])
    ensures var end := ChunkEnd(|job.firmware|, offset);
            var r := React(b, DataFrame(job.firmware, offset), None);
            && Receiving(job, r.0, job.firmware[..end])
            && r.1 == if end % PAGE == 0 then [AckFrame(end / PAGE - 1)] else []
  {
    hide FromBE, ToBE;
    var end := ChunkEnd(|job.firmware|, offset);
    SamePage(|job.firmware|, offset);
    var chunk := job.firmware[offset..end];
    var all := b.buffer + chunk;
    assert job.firmware[..offset] + chunk == job.firmware[..end];
    assert b.written + all == job.firmware[..end];
    assert |all| == end - PAGE * (offset / PAGE);
    if end % PAGE == 0 {
      assert all[..PAGE] == all && all[PAGE..] == [];
    }
  }

  lemma PageDataSends(job: Job, h: Host, b: Board, f: Frame)
    requires GoodJob(job) && ValidHost(job, h) && h.PageData? && Receiving(job, b, job.firmware[..h.offset])
    requires Next(job, h, Sent(f)) != Illegal
    ensures InTouch(job, Next(job, h, Sent(f)), React(b, f, None).0, Signals(React(b, f, None).1))
  {
    hide React, Receiving, DataFrame, ToBE;
    ChunkAbsorbed(job, b, h.offset);
    ChunkGrid(|job.firmware|, h.offset);
    var end := ChunkEnd(|job.firmware|, h.offset);
    if end % PAGE == 0 {
      SignalsOfOne(AckFrame(end / PAGE - 1));
    }
    assert Signals([]) == [];
    assert job.firmware[..|job.firmware|] == job.firmware;
  }

  lemma SignalsOfOne(f: Frame)
    ensures Signals([f]) == if IsSignal(f) then [f] else []
    ensures Signals([]) == []
  {
    assert [f][1..] == [];
  }

  lemma StartBegins(job: Job, b: Board)
    requires GoodJob(job) && !b.application
    ensures var r := React(b, StartFrame(job), None);
            && Receiving(job, r.0, [])
            && Signals(r.1) == [StatusFrame([STATUS_ERASING]), StatusFrame([STATUS_RECEIVING])]
  {
    hide FromBE, ToBE;
    StartDeclares(job);
    var pair := [StatusFrame([STATUS_ERASING]), StatusFrame([STATUS_RECEIVING])];
    assert pair[1..] == [pair[1]];
    SignalsOfOne(pair[1]);
  }

  /** Record, HMAC, authorization and query leave the transfer alone. */
  lemma Unmoved(b: Board, f: Frame)
    requires b.receiving && !b.application && f.id != START_UPDATE && f.id != DATA && f.id != END_UPDATE
    ensures React(b, f, None).0 == b && Signals(React(b, f, None).1) == []
  {
    SignalsOfOne(VersionFrame(b.application));
  }

  lemma EndInstalls(job: Job, b: Board, field: nat)
    requires GoodJob(job) && Receiving(job, b, job.firmware)
    ensures Signals(React(b, EndFrame(job, field), None).1) == FinalSignals(job)
  {
    hide FromBE, ToBE;
    var size := |job.firmware|;
    assert (b.buffer == []) == (size % PAGE == 0);
    var flushed := Flush(b);
    assert b.written + [] == b.written;
    assert |flushed.0.written| == size;
    var ok := [StatusFrame([STATUS_VERIFYING]), StatusFrame([STATUS_VERIFY_OK])];
    assert React(b, EndFrame(job, field), None).1 == flushed.1 + ok;
    assert ok[1..] == [ok[1]];
    SignalsOfOne(ok[1]);
    SignalsConcat(flushed.1, ok);
    SignalsOfOne(AckFrame(size / PAGE));
  }

  /** Frames that are neither data nor END_UPDATE: what may follow. */
  lemma PlainSends(job: Job, h: Host, b: Board, f: Frame)
    requires GoodJob(job) && ValidHost(job, h) && InTouch(job, h, b, [])
    requires h.RecordFrames? || h.HmacFrames? || h.Authorizing? || h.Asking?
    requires Next(job, h, Sent(f)) != Illegal
    ensures InTouch(job, Next(job, h, Sent(f)), React(b, f, None).0, Signals(React(b, f, None).1))
  {
    hide React, Signals, FromBE, ToBE;
    OpeningFrameIds(job, h);
    Unmoved(b, f);
    assert job.firmware[..0] == [];
  }

  lemma HostSends(job: Job, h: Host, b: Board, pending: seq<Frame>, f: Frame)
    requires GoodJob(job) && ValidHost(job, h) && InTouch(job, h, b, pending)
    requires Next(job, h, Sent(f)) != Illegal
    ensures InTouch(job, Next(job, h, Sent(f)), React(b, f, None).0, pending + Signals(React(b, f, None).1))
  {
    hide React, Signals, Next, FromBE, ToBE;
    OnlySenders(job, h, f);
    assert pending + Signals(React(b, f, None).1) == Signals(React(b, f, None).1);
    match h
    case Begin =>
      StartOnlyFirst(job, h, Sent(f));
      StartBegins(job, b);
    case PageData(_) => PageDataSends(job, h, b, f);
    case Ending(field) =>
      EndSent(job, field, f);
      EndInstalls(job, b, field);
    case _ => PlainSends(job, h, b, f);
  }

  lemma EndSent(job: Job, field: nat, f: Frame)
    requires GoodJob(job) && Next(job, Host.Ending(field), Sent(f)) != Illegal
    ensures f == EndFrame(job, field) && Next(job, Host.Ending(field), Sent(f)) == Verifying
  {
  }

  lemma OnlySenders(job: Job, h: Host, f: Frame)
    requires GoodJob(job) && ValidHost(job, h) && Next(job, h, Sent(f)) != Illegal
    ensures h.Begin? || h.RecordFrames? || h.HmacFrames? || h.PageData? || h.Authorizing? || h.Asking? || h.Ending? || h.AskingAgain?
  {
    hide FromBE, ToBE;
  }

  // The flasher reads.

  lemma AckStepsOn(job: Job, offset: nat)
    requires GoodJob(job) && ValidHost(job, AwaitAck(offset, 0))
    ensures Next(job, AwaitAck(offset, 0), Read(AckFrame(offset / PAGE - 1))) == NextChunk(job, offset)
  {
    AckNames(offset / PAGE - 1);
    var ack := AckFrame(offset / PAGE - 1);
    assert ack.data[..4] == ack.data;
  }

  lemma AckRead(job: Job, h: Host, b: Board, f: Frame, rest: seq<Frame>)
    requires GoodJob(job) && ValidHost(job, h) && h.AwaitAck?
    requires InTouch(job, h, b, (if IsSignal(f) then [f] else []) + rest)
    ensures InTouch(job, Next(job, h, Read(f)), b, rest)
  {
    hide Receiving, FromBE, ToBE;
    if IsSignal(f) {
      AckStepsOn(job, h.offset);
      assert f == ([f] + rest)[0] && rest == ([f] + rest)[1..];
      PagesAreChunks(h.offset);
      assert job.firmware[..|job.firmware|] == job.firmware;
    } else {
      assert [] + rest == rest;
    }
  }

  lemma TailRead(part: seq<Frame>, whole: seq<Frame>)
    requires TailOf(part, whole)
    ensures part[0] in whole && part[|part| - 1] == whole[|whole| - 1]
    ensures |part| > 1 ==> TailOf(part[1..], whole)
  {
  }

  lemma ReceivingMoves(job: Job)
    requires GoodJob(job)
    ensures Next(job, AwaitReceiving, Read(StatusFrame([STATUS_ERASING]))) == AwaitReceiving
    ensures Next(job, AwaitReceiving, Read(StatusFrame([STATUS_RECEIVING]))) == AfterStart(job)
  {
  }

  lemma ReceivingRead(job: Job, b: Board, f: Frame, rest: seq<Frame>)
    requires GoodJob(job) && InTouch(job, AwaitReceiving, b, [f] + rest)
    ensures InTouch(job, Next(job, AwaitReceiving, Read(f)), b, rest)
  {
    hide Next, Receiving;
    ReceivingMoves(job);
    var all, whole := [f] + rest, [StatusFrame([STATUS_ERASING]), StatusFrame([STATUS_RECEIVING])];
    assert f == all[0] && rest == all[1..];
    TailRead(all, whole);
    assert job.firmware[..0] == [];
  }

  lemma FinalSignalsRead(job: Job, f: Frame)
    requires GoodJob(job) && f in FinalSignals(job)
    ensures Next(job, Verifying, Read(f)) == if f == StatusFrame([STATUS_VERIFY_OK]) then Finished(Done) else Verifying
  {
    hide ToBE;
  }

  lemma VerifyingRead(job: Job, b: Board, f: Frame, rest: seq<Frame>)
    requires GoodJob(job) && InTouch(job, Verifying, b, [f] + rest)
    ensures InTouch(job, Next(job, Verifying, Read(f)), b, rest)
  {
    hide Next;
    var all := [f] + rest;
    assert f == all[0] && rest == all[1..];
    TailRead(all, FinalSignals(job));
    FinalSignalsRead(job, f);
  }

  lemma StatusRead(job: Job, h: Host, b: Board, f: Frame, rest: seq<Frame>)
    requires GoodJob(job) && (h.AwaitReceiving? || h.Verifying?)
    requires InTouch(job, h, b, (if IsSignal(f) then [f] else []) + rest)
    ensures InTouch(job, Next(job, h, Read(f)), b, rest)
  {
    hide Next, InTouch;
    if !IsSignal(f) {
      assert [] + rest == rest;
      NoiseIgnored(job, h, f);
    } else if h.Verifying? {
      VerifyingRead(job, b, f, rest);
    } else {
      ReceivingRead(job, b, f, rest);
    }
  }

  lemma NoiseIgnored(job: Job, h: Host, f: Frame)
    requires GoodJob(job) && (h.AwaitReceiving? || h.Verifying?) && !IsSignal(f)
    ensures Next(job, h, Read(f)) == h
  {
  }

  lemma ListeningReads(job: Job, h: Host, b: Board, f: Frame, rest: seq<Frame>)
    requires GoodJob(job) && ValidHost(job, h) && h.Listening?
    requires InTouch(job, h, b, (if IsSignal(f) then [f] else []) + rest)
    ensures InTouch(job, Next(job, h, Read(f)), b, rest)
  {
    hide Receiving, FromBE, Hear, Complete;
    AnswerFits(job, Hear(h.q, f));
  }

  /** The answer of a bootloader that reads the patch in END_UPDATE. */
  predicate ReadsPatches(q: Inquiry) {
    q.report.Some? && q.report.value.bootloader && q.report.value.acceptsPatch
  }

  /**
   Which versions END_UPDATE can carry: a major of 16 bits and a minor of 16 bits, or any minor
   beside a patch, towards a bootloader that reads it there and gets the minor's low byte.
   */
  lemma AnswerFits(job: Job, q: Inquiry)
    requires GoodJob(job)
    ensures AfterAnswer(job, q).Ending? <==>
              job.major < 0x1_0000 && (job.minor < 0x1_0000 || (job.patch.Some? && ReadsPatches(q)))
    ensures !AfterAnswer(job, q).Ending? ==> AfterAnswer(job, q) == Finished(Failed(FieldOverflow))
  {
    if job.patch.Some? {
      assert job.minor % 256 <= 255 && (PATCH_FLAG + job.patch.value) * 256 <= 255 * 256;
    }
  }

  lemma HostReads(job: Job, h: Host, b: Board, f: Frame, rest: seq<Frame>)
    requires GoodJob(job) && ValidHost(job, h)
    requires InTouch(job, h, b, (if IsSignal(f) then [f] else []) + rest)
    requires Next(job, h, Read(f)) != Illegal
    ensures InTouch(job, Next(job, h, Read(f)), b, rest)
  {
    hide Next, InTouch;
    OnlyReaders(job, h, Read(f));
    match h
    case AwaitAck(_, _) => AckRead(job, h, b, f, rest);
    case AwaitReceiving => StatusRead(job, h, b, f, rest);
    case Verifying => StatusRead(job, h, b, f, rest);
    case Listening(_) => ListeningReads(job, h, b, f, rest);
    case _ => NeverAgain(job, h, b, (if IsSignal(f) then [f] else []) + rest);
  }

  lemma NeverAgain(job: Job, h: Host, b: Board, pending: seq<Frame>)
    requires GoodJob(job) && ValidHost(job, h) && InTouch(job, h, b, pending)
    ensures !h.ListeningAgain? && !h.AskingAgain?
  {
  }

  lemma OnlyReaders(job: Job, h: Host, e: Event)
    requires GoodJob(job) && ValidHost(job, h) && Next(job, h, e) != Illegal && (e.Read? || e == Quiet)
    ensures h.AwaitReceiving? || h.AwaitAck? || h.Listening? || h.Verifying? || h.ListeningAgain?
  {
    hide FromBE, ToBE;
  }

  /** Silence changes nothing, and the query may end without an answer. */
  lemma HostIdles(job: Job, h: Host, b: Board, pending: seq<Frame>, e: Event)
    requires GoodJob(job) && ValidHost(job, h) && InTouch(job, h, b, pending)
    requires Next(job, h, e) != Illegal && (e == Quiet || (e == Late && h.Listening?))
    ensures InTouch(job, Next(job, h, e), b, pending)
  {
    hide Receiving, FromBE, ToBE, Hear, Complete;
    if h.Listening? {
      AnswerFits(job, h.q);
    }
  }

  // Steps and runs.

  lemma SentKeeps(job: Job, w: World, f: Frame)
    requires GoodJob(job) && Synchronous(job, w) && Enabled(job, w, HostDoes(Sent(f)))
    ensures Synchronous(job, Take(job, w, HostDoes(Sent(f))))
  {
    hide Run, Next, React, InTouch, Signals, Settle;
    var s := Settle(w.board, w.down);
    var r := React(s.0, f, None);
    SettleAppend(w.board, w.down, f);
    RunStep(job, Begin, w.log, Sent(f));
    HostSends(job, Run(job, Begin, w.log), s.0, Pending(w), f);
    assert w.up + (s.1 + r.1) == (w.up + s.1) + r.1;
    SignalsConcat(w.up + s.1, r.1);
  }

  lemma ReadKeeps(job: Job, w: World, f: Frame)
    requires GoodJob(job) && Synchronous(job, w) && Enabled(job, w, HostDoes(Read(f)))
    ensures Synchronous(job, Take(job, w, HostDoes(Read(f))))
  {
    hide Run, Next, React, InTouch, Signals, Settle;
    var w' := Take(job, w, HostDoes(Read(f)));
    var s := Settle(w.board, w.down);
    assert w.up + s.1 == [f] + (w'.up + s.1);
    SignalsConcat([f], w'.up + s.1);
    SignalsOfOne(f);
    RunStep(job, Begin, w.log, Read(f));
    HostReads(job, Run(job, Begin, w.log), s.0, f, Pending(w'));
  }

  lemma DeliverKeeps(job: Job, w: World)
    requires GoodJob(job) && w.down != [] && Synchronous(job, w)
    ensures Synchronous(job, Take(job, w, Deliver(None)))
  {
    hide Run, Next, React, InTouch, Signals;
    var r := React(w.board, w.down[0], None);
    var rest := Settle(r.0, w.down[1..]);
    assert Settle(w.board, w.down) == (rest.0, r.1 + rest.1);
    assert w.up + (r.1 + rest.1) == (w.up + r.1) + rest.1;
  }

  lemma ChatterKeeps(job: Job, w: World, f: Frame)
    requires GoodJob(job) && !IsSignal(f) && Synchronous(job, w)
    ensures Synchronous(job, Take(job, w, Chatter(f)))
  {
    hide Run, Next, React, InTouch, Signals, Settle;
    var s := Settle(w.board, w.down);
    assert (w.up + [f]) + s.1 == w.up + ([f] + s.1);
    SignalsConcat(w.up, [f] + s.1);
    SignalsConcat([f], s.1);
    SignalsConcat(w.up, s.1);
    SignalsOfOne(f);
    assert [] + Signals(s.1) == Signals(s.1);
  }

  lemma IdleKeeps(job: Job, w: World, e: Event)
    requires GoodJob(job) && Synchronous(job, w) && Enabled(job, w, HostDoes(e))
    requires e == Quiet || (e == Late && Run(job, Begin, w.log).Listening?)
    ensures Synchronous(job, Take(job, w, HostDoes(e)))
  {
    hide Run, Next, InTouch, Signals, Settle;
    RunStep(job, Begin, w.log, e);
    HostIdles(job, Run(job, Begin, w.log), Settled(w), Pending(w), e);
  }

  lemma SmoothStep(job: Job, w: World, s: Step)
    requires GoodJob(job) && Synchronous(job, w) && Enabled(job, w, s) && Smooth(job, w, s)
    ensures Synchronous(job, Take(job, w, s))
  {
    hide Run, Next, React, InTouch, Signals, Settle;
    match s
    case HostDoes(e) =>
      match e {
        case Sent(f) => SentKeeps(job, w, f);
        case Read(f) => ReadKeeps(job, w, f);
        case Quiet => IdleKeeps(job, w, e);
        case Late => IdleKeeps(job, w, e);
      }
    case Deliver(_) => DeliverKeeps(job, w);
    case Chatter(f) => ChatterKeeps(job, w, f);
  }

  lemma {:induction false} SmoothRuns(job: Job, start: World, steps: seq<Step>)
    requires GoodJob(job) && Initial(start) && Smoothly(job, start, steps).Some?
    ensures Synchronous(job, Smoothly(job, start, steps).value)
  {
    hide Run, Next, Enabled, Take, Smooth, Synchronous;
    if steps == [] {
      SynchronousAtFirst(job, start);
    } else {
      var front := steps[..|steps| - 1];
      SmoothRuns(job, start, front);
      SmoothStep(job, Smoothly(job, start, front).value, steps[|steps| - 1]);
    }
  }

  lemma SynchronousAtFirst(job: Job, w: World)
    requires GoodJob(job) && Initial(w)
    ensures Synchronous(job, w)
  {
    assert w.up + Settle(w.board, w.down).1 == [];
  }

  /** What is left to do, but for the frames in transit. */
  function Rank(job: Job, h: Host): nat
    requires GoodJob(job) && ValidHost(job, h)
  {
    var size := |job.firmware|;
    match h
    case Begin => 2 * size + 60
    case AwaitReceiving => 2 * size + 50
    case RecordFrames(n) => 2 * size + 40 - n
    case HmacFrames(n) => 2 * size + 25 - n
    case PageData(offset) => 2 * (size - offset) + 10
    case AwaitAck(offset, _) => 2 * (size - offset) + 11
    case Authorizing => 9
    case Asking => 8
    case Listening(_) => 7
    case Ending(_) => 6
    case Verifying => 5
    case _ => 0
  }

  /** A state in which the flasher's next event is its own: a frame, or the end of the query. */
  lemma OwnMove(job: Job, h: Host) returns (e: Event)
    requires GoodJob(job) && ValidHost(job, h)
    requires h.Begin? || h.RecordFrames? || h.HmacFrames? || h.PageData? || h.Authorizing? || h.Asking? || h.Listening? || h.Ending?
    ensures Next(job, h, e) != Illegal && Rank(job, Next(job, h, e)) < Rank(job, h)
    ensures e.Sent? || (e == Late && h.Listening?)
  {
    hide FromBE, ToBE, RecordFrame, HmacFrame, DataFrame, StartFrame, EndFrame;
    match h
    case Begin => e := Sent(StartFrame(job));
    case RecordFrames(n) => e := Sent(RecordFrame(SIGNATURE_CHUNK, job.record.value, n));
    case HmacFrames(n) => e := Sent(HmacFrame(job.signature.value, n));
    case PageData(offset) =>
      ChunkGrid(|job.firmware|, offset);
      e := Sent(DataFrame(job.firmware, offset));
    case Authorizing => e := Sent(AuthorizeFrame);
    case Asking => e := Sent(QueryFrame);
    case Listening(q) =>
      AnswerFits(job, q);
      e := Late;
    case Ending(field) => e := Sent(EndFrame(job, field));
  }

  /** Reading never moves the flasher back. */
  lemma ReadRank(job: Job, h: Host, f: Frame)
    requires GoodJob(job) && ValidHost(job, h) && Next(job, h, Read(f)) != Illegal
    requires h.AwaitReceiving? || (h.AwaitAck? && h.failures == 0) || h.Verifying?
    ensures Rank(job, Next(job, h, Read(f))) <= Rank(job, h)
  {
    hide FromBE, ToBE;
  }

  /** A waiting flasher takes whatever comes. */
  lemma WaitersRead(job: Job, h: Host, f: Frame)
    requires GoodJob(job) && ValidHost(job, h) && (h.AwaitReceiving? || h.AwaitAck? || h.Verifying?)
    ensures Next(job, h, Read(f)) != Illegal
  {
    hide FromBE, ToBE;
  }

  /** When nothing is on its way to the board, a waiting flasher has something to read. */
  lemma SomethingToRead(job: Job, w: World)
    requires GoodJob(job) && Synchronous(job, w) && w.down == []
    requires var h := Run(job, Begin, w.log); h.AwaitReceiving? || h.AwaitAck? || h.Verifying?
    ensures w.up != [] && Pending(w) == Signals(w.up)
    ensures Next(job, Run(job, Begin, w.log), Read(w.up[0])) != Illegal
  {
    hide Run, Next, React, Receiving, FinalSignals, AckFrame;
    assert w.up + [] == w.up;
    WaitersRead(job, Run(job, Begin, w.log), w.up[0]);
  }

  lemma WhoMoves(job: Job, w: World)
    requires GoodJob(job) && Synchronous(job, w) && !Run(job, Begin, w.log).Finished?
    ensures var h := Run(job, Begin, w.log);
            || h.AwaitReceiving? || (h.AwaitAck? && h.failures == 0) || h.Verifying?
            || h.Begin? || h.RecordFrames? || h.HmacFrames? || h.PageData? || h.Authorizing? || h.Asking? || h.Listening? || h.Ending?
  {
    hide Run, Pending, Settled;
  }

  /** In every state short of the end, some smooth step brings the end nearer. */
  lemma CanMove(job: Job, w: World) returns (s: Step)
    requires GoodJob(job) && Synchronous(job, w) && !Run(job, Begin, w.log).Finished?
    ensures Enabled(job, w, s) && Smooth(job, w, s) && !s.Chatter?
    ensures var w' := Take(job, w, s);
            var r, r' := Rank(job, Run(job, Begin, w.log)), Rank(job, Run(job, Begin, w'.log));
            r' < r || (r' == r && (|w'.down| < |w.down| || (|w'.down| == |w.down| && |w'.up| < |w.up|)))
  {
    hide Run, Next, React, Signals, Settle, Rank, Synchronous;
    var h := Run(job, Begin, w.log);
    WhoMoves(job, w);
    if w.down != [] {
      s := Deliver(None);
    } else if h.AwaitReceiving? || h.AwaitAck? || h.Verifying? {
      SomethingToRead(job, w);
      s := HostDoes(Read(w.up[0]));
      RunStep(job, Begin, w.log, s.e);
      ReadRank(job, h, w.up[0]);
    } else {
      var e := OwnMove(job, h);
      s := HostDoes(e);
      RunStep(job, Begin, w.log, e);
    }
  }

  lemma {:induction false} SmoothlyConcat(job: Job, w: World, s: Step, rest: seq<Step>)
    requires GoodJob(job) && Enabled(job, w, s) && Smooth(job, w, s)
    ensures Smoothly(job, w, [s] + rest) == Smoothly(job, Take(job, w, s), rest)
    decreases |rest|
  {
    hide Enabled, Smooth, Take;
    var steps := [s] + rest;
    if rest == [] {
      assert steps == [s] && steps[..0] == [];
      assert Smoothly(job, w, []) == Some(w);
      assert Smoothly(job, w, [s]) == Some(Take(job, w, s));
    } else {
      var front := rest[..|rest| - 1];
      SmoothlyConcat(job, w, s, front);
      assert steps[..|steps| - 1] == [s] + front && steps[|steps| - 1] == rest[|rest| - 1];
    }
  }

  lemma {:induction false} CanFinishFrom(job: Job, w: World) returns (steps: seq<Step>)
    requires GoodJob(job) && Synchronous(job, w)
    ensures Smoothly(job, w, steps).Some?
    ensures Run(job, Begin, Smoothly(job, w, steps).value.log).Finished?
    decreases Rank(job, Run(job, Begin, w.log)), |w.down|, |w.up|
  {
    hide Run, Next, React, Signals, Settle, Rank, Enabled, Smooth, Take;
    if Run(job, Begin, w.log).Finished? {
      steps := [];
    } else {
      var s := CanMove(job, w);
      SmoothStep(job, w, s);
      var rest := CanFinishFrom(job, Take(job, w, s));
      SmoothlyConcat(job, w, s, rest);
      steps := [s] + rest;
    }
  }

  // The theorems.

  lemma DoneIsByStatus(job: Job, h: Host, e: Event)
    requires GoodJob(job) && ValidHost(job, h) && !h.ListeningAgain? && Next(job, h, e) == Finished(Done)
    ensures e.Read? && e.frame.id == STATUS
  {
    hide FromBE, ToBE, Hear, Complete;
  }

  lemma {:induction false} SmoothIsConfirmed(job: Job, start: World, steps: seq<Step>)
    requires GoodJob(job) && Initial(start) && Smoothly(job, start, steps).Some?
    ensures var w := Smoothly(job, start, steps).value;
            Run(job, Begin, w.log) == Finished(Done) ==> Confirmed(w.log)
  {
    hide Run, Next, React, Smooth, Pending, Settled;
    if steps == [] {
      RunNothing(job, Begin);
    } else {
      var front, s := steps[..|steps| - 1], steps[|steps| - 1];
      SmoothIsConfirmed(job, start, front);
      SmoothRuns(job, start, front);
      var w := Smoothly(job, start, front).value;
      if s.HostDoes? {
        RunStep(job, Begin, w.log, s.e);
        if Next(job, Run(job, Begin, w.log), s.e) == Finished(Done) {
          DoneIsByStatus(job, Run(job, Begin, w.log), s.e);
        }
      }
    }
  }

  /**
   No failure: an undisturbed update that has ended has succeeded and its image is installed,
   or its version was refused, which happens only to a version that does not fit.
   */
  lemma SmoothEndsWell(job: Job, start: World, steps: seq<Step>)
    requires GoodJob(job) && Initial(start) && Smoothly(job, start, steps).Some?
    ensures var w := Smoothly(job, start, steps).value;
            var h := Run(job, Begin, w.log);
            && h != Illegal
            && (h.Finished? ==> (h.outcome == Done && w.board.installed == Some(job.firmware)) ||
                                (h.outcome == Failed(FieldOverflow) && !FieldsFit(job)))
  {
    hide Run, Next, Smoothly, Initial, Execute;
    SmoothRuns(job, start, steps);
    SmoothIsConfirmed(job, start, steps);
    SmoothIsRun(job, start, steps);
    var h := Run(job, Begin, Smoothly(job, start, steps).value.log);
    if h == Finished(Done) {
      ConfirmedMeansInstalled(job, start, steps);
    }
  }

  /** No deadlock: from every reachable state, for every image size, the end can be reached, and with a version that fits it is success. */
  lemma SmoothCanFinish(job: Job, start: World, steps: seq<Step>)
    requires GoodJob(job) && Initial(start) && Smoothly(job, start, steps).Some?
    ensures exists more :: Smoothly(job, start, steps + more).Some? && EndsAsItShould(job, Smoothly(job, start, steps + more).value)
  {
    hide Run, Next, Initial, Synchronous;
    SmoothRuns(job, start, steps);
    var more := CanFinishFrom(job, Smoothly(job, start, steps).value);
    SmoothlyJoin(job, start, steps, more);
    SmoothEndsWell(job, start, steps + more);
  }

  predicate EndsAsItShould(job: Job, w: World)
    requires GoodJob(job)
  {
    var h := Run(job, Begin, w.log);
    h.Finished? && (FieldsFit(job) ==> h.outcome == Done)
  }

  lemma {:induction false} SmoothlyJoin(job: Job, start: World, steps: seq<Step>, more: seq<Step>)
    requires GoodJob(job) && Smoothly(job, start, steps).Some?
    ensures Smoothly(job, start, steps + more) == Smoothly(job, Smoothly(job, start, steps).value, more)
    decreases |more|
  {
    hide Enabled, Smooth, Take;
    if more == [] {
      assert steps + more == steps;
    } else {
      var front := more[..|more| - 1];
      SmoothlyJoin(job, start, steps, front);
      assert (steps + more)[..|steps + more| - 1] == steps + front;
    }
  }

  /** The acknowledgement waited for is written as soon as the board has what was sent to it. */
  lemma AwaitedAckIsThere(job: Job, start: World, steps: seq<Step>)
    requires GoodJob(job) && Initial(start) && Smoothly(job, start, steps).Some?
    requires Run(job, Begin, Smoothly(job, start, steps).value.log).AwaitAck?
    ensures var w := Smoothly(job, start, steps).value;
            var offset := Run(job, Begin, w.log).offset;
            && Settled(w).written == job.firmware[..offset] && Pending(w) == [AckFrame(offset / PAGE - 1)]
            && (w.down == [] ==> AckFrame(offset / PAGE - 1) in w.up)
  {
    hide Run, Next, Smoothly, Initial, React;
    SmoothRuns(job, start, steps);
    var w := Smoothly(job, start, steps).value;
    if w.down == [] {
      SomethingToRead(job, w);
      SignalsAreIn(w.up);
    }
  }

  lemma {:induction false} SignalsAreIn(frames: seq<Frame>)
    ensures forall f :: f in Signals(frames) ==> f in frames
  {
    if frames != [] {
      SignalsAreIn(frames[1..]);
    }
  }
}
