/**
 End-to-end integrity over a bus that may lose frames both ways: an acknowledged
 page is the image's, and an update confirmed by the bootloader is installed.
 */
module Integrity {
  import opened Bytes
  import opened Bootloader
  import opened CanBus
  import opened FlashSpec
  import opened Lockstep
  import opened TraceSafety
  import opened VersionQuery
  import opened Wrappers

  // No byte appears from nowhere.

  /** Nothing was added to whole, and when nothing is missing nothing has changed. */
  predicate Lossy(part: Data, whole: Data) {
    |part| <= |whole| && (|part| == |whole| ==> part == whole)
  }

  /** The bytes the board has and those still on their way to it. */
  function Arriving(w: World): Data {
    w.board.written + w.board.buffer + Payload(w.down)
  }

  /** What arrives is what was sent, or shorter. */
  predicate Conserved(w: World) {
    Lossy(Arriving(w), Payload(Sends(w.log)))
  }

  lemma PayloadFirst(frames: seq<Frame>)
    requires frames != []
    ensures Payload(frames) == Payload(frames[..1]) + Payload(frames[1..])
    ensures Payload(frames[..1]) == if frames[0].id == DATA then frames[0].data else []
  {
    assert frames == frames[..1] + frames[1..] && frames[..1] == [frames[0]];
    PayloadConcat(frames[..1], frames[1..]);
    PayloadOne(frames[0]);
  }

  lemma PayloadDropped(frames: seq<Frame>, i: nat)
    requires i < |frames|
    ensures Lossy(Payload(Dropped(frames, i)), Payload(frames))
  {
    hide Payload;
    var head, rest := frames[..i], frames[i..];
    assert frames == head + rest && rest[1..] == frames[i + 1..];
    PayloadConcat(head, rest);
    PayloadConcat(head, rest[1..]);
    PayloadFirst(rest);
    var one, later := Payload(rest[..1]), Payload(rest[1..]);
    assert |one| == 0 ==> one + later == later;
    LossyPrepend(later, one + later, Payload(head));
  }

  lemma LossyAppend(a: Data, b: Data, c: Data)
    requires Lossy(a, b)
    ensures Lossy(a + c, b + c)
  {
  }

  lemma LossyPrepend(a: Data, b: Data, c: Data)
    requires Lossy(a, b)
    ensures Lossy(c + a, c + b)
  {
  }

  lemma LossyTrans(a: Data, b: Data, c: Data)
    requires Lossy(a, b) && Lossy(b, c)
    ensures Lossy(a, c)
  {
  }

  lemma ReactConserves(b: Board, f: Frame, reason: Option<byte>)
    ensures var b' := React(b, f, reason).0;
            Lossy(b'.written + b'.buffer, b.written + b.buffer + if f.id == DATA then f.data else [])
  {
    hide FromBE, ToBE;
    if f.id == DATA && b.receiving && f.id != QUERY_VERSION && !b.application {
      var all := b.buffer + f.data;
      assert b.written + b.buffer + f.data == b.written + all;
      if |all| >= PAGE {
        assert all == all[..PAGE] + all[PAGE..];
      }
    } else if f.id == END_UPDATE && !b.application {
      assert b.written + b.buffer + [] == (b.written + b.buffer);
    }
  }

  lemma DeliverConserves(job: Job, w: World, reason: Option<byte>)
    requires GoodJob(job) && w.down != [] && Conserved(w)
    ensures Conserved(Take(job, w, Deliver(reason)))
  {
    hide React, Payload, Sends;
    var f := w.down[0];
    var w' := Take(job, w, Deliver(reason));
    ReactConserves(w.board, f, reason);
    PayloadFirst(w.down);
    var extra := if f.id == DATA then f.data else [];
    LossyAppend(w'.board.written + w'.board.buffer, w.board.written + w.board.buffer + extra, Payload(w'.down));
    assert w.board.written + w.board.buffer + extra + Payload(w'.down) == Arriving(w);
    LossyTrans(Arriving(w'), Arriving(w), Payload(Sends(w.log)));
  }

  lemma HostConserves(job: Job, w: World, e: Event)
    requires GoodJob(job) && Enabled(job, w, HostDoes(e)) && Conserved(w)
    ensures Conserved(Take(job, w, HostDoes(e)))
  {
    hide Payload, Sends, Run, Next;
    SendsStep(w.log, e);
    var w' := Take(job, w, HostDoes(e));
    if e.Sent? {
      PayloadConcat(Sends(w.log), [e.frame]);
      PayloadConcat(w.down, [e.frame]);
      LossyAppend(Arriving(w), Payload(Sends(w.log)), Payload([e.frame]));
      assert Arriving(w') == Arriving(w) + Payload([e.frame]);
    } else {
      assert Sends(w.log) + [] == Sends(w.log);
    }
  }

  lemma Conservation(job: Job, w: World, s: Step)
    requires GoodJob(job) && Enabled(job, w, s) && Conserved(w)
    ensures Conserved(Take(job, w, s))
  {
    hide Payload, Sends, Run, Next, React;
    var w' := Take(job, w, s);
    match s
    case HostDoes(e) => HostConserves(job, w, e);
    case Deliver(reason) => DeliverConserves(job, w, reason);
    case DropDown(i) =>
      PayloadDropped(w.down, i);
      LossyPrepend(Payload(w'.down), Payload(w.down), w.board.written + w.board.buffer);
      LossyTrans(Arriving(w'), Arriving(w), Payload(Sends(w.log)));
    case DropUp(_) =>
    case Chatter(_) =>
    case Reset =>
      LossyPrepend([], w.board.buffer, w.board.written);
      LossyAppend(w.board.written + [], w.board.written + w.board.buffer, Payload(w.down));
      LossyTrans(Arriving(w'), Arriving(w), Payload(Sends(w.log)));
  }

  // What the frames on the bus say is true.

  predicate Silent(frames: seq<Frame>) {
    forall f :: f in frames ==> f.id != PAGE_ACK && f.id != STATUS
  }

  /** START_UPDATE is sent once, and until the board has it nothing is answered. */
  predicate Opened(job: Job, w: World)
    requires GoodJob(job)
  {
    var h := Run(job, Begin, w.log);
    && (h == Begin ==> w.down == [] && Silent(w.up))
    && (!Without(w.down, START_UPDATE) ==>
          w.down == [StartFrame(job)] && Silent(w.up) && (h == AwaitReceiving || (h.Finished? && h.outcome.Failed?)))
    && (w.board.receiving ==> w.board.declared == |job.firmware|)
  }

  predicate AcksWithin(frames: seq<Frame>, bytes: nat) {
    forall f :: f in frames && f.id == PAGE_ACK ==> |f.data| == 4 && PAGE * (FromBE(f.data) + 1) <= bytes
  }

  /** Until END_UPDATE is sent, an acknowledged page is a full page in flash. */
  predicate AcksBacked(w: World) {
    Without(Sends(w.log), END_UPDATE) ==>
      Without(w.down, END_UPDATE) && |w.board.written| % PAGE == 0 && AcksWithin(w.up, |w.board.written|)
  }

  /** A status has one or two bytes, and the good one is not given before the image is installed. */
  predicate StatusesTrue(frames: seq<Frame>, installed: Option<Data>, firmware: Data) {
    forall f :: f in frames && f.id == STATUS ==>
      (|f.data| == 1 || |f.data| == 2) && (f.data[0] == STATUS_VERIFY_OK ==> installed == Some(firmware))
  }

  lemma StartDeclares(job: Job)
    requires GoodJob(job)
    ensures |StartFrame(job).data| == 8 && FromBE(StartFrame(job).data[..4]) == |job.firmware|
  {
    assert Pow256(4) == 0x1_0000_0000;
    assert StartFrame(job).data[..4] == ToBE(|job.firmware|, 4);
    FromToBE(|job.firmware|, 4);
  }

  /** From every state but the first: which frames the flasher can send. */
  lemma StartOnlyFirst(job: Job, h: Host, e: Event)
    requires GoodJob(job) && ValidHost(job, h) && Next(job, h, e) != Illegal
    ensures Next(job, h, e) != Begin
    ensures h == Begin ==> e == Sent(StartFrame(job)) && Next(job, h, e) == AwaitReceiving
    ensures h != Begin && e.Sent? ==> e.frame.id != START_UPDATE
    ensures e.Sent? ==> h != AwaitReceiving && !h.Finished?
  {
    hide StartFrame, Classify, FromBE, ToBE, Hear, Complete, EndMinorField;
    OpeningFrameIds(job, h);
  }

  lemma WaitingForReceiving(job: Job, e: Event)
    requires GoodJob(job) && Next(job, AwaitReceiving, e) != Illegal && (e.Read? ==> e.frame.id != STATUS)
    ensures var h' := Next(job, AwaitReceiving, e); h' == AwaitReceiving || (h'.Finished? && h'.outcome.Failed?)
  {
  }

  lemma HostKeepsOpened(job: Job, w: World, e: Event)
    requires GoodJob(job) && Enabled(job, w, HostDoes(e)) && Opened(job, w)
    ensures Opened(job, Take(job, w, HostDoes(e)))
  {
    hide Next, Run, StartFrame;
    var h := Run(job, Begin, w.log);
    RunStep(job, Begin, w.log, e);
    StartOnlyFirst(job, h, e);
    StartFrameId(job);
    if !Without(w.down, START_UPDATE) {
      if h.Finished? {
        NothingAfterTheEnd(job, h, e);
      } else {
        WaitingForReceiving(job, e);
      }
    }
  }

  lemma NothingAfterTheEnd(job: Job, h: Host, e: Event)
    requires GoodJob(job) && h.Finished?
    ensures Next(job, h, e) == Illegal
  {
  }

  lemma StartFrameId(job: Job)
    ensures StartFrame(job).id == START_UPDATE
  {
  }

  lemma ReactDeclares(b: Board, f: Frame, reason: Option<byte>)
    ensures var b' := React(b, f, reason).0;
            && (f.id != START_UPDATE && b'.receiving ==> b.receiving && b'.declared == b.declared)
            && (f.id == START_UPDATE && b'.receiving ==>
                  (b.receiving && b'.declared == b.declared) || (|f.data| >= 4 && b'.declared == FromBE(f.data[..4])))
  {
    hide FromBE, ToBE;
  }

  lemma DeliverKeepsOpened(job: Job, w: World, reason: Option<byte>)
    requires GoodJob(job) && w.down != [] && Opened(job, w)
    ensures Opened(job, Take(job, w, Deliver(reason)))
  {
    hide Run, React, StartFrame;
    StartFrameId(job);
    StartDeclares(job);
    ReactDeclares(w.board, w.down[0], reason);
  }

  lemma OpenedKept(job: Job, w: World, s: Step)
    requires GoodJob(job) && Enabled(job, w, s) && Opened(job, w)
    ensures Opened(job, Take(job, w, s))
  {
    hide Run, Next, React, StartFrame;
    match s
    case HostDoes(e) => HostKeepsOpened(job, w, e);
    case Deliver(reason) => DeliverKeepsOpened(job, w, reason);
    case _ => StartFrameId(job);
  }

  lemma AckNames(page: nat)
    requires page <= APP_MAX_SIZE
    ensures |AckFrame(page).data| == 4 && FromBE(AckFrame(page).data) == page
  {
    assert Pow256(4) == 0x1_0000_0000;
    FromToBE(page, 4);
  }

  lemma ReactAcks(b: Board, f: Frame, reason: Option<byte>)
    requires f.id != END_UPDATE && |b.written| % PAGE == 0 && |b.written| <= APP_MAX_SIZE
    ensures var r := React(b, f, reason);
            && |r.0.written| % PAGE == 0 && AcksWithin(r.1, |r.0.written|)
            && (f.id != START_UPDATE ==> |b.written| <= |r.0.written|)
  {
    hide FromBE, ToBE;
    AckNames(|b.written| / PAGE);
  }

  lemma DeliverKeepsAcks(job: Job, w: World, reason: Option<byte>)
    requires GoodJob(job) && w.down != [] && Opened(job, w) && AcksBacked(w) && |w.board.written| <= APP_MAX_SIZE
    ensures AcksBacked(Take(job, w, Deliver(reason)))
  {
    hide Run, React, StartFrame, Sends, FromBE;
    if Without(Sends(w.log), END_UPDATE) {
      assert w.down[0].id != END_UPDATE;
      ReactAcks(w.board, w.down[0], reason);
      var r := React(w.board, w.down[0], reason);
      assert w.down[0].id == START_UPDATE ==> Silent(w.up);
      assert AcksWithin(w.up, |r.0.written|);
      AcksJoin(w.up, r.1, |r.0.written|);
    }
  }

  lemma AcksJoin(a: seq<Frame>, b: seq<Frame>, bytes: nat)
    requires AcksWithin(a, bytes) && AcksWithin(b, bytes)
    ensures AcksWithin(a + b, bytes)
  {
  }

  lemma WithoutAppend(frames: seq<Frame>, f: Frame, id: nat)
    ensures Without(frames + [f], id) <==> Without(frames, id) && f.id != id
  {
    assert (frames + [f])[|frames|] == f;
    assert forall i :: 0 <= i < |frames| ==> (frames + [f])[i] == frames[i];
  }

  lemma AcksKept(job: Job, w: World, s: Step)
    requires GoodJob(job) && Enabled(job, w, s) && Opened(job, w) && AcksBacked(w) && |w.board.written| <= APP_MAX_SIZE
    ensures AcksBacked(Take(job, w, s))
  {
    hide Run, Next, React, StartFrame, Sends, FromBE, Opened;
    match s
    case HostDoes(e) =>
      SendsStep(w.log, e);
      assert Sends(w.log) + [] == Sends(w.log);
      if e.Sent? {
        WithoutAppend(Sends(w.log), e.frame, END_UPDATE);
        WithoutAppend(w.down, e.frame, END_UPDATE);
      }
    case Deliver(reason) => DeliverKeepsAcks(job, w, reason);
    case _ =>
  }

  /** The good status is given only for a complete image. */
  lemma CloseStatuses(b: Board, reason: Option<byte>, firmware: Data)
    requires |b.written| == |firmware| ==> b.written == firmware
    requires b.receiving ==> b.declared == |firmware|
    ensures var r := Close(b, reason);
            && StatusesTrue(r.1, r.0.installed, firmware)
            && (r.0.installed == b.installed || r.0.installed == Some(firmware))
  {
  }

  lemma StatusesJoin(a: seq<Frame>, b: seq<Frame>, installed: Option<Data>, firmware: Data)
    requires StatusesTrue(a, installed, firmware) && StatusesTrue(b, installed, firmware)
    ensures StatusesTrue(a + b, installed, firmware)
  {
  }

  lemma ReactStatuses(b: Board, f: Frame, reason: Option<byte>, firmware: Data)
    requires Lossy(b.written + b.buffer, firmware) && (b.receiving ==> b.declared == |firmware|)
    ensures var r := React(b, f, reason);
            && StatusesTrue(r.1, r.0.installed, firmware)
            && (r.0.installed == b.installed || r.0.installed == Some(firmware))
  {
    hide FromBE, ToBE, Close;
    var flushed := Flush(b);
    assert b.written + [] == b.written;
    CloseStatuses(flushed.0, reason, firmware);
    var closed := Close(flushed.0, reason);
    var middle := flushed.1 + [StatusFrame([STATUS_VERIFYING])];
    assert StatusesTrue(middle, closed.0.installed, firmware);
    StatusesJoin(middle, closed.1, closed.0.installed, firmware);
  }

  // The invariant.

  ghost predicate StatusesKept(job: Job, w: World) {
    StatusesTrue(w.up, w.board.installed, job.firmware)
  }

  /** An update that took the good status for its end is installed. */
  ghost predicate DoneIsInstalled(job: Job, w: World)
    requires GoodJob(job)
  {
    Run(job, Begin, w.log) == Finished(Done) && Confirmed(w.log) ==> w.board.installed == Some(job.firmware)
  }

  /** The log ends with the reading of a status. */
  predicate Confirmed(log: seq<Event>) {
    log != [] && log[|log| - 1].Read? && log[|log| - 1].frame.id == STATUS
  }

  ghost predicate Sound(job: Job, w: World)
    requires GoodJob(job)
  {
    && Run(job, Begin, w.log) != Illegal
    && Conserved(w) && Opened(job, w) && AcksBacked(w) && StatusesKept(job, w) && DoneIsInstalled(job, w)
  }

  /** The flasher never sends more than the image, so the board never has more. */
  lemma SentIsImage(job: Job, w: World)
    requires GoodJob(job) && Run(job, Begin, w.log) != Illegal && Conserved(w)
    ensures Payload(Sends(w.log)) <= job.firmware && Lossy(Arriving(w), job.firmware)
    ensures Lossy(w.board.written + w.board.buffer, job.firmware) && |w.board.written| <= APP_MAX_SIZE
  {
    hide Run, Payload, Sends;
    BytesSentInOrder(job, w.log);
    assert Lossy(Payload(Sends(w.log)), job.firmware);
    LossyTrans(Arriving(w), Payload(Sends(w.log)), job.firmware);
    assert w.board.written + w.board.buffer + [] == w.board.written + w.board.buffer;
    LossyPrepend([], Payload(w.down), w.board.written + w.board.buffer);
    LossyTrans(w.board.written + w.board.buffer, Arriving(w), job.firmware);
  }

  lemma StatusesStep(job: Job, w: World, s: Step)
    requires GoodJob(job) && Enabled(job, w, s) && Sound(job, w)
    ensures StatusesKept(job, Take(job, w, s))
    ensures Take(job, w, s).board.installed == w.board.installed || Take(job, w, s).board.installed == Some(job.firmware)
  {
    hide Run, Next, React, StartFrame, Conserved, AcksBacked, DoneIsInstalled;
    SentIsImage(job, w);
    match s
    case Deliver(reason) =>
      ReactStatuses(w.board, w.down[0], reason, job.firmware);
      var r := React(w.board, w.down[0], reason);
      StatusesJoin(w.up, r.1, r.0.installed, job.firmware);
    case _ =>
  }

  /** The last event of an update that is done. */
  lemma DoneByStatus(job: Job, h: Host, f: Frame)
    requires GoodJob(job) && ValidHost(job, h) && f.id == STATUS && Next(job, h, Read(f)) == Finished(Done)
    requires |f.data| == 1 || |f.data| == 2
    ensures f.data[0] == STATUS_VERIFY_OK
  {
  }

  lemma DoneStep(job: Job, w: World, s: Step)
    requires GoodJob(job) && Enabled(job, w, s) && Sound(job, w)
    ensures DoneIsInstalled(job, Take(job, w, s))
  {
    hide Run, Next, React, StartFrame, Conserved, AcksBacked, Opened;
    StatusesStep(job, w, s);
    if s.HostDoes? {
      var h := Run(job, Begin, w.log);
      RunStep(job, Begin, w.log, s.e);
      if s.e.Read? && s.e.frame.id == STATUS && Next(job, h, s.e) == Finished(Done) {
        assert s.e.frame in w.up;
        DoneByStatus(job, h, s.e.frame);
      }
    }
  }

  lemma SoundStep(job: Job, w: World, s: Step)
    requires GoodJob(job) && Enabled(job, w, s) && Sound(job, w)
    ensures Sound(job, Take(job, w, s))
  {
    hide Run, Next, React, StartFrame, Conserved, AcksBacked, Opened, StatusesKept, DoneIsInstalled;
    Conservation(job, w, s);
    OpenedKept(job, w, s);
    SentIsImage(job, w);
    AcksKept(job, w, s);
    StatusesStep(job, w, s);
    DoneStep(job, w, s);
    if s.HostDoes? {
      RunStep(job, Begin, w.log, s.e);
    }
  }

  lemma SoundAtFirst(job: Job, w: World)
    requires GoodJob(job) && Initial(w)
    ensures Sound(job, w)
  {
  }

  lemma {:induction false} SoundRuns(job: Job, w: World, steps: seq<Step>)
    requires GoodJob(job) && Initial(w) && Execute(job, w, steps).Some?
    ensures Sound(job, Execute(job, w, steps).value)
  {
    hide Run, Next, Sound, Enabled, Take, Initial;
    if steps == [] {
      SoundAtFirst(job, w);
    } else {
      var front := steps[..|steps| - 1];
      SoundRuns(job, w, front);
      SoundStep(job, Execute(job, w, front).value, steps[|steps| - 1]);
    }
  }

  // The theorems.

  /**
   When the acknowledgement of page j is accepted, none of the bytes sent so far is
   lost or on its way: the board's flash holds exactly the image's first j + 1 pages.
   */
  lemma AcceptedAckMeansWritten(job: Job, start: World, steps: seq<Step>, e: Event)
    requires GoodJob(job) && Initial(start) && Execute(job, start, steps).Some?
    requires var w := Execute(job, start, steps).value;
             var h := Run(job, Begin, w.log);
             && h.AwaitAck? && Enabled(job, w, HostDoes(e)) && e.Read? && e.frame.id == PAGE_ACK
             && Next(job, h, e) == NextChunk(job, h.offset)
    ensures var w := Execute(job, start, steps).value;
            var offset := Run(job, Begin, w.log).offset;
            && offset == PAGE * (FromBE(e.frame.data[..4]) + 1) <= |job.firmware|
            && w.board.written == job.firmware[..offset] && w.board.buffer == [] && Payload(w.down) == []
  {
    hide Run, Next, Sound, Initial, Execute, React, Payload, Sends, FromBE, NextChunk;
    SoundRuns(job, start, steps);
    AckBacked(job, Execute(job, start, steps).value, e);
  }

  lemma AckBacked(job: Job, w: World, e: Event)
    requires GoodJob(job) && Sound(job, w)
    requires var h := Run(job, Begin, w.log);
             && h.AwaitAck? && e.Read? && w.up != [] && e.frame == w.up[0] && e.frame.id == PAGE_ACK
             && Next(job, h, e) == NextChunk(job, h.offset)
    ensures var offset := Run(job, Begin, w.log).offset;
            && |e.frame.data| == 4 && offset == PAGE * (FromBE(e.frame.data[..4]) + 1) <= |job.firmware|
            && w.board.written == job.firmware[..offset] && w.board.buffer == [] && Payload(w.down) == []
  {
    hide Run, Next, React, Payload, Sends, FromBE, NextChunk, Opened, StatusesKept, DoneIsInstalled;
    var h := Run(job, Begin, w.log);
    SentIsImage(job, w);
    NoEndBeforeEnd(job, w.log);
    RunInStep(job, w.log);
    assert e.frame in w.up && e.frame.data[..4] == e.frame.data;
    AcceptedIndex(job, h.offset, h.failures, e);
    assert Payload(Sends(w.log)) == job.firmware[..h.offset];
  }

  lemma AcceptedIndex(job: Job, offset: nat, failures: nat, e: Event)
    requires GoodJob(job) && ValidHost(job, AwaitAck(offset, failures)) && e.Read? && e.frame.id == PAGE_ACK && |e.frame.data| == 4
    requires Next(job, AwaitAck(offset, failures), e) == NextChunk(job, offset)
    ensures offset == PAGE * (FromBE(e.frame.data[..4]) + 1)
  {
    hide FromBE;
  }

  lemma NoEndBeforeEnd(job: Job, log: seq<Event>)
    requires GoodJob(job) && BeforeEnd(Run(job, Begin, log))
    ensures Without(Sends(log), END_UPDATE)
  {
    hide Run, Next, Sends, Asked, Before;
    RunOnScript(job, log);
    BeforeIsPart(job, Run(job, Begin, log));
    AskedWithoutEnd(job);
    assert forall i :: 0 <= i < |Sends(log)| ==> Sends(log)[i] == Asked(job)[i];
  }

  /** An update that ends with the good status leaves exactly the image installed. */
  lemma ConfirmedMeansInstalled(job: Job, start: World, steps: seq<Step>)
    requires GoodJob(job) && Initial(start) && Execute(job, start, steps).Some?
    requires var w := Execute(job, start, steps).value;
             Run(job, Begin, w.log) == Finished(Done) && Confirmed(w.log)
    ensures Execute(job, start, steps).value.board.installed == Some(job.firmware)
  {
    hide Run, Next, Initial, Execute, React, Conserved, Opened, AcksBacked, StatusesKept;
    SoundRuns(job, start, steps);
  }

  /**
   Whatever is lost, and whatever the bootloader's own checks find: the board never has
   anything installed but what it had before or the whole image.
   */
  lemma {:induction false} NothingElseIsInstalled(job: Job, start: World, steps: seq<Step>)
    requires GoodJob(job) && Initial(start) && Execute(job, start, steps).Some?
    ensures var installed := Execute(job, start, steps).value.board.installed;
            installed == start.board.installed || installed == Some(job.firmware)
  {
    hide Run, Next, Sound, Enabled, Take, Initial;
    if steps != [] {
      var front := steps[..|steps| - 1];
      SoundRuns(job, start, front);
      NothingElseIsInstalled(job, start, front);
      StatusesStep(job, Execute(job, start, front).value, steps[|steps| - 1]);
    }
  }
}
