/**
 What the last resort of an update is worth: when the good status never comes, a
 board that answers a version query as an application is taken for success.
 */
module LostConfirmation {
  import opened Bytes
  import opened Bootloader
  import opened CanBus
  import opened FlashSpec
  import opened Integrity
  import opened Lockstep
  import opened Progress
  import opened TraceSafety
  import opened VersionQuery
  import opened Wrappers

  /** No other node answers version queries. */
  predicate NoDouble(s: Step) {
    s.Chatter? ==> !IsVersion(s.f)
  }

  /** The board has nothing to restart into, or nothing but the image itself. */
  predicate NothingElse(installed: Option<Data>, firmware: Data) {
    installed.None? || installed == Some(firmware)
  }

  /** What may happen: anything but a double, and a restart only where it leads nowhere else. */
  predicate Undisturbed(job: Job, start: World, s: Step) {
    NoDouble(s) && (s.Reset? ==> NothingElse(start.board.installed, job.firmware))
  }

  predicate SaysApplication(f: Frame) {
    IsVersion(f) && f.data[0] == 0
  }

  ghost predicate AnswersTrue(frames: seq<Frame>, installed: Option<Data>, firmware: Data) {
    forall f :: f in frames && SaysApplication(f) ==> installed == Some(firmware)
  }

  predicate HeardApplication(h: Host) {
    match h
    case ListeningAgain(q) => q.report.Some? && !q.report.value.bootloader
    case Finished(outcome) => outcome == Done
    case _ => false
  }

  ghost predicate Trustworthy(job: Job, w: World)
    requires GoodJob(job)
  {
    && (w.board.application ==> w.board.installed == Some(job.firmware))
    && AnswersTrue(w.up, w.board.installed, job.firmware)
    && (HeardApplication(Run(job, Begin, w.log)) ==> w.board.installed == Some(job.firmware))
  }

  lemma ReactAnswers(b: Board, f: Frame, reason: Option<byte>, firmware: Data)
    requires Lossy(b.written + b.buffer, firmware) && (b.receiving ==> b.declared == |firmware|)
    requires b.application ==> b.installed == Some(firmware)
    ensures var r := React(b, f, reason);
            AnswersTrue(r.1, r.0.installed, firmware) && (r.0.application ==> r.0.installed == Some(firmware))
  {
    hide FromBE, ToBE;
    var flushed := Flush(b);
    assert b.written + [] == b.written;
    assert flushed.0.written == b.written + b.buffer;
  }

  /** Where the flasher can learn of an application. */
  lemma HeardStep(job: Job, h: Host, e: Event)
    requires GoodJob(job) && ValidHost(job, h) && HeardApplication(Next(job, h, e))
    ensures HeardApplication(h) || (e.Read? && (SaysApplication(e.frame) || e.frame.id == STATUS))
  {
    hide Classify, FromBE, ToBE;
    if h.ListeningAgain? && e.Read? {
      HearApplication(h.q, e.frame);
    }
  }

  lemma HearApplication(q: Inquiry, f: Frame)
    requires WellFormed(q)
    ensures var q' := Hear(q, f);
            q'.report.Some? && !q'.report.value.bootloader ==> SaysApplication(f) || (q.report.Some? && !q.report.value.bootloader)
  {
  }

  lemma HeardByStatus(job: Job, h: Host, f: Frame)
    requires GoodJob(job) && ValidHost(job, h) && f.id == STATUS && (|f.data| == 1 || |f.data| == 2)
    requires HeardApplication(Next(job, h, Read(f))) && !HeardApplication(h)
    ensures f.data[0] == STATUS_VERIFY_OK
  {
  }

  lemma HostStaysTrustworthy(job: Job, w: World, e: Event)
    requires GoodJob(job) && Enabled(job, w, HostDoes(e)) && Sound(job, w) && Trustworthy(job, w)
    ensures Trustworthy(job, Take(job, w, HostDoes(e)))
  {
    hide Run, Next, Conserved, Opened, AcksBacked, DoneIsInstalled, HeardApplication, SaysApplication;
    var h := Run(job, Begin, w.log);
    RunStep(job, Begin, w.log, e);
    if HeardApplication(Next(job, h, e)) && !HeardApplication(h) {
      HeardStep(job, h, e);
      assert e.frame in w.up;
      if e.frame.id == STATUS {
        HeardByStatus(job, h, e.frame);
      }
    }
  }

  lemma TrustworthyStep(job: Job, w: World, s: Step)
    requires GoodJob(job) && Enabled(job, w, s) && Sound(job, w) && Trustworthy(job, w)
    requires NoDouble(s) && (s.Reset? ==> NothingElse(w.board.installed, job.firmware))
    ensures Trustworthy(job, Take(job, w, s))
  {
    hide Run, Next, React, Conserved, AcksBacked, DoneIsInstalled, HeardApplication;
    match s
    case HostDoes(e) => HostStaysTrustworthy(job, w, e);
    case Deliver(reason) =>
      SentIsImage(job, w);
      ReactAnswers(w.board, w.down[0], reason, job.firmware);
      StatusesStep(job, w, s);
    case _ =>
  }

  lemma {:induction false} TrustworthyRuns(job: Job, w: World, steps: seq<Step>)
    requires GoodJob(job) && Initial(w) && Execute(job, w, steps).Some?
    requires forall s :: s in steps ==> Undisturbed(job, w, s)
    ensures Trustworthy(job, Execute(job, w, steps).value)
  {
    hide Run, Next, Sound, Enabled, Take, Undisturbed, HeardApplication;
    if steps == [] {
      RunNothing(job, Begin);
      NothingHeard();
    } else {
      var front := steps[..|steps| - 1];
      TrustworthyRuns(job, w, front);
      SoundRuns(job, w, front);
      NothingElseIsInstalled(job, w, front);
      assert steps[|steps| - 1] in steps;
      UndisturbedStep(job, w, steps[|steps| - 1]);
      TrustworthyStep(job, Execute(job, w, front).value, steps[|steps| - 1]);
    }
  }

  lemma UndisturbedStep(job: Job, start: World, s: Step)
    requires Undisturbed(job, start, s)
    ensures NoDouble(s) && (s.Reset? ==> NothingElse(start.board.installed, job.firmware))
  {
  }

  lemma NothingHeard()
    ensures !HeardApplication(Begin)
  {
  }

  /**
   While the board has no double on the bus, and does not restart into another image,
   success is success, confirmed or not.
   */
  lemma UndisturbedDoneIsInstalled(job: Job, start: World, steps: seq<Step>)
    requires GoodJob(job) && Initial(start) && Execute(job, start, steps).Some?
    requires forall s :: s in steps ==> Undisturbed(job, start, s)
    requires Run(job, Begin, Execute(job, start, steps).value.log) == Finished(Done)
    ensures Execute(job, start, steps).value.board.installed == Some(job.firmware)
  {
    hide Run, Next, Initial, Execute, Undisturbed;
    TrustworthyRuns(job, start, steps);
  }

  // Otherwise it may not be: a board that restarts into another image.

  /** w can come about from start without a double on the bus. */
  ghost predicate Reaches(job: Job, start: World, w: World)
    requires GoodJob(job)
  {
    exists steps :: Execute(job, start, steps) == Some(w) && forall s :: s in steps ==> NoDouble(s)
  }

  lemma ReachesItself(job: Job, start: World)
    requires GoodJob(job)
    ensures Reaches(job, start, start)
  {
    assert Execute(job, start, []) == Some(start);
  }

  lemma ReachesNext(job: Job, start: World, w: World, s: Step)
    requires GoodJob(job) && Reaches(job, start, w) && Enabled(job, w, s) && NoDouble(s)
    ensures Reaches(job, start, Take(job, w, s))
  {
    hide Enabled, Take, NoDouble;
    var steps :| Execute(job, start, steps) == Some(w) && forall s :: s in steps ==> NoDouble(s);
    assert (steps + [s])[..|steps|] == steps;
    assert Execute(job, start, steps + [s]) == Some(Take(job, w, s));
  }

  lemma HostStep(job: Job, start: World, w: World, h: Host, e: Event) returns (w': World)
    requires GoodJob(job) && Reaches(job, start, w) && Run(job, Begin, w.log) == h
    requires Next(job, h, e) != Illegal && (e.Read? ==> w.up != [] && e.frame == w.up[0])
    ensures Reaches(job, start, w') && w' == Take(job, w, HostDoes(e)) && Run(job, Begin, w'.log) == Next(job, h, e)
  {
    hide Run, Next, Reaches;
    ReachesNext(job, start, w, HostDoes(e));
    w' := Take(job, w, HostDoes(e));
    RunStep(job, Begin, w.log, e);
  }

  /** The bus may lose everything that is on its way. */
  lemma {:induction false} Silenced(job: Job, start: World, w: World) returns (w': World)
    requires GoodJob(job) && Reaches(job, start, w)
    ensures Reaches(job, start, w') && w' == w.(down := [], up := [])
    decreases |w.down| + |w.up|
  {
    hide Reaches;
    if w.down != [] {
      ReachesNext(job, start, w, DropDown(0));
      w' := Silenced(job, start, Take(job, w, DropDown(0)));
    } else if w.up != [] {
      ReachesNext(job, start, w, DropUp(0));
      w' := Silenced(job, start, Take(job, w, DropUp(0)));
    } else {
      w' := w;
    }
  }

  /** Whether END_UPDATE can be sent at all: a large minor goes in only as the low byte beside a patch. */
  predicate Sendable(job: Job) {
    job.major < 0x1_0000 && (job.minor < 0x1_0000 || job.patch.Some?)
  }

  /** An update under way before its version is asked for or sent: nothing has been installed. */
  ghost predicate UnderWay(job: Job, start: World, w: World)
    requires GoodJob(job)
  {
    var h := Run(job, Begin, w.log);
    && Reaches(job, start, w) && Sound(job, w) && Synchronous(job, w)
    && BeforeEnd(h) && !h.Listening? && !w.board.application && w.board.installed == start.board.installed
  }

  lemma ReactBeforeEnd(b: Board, f: Frame, reason: Option<byte>)
    requires f.id != END_UPDATE
    ensures React(b, f, reason).0.installed == b.installed && React(b, f, reason).0.application == b.application
  {
    hide FromBE, ToBE;
  }

  /** Where the steps before the version lead. */
  lemma StaysBeforeEnd(job: Job, h: Host, e: Event)
    requires GoodJob(job) && ValidHost(job, h) && Sendable(job)
    requires BeforeEnd(h) && !h.Listening? && !h.Asking? && !h.Ending?
    ensures var h' := Next(job, h, e);
            || (BeforeEnd(h') && !h'.Listening?) || h' == Illegal
            || (h'.Finished? && h'.outcome.Failed? && h'.outcome.error != FieldOverflow)
  {
    hide FromBE, ToBE, RecordFrame, HmacFrame, DataFrame, StartFrame;
    if h.PageData? {
      ChunkGrid(|job.firmware|, h.offset);
    }
  }

  lemma UnderWayStep(job: Job, start: World, w: World, s: Step)
    requires GoodJob(job) && Sendable(job) && UnderWay(job, start, w)
    requires !Run(job, Begin, w.log).Asking? && !Run(job, Begin, w.log).Ending?
    requires Enabled(job, w, s) && Smooth(job, w, s) && !s.Chatter?
    ensures UnderWay(job, start, Take(job, w, s))
  {
    hide Run, Next, React, Reaches, Conserved, Opened, StatusesKept, DoneIsInstalled, Pending, Settled;
    ReachesNext(job, start, w, s);
    SoundStep(job, w, s);
    SmoothStep(job, w, s);
    NoEndBeforeEnd(job, w.log);
    match s
    case HostDoes(e) =>
      RunStep(job, Begin, w.log, e);
      StaysBeforeEnd(job, Run(job, Begin, w.log), e);
    case Deliver(reason) =>
      assert w.down[0].id != END_UPDATE;
      ReactBeforeEnd(w.board, w.down[0], reason);
  }

  /** Smooth steps lead to the query or to END_UPDATE. */
  lemma {:induction false} ToTheVersion(job: Job, start: World, w: World) returns (w': World)
    requires GoodJob(job) && Sendable(job) && UnderWay(job, start, w)
    ensures UnderWay(job, start, w') && (Run(job, Begin, w'.log).Asking? || Run(job, Begin, w'.log).Ending?)
    decreases Rank(job, Run(job, Begin, w.log)), |w.down|, |w.up|
  {
    hide Run, Next, Reaches, Sound, Synchronous, Rank, Enabled, Smooth, Take;
    if Run(job, Begin, w.log).Asking? || Run(job, Begin, w.log).Ending? {
      w' := w;
    } else {
      NotOver(job, w);
      var s := CanMove(job, w);
      UnderWayStep(job, start, w, s);
      w' := ToTheVersion(job, start, Take(job, w, s));
    }
  }

  lemma NotOver(job: Job, w: World)
    requires GoodJob(job) && BeforeEnd(Run(job, Begin, w.log))
    ensures !Run(job, Begin, w.log).Finished?
  {
  }

  lemma UnderWayAtFirst(job: Job, start: World)
    requires GoodJob(job) && Initial(start)
    ensures UnderWay(job, start, start)
  {
    hide Reaches, Sound, Synchronous;
    ReachesItself(job, start);
    SoundAtFirst(job, start);
    SynchronousAtFirst(job, start);
    RunNothing(job, Begin);
  }

  const PatchFrame := Frame(VERSION_PATCH, [1, 0, 1])

  /** A bootloader that says it reads patches. */
  lemma PatchMoves(job: Job)
    requires GoodJob(job) && Sendable(job) && job.patch.Some?
    ensures Next(job, Asking, Sent(QueryFrame)) == Listening(Nothing)
    ensures var q := Hear(Nothing, VersionFrame(false));
            var q' := Hear(q, PatchFrame);
            && !Complete(q) && Next(job, Listening(Nothing), Read(VersionFrame(false))) == Listening(q)
            && !Complete(q') && Next(job, Listening(q), Read(PatchFrame)) == Listening(q')
            && Next(job, Listening(q'), Late).Ending?
  {
    hide FromBE;
    assert PatchFrame.data[1..3] == [0, 1];
    assert (PATCH_FLAG + job.patch.value) * 256 + job.minor % 256 < 0x1_0000;
  }

  lemma Asked(job: Job, start: World, w: World) returns (w': World)
    requires GoodJob(job) && Sendable(job) && job.patch.Some?
    requires Reaches(job, start, w) && Run(job, Begin, w.log) == Asking && w.down == [] && w.up == [] && !w.board.application
    ensures Reaches(job, start, w') && Run(job, Begin, w'.log).Ending? && w'.board.installed == w.board.installed
  {
    hide Run, Next, Reaches, Hear, Complete;
    PatchMoves(job);
    var q := Hear(Nothing, VersionFrame(false));
    w' := HostStep(job, start, w, Asking, Sent(QueryFrame));
    assert w'.down == [QueryFrame];
    ReachesNext(job, start, w', Deliver(None));
    w' := Take(job, w', Deliver(None));
    assert w'.up == [VersionFrame(false)];
    ReachesNext(job, start, w', Chatter(PatchFrame));
    w' := Take(job, w', Chatter(PatchFrame));
    w' := HostStep(job, start, w', Listening(Nothing), Read(VersionFrame(false)));
    assert w'.up == [PatchFrame];
    w' := HostStep(job, start, w', Listening(q), Read(PatchFrame));
    w' := HostStep(job, start, w', Listening(Hear(q, PatchFrame)), Late);
  }

  lemma ClosingMoves(job: Job, field: nat)
    requires GoodJob(job)
    ensures Next(job, Ending(field), Sent(EndFrame(job, field))) == Verifying
    ensures Next(job, Verifying, Late) == AskingAgain
    ensures Next(job, AskingAgain, Sent(QueryFrame)) == ListeningAgain(Nothing)
    ensures var h := Next(job, ListeningAgain(Nothing), Read(VersionFrame(true)));
            h != Illegal && ValidHost(job, h) && Next(job, h, Late) == Finished(Done)
  {
    hide EndFrame, FromBE;
  }

  /** END_UPDATE is lost, the board restarts, and its old application answers the query. */
  lemma Restarted(job: Job, start: World, w: World) returns (w': World)
    requires GoodJob(job) && Reaches(job, start, w) && Run(job, Begin, w.log).Ending? && w.board.installed.Some?
    ensures Reaches(job, start, w') && Run(job, Begin, w'.log) == Finished(Done) && w'.board.installed == w.board.installed
  {
    hide Run, Next, Reaches, EndFrame;
    var h := Run(job, Begin, w.log);
    ClosingMoves(job, h.field);
    w' := HostStep(job, start, w, h, Sent(EndFrame(job, h.field)));
    w' := Silenced(job, start, w');
    w' := HostStep(job, start, w', Verifying, Late);
    w' := HostStep(job, start, w', AskingAgain, Sent(QueryFrame));
    assert w'.down == [QueryFrame];
    ReachesNext(job, start, w', Reset);
    w' := Take(job, w', Reset);
    ReachesNext(job, start, w', Deliver(None));
    w' := Take(job, w', Deliver(None));
    assert w'.up == [VersionFrame(true)];
    w' := HostStep(job, start, w', ListeningAgain(Nothing), Read(VersionFrame(true)));
    w' := HostStep(job, start, w', Next(job, ListeningAgain(Nothing), Read(VersionFrame(true))), Late);
  }

  /**
   Every update that can send END_UPDATE at all can end as done with the old image still
   installed: the end is lost and the board restarts into the application it had.
   */
  lemma RestartPassesForSuccess(job: Job, start: World) returns (w: World)
    requires GoodJob(job) && Sendable(job) && Initial(start) && start.board.installed.Some?
    ensures Reaches(job, start, w) && Run(job, Begin, w.log) == Finished(Done) && w.board.installed == start.board.installed
  {
    hide Run, Next, Reaches, Initial, Sound, Synchronous;
    UnderWayAtFirst(job, start);
    w := ToTheVersion(job, start, start);
    if Run(job, Begin, w.log).Asking? {
      AskingHasPatch(job, w.log);
      w := Silenced(job, start, w);
      w := Asked(job, start, w);
    }
    w := Restarted(job, start, w);
  }

  lemma AskingHasPatch(job: Job, log: seq<Event>)
    requires GoodJob(job) && Run(job, Begin, log).Asking?
    ensures job.patch.Some?
  {
    hide Run, Next, Before;
    RunOnScript(job, log);
  }

  // An update whose version cannot be sent is never done.

  predicate PastTheVersion(h: Host) {
    h.Ending? || h.Verifying? || h.AskingAgain? || h.ListeningAgain? || h == Finished(Done)
  }

  lemma VersionStep(job: Job, h: Host, e: Event)
    requires GoodJob(job) && ValidHost(job, h) && PastTheVersion(Next(job, h, e)) && !PastTheVersion(h)
    ensures Sendable(job)
  {
    hide FromBE, ToBE, Hear, Complete, Classify;
  }

  lemma {:induction false} DoneIsSendable(job: Job, log: seq<Event>)
    requires GoodJob(job) && PastTheVersion(Run(job, Begin, log))
    ensures Sendable(job)
  {
    hide Next, Sendable, PastTheVersion;
    if log == [] {
      NotPastAtFirst();
    } else {
      var front := log[..|log| - 1];
      if PastTheVersion(Run(job, Begin, front)) {
        DoneIsSendable(job, front);
      } else {
        VersionStep(job, Run(job, Begin, front), log[|log| - 1]);
      }
    }
  }

  lemma NotPastAtFirst()
    ensures !PastTheVersion(Begin)
  {
  }

  /** Every update that ends as done leaves the image installed. */
  ghost predicate SuccessMeansInstalled(job: Job, start: World)
    requires GoodJob(job)
  {
    forall w :: Reaches(job, start, w) && Run(job, Begin, w.log) == Finished(Done) ==> w.board.installed == Some(job.firmware)
  }

  /**
   What success is worth while no other node answers for the board, though frames may be
   lost and the board may restart: it means that the image is installed exactly when the
   board had no other image to restart into, or the version can never be sent.
   */
  lemma SuccessIsInstallation(job: Job, start: World)
    requires GoodJob(job) && Initial(start)
    ensures SuccessMeansInstalled(job, start) <==> NothingElse(start.board.installed, job.firmware) || !Sendable(job)
  {
    hide Run, Next, Initial, Execute, Sendable, NoDouble;
    if Sendable(job) && !NothingElse(start.board.installed, job.firmware) {
      var w := RestartPassesForSuccess(job, start);
    }
    forall w | Reaches(job, start, w) && Run(job, Begin, w.log) == Finished(Done) && (NothingElse(start.board.installed, job.firmware) || !Sendable(job))
      ensures w.board.installed == Some(job.firmware)
    {
      DoneIsSendable(job, w.log);
      var steps :| Execute(job, start, steps) == Some(w) && forall s :: s in steps ==> NoDouble(s);
      UndisturbedDoneIsInstalled(job, start, steps);
    }
  }
}
