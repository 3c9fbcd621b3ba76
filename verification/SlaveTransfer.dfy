/** The data loop of an update of the expansion slave, which has no page acknowledgements. */
module SlaveTransfer {
  import opened Bytes
  import opened CanBus
  import opened FlashSpec
  import opened Lockstep
  import opened Wrappers

  const SLAVE_DATA := 0x213
  const SLAVE_PROGRESS := 0x216
  const STALL_THRESHOLD: nat := 3

  datatype RelayOutcome = AllSent | StoppedByUser | Stalled

  const ProgressFrame := Frame(SLAVE_PROGRESS, [])

  function SlaveDataFrame(firmware: Data, offset: nat): Frame
    requires offset < |firmware|
  {
    Frame(SLAVE_DATA, firmware[offset..ChunkEnd(|firmware|, offset)])
  }

  predicate IsProgress(f: Frame) {
    f.id == SLAVE_PROGRESS && |f.data| >= 1
  }

  // The protocol.

  datatype Relay =
    | Sending(offset: nat, lastPoll: nat, misses: nat)
    | Polling(offset: nat, misses: nat)
    | Hearing(offset: nat, misses: nat)
    | Over(outcome: RelayOutcome)
    | Never

  predicate ValidRelay(size: nat, r: Relay) {
    match r
    case Sending(offset, lastPoll, misses) => lastPoll <= offset < size && misses < STALL_THRESHOLD
    case Polling(offset, misses) => offset <= size && misses < STALL_THRESHOLD
    case Hearing(offset, misses) => offset <= size && misses < STALL_THRESHOLD
    case _ => true
  }

  function AfterChunk(size: nat, offset: nat, lastPoll: nat, misses: nat): Relay
    requires lastPoll <= offset
  {
    if offset - lastPoll >= PAGE || offset >= size then Polling(offset, misses) else Sending(offset, lastPoll, misses)
  }

  function AfterPoll(size: nat, offset: nat, misses: nat): Relay {
    if misses >= STALL_THRESHOLD then Over(Stalled)
    else if offset < size then Sending(offset, offset, misses)
    else Over(AllSent)
  }

  function Proceed(firmware: Data, r: Relay, e: Event): (r': Relay)
    requires ValidRelay(|firmware|, r)
    ensures ValidRelay(|firmware|, r')
  {
    match r
    case Sending(offset, lastPoll, misses) =>
      if e == Stop then Over(StoppedByUser)
      else if e == Sent(SlaveDataFrame(firmware, offset)) then AfterChunk(|firmware|, ChunkEnd(|firmware|, offset), lastPoll, misses)
      else Never
    case Polling(offset, misses) => if e == Sent(ProgressFrame) then Hearing(offset, misses) else Never
    case Hearing(offset, misses) =>
      (match e
       case Quiet => r
       case Read(f) => if IsProgress(f) then AfterPoll(|firmware|, offset, 0) else r
       case Late => AfterPoll(|firmware|, offset, misses + 1)
       case _ => Never)
    case Over(_) => Never
    case Never => Never
  }

  function Follow(firmware: Data, log: seq<Event>): (r: Relay)
    requires firmware != []
    ensures ValidRelay(|firmware|, r)
  {
    if log == [] then Sending(0, 0, 0) else Proceed(firmware, Follow(firmware, log[..|log| - 1]), log[|log| - 1])
  }

  lemma FollowStep(firmware: Data, log: seq<Event>, e: Event)
    requires firmware != []
    ensures Follow(firmware, log + [e]) == Proceed(firmware, Follow(firmware, log), e)
  {
    hide Proceed;
    assert (log + [e])[..|log|] == log;
  }

  lemma FollowNothing(firmware: Data)
    requires firmware != []
    ensures Follow(firmware, []) == Sending(0, 0, 0)
  {
  }

  /** The data frames of a log. */
  function DataFrames(log: seq<Event>): nat {
    if log == [] then 0
    else DataFrames(log[..|log| - 1]) + if log[|log| - 1].Sent? && log[|log| - 1].frame.id == SLAVE_DATA then 1 else 0
  }

  lemma DataFramesStep(log: seq<Event>, e: Event)
    ensures DataFrames(log + [e]) == DataFrames(log) + if e.Sent? && e.frame.id == SLAVE_DATA then 1 else 0
  {
    assert (log + [e])[..|log|] == log;
  }

  lemma NoDataFrames()
    ensures DataFrames([]) == 0
  {
  }

  // The methods.

  /** _query_slave_progress: None when nothing answered. */
  method QuerySlaveProgress(bus: Bus, firmware: Data, ghost before: seq<Event>) returns (progress: Option<byte>, ghost log: seq<Event>)
    requires firmware != [] && Follow(firmware, before).Polling?
    modifies bus`log, bus`budget
    ensures bus.log == old(bus.log) + log && DataFrames(before + log) == DataFrames(before)
    ensures var r := Follow(firmware, before);
            Follow(firmware, before + log) == AfterPoll(|firmware|, r.offset, if progress.Some? then 0 else r.misses + 1)
  {
    hide Follow, DataFrames;
    ghost var r := Follow(firmware, before);
    bus.SendFrame(ProgressFrame);
    FollowStep(firmware, before, Sent(ProgressFrame));
    DataFramesStep(before, Sent(ProgressFrame));
    log := [Sent(ProgressFrame)];
    var polls := bus.PollBudget();
    while polls > 0
      invariant bus.log == old(bus.log) + log && bus.budget == polls && DataFrames(before + log) == DataFrames(before)
      invariant Follow(firmware, before + log) == Hearing(r.offset, r.misses)
    {
      polls := polls - 1;
      var frame := bus.ReadFrame();
      ghost var event := if frame.Some? then Read(frame.value) else Quiet;
      FollowStep(firmware, before + log, event);
      DataFramesStep(before + log, event);
      assert before + (log + [event]) == before + log + [event];
      log := log + [event];
      if frame.Some? && frame.value.id == SLAVE_PROGRESS && |frame.value.data| >= 1 {
        return Some(frame.value.data[0]), log;
      }
    }
    bus.DeadlinePassed();
    FollowStep(firmware, before + log, Late);
    DataFramesStep(before + log, Late);
    assert before + (log + [Late]) == before + log + [Late];
    log := log + [Late];
    progress := None;
  }

  /** The data loop of flash_slave. The stop flag is looked at before every frame. */
  method SendToSlave(bus: Bus, firmware: Data) returns (outcome: RelayOutcome, ghost log: seq<Event>)
    requires firmware != []
    modifies bus
    ensures bus.log == old(bus.log) + log
    ensures Follow(firmware, log) == Over(outcome)
    ensures bus.checks == old(bus.checks) + DataFrames(log) + if outcome == StoppedByUser then 1 else 0
  {
    hide Follow, DataFrames;
    var size := |firmware|;
    var offset, lastPoll, misses := 0, 0, 0;
    log := [];
    FollowNothing(firmware);
    NoDataFrames();
    while offset < size
      invariant 0 <= lastPoll <= offset <= size && 0 <= misses
      invariant bus.log == old(bus.log) + log && bus.checks == old(bus.checks) + DataFrames(log)
      invariant Follow(firmware, log) == if offset < size then Sending(offset, lastPoll, misses) else Over(AllSent)
    {
      var stop := bus.StopRequested();
      if stop {
        FollowStep(firmware, log, Stop);
        DataFramesStep(log, Stop);
        return StoppedByUser, log + [Stop];
      }
      var frame := SlaveDataFrame(firmware, offset);
      bus.SendFrame(frame);
      FollowStep(firmware, log, Sent(frame));
      DataFramesStep(log, Sent(frame));
      log := log + [Sent(frame)];
      offset := offset + |frame.data|;
      if offset - lastPoll >= PAGE || offset >= size {
        lastPoll := offset;
        var progress;
        ghost var poll;
        progress, poll := QuerySlaveProgress(bus, firmware, log);
        log := log + poll;
        if progress.Some? {
          misses := 0;
        } else {
          misses := misses + 1;
          if misses >= STALL_THRESHOLD {
            return Stalled, log;
          }
        }
      }
    }
    outcome := AllSent;
  }

  // What a log shows.

  datatype Poll = Poll(at: nat, answered: bool)

  function SlaveBytes(log: seq<Event>): Data {
    if log == [] then []
    else SlaveBytes(log[..|log| - 1]) + BytesOf(log[|log| - 1])
  }

  function BytesOf(e: Event): Data {
    if e.Sent? && e.frame.id == SLAVE_DATA then e.frame.data else []
  }

  /** The polls made, how far the data was then, and whether something answered. */
  function Polls(log: seq<Event>): seq<Poll> {
    if log == [] then []
    else
      var front, last := log[..|log| - 1], log[|log| - 1];
      PollsAfter(Polls(front), |SlaveBytes(front)|, last)
  }

  function PollsAfter(polls: seq<Poll>, sent: nat, e: Event): seq<Poll> {
    if e.Sent? && e.frame.id == SLAVE_PROGRESS then polls + [Poll(sent, false)]
    else if e.Read? && IsProgress(e.frame) && polls != [] then polls[..|polls| - 1] + [polls[|polls| - 1].(answered := true)]
    else polls
  }

  /** The unanswered polls at the end. */
  function Misses(polls: seq<Poll>): nat {
    if polls == [] || polls[|polls| - 1].answered then 0 else 1 + Misses(polls[..|polls| - 1])
  }

  /** How far the data was at the last answered poll. */
  function LastAnswered(polls: seq<Poll>): nat {
    if polls == [] then 0
    else if polls[|polls| - 1].answered then polls[|polls| - 1].at
    else LastAnswered(polls[..|polls| - 1])
  }

  /** The k-th poll is at the k-th multiple of 2048, or at the end of the image. */
  predicate OnTheDot(size: nat, polls: seq<Poll>) {
    forall k :: 0 <= k < |polls| ==> polls[k].at == Min(PAGE * (k + 1), size)
  }

  /** No three polls in a row went unanswered. */
  predicate NeverStalled(polls: seq<Poll>) {
    forall k :: 0 <= k <= |polls| ==> Misses(polls[..k]) < STALL_THRESHOLD
  }

  ghost predicate InPace(firmware: Data, r: Relay, bytes: Data, polls: seq<Poll>)
    requires ValidRelay(|firmware|, r)
  {
    var size := |firmware|;
    match r
    case Sending(offset, lastPoll, misses) =>
      && bytes == firmware[..offset] && offset % 8 == 0
      && lastPoll == PAGE * |polls| && offset < lastPoll + PAGE
      && misses == Misses(polls) && NeverStalled(polls) && OnTheDot(size, polls)
    case Polling(offset, misses) =>
      && bytes == firmware[..offset] && offset == Min(PAGE * (|polls| + 1), size) && PAGE * |polls| < size
      && misses == Misses(polls) && NeverStalled(polls) && OnTheDot(size, polls)
    case Hearing(offset, misses) =>
      && bytes == firmware[..offset] && polls != [] && polls[|polls| - 1] == Poll(offset, false) && PAGE * (|polls| - 1) < size
      && misses == Misses(polls[..|polls| - 1]) && NeverStalled(polls[..|polls| - 1]) && OnTheDot(size, polls)
    case Over(AllSent) =>
      && bytes == firmware && PAGE * (|polls| - 1) < size <= PAGE * |polls| && NeverStalled(polls) && OnTheDot(size, polls)
    case Over(StoppedByUser) =>
      && (exists offset: nat :: offset < PAGE * (|polls| + 1) && PartOf(bytes, firmware, offset))
      && NeverStalled(polls) && OnTheDot(size, polls)
    case Over(Stalled) =>
      && |polls| >= STALL_THRESHOLD && PartOf(bytes, firmware, polls[|polls| - 1].at)
      && Misses(polls) >= STALL_THRESHOLD && NeverStalled(polls[..|polls| - 1]) && OnTheDot(size, polls)
    case Never => true
  }

  predicate PartOf(bytes: Data, firmware: Data, offset: nat) {
    offset <= |firmware| && bytes == firmware[..offset]
  }

  lemma NeverStalledStep(polls: seq<Poll>, p: Poll)
    requires NeverStalled(polls) && (p.answered || Misses(polls) + 1 < STALL_THRESHOLD)
    ensures NeverStalled(polls + [p]) && Misses(polls + [p]) == if p.answered then 0 else Misses(polls) + 1
  {
    var all := polls + [p];
    assert all[..|polls|] == polls && all[..|all|] == all;
    forall k | 0 <= k <= |all| ensures Misses(all[..k]) < STALL_THRESHOLD {
      if k <= |polls| {
        assert all[..k] == polls[..k];
      }
    }
  }

  lemma SendingStep(firmware: Data, r: Relay, bytes: Data, polls: seq<Poll>, e: Event)
    requires ValidRelay(|firmware|, r) && InPace(firmware, r, bytes, polls) && r.Sending?
    ensures InPace(firmware, Proceed(firmware, r, e), bytes + BytesOf(e), PollsAfter(polls, |bytes|, e))
  {
    hide Misses, NeverStalled;
    if e == Stop {
      assert bytes + [] == bytes;
      assert PartOf(bytes, firmware, r.offset);
    } else if e == Sent(SlaveDataFrame(firmware, r.offset)) {
      ChunkGrid(|firmware|, r.offset);
      var end := ChunkEnd(|firmware|, r.offset);
      assert bytes + BytesOf(e) == firmware[..end];
      WithinPage(r.offset, r.lastPoll, |polls|);
    }
  }

  lemma WithinPage(offset: nat, lastPoll: nat, page: nat)
    requires offset % 8 == 0 && lastPoll == PAGE * page && offset < lastPoll + PAGE
    ensures offset + 8 <= lastPoll + PAGE
  {
    assert lastPoll + PAGE == 8 * (256 * page + 256);
  }

  lemma PollingStep(firmware: Data, r: Relay, bytes: Data, polls: seq<Poll>, e: Event)
    requires ValidRelay(|firmware|, r) && InPace(firmware, r, bytes, polls) && r.Polling?
    ensures InPace(firmware, Proceed(firmware, r, e), bytes + BytesOf(e), PollsAfter(polls, |bytes|, e))
  {
    hide Misses, NeverStalled;
    if e == Sent(ProgressFrame) {
      var all := polls + [Poll(r.offset, false)];
      assert all[..|all| - 1] == polls;
      assert bytes + [] == bytes;
    }
  }

  lemma HearingStep(firmware: Data, r: Relay, bytes: Data, polls: seq<Poll>, e: Event)
    requires ValidRelay(|firmware|, r) && InPace(firmware, r, bytes, polls) && r.Hearing?
    ensures InPace(firmware, Proceed(firmware, r, e), bytes + BytesOf(e), PollsAfter(polls, |bytes|, e))
  {
    hide NeverStalled, Misses;
    assert bytes + [] == bytes;
    var front, last := polls[..|polls| - 1], polls[|polls| - 1];
    assert polls == front + [last];
    var heard := front + [last.(answered := true)];
    assert heard[..|heard| - 1] == front;
    MissesOf(front, last);
    if e.Read? && IsProgress(e.frame) {
      NeverStalledStep(front, last.(answered := true));
    } else if e == Late && r.misses + 1 < STALL_THRESHOLD {
      NeverStalledStep(front, last);
    }
    OffsetAfterPoll(|firmware|, r.offset, |polls|);
  }

  lemma MissesOf(front: seq<Poll>, last: Poll)
    ensures Misses(front + [last]) == if last.answered then 0 else 1 + Misses(front)
    ensures Misses(front) <= |front|
  {
    assert (front + [last])[..|front|] == front;
    MissesBound(front);
  }

  lemma {:induction false} MissesBound(polls: seq<Poll>)
    ensures Misses(polls) <= |polls|
  {
    if polls != [] {
      MissesBound(polls[..|polls| - 1]);
    }
  }

  lemma OffsetAfterPoll(size: nat, offset: nat, polls: nat)
    requires offset == Min(PAGE * polls, size)
    ensures offset < size ==> offset % 8 == 0 && offset == PAGE * polls
  {
    if offset < size {
      assert PAGE * polls == 8 * (256 * polls);
    }
  }

  lemma InPaceStep(firmware: Data, r: Relay, bytes: Data, polls: seq<Poll>, e: Event)
    requires ValidRelay(|firmware|, r) && InPace(firmware, r, bytes, polls)
    ensures InPace(firmware, Proceed(firmware, r, e), bytes + BytesOf(e), PollsAfter(polls, |bytes|, e))
  {
    hide InPace, BytesOf, PollsAfter;
    match r
    case Sending(_, _, _) => SendingStep(firmware, r, bytes, polls, e);
    case Polling(_, _) => PollingStep(firmware, r, bytes, polls, e);
    case Hearing(_, _) => HearingStep(firmware, r, bytes, polls, e);
    case _ => AnythingAfterNever(firmware, bytes + BytesOf(e), PollsAfter(polls, |bytes|, e));
  }

  lemma AnythingAfterNever(firmware: Data, bytes: Data, polls: seq<Poll>)
    ensures InPace(firmware, Never, bytes, polls)
  {
  }

  lemma {:induction false} FollowInPace(firmware: Data, log: seq<Event>)
    requires firmware != []
    ensures InPace(firmware, Follow(firmware, log), SlaveBytes(log), Polls(log))
  {
    hide Proceed, InPace, PollsAfter, BytesOf;
    if log == [] {
      InPaceAtFirst(firmware);
    } else {
      var front, e := log[..|log| - 1], log[|log| - 1];
      FollowInPace(firmware, front);
      InPaceStep(firmware, Follow(firmware, front), SlaveBytes(front), Polls(front), e);
    }
  }

  lemma InPaceAtFirst(firmware: Data)
    requires firmware != []
    ensures InPace(firmware, Sending(0, 0, 0), [], [])
  {
    assert firmware[..0] == [];
  }

  lemma {:induction false} BlindDistance(size: nat, polls: seq<Poll>)
    requires OnTheDot(size, polls)
    ensures (if polls == [] then 0 else polls[|polls| - 1].at) <= LastAnswered(polls) + PAGE * Misses(polls)
  {
    if polls != [] {
      BlindDistance(size, polls[..|polls| - 1]);
    }
  }

  /** Whatever answers come: every poll is made in its place, none is skipped, and what has been sent by then. */
  lemma PollsOnTheDot(firmware: Data, log: seq<Event>)
    requires firmware != [] && Follow(firmware, log) != Never
    ensures OnTheDot(|firmware|, Polls(log)) && SlaveBytes(log) <= firmware
    ensures |SlaveBytes(log)| <= PAGE * (|Polls(log)| + 1)
    ensures Follow(firmware, log) == Over(AllSent) ==> SlaveBytes(log) == firmware && |Polls(log)| == (|firmware| + PAGE - 1) / PAGE
  {
    hide Follow, SlaveBytes, Polls, Misses, NeverStalled;
    FollowInPace(firmware, log);
    var r := Follow(firmware, log);
    if r == Over(StoppedByUser) {
      var offset: nat :| offset < PAGE * (|Polls(log)| + 1) && PartOf(SlaveBytes(log), firmware, offset);
    }
  }

  /** The transfer is given up as stalled exactly when three polls in a row went unanswered. */
  lemma StalledAfterThree(firmware: Data, log: seq<Event>)
    requires firmware != [] && Follow(firmware, log).Over?
    ensures Follow(firmware, log) == Over(Stalled) <==> Misses(Polls(log)) >= 3
    ensures forall k :: 0 <= k < |Polls(log)| ==> Misses(Polls(log)[..k]) < 3
  {
    hide Follow, SlaveBytes, Polls, Misses;
    FollowInPace(firmware, log);
    var polls := Polls(log);
    assert polls[..|polls|] == polls;
    if Follow(firmware, log) == Over(Stalled) {
      var front := polls[..|polls| - 1];
      assert forall k :: 0 <= k <= |front| ==> front[..k] == polls[..k];
    }
  }

  /** A poll is answered by the first progress frame with any byte in it, 0xFF too, and by no other frame. */
  lemma AnyByteAnswers(firmware: Data, log: seq<Event>, f: Frame)
    requires firmware != [] && Follow(firmware, log).Hearing?
    ensures var r := Follow(firmware, log);
            Follow(firmware, log + [Read(f)]) ==
              if f.id != 0x216 || f.data == [] then r
              else if r.offset < |firmware| then Sending(r.offset, r.offset, 0)
              else Over(AllSent)
  {
    hide Follow;
    FollowStep(firmware, log, Read(f));
  }

  /** The user stops the transfer before any frame of data, but not while a poll is unanswered. */
  lemma StopBeforeFrame(firmware: Data, log: seq<Event>, e: Event)
    requires firmware != []
    ensures Follow(firmware, log + [e]) == Over(StoppedByUser) <==> e == Stop && Follow(firmware, log).Sending?
  {
    hide Follow;
    FollowStep(firmware, log, e);
  }

  /** Never more than 6144 bytes are sent past the last poll that was answered. */
  lemma BlindAtMost6144(firmware: Data, log: seq<Event>)
    requires firmware != [] && Follow(firmware, log) != Never
    ensures |SlaveBytes(log)| <= LastAnswered(Polls(log)) + 6144
  {
    hide Follow, SlaveBytes, Polls;
    FollowInPace(firmware, log);
    var r, polls := Follow(firmware, log), Polls(log);
    BlindDistance(|firmware|, polls);
    assert polls[..|polls|] == polls;
    if polls != [] {
      var front := polls[..|polls| - 1];
      assert polls == front + [polls[|polls| - 1]] && front[..|front|] == front;
      MissesOf(front, polls[|polls| - 1]);
      assert polls[|polls| - 1].at == Min(PAGE * |polls|, |firmware|);
    }
    if r == Over(StoppedByUser) {
      var offset: nat :| offset < PAGE * (|polls| + 1) && PartOf(SlaveBytes(log), firmware, offset);
    }
  }
}
