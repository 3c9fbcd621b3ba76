/** Reading the installed image back over the bus, page by page. */
module Readback {
  import opened Bytes
  import opened CanBus
  import opened FlashSpec
  import opened Lockstep
  import opened TraceSafety
  import opened Wrappers

  const READBACK := 0x7FE
  const READBACK_PAGE_ACK := 0x7FF

  datatype ReadbackError = StoppedByUser | NoResponse | NothingInstalled | TooLate

  datatype Backup = Image(bytes: Data) | NoImage(error: ReadbackError)

  const ReadbackFrame := Frame(READBACK, [])

  function PageAckFrame(page: nat): Frame {
    Frame(READBACK_PAGE_ACK, ToBE(page, 4))
  }

  predicate IsHeader(f: Frame) {
    f.id == READBACK && |f.data| == 4
  }

  /** After the header every frame of one to eight bytes is data, the short last one too. */
  predicate IsChunk(f: Frame) {
    f.id == READBACK && 1 <= |f.data| <= 8
  }

  // The protocol of a readback.

  datatype Reader =
    | AskFirst
    | AwaitSize
    | Collecting(size: nat, buf: Data, page: nat)
    | Acknowledging(size: nat, buf: Data, page: nat)
    | Ended(backup: Backup)
    | Never

  function PageTarget(size: nat, page: nat): nat {
    Min(page * PAGE + PAGE, size)
  }

  /** The buffer is inside the page it is collecting, and never beyond the announced size. */
  predicate ValidReader(r: Reader) {
    match r
    case Collecting(size, buf, page) => page * PAGE <= |buf| < PageTarget(size, page)
    case Acknowledging(size, buf, page) => page * PAGE < |buf| == PageTarget(size, page)
    case Ended(Image(bytes)) => bytes != []
    case _ => true
  }

  /** What fits of a frame into the page. */
  function Extend(buf: Data, data: Data, target: nat): Data
    requires |buf| <= target
  {
    buf + data[..Min(|data|, target - |buf|)]
  }

  function Collect(size: nat, buf: Data, page: nat): Reader {
    if |buf| < PageTarget(size, page) then Collecting(size, buf, page) else Acknowledging(size, buf, page)
  }

  function AfterPage(size: nat, buf: Data, page: nat): Reader {
    if |buf| < size then Collecting(size, buf, page + 1) else Ended(Image(buf))
  }

  function Advance(r: Reader, e: Event): (r': Reader)
    requires ValidReader(r)
    ensures ValidReader(r')
  {
    match r
    case AskFirst => if e == Sent(ReadbackFrame) then AwaitSize else Never
    case AwaitSize =>
      (match e
       case Quiet => r
       case Read(f) =>
         if !IsHeader(f) then r
         else if FromBE(f.data) == 0 then Ended(NoImage(NothingInstalled))
         else Collecting(FromBE(f.data), [], 0)
       case Stop => Ended(NoImage(StoppedByUser))
       case Late => Ended(NoImage(NoResponse))
       case Sent(_) => Never)
    case Collecting(size, buf, page) =>
      (match e
       case Quiet => r
       case Read(f) => if IsChunk(f) then Collect(size, Extend(buf, f.data, PageTarget(size, page)), page) else r
       case Stop => Ended(NoImage(StoppedByUser))
       case Late => Ended(NoImage(TooLate))
       case Sent(_) => Never)
    case Acknowledging(size, buf, page) => if e == Sent(PageAckFrame(page)) then AfterPage(size, buf, page) else Never
    case Ended(_) => Never
    case Never => Never
  }

  function Follow(log: seq<Event>): (r: Reader)
    ensures ValidReader(r)
  {
    if log == [] then AskFirst else Advance(Follow(log[..|log| - 1]), log[|log| - 1])
  }

  lemma FollowStep(log: seq<Event>, e: Event)
    ensures Follow(log + [e]) == Advance(Follow(log), e)
  {
    hide Advance;
    assert (log + [e])[..|log|] == log;
  }

  // The method.

  method ReadBackFlash(bus: Bus) returns (backup: Backup, ghost log: seq<Event>)
    modifies bus
    ensures bus.log == old(bus.log) + log
    ensures Follow(log) == Ended(backup)
  {
    hide Follow;
    log := [];
    FollowNothing();
    FollowStep(log, Sent(ReadbackFrame));
    bus.SendFrame(ReadbackFrame);
    log := log + [Sent(ReadbackFrame)];
    var size;
    ghost var wait;
    size, backup, wait := AwaitHeader(bus, log);
    log := log + wait;
    if size == 0 {
      return;
    }
    var buf, page := [], 0;
    while |buf| < size
      invariant |buf| <= size && (|buf| < size ==> |buf| == page * PAGE)
      invariant bus.log == old(bus.log) + log
      invariant Follow(log) == if |buf| < size then Collecting(size, buf, page) else Ended(Image(buf))
      decreases size - |buf|
    {
      ghost var before := |buf|;
      var error;
      buf, error, wait := CollectPage(bus, size, buf, page, log);
      log := log + wait;
      if error.Some? {
        return NoImage(error.value), log;
      }
      bus.SendFrame(PageAckFrame(page));
      FollowStep(log, Sent(PageAckFrame(page)));
      log := log + [Sent(PageAckFrame(page))];
      page := page + 1;
    }
    backup := Image(buf);
  }

  lemma NoTurns()
    ensures Turns([]) == 0
  {
  }

  lemma FollowNothing()
    ensures Follow([]) == AskFirst
  {
  }

  /** The size of the installed image: zero means that the readback is over. */
  method AwaitHeader(bus: Bus, ghost before: seq<Event>) returns (size: nat, backup: Backup, ghost log: seq<Event>)
    requires Follow(before) == AwaitSize
    modifies bus
    ensures bus.log == old(bus.log) + log && bus.checks == old(bus.checks) + Turns(log)
    ensures Follow(before + log) == if size == 0 then Ended(backup) else Collecting(size, [], 0)
  {
    hide Follow, Turns, FromBE;
    log := [];
    NoTurns();
    assert before + log == before;
    var polls := bus.PollBudget();
    while polls > 0
      invariant bus.log == old(bus.log) + log && bus.budget == polls
      invariant bus.checks == old(bus.checks) + Turns(log)
      invariant Follow(before + log) == AwaitSize
    {
      polls := polls - 1;
      var stop := bus.StopRequested();
      if stop {
        TurnsStep(log, Stop);
        FollowStep(before + log, Stop);
        assert before + (log + [Stop]) == before + log + [Stop];
        return 0, NoImage(StoppedByUser), log + [Stop];
      }
      var frame := bus.ReadFrame();
      ghost var event := if frame.Some? then Read(frame.value) else Quiet;
      TurnsStep(log, event);
      FollowStep(before + log, event);
      assert before + (log + [event]) == before + log + [event];
      log := log + [event];
      if frame.Some? && frame.value.id == READBACK && |frame.value.data| == 4 {
        size := FromBE(frame.value.data);
        backup := NoImage(NothingInstalled);
        return;
      }
    }
    bus.DeadlinePassed();
    TurnsStep(log, Late);
    FollowStep(before + log, Late);
    assert before + (log + [Late]) == before + log + [Late];
    log := log + [Late];
    size, backup := 0, NoImage(NoResponse);
  }

  /** The frames of one page, cut at its end. */
  method CollectPage(bus: Bus, size: nat, part: Data, page: nat, ghost before: seq<Event>)
    returns (buf: Data, error: Option<ReadbackError>, ghost log: seq<Event>)
    requires Follow(before) == Collecting(size, part, page) && |part| == page * PAGE
    modifies bus
    ensures bus.log == old(bus.log) + log
    ensures bus.checks == old(bus.checks) + Turns(log) + if error == Some(TooLate) then 1 else 0
    ensures error.None? ==> |buf| == PageTarget(size, page)
    ensures Follow(before + log) == if error.Some? then Ended(NoImage(error.value)) else Acknowledging(size, buf, page)
  {
    hide Follow, Turns, FromBE;
    log := [];
    NoTurns();
    assert before + log == before;
    buf := part;
    error := None;
    var target := if |buf| + PAGE <= size then |buf| + PAGE else size;
    var polls := bus.PollBudget();
    while |buf| < target
      invariant |part| <= |buf| <= target
      invariant bus.log == old(bus.log) + log && bus.budget == polls
      invariant bus.checks == old(bus.checks) + Turns(log)
      invariant Follow(before + log) == Collect(size, buf, page)
      decreases target - |buf|, polls
    {
      var stop := bus.StopRequested();
      if stop {
        TurnsStep(log, Stop);
        FollowStep(before + log, Stop);
        assert before + (log + [Stop]) == before + log + [Stop];
        return buf, Some(StoppedByUser), log + [Stop];
      }
      if polls == 0 {
        bus.DeadlinePassed();
        TurnsStep(log, Late);
        FollowStep(before + log, Late);
        assert before + (log + [Late]) == before + log + [Late];
        return buf, Some(TooLate), log + [Late];
      }
      polls := polls - 1;
      var frame := bus.ReadFrame();
      ghost var event := if frame.Some? then Read(frame.value) else Quiet;
      TurnsStep(log, event);
      FollowStep(before + log, event);
      assert before + (log + [event]) == before + log + [event];
      log := log + [event];
      if frame.Some? && frame.value.id == READBACK && 1 <= |frame.value.data| <= 8 {
        var room := target - |buf|;
        buf := buf + frame.value.data[..if |frame.value.data| <= room then |frame.value.data| else room];
      }
    }
  }

  // Against any bus.

  /** The page acknowledgements 0, 1, ..., n - 1. */
  function PageAcks(n: nat): seq<Frame> {
    seq(n, (i: nat) => PageAckFrame(i))
  }

  function PageCount(size: nat): nat {
    (size + PAGE - 1) / PAGE
  }

  /** What has been sent, and how much has been kept, in every state. */
  ghost predicate Orderly(r: Reader, sends: seq<Frame>) {
    match r
    case AskFirst => sends == []
    case AwaitSize => sends == [ReadbackFrame]
    case Collecting(size, buf, page) => sends == [ReadbackFrame] + PageAcks(page)
    case Acknowledging(size, buf, page) => sends == [ReadbackFrame] + PageAcks(page)
    case Ended(Image(bytes)) => sends == [ReadbackFrame] + PageAcks(PageCount(|bytes|))
    case Ended(NoImage(_)) => exists n: nat :: SomeAcks(sends, n)
    case Never => true
  }

  ghost predicate SomeAcks(sends: seq<Frame>, n: nat) {
    sends == [ReadbackFrame] + PageAcks(n)
  }

  lemma PageAcksStep(n: nat)
    ensures PageAcks(0) == [] && PageAcks(n) + [PageAckFrame(n)] == PageAcks(n + 1)
  {
  }

  lemma LastPage(size: nat, page: nat)
    requires page * PAGE < size <= page * PAGE + PAGE
    ensures PageCount(size) == page + 1
  {
  }

  lemma AcknowledgingStep(size: nat, buf: Data, page: nat, sends: seq<Frame>, e: Event)
    requires ValidReader(Acknowledging(size, buf, page)) && Orderly(Acknowledging(size, buf, page), sends)
    ensures Orderly(Advance(Acknowledging(size, buf, page), e), sends + SendsOf(e))
  {
    hide PageAcks, PageAckFrame, PageCount;
    PageAcksStep(page);
    if e == Sent(PageAckFrame(page)) {
      if |buf| >= size {
        LastPage(size, page);
      }
      assert [ReadbackFrame] + PageAcks(page) + [PageAckFrame(page)] == [ReadbackFrame] + (PageAcks(page) + [PageAckFrame(page)]);
    }
  }

  lemma OrderlyStep(r: Reader, sends: seq<Frame>, e: Event)
    requires ValidReader(r) && Orderly(r, sends)
    ensures Orderly(Advance(r, e), sends + SendsOf(e))
  {
    hide PageAcks, PageAckFrame, FromBE, PageCount, Extend;
    PageAcksStep(0);
    assert sends + [] == sends;
    assert [ReadbackFrame] + PageAcks(0) == [ReadbackFrame];
    match r
    case Acknowledging(size, buf, page) => AcknowledgingStep(size, buf, page, sends, e);
    case AwaitSize => assert SomeAcks(sends, 0);
    case Collecting(_, _, page) => assert SomeAcks(sends, page);
    case _ =>
  }

  lemma {:induction false} FollowOrderly(log: seq<Event>)
    ensures Orderly(Follow(log), Sends(log))
  {
    hide Advance, Orderly;
    if log == [] {
      NothingSentYet();
    } else {
      var front, e := log[..|log| - 1], log[|log| - 1];
      FollowOrderly(front);
      OrderlyStep(Follow(front), Sends(front), e);
      SendsStep(front, e);
      assert front + [e] == log;
    }
  }

  lemma NothingSentYet()
    ensures Orderly(AskFirst, [])
  {
  }

  /**
   Whatever the bus delivers: the acknowledgements sent are 0, 1, 2, ..., one for
   each page the buffer has passed; the buffer never exceeds the announced size,
   and a readback that ends with an image has acknowledged all its pages.
   */
  lemma AcksAtPageEnds(log: seq<Event>)
    requires Follow(log) != Never
    ensures var r := Follow(log);
            match r
            case Collecting(size, buf, page) => |buf| < size && page == |buf| / PAGE && Sends(log) == [ReadbackFrame] + PageAcks(page)
            case Acknowledging(size, buf, page) =>
              |buf| <= size && (|buf| == (page + 1) * PAGE || |buf| == size) && Sends(log) == [ReadbackFrame] + PageAcks(page)
            case Ended(Image(bytes)) => Sends(log) == [ReadbackFrame] + PageAcks(PageCount(|bytes|))
            case _ => true
  {
    hide PageAcks, Follow;
    FollowOrderly(log);
    if Follow(log).Collecting? {
      InsidePage(Follow(log).size, |Follow(log).buf|, Follow(log).page);
    }
  }

  lemma InsidePage(size: nat, length: nat, page: nat)
    requires page * PAGE <= length < PageTarget(size, page)
    ensures length / PAGE == page
  {
  }

  // What every event does.

  /** The acknowledgement of a page holds its index. */
  lemma PageAckDecodes(page: nat)
    requires page < 0x1_0000_0000
    ensures PageAckFrame(page).id == 0x7FF && |PageAckFrame(page).data| == 4 && FromBE(PageAckFrame(page).data) == page
  {
    assert Pow256(4) == 0x1_0000_0000;
    FromToBE(page, 4);
  }

  /** The first frame of exactly four bytes is the size, nought for nothing installed; all others are passed over. */
  lemma HeaderDecides(log: seq<Event>, f: Frame, size: nat)
    requires Follow(log) == AwaitSize && size < 0x1_0000_0000
    ensures f == Frame(0x7FE, ToBE(size, 4)) ==>
              Follow(log + [Read(f)]) == if size == 0 then Ended(NoImage(NothingInstalled)) else Collecting(size, [], 0)
    ensures f.id != 0x7FE || |f.data| != 4 ==> Follow(log + [Read(f)]) == AwaitSize
  {
    hide Follow, FromBE, ToBE;
    FollowStep(log, Read(f));
    assert Pow256(4) == 0x1_0000_0000;
    FromToBE(size, 4);
  }

  /**
   Behind the header every frame of one to eight bytes, whatever its length, extends the buffer, up to the end of
   the page or of the image; all others are passed over.
   */
  lemma ChunkDecides(log: seq<Event>, f: Frame)
    requires Follow(log).Collecting?
    ensures var r := Follow(log);
            var all := r.buf + f.data;
            var end := if PAGE * (r.page + 1) <= r.size then PAGE * (r.page + 1) else r.size;
            Follow(log + [Read(f)]) ==
              if f.id != 0x7FE || f.data == [] || |f.data| > 8 then r
              else if |all| < end then Collecting(r.size, all, r.page)
              else Acknowledging(r.size, all[..end], r.page)
  {
    hide Follow;
    FollowStep(log, Read(f));
    var r := Follow(log);
    var all, end := r.buf + f.data, PageTarget(r.size, r.page);
    assert Extend(r.buf, f.data, end) == if |all| < end then all else all[..end];
  }

  /** A readback without an image: stopped, unanswered, empty, or late. */
  lemma NoImageExactly(log: seq<Event>, e: Event, error: ReadbackError)
    ensures Follow(log + [e]) == Ended(NoImage(error)) <==>
              match error
              case StoppedByUser => e == Stop && (Follow(log) == AwaitSize || Follow(log).Collecting?)
              case NoResponse => e == Late && Follow(log) == AwaitSize
              case TooLate => e == Late && Follow(log).Collecting?
              case NothingInstalled => Follow(log) == AwaitSize && e == Read(Frame(0x7FE, [0, 0, 0, 0]))
  {
    hide Follow, FromBE;
    FollowStep(log, e);
    if e.Read? && |e.frame.data| == 4 {
      var d := e.frame.data;
      ByteOrders(d[0], d[1], d[2], d[3]);
      assert d == [d[0], d[1], d[2], d[3]];
    }
  }

  // Against the bootloader.

  function ImageFrame(image: Data, i: nat): Frame
    requires 8 * i < |image|
  {
    Frame(READBACK, image[8 * i..ChunkEnd(|image|, 8 * i)])
  }

  /** The frames a bootloader sends for an image: its size, then eight bytes at a time, the last frame as short as it must be. */
  function Framed(image: Data): seq<Frame> {
    [Frame(READBACK, ToBE(|image|, 4))] + seq(Chunks(|image|), (i: nat) requires i < Chunks(|image|) => ImageFrame(image, i))
  }

  /** The readback frames that were read. */
  function Heard(log: seq<Event>): seq<Frame> {
    if log == [] then []
    else Heard(log[..|log| - 1]) + HeardOf(log[|log| - 1])
  }

  function HeardOf(e: Event): seq<Frame> {
    if e.Read? && e.frame.id == READBACK then [e.frame] else []
  }

  predicate Patient(log: seq<Event>) {
    forall e :: e in log ==> e != Stop && e != Late
  }

  /** The buffer after n of the bootloader's frames. */
  predicate Tracks(image: Data, r: Reader, n: nat) {
    match r
    case AskFirst => n == 0
    case AwaitSize => n == 0
    case Collecting(size, buf, _) => size == |image| && n > 0 && buf == image[..Min(8 * (n - 1), size)]
    case Acknowledging(size, buf, _) => size == |image| && n > 0 && buf == image[..Min(8 * (n - 1), size)]
    case Ended(Image(bytes)) => bytes == image && n > 0 && 8 * (n - 1) >= |image|
    case _ => false
  }

  /** Pages are made of whole chunks. */
  lemma ChunkRoom(size: nat, n: nat, page: nat)
    requires 8 * n < size && 8 * n < PageTarget(size, page)
    ensures ChunkEnd(size, 8 * n) <= PageTarget(size, page)
  {
    if 8 * n < page * PAGE + PAGE {
      assert page * PAGE + PAGE == 8 * (256 * page + 256);
    }
  }

  lemma ChunkFits(image: Data, n: nat, page: nat)
    requires 8 * n < |image| && page * PAGE <= 8 * n < PageTarget(|image|, page)
    ensures var buf := image[..8 * n];
            Extend(buf, ImageFrame(image, n).data, PageTarget(|image|, page)) == image[..Min(8 * (n + 1), |image|)]
  {
    hide PageTarget;
    var end := ChunkEnd(|image|, 8 * n);
    ChunkRoom(|image|, n, page);
    var data := ImageFrame(image, n).data;
    assert data[..|data|] == data;
    assert image[..end] == image[..8 * n] + image[8 * n..end];
  }

  lemma HeaderNamesSize(image: Data)
    requires |image| < 0x1_0000_0000
    ensures IsHeader(Framed(image)[0]) && FromBE(Framed(image)[0].data) == |image|
  {
    assert Pow256(4) == 0x1_0000_0000;
    FromToBE(|image|, 4);
  }

  lemma ChunkTracks(image: Data, r: Reader, n: nat)
    requires ValidReader(r) && Tracks(image, r, n) && r.Collecting? && n < |Framed(image)|
    ensures Tracks(image, Advance(r, Read(Framed(image)[n])), n + 1)
  {
    hide Extend, FromBE, ToBE;
    assert 8 * (n - 1) < |image|;
    assert Framed(image)[n] == ImageFrame(image, n - 1);
    ChunkFits(image, n - 1, r.page);
  }

  lemma TracksStep(image: Data, r: Reader, n: nat, e: Event)
    requires 0 < |image| < 0x1_0000_0000 && ValidReader(r) && Tracks(image, r, n)
    requires Advance(r, e) != Never && e != Stop && e != Late
    requires HeardOf(e) != [] ==> n < |Framed(image)| && e == Read(Framed(image)[n])
    ensures Tracks(image, Advance(r, e), n + |HeardOf(e)|)
  {
    hide FromBE, ToBE, Framed, Extend, PageAckFrame;
    match r
    case Collecting(_, _, _) =>
      if HeardOf(e) != [] {
        ChunkTracks(image, r, n);
      }
    case AwaitSize => HeaderNamesSize(image);
    case _ =>
  }

  lemma {:induction false} FollowTracks(image: Data, log: seq<Event>)
    requires 0 < |image| < 0x1_0000_0000 && Patient(log) && Follow(log) != Never && Heard(log) <= Framed(image)
    ensures Tracks(image, Follow(log), |Heard(log)|)
  {
    hide Advance, Framed;
    if log != [] {
      var front, e := log[..|log| - 1], log[|log| - 1];
      NeverStays(e);
      assert Heard(log) == Heard(front) + HeardOf(e);
      assert Heard(front) == Framed(image)[..|Heard(log)|][..|Heard(front)|] == Framed(image)[..|Heard(front)|];
      assert forall f :: f in front ==> f in log;
      assert e in log;
      FollowTracks(image, front);
      if HeardOf(e) != [] {
        assert Heard(log)[|Heard(front)|] == e.frame == Framed(image)[|Heard(front)|];
      }
      TracksStep(image, Follow(front), |Heard(front)|, e);
    }
  }

  lemma NeverStays(e: Event)
    ensures Advance(Never, e) == Never
  {
  }

  /**
   The round trip. Whatever else is on the bus, a readback that hears the frames of an
   image and is not interrupted collects exactly that image, for every size.
   */
  lemma ReadbackRoundTrip(image: Data, log: seq<Event>)
    requires 0 < |image| < 0x1_0000_0000 && Patient(log) && Follow(log) != Never && Heard(log) <= Framed(image)
    ensures Follow(log).Ended? ==> Follow(log).backup == Image(image)
    ensures Heard(log) == Framed(image) ==>
              Follow(log) == Ended(Image(image)) || Follow(log) == Acknowledging(|image|, image, PageCount(|image|) - 1)
  {
    hide Heard, Follow;
    FollowTracks(image, log);
    var r := Follow(log);
    if r.Collecting? || r.Acknowledging? {
      if Heard(log) == Framed(image) {
        assert image[..|image|] == image;
      }
      if r.Acknowledging? && |r.buf| == |image| {
        LastPage(|image|, r.page);
      }
    }
  }
}
