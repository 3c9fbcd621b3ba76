/**
 The other end of an update: the bootloader as the flasher's comments and the
 simulated board describe it, and the two of them joined by a bus that may lose
 frames both ways but neither duplicates nor reorders them.
 */
module Bootloader {
  import opened Bytes
  import opened CanBus
  import opened VersionQuery
  import opened FlashSpec
  import opened Wrappers

  const STATUS_ERASING: byte := 0x02
  const STATUS_VERIFYING: byte := 0x06
  const REASON_INCOMPLETE: byte := 0x01

  /** written: the pages in flash. buffer: the bytes of the page being received. */
  datatype Board = Board(
    application: bool, receiving: bool, declared: nat, written: Data, buffer: Data, installed: Option<Data>)

  function AckFrame(page: nat): Frame {
    Frame(PAGE_ACK, ToBE(page, 4))
  }

  function StatusFrame(status: Data): Frame {
    Frame(STATUS, status)
  }

  /** The board identifies itself; only the first byte, application or bootloader, matters here. */
  function VersionFrame(application: bool): Frame {
    Frame(VERSION_RESPONSE, [if application then 0 else 1, 0, 0, 0, 0, 0, 0, 0])
  }

  /** A page is written and acknowledged when its buffer is full. */
  function Absorb(b: Board, data: Data): (Board, seq<Frame>) {
    var all := b.buffer + data;
    if |all| < PAGE then (b.(buffer := all), [])
    else (b.(written := b.written + all[..PAGE], buffer := all[PAGE..]), [AckFrame(|b.written| / PAGE)])
  }

  /** The last, partial page is written and acknowledged at the end of the update. */
  function Flush(b: Board): (Board, seq<Frame>) {
    if b.buffer == [] then (b, [])
    else (b.(written := b.written + b.buffer, buffer := []), [AckFrame(|b.written| / PAGE)])
  }

  /** The end of the update. `reason` is what CRC, record, hardware and rollback checks find, None when they pass. */
  function Close(b: Board, reason: Option<byte>): (Board, seq<Frame>) {
    var b' := b.(receiving := false);
    if !b.receiving || |b.written| != b.declared then (b', [StatusFrame([STATUS_VERIFY_FAIL, REASON_INCOMPLETE])])
    else if reason.Some? then (b', [StatusFrame([STATUS_VERIFY_FAIL, reason.value])])
    else (b'.(application := true, installed := Some(b.written)), [StatusFrame([STATUS_VERIFY_OK])])
  }

  function EndUpdate(b: Board, reason: Option<byte>): (Board, seq<Frame>) {
    var flushed := Flush(b);
    var closed := Close(flushed.0, reason);
    (closed.0, flushed.1 + [StatusFrame([STATUS_VERIFYING])] + closed.1)
  }

  /** What the board does with one frame, and what it answers. */
  function React(b: Board, f: Frame, reason: Option<byte>): (Board, seq<Frame>) {
    if f.id == QUERY_VERSION then (b, [VersionFrame(b.application)])
    else if b.application then (b, [])
    else if f.id == START_UPDATE && |f.data| >= 4 then
      (b.(receiving := true, declared := FromBE(f.data[..4]), written := [], buffer := []),
       [StatusFrame([STATUS_ERASING]), StatusFrame([STATUS_RECEIVING])])
    else if f.id == DATA && b.receiving then Absorb(b, f.data)
    else if f.id == END_UPDATE then EndUpdate(b, reason)
    else (b, [])
  }

  // The two of them and the bus.

  /** log: what the flasher did. down, up: the frames on their way to the board and to the flasher, oldest first. */
  datatype World = World(log: seq<Event>, board: Board, down: seq<Frame>, up: seq<Frame>)

  datatype Step =
    | HostDoes(e: Event)
    | Deliver(reason: Option<byte>)
    | DropDown(i: nat)
    | DropUp(i: nat)
    | Chatter(f: Frame)       // another node of the bus talks
    | Reset                   // the board restarts into the application installed before

  /** A board in its bootloader, with any image installed, and a silent bus. */
  predicate Initial(w: World) {
    w.log == [] && w.down == [] && w.up == []
    && !w.board.application && !w.board.receiving && w.board.written == [] && w.board.buffer == []
  }

  predicate Enabled(job: Job, w: World, s: Step)
    requires GoodJob(job)
  {
    match s
    case HostDoes(e) =>
      && Next(job, Run(job, Begin, w.log), e) != Illegal
      && (e.Read? ==> w.up != [] && e.frame == w.up[0])
    case Deliver(_) => w.down != []
    case DropDown(i) => i < |w.down|
    case DropUp(i) => i < |w.up|
    case Chatter(f) => f.id != PAGE_ACK && f.id != STATUS
    case Reset => w.board.installed.Some?
  }

  function Dropped<T>(s: seq<T>, i: nat): seq<T>
    requires i < |s|
  {
    s[..i] + s[i + 1..]
  }

  function Take(job: Job, w: World, s: Step): World
    requires GoodJob(job) && Enabled(job, w, s)
  {
    match s
    case HostDoes(e) =>
      var w' := w.(log := w.log + [e]);
      (match e
       case Sent(f) => w'.(down := w.down + [f])
       case Read(_) => w'.(up := w.up[1..])
       case _ => w')
    case Deliver(reason) =>
      var r := React(w.board, w.down[0], reason);
      w.(board := r.0, down := w.down[1..], up := w.up + r.1)
    case DropDown(i) => w.(down := Dropped(w.down, i))
    case DropUp(i) => w.(up := Dropped(w.up, i))
    case Chatter(f) => w.(up := w.up + [f])
    case Reset => w.(board := w.board.(application := true, receiving := false, buffer := []))
  }

  /** The world after a run of steps, if every one of them could be taken. */
  function Execute(job: Job, w: World, steps: seq<Step>): Option<World>
    requires GoodJob(job)
  {
    if steps == [] then Some(w)
    else
      match Execute(job, w, steps[..|steps| - 1])
      case None => None
      case Some(w') =>
        var s := steps[|steps| - 1];
        if Enabled(job, w', s) then Some(Take(job, w', s)) else None
  }
}
