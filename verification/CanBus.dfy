/**
 The CAN bus as the flasher sees it, and everything else its control flow
 depends on: the stop flag and the clock. The environment is unconstrained.
 */
module CanBus {
  import opened Bytes
  import opened Wrappers

  /** A classic CAN frame: identifier and payload. */
  datatype Frame = Frame(id: nat, data: Data)

  /** What happens between the flasher and its environment, in the order of the program. */
  datatype Event =
    | Sent(frame: Frame)   // send_frame
    | Read(frame: Frame)   // read_frame returned a frame
    | Quiet                // read_frame returned nothing
    | Stop                 // the stop flag was found set
    | Late                 // a deadline was found to have passed

  function Sends(log: seq<Event>): seq<Frame> {
    if log == [] then []
    else Sends(log[..|log| - 1]) + (match log[|log| - 1] case Sent(f) => [f] case _ => [])
  }

  /** The turns of a polling loop that a log shows: each reads the bus or finds the stop flag set. */
  function Turns(log: seq<Event>): nat {
    if log == [] then 0
    else
      var e := log[|log| - 1];
      Turns(log[..|log| - 1]) + if e.Read? || e == Quiet || e == Stop then 1 else 0
  }

  lemma TurnsStep(log: seq<Event>, e: Event)
    ensures Turns(log + [e]) == Turns(log) + if e.Read? || e == Quiet || e == Stop then 1 else 0
  {
    assert (log + [e])[..|log|] == log;
  }

  /**
   The environment of the flasher. A deadline is a number of polls that fit before it: it
   cannot be found passed while polls are left. `checks` counts the looks at the stop flag.
   */
  class Bus {
    ghost var log: seq<Event>
    ghost var budget: nat
    ghost var checks: nat

    constructor ()
      ensures log == [] && checks == 0
    {
      log, budget, checks := [], 0, 0;
    }

    method SendFrame(frame: Frame)
      modifies this`log
      ensures log == old(log) + [Sent(frame)]
    {
      log := log + [Sent(frame)];
    }

    /** Any frame at all may arrive, or none. */
    method ReadFrame() returns (frame: Option<Frame>)
      requires budget > 0
      modifies this`log, this`budget
      ensures log == old(log) + [if frame.Some? then Read(frame.value) else Quiet]
      ensures budget == old(budget) - 1
    {
      frame := *;
      log := log + [if frame.Some? then Read(frame.value) else Quiet];
      budget := budget - 1;
    }

    /** The stop flag, which the user may set at any moment. */
    method StopRequested() returns (stop: bool)
      modifies this`log, this`checks
      ensures log == if stop then old(log) + [Stop] else old(log)
      ensures checks == old(checks) + 1
    {
      stop := *;
      if stop {
        log := log + [Stop];
      }
      checks := checks + 1;
    }

    /** How many polls fit before a deadline: any finite number. */
    method PollBudget() returns (polls: nat)
      modifies this`budget
      ensures budget == polls
    {
      polls := *;
      budget := polls;
    }

    method DeadlinePassed()
      requires budget == 0
      modifies this`log
      ensures log == old(log) + [Late]
    {
      log := log + [Late];
    }
  }
}
