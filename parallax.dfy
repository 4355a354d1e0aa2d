/**
 * The throttle in front of the parallax update (`initParallax` in app.js).
 *
 * A scroll event requests an animation frame only while the `ticking` flag
 * is down and then raises it; the frame callback moves the decorations and
 * lowers the flag again. So at most one callback is ever waiting. The
 * offsets the callback computes are left out; only the gate is modelled.
 */
module Parallax {

  /** The flag and the number of requested callbacks that have not run yet. */
  datatype Gate = Gate(ticking: bool, pending: nat)

  /** The gate's invariant: the flag is up exactly while one callback is waiting, and never more wait. */
  predicate GateValid(g: Gate)
  {
    g.pending <= 1 && (g.ticking <==> g.pending == 1)
  }

  datatype Event = Scroll | Frame

  /** The effect of one event. A frame without a waiting callback runs nothing. */
  function Step(g: Gate, e: Event): (r: Gate)
    ensures e == Scroll ==> r.ticking && r.pending == (if g.ticking then g.pending else g.pending + 1)
    ensures e == Frame ==> r.pending == (if g.pending > 0 then g.pending - 1 else 0)
    ensures e == Frame && g.pending > 0 ==> !r.ticking
  {
    match e
    case Scroll => if !g.ticking then Gate(true, g.pending + 1) else g
    case Frame => if g.pending > 0 then Gate(false, g.pending - 1) else g
  }

  /** The gate after a sequence of events. */
  function Run(g: Gate, events: seq<Event>): Gate
    decreases |events|
  {
    if events == [] then g else Run(Step(g, events[0]), events[1..])
  }

  /** How many frames a sequence of events requests. */
  function Requests(g: Gate, events: seq<Event>): nat
    decreases |events|
  {
    if events == [] then 0
    else (if events[0] == Scroll && !g.ticking then 1 else 0) + Requests(Step(g, events[0]), events[1..])
  }

  /** How many parallax updates a sequence of events runs. */
  function Updates(g: Gate, events: seq<Event>): nat
    decreases |events|
  {
    if events == [] then 0
    else (if events[0] == Frame && g.pending > 0 then 1 else 0) + Updates(Step(g, events[0]), events[1..])
  }

  /** Every event keeps at most one callback waiting. */
  lemma StepKeepsValid(g: Gate, e: Event)
    requires GateValid(g)
    ensures GateValid(Step(g, e))
  {
  }

  /**
   * Over any sequence of events the gate stays valid, and every request is
   * either run as an update or still waiting: the waiting callbacks before,
   * plus the requests, equal the updates plus the callbacks still waiting.
   * So however many scroll events arrive, requests exceed updates by at
   * most one.
   */
  lemma {:induction false} RunConservesRequests(g: Gate, events: seq<Event>)
    requires GateValid(g)
    ensures GateValid(Run(g, events))
    ensures g.pending + Requests(g, events) == Updates(g, events) + Run(g, events).pending
    ensures Requests(g, events) <= Updates(g, events) + 1
    decreases |events|
  {
    if events != [] {
      StepKeepsValid(g, events[0]);
      RunConservesRequests(Step(g, events[0]), events[1..]);
    }
  }

  /** The parallax handler's throttle state. */
  class Scheduler {
    var ticking: bool
    var pending: nat

    function State(): Gate
      reads this
    {
      Gate(ticking, pending)
    }

    constructor ()
      ensures State() == Gate(false, 0) && GateValid(State())
    {
      ticking := false;
      pending := 0;
    }

    /** `requestParallaxTick`: requests a frame only when none is waiting. */
    method OnScroll()
      requires GateValid(State())
      modifies this
      ensures State() == Step(old(State()), Scroll) && GateValid(State())
      ensures ticking && pending == 1
    {
      if !ticking {
        pending := pending + 1;
        ticking := true;
      }
    }

    /** The requested frame runs `updateParallax`, which ends by lowering the flag. */
    method FrameCallback()
      requires GateValid(State()) && pending > 0
      modifies this
      ensures State() == Step(old(State()), Frame) && GateValid(State())
      ensures !ticking && pending == 0
    {
      pending := pending - 1;
      ticking := false;
    }
  }
}
