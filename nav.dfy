/**
 * The navigation bar's reaction to scrolling (`initNavScrollEffect` and
 * `updateNavOnScroll` in app.js).
 *
 * A scroll event requests an animation frame that runs the update, unless a
 * request was made less than 10 ms before. The update marks the bar as
 * scrolled past 50 pixels, slides it out of view when the page moves down
 * with the position past 200 pixels and back otherwise, and remembers the position for the
 * next update. Scroll positions are kept as exact reals.
 */
module NavScroll {

  /** The bar is marked as scrolled beyond this offset. */
  const ScrolledFrom: real := 50.0
  /** The bar hides only when scrolling down beyond this offset. */
  const HideFrom: real := 200.0

  /** The remembered position and the two outputs: the `nav-scrolled` class and the slid-out transform. */
  datatype NavState = NavState(lastScrollY: real, scrolled: bool, hidden: bool)

  /** One run of the update at scroll position y. */
  function Updated(s: NavState, y: real): (r: NavState)
    ensures r.lastScrollY == y
    ensures r.scrolled <==> y > ScrolledFrom
    ensures r.hidden <==> y > s.lastScrollY && y > HideFrom
  {
    NavState(y, y > ScrolledFrom, y > s.lastScrollY && y > HideFrom)
  }

  /** The state after the update has run at each position of ys in turn. */
  function AfterScrolls(s: NavState, ys: seq<real>): NavState
    decreases |ys|
  {
    if ys == [] then s else AfterScrolls(Updated(s, ys[0]), ys[1..])
  }

  /**
   * The bar keeps no longer memory than one position: after any run of
   * updates its outputs depend only on the last position and the one before
   * it (the remembered one when the run has a single update).
   */
  lemma {:induction false} AfterScrollsLastTwo(s: NavState, ys: seq<real>)
    requires |ys| >= 1
    ensures var r := AfterScrolls(s, ys);
            var y := ys[|ys| - 1];
            var prev := if |ys| == 1 then s.lastScrollY else ys[|ys| - 2];
            r == Updated(NavState(prev, false, false), y)
    decreases |ys|
  {
    if |ys| > 1 {
      AfterScrollsLastTwo(Updated(s, ys[0]), ys[1..]);
      assert ys[1..][|ys| - 2] == ys[|ys| - 1];
      if |ys| > 2 {
        assert ys[1..][|ys| - 3] == ys[|ys| - 2];
      }
    }
  }

  /** Scrolling up, or staying above 200 pixels, always shows the bar. */
  lemma ShownUnlessScrollingDownLow(s: NavState, y: real)
    requires y <= s.lastScrollY || y <= HideFrom
    ensures !Updated(s, y).hidden
  {
  }

  /** A second update at the same position sees no movement and so shows the bar. */
  lemma RepeatedUpdateShows(s: NavState, y: real)
    ensures Updated(Updated(s, y), y) == NavState(y, y > ScrolledFrom, false)
  {
  }

  /**
   * The navigation bar with its scroll handler. `scrollTicking` is the
   * handler's throttle flag; `pendingUpdates` counts the frame callbacks it
   * has requested that have not run yet.
   */
  class NavBar {
    var lastScrollY: real
    var scrolled: bool
    var hidden: bool
    var scrollTicking: bool
    var pendingUpdates: nat

    function State(): NavState
      reads this
    {
      NavState(lastScrollY, scrolled, hidden)
    }

    /** Set up with the page scrolled to `scrollY`, the bar neither marked nor hidden. */
    constructor (scrollY: real)
      ensures State() == NavState(scrollY, false, false)
      ensures !scrollTicking && pendingUpdates == 0
    {
      lastScrollY := scrollY;
      scrolled := false;
      hidden := false;
      scrollTicking := false;
      pendingUpdates := 0;
    }

    /** `updateNavOnScroll` with the window scrolled to `currentScrollY`. */
    method UpdateOnScroll(currentScrollY: real)
      modifies this
      ensures State() == Updated(old(State()), currentScrollY)
      ensures scrollTicking == old(scrollTicking) && pendingUpdates == old(pendingUpdates)
    {
      if currentScrollY > ScrolledFrom {
        scrolled := true;
      } else {
        scrolled := false;
      }
      if currentScrollY > lastScrollY && currentScrollY > HideFrom {
        hidden := true;
      } else {
        hidden := false;
      }
      lastScrollY := currentScrollY;
    }

    /** A scroll event: requests one frame callback unless the throttle flag is up, then raises it. */
    method OnScroll()
      modifies this
      ensures State() == old(State()) && scrollTicking
      ensures pendingUpdates == if old(scrollTicking) then old(pendingUpdates) else old(pendingUpdates) + 1
    {
      if !scrollTicking {
        pendingUpdates := pendingUpdates + 1;
        scrollTicking := true;
      }
    }

    /** The 10 ms timeout set with the request: lowers the throttle flag. */
    method ThrottleElapsed()
      modifies this
      ensures State() == old(State()) && pendingUpdates == old(pendingUpdates) && !scrollTicking
    {
      scrollTicking := false;
    }

    /** One requested frame callback runs, with the window scrolled to `currentScrollY`. */
    method FrameCallback(currentScrollY: real)
      requires pendingUpdates > 0
      modifies this
      ensures State() == Updated(old(State()), currentScrollY)
      ensures pendingUpdates == old(pendingUpdates) - 1 && scrollTicking == old(scrollTicking)
    {
      pendingUpdates := pendingUpdates - 1;
      UpdateOnScroll(currentScrollY);
    }
  }
}
