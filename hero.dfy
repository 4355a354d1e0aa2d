/**
 * The hero decoration (`initThreeJS` and `createFallbackOrb` in app.js).
 *
 * When the hero canvas is on the page, the script draws a 3D orb with the
 * graphics library. If the library is not loaded, or setting up the scene
 * throws, it falls back once to a plain element appended to the first
 * section, provided there is one. That element's opacity is 0.2 and becomes
 * 0.5 while the pointer is over the section. The 3D scene itself is left
 * out.
 */
module HeroOrb {

  /** Opacity of the fallback orb at rest and while the pointer is over the section. */
  const BaseOpacity: real := 0.2
  const HoverOpacity: real := 0.5

  /** What the hero ends up showing. */
  datatype HeroVisual = NoVisual | Scene | FallbackOrb

  /**
   * The choice made at start-up: nothing without the canvas; the 3D scene
   * when the library is loaded and setting it up does not throw; otherwise
   * the fallback orb, which needs a section to live in.
   */
  function ChooseVisual(hasCanvas: bool, libraryLoaded: bool, setupThrows: bool, hasSection: bool): (v: HeroVisual)
    ensures v != NoVisual ==> hasCanvas
    ensures v == FallbackOrb ==> hasSection
    ensures hasCanvas && (hasSection || (libraryLoaded && !setupThrows)) ==> v != NoVisual
  {
    if !hasCanvas then NoVisual
    else if libraryLoaded && !setupThrows then Scene
    else if hasSection then FallbackOrb
    else NoVisual
  }

  /** The fallback is used exactly when the canvas is there but the 3D path is unavailable, and never alongside the scene. */
  lemma FallbackExactlyWhenSceneUnavailable(hasCanvas: bool, libraryLoaded: bool, setupThrows: bool, hasSection: bool)
    ensures ChooseVisual(hasCanvas, libraryLoaded, setupThrows, hasSection) == Scene <==>
              hasCanvas && libraryLoaded && !setupThrows
    ensures ChooseVisual(hasCanvas, libraryLoaded, setupThrows, hasSection) == FallbackOrb <==>
              hasCanvas && hasSection && (!libraryLoaded || setupThrows)
  {
  }

  datatype Pointer = Enter | Leave

  /** The opacity one pointer event sets. */
  function Hovered(e: Pointer): (o: real)
    ensures o == BaseOpacity || o == HoverOpacity
    ensures o == HoverOpacity <==> e == Enter
  {
    if e == Enter then HoverOpacity else BaseOpacity
  }

  /** The opacity after the handlers have run for each event in turn, starting from `opacity`. */
  function OpacityAfter(opacity: real, events: seq<Pointer>): real
    decreases |events|
  {
    if events == [] then opacity else OpacityAfter(Hovered(events[0]), events[1..])
  }

  /**
   * The orb keeps no memory of its history: after any non-empty run of
   * events its opacity is 0.5 if the last one entered the section and 0.2
   * if it left it.
   */
  lemma {:induction false} OpacityFollowsLastEvent(opacity: real, events: seq<Pointer>)
    ensures OpacityAfter(opacity, events) ==
              if events == [] then opacity else Hovered(events[|events| - 1])
    decreases |events|
  {
    if events != [] {
      OpacityFollowsLastEvent(Hovered(events[0]), events[1..]);
      if |events| > 1 {
        assert events[1..][|events| - 2] == events[|events| - 1];
      }
    }
  }

  lemma {:induction false} OpacityAfterAppend(opacity: real, events: seq<Pointer>, e: Pointer)
    ensures OpacityAfter(opacity, events + [e]) == Hovered(e)
  {
    OpacityFollowsLastEvent(opacity, events + [e]);
  }

  /** The fallback orb element with its two hover handlers. */
  class Orb {
    var opacity: real
    /** The pointer events the orb has seen, oldest first. */
    ghost var seen: seq<Pointer>

    ghost predicate Valid()
      reads this
    {
      opacity == OpacityAfter(BaseOpacity, seen) && (opacity == BaseOpacity || opacity == HoverOpacity)
    }

    constructor ()
      ensures Valid() && seen == [] && opacity == BaseOpacity
    {
      opacity := BaseOpacity;
      seen := [];
    }

    method MouseEnter()
      requires Valid()
      modifies this
      ensures Valid() && seen == old(seen) + [Enter] && opacity == HoverOpacity
    {
      OpacityAfterAppend(BaseOpacity, seen, Enter);
      opacity := HoverOpacity;
      seen := seen + [Enter];
    }

    method MouseLeave()
      requires Valid()
      modifies this
      ensures Valid() && seen == old(seen) + [Leave] && opacity == BaseOpacity
    {
      OpacityAfterAppend(BaseOpacity, seen, Leave);
      opacity := BaseOpacity;
      seen := seen + [Leave];
    }
  }
}
