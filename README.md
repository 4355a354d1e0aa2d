# Pathify landing page: a verified model of its front-end logic

Pathify's landing page is driven by one script, `app.js`. Most of that script
wires the browser (DOM listeners, the Three.js library, timers). This project
models the parts of it that hold logic, and proves what they promise:

- **Statistics counters** (`CounterAnimation`, counter.dfy). The first time the
  intersection observer reports a counter as intersecting, it is unobserved and a 40 ms timer starts. Each tick
  adds a fiftieth of the target, clamps to the target, clears the timer once the
  target is reached, and writes the value. The text comes from a chain of format
  rules: thousands with "k+" from 10000 on, then "%" for success/rate labels,
  " min" for minute/average labels, and "%" otherwise. The counter is a class
  whose fields are the target, the lower-cased label, `current`, `running`
  (the timer is live), `started` (animated and unobserved) and the displayed
  text. Its `Tick` method is tied to `CurrentAfter`, a function that follows
  the tick arithmetic.
- **Mobile menu** (`MobileMenu`, menu.dfy). The menu button toggles the
  menu. A click outside, a resize to desktop width, or following an in-page
  link closes it. The button's icon turns to 90 or 0 degrees to match.
- **Navigation bar** (`NavScroll`, nav.dfy). The bar is marked "scrolled"
  past 50 pixels. It slides away when scrolling down with the position past 200 pixels. A
  10 ms throttle sits in front of the frame callback.
- **Parallax throttle** (`Parallax`, parallax.dfy). The `ticking` flag keeps
  at most one frame callback waiting.
- **Hero decoration** (`HeroOrb`, hero.dfy). The page chooses between the 3D
  orb and the fallback orb. The fallback orb's opacity is 0.2, or 0.5 while
  the pointer is over the section.
- **Button routing** (`ButtonRouting`, buttons.dfy). A button's text selects
  the login page, the partnership alert, or nothing.
- **Strings** (`Text`, text.dfy). This module holds the string helpers the
  others use. `toLowerCase` is modelled for ASCII only. `includes` gets a
  proof that it means "occurs at some index". Integer-to-decimal printing is
  proved to read back as the number printed.

Browser events become method calls: intersection reports, timer ticks,
clicks, resizes, scroll events and animation-frame callbacks. Values the
browser supplies become parameters: the visibility flag, the window width,
the scroll position, and whether a link target exists. The script does its
counter arithmetic in floating point. The model uses exact reals instead,
so after k ticks `current` is exactly k/50 of the target.

Two points about the counter's stopping condition:

- The timer stops once `current` reaches or passes the target (`>=`,
  app.js:348).
- `parseInt` can give NaN (app.js:327). Then `current >= target` never holds
  and the timer never stops. Not modelled.

## Model

| member | source | states |
|---|---|---|
| Text.ToLower | app.js:328 | lower-casing keeps the length, maps every character by its ASCII lower case, and leaves no upper-case letter |
| Text.ContainsIff | app.js:356-358 | `includes` holds exactly when the searched text occurs at some index, in both directions |
| Text.NatToDecimal | app.js:357 | the printed form of a whole number is a non-empty string of digits with no leading zero |
| Text.DecimalRoundTrip | app.js:357 | reading the printed digits back gives the number that was printed |
| Text.NumberRoundTrip | app.js:355-361 | a number printed in front of a unit that does not start with a digit reads back as exactly that number and that unit |
| CounterAnimation.RuleFor | app.js:354-362 | the thousands rule is chosen exactly from 10000 on; the success/rate rule only for labels containing "success" or "rate"; the minutes rule only for labels containing "minute" or "average"; the last rule only for labels containing neither of those |
| CounterAnimation.Format | app.js:354-362 | the written text ends with the chosen rule's unit, preceded by a non-empty number that is all digits when the value is not negative |
| CounterAnimation.RuleOrder | app.js:354-362 | each format rule applies exactly when its own test holds and no earlier test does (first match wins) |
| CounterAnimation.FormatReadsBack | app.js:354-362 | the displayed text is the floored value of the chosen rule (thousands for "k+") followed by that rule's unit, and reads back as that pair |
| CounterAnimation.ThousandsIgnoresLabel | app.js:354-355 | from 10000 on the label has no effect on the text |
| CounterAnimation.PercentRulesAgree | app.js:356-361 | the success/rate rule and the last rule write the same text, floor of the value followed by "%" |
| CounterAnimation.FloorThousands | app.js:355 | flooring a whole target divided by 1000 gives the integer quotient |
| CounterAnimation.FinalText | app.js:347-362 | the last tick shows whole thousands of the target plus "k+" from 10000 on, otherwise the target plus the rule's unit |
| CounterAnimation.SampleSuccessRate | app.js:356-357 | 95 under the label "success rate" ends as "95%" |
| CounterAnimation.MinutesCaptionRule | app.js:356-359 | the label "avg. minutes" contains neither "success" nor "rate" but contains "minute", so it selects the minutes rule |
| CounterAnimation.SampleMinutes | app.js:358-359 | 15 under the label "avg. minutes" ends as "15 min" |
| CounterAnimation.CurrentAfter | app.js:347-350 | `current` after any number of ticks, each adding target/50 and clamping, stays between 0 and the target |
| CounterAnimation.CurrentAfterClosedForm | app.js:341-351 | in exact arithmetic `current` after k ticks is k/50 of the target up to the 50th tick and the target from then on |
| CounterAnimation.CurrentAfterBounds | app.js:347-350 | after every tick `0 <= current <= target` |
| CounterAnimation.StepMonotone | app.js:347-349 | a single tick never lowers `current`, whether it adds the increment or clamps |
| CounterAnimation.CurrentAfterMonotone | app.js:341-347 | `current` never decreases from one tick to a later one |
| CounterAnimation.ClearsExactlyAt | app.js:342-350 | the timer is cleared by the 50th tick for a positive target and by the first for a zero target, and by no earlier tick |
| CounterAnimation.FinishesAtTarget | app.js:348-349 | the clearing tick leaves `current` exactly at the target |
| CounterAnimation.Counter.constructor | app.js:326-328 | a new counter is idle: not started, timer not running, `current` 0, label lower-cased, text as on the page |
| CounterAnimation.Counter.OnIntersection | app.js:323-334 | the first visible report starts the animation with `current` 0 and the text untouched; any report after that, or a not-visible one, changes nothing |
| CounterAnimation.Counter.Tick | app.js:346-363 | a live tick adds target/50, clamps to the target and clears the timer on reaching it, and writes the formatted value; `current` only grows and stays within the target; a cleared timer changes nothing |
| CounterAnimation.Counter.Run | app.js:346-351 | once started, the timer fires exactly 50 times (once for a zero target) and leaves the formatted target on display |
| MobileMenu.ButtonClicked | app.js:435-460 | a button click flips the menu between open and closed, sets `open` to match, and turns the icon to 90 degrees for open and 0 for closed |
| MobileMenu.Closed | app.js:465-470 | every closing path leaves the menu hidden without `open`, with the icon (when there is one) at 0 degrees |
| MobileMenu.Clicked | app.js:435-472 | a click on the button flips open/closed, a click inside the menu changes nothing, a click elsewhere closes the menu and drops `open` |
| MobileMenu.Resized | app.js:475-484 | a width of 768 or more closes the menu and drops `open`; a narrower width changes nothing |
| MobileMenu.LinkFollowed | app.js:389-400 | following a link whose target exists leaves the menu closed; with no target, or a menu already closed, nothing changes |
| MobileMenu.LinkClicked | app.js:389-472 | a link click closes the menu unless the target is missing and the link is inside the menu, in which case nothing changes |
| MobileMenu.ButtonClickedTwice | app.js:438-459 | two button clicks restore a consistent menu unchanged |
| MobileMenu.HandlersKeepConsistent | app.js:435-484 | every handler keeps the two classes and the icon in agreement |
| MobileMenu.ClosingPathsClose | app.js:463-484 | an outside click, a desktop-width resize and following an existing link always close the menu with the icon at 0; no closing path opens a closed menu |
| MobileMenu.ClosingPathsIdempotent | app.js:463-484 | applying a closing path twice is the same as applying it once |
| MobileMenu.MenuWidget.constructor | app.js:430-433 | the widget starts with the menu classes and icon rotation the page gives it |
| MobileMenu.MenuWidget.Close | app.js:465-470 | the menu element after a close is the `Closed` state |
| MobileMenu.MenuWidget.Click | app.js:435-472 | a click on the button toggles and stops there, a click inside the menu changes nothing, a click elsewhere closes |
| MobileMenu.MenuWidget.Resize | app.js:475-484 | a resize to 768 pixels or wider closes the menu, a narrower one changes nothing |
| MobileMenu.MenuWidget.FollowLink | app.js:389-400 | following an in-page link whose target exists closes an open menu; otherwise nothing changes |
| NavScroll.Updated | app.js:549-567 | after an update, `scrolled` holds iff the position is past 50, the bar is hidden iff it moved down and is past 200, and the position is remembered |
| NavScroll.AfterScrollsLastTwo | app.js:549-567 | after any run of updates the bar's state depends only on the last position and the one before it |
| NavScroll.ShownUnlessScrollingDownLow | app.js:559-564 | scrolling up, or staying within 200 pixels of the top, always shows the bar |
| NavScroll.RepeatedUpdateShows | app.js:559-566 | a second update at the same position sees no movement and shows the bar |
| NavScroll.NavBar.constructor | app.js:546-547 | the handler starts with the current position remembered and no frame requested |
| NavScroll.NavBar.UpdateOnScroll | app.js:549-567 | the bar's fields after an update are the `Updated` state; the throttle is untouched |
| NavScroll.NavBar.OnScroll | app.js:570-576 | a scroll event requests one frame callback only when the throttle flag is down, and leaves the flag up |
| NavScroll.NavBar.ThrottleElapsed | app.js:574 | the 10 ms timeout lowers the throttle flag and changes nothing else |
| NavScroll.NavBar.FrameCallback | app.js:572 | a requested frame callback runs one update and is no longer waiting |
| Parallax.StepKeepsValid | app.js:534-539 | every scroll event and frame keeps at most one callback waiting, with the flag up exactly while one waits |
| Parallax.RunConservesRequests | app.js:490-539 | over any sequence of events every requested frame is either run or still waiting, so requests exceed updates by at most one |
| Parallax.Step | app.js:531-539 | a scroll event leaves the flag up and adds a request only when the flag was down; a frame runs one waiting callback and lowers the flag |
| Parallax.Scheduler.constructor | app.js:490 | the throttle starts with the flag down and no frame waiting |
| Parallax.Scheduler.OnScroll | app.js:534-539 | a scroll event requests a frame only when none is waiting, and afterwards exactly one is waiting |
| Parallax.Scheduler.FrameCallback | app.js:492-532 | the frame callback runs and lowers the flag, leaving nothing waiting |
| HeroOrb.FallbackExactlyWhenSceneUnavailable | app.js:16-230 | the 3D scene is used iff the canvas exists, the library is loaded and set-up does not throw; the fallback orb is used iff the canvas and a section exist and the library is missing or set-up throws |
| HeroOrb.ChooseVisual | app.js:17-230 | something is shown only when the canvas exists; the fallback orb only when a section exists; with the canvas and either a working scene or a section, something is always shown |
| HeroOrb.Hovered | app.js:243-249 | a hover event sets opacity 0.5 for entering and 0.2 for leaving, and nothing else |
| HeroOrb.OpacityFollowsLastEvent | app.js:238-249 | the fallback orb's opacity after any run of hover events is 0.5 if the last one entered and 0.2 if it left |
| HeroOrb.Orb.constructor | app.js:238-240 | the fallback orb starts at opacity 0.2 |
| HeroOrb.Orb.MouseEnter | app.js:243-245 | entering the section sets opacity 0.5 |
| HeroOrb.Orb.MouseLeave | app.js:247-249 | leaving the section sets opacity 0.2 |
| ButtonRouting.RouteChain | app.js:415-424 | the login page is chosen exactly for the start/get-started/demo texts, before "partner"; the alert is chosen exactly for "partner" texts that are not sign-in texts; anything else does nothing |
| ButtonRouting.Route | app.js:415-424 | only the login page is ever navigated to, exactly for sign-in texts after lower-casing; the alert is chosen only for texts containing "partner" |
| ButtonRouting.RouteIgnoresCase | app.js:415 | routing ignores letter case |
| ButtonRouting.GetStartedGoesToLogin | app.js:418-419 | any text containing "get started", in any case, leads to login.html |

## Left out

- The Three.js scene is not modelled (app.js:27-226): the geometry, lights, particles, the render loop, the lerp opacity easing and the resize handler. This is floating-point animation inside a foreign library. Only the choice between the scene and the fallback is kept.
- HeroOrb.FallbackExactlyWhenSceneUnavailable: treats any throw during set-up as "no scene". A throw after `animate()` has started would leave its frame loop running beside the fallback orb; the model does not capture that.
- Floating point is not modelled. `current` is an exact real. With doubles, repeated addition of target/50 can fall just short of the target after 50 ticks, so the timer may need a 51st tick. The exact model has no such tick.
- Text.NatToDecimal: prints every whole number in plain digits. JavaScript switches to exponent notation from 10^21 on, which the model does not capture.
- Text.ToLower: covers only the ASCII letters; full Unicode case mapping is not modelled.
- Unparseable counter targets (`parseInt` giving NaN) are not modelled. The target is a natural number.
- CounterAnimation.Counter.constructor: takes the target and the label text when the counter is created. The script reads `data-count` and the label only when the first intersecting report arrives (app.js:327-328). A change to either value between creation and that report is not captured. The model also assumes the label element (`nextElementSibling`) exists; the script does not check for it.
- The intersection observer is reduced to one visibility flag per report; the 50% threshold geometry is not modelled. The model does not cover a single observer batch that holds two visible entries for the same counter.
- Timer periods (40 ms, 10 ms) and animation frames are not modelled as time. They are explicit method calls.
- The pixel values of the parallax transforms, the smooth-scroll target offset, the spotlight percentages, the ripple geometry and the random stagger delays are not modelled. They are float pixel arithmetic and `Math.random`.
- The button press animation (`scale(0.95)`, reset after 150 ms) is not modelled. The `console.log` and the alert text are not modelled either; routing only returns which action is taken.
- The icon's CSS `transition` property is not modelled; only its rotation is.
- Missing page elements are not modelled. The menu handlers exist only when both the button and the menu exist. The link path in `initSmoothScroll` looks up the button without checking it; the model assumes it is present. The nav handler assumes the `nav` element exists.
- Scroll reveal, pulse-on-view, spotlight, ripple, the floating-blob delays, the keyboard-focus helper and the global error logger are not modelled. They set CSS classes or styles and hold no logic.
- The server side is not modelled: `server_fastapi/` (Socket.IO handlers, MongoDB access, the Groq client) and the Django apps under `backend/Araadhya/` (models, serializers, views, URL tables). They are framework declarations and I/O wrappers with no algorithm to verify.
