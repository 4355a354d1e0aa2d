/**
 * The statistics counters of the landing page (`initCounters` and
 * `animateCounter` in app.js).
 *
 * A counter element carries a target number and is followed by a label
 * element. The first time the intersection observer reports it as
 * intersecting (with a threshold of one half), the element stops
 * being observed and a repeating 40 ms timer starts. Each tick adds a
 * fiftieth of the target to `current`, clamps to the target and clears the
 * timer once the target is reached, and writes `current` to the element
 * formatted by the first matching rule of a chain that looks at the target
 * and the label.
 *
 * The script keeps `current` in a floating-point number. This model keeps it
 * as an exact `real`, so `current` after k ticks is exactly k/50 of the
 * target and the rounding drift of repeated addition is not modelled.
 */
module CounterAnimation {
  import opened Text

  /** Number of ticks the animation is split into. */
  const Steps: nat := 50
  /** Length of the whole animation, in milliseconds. */
  const DurationMs: nat := 2000
  /** Period of the repeating timer, in milliseconds. */
  const StepTimeMs: nat := DurationMs / Steps
  /** Targets from this value on are shown in thousands. */
  const ThousandsFrom: nat := 10000

  // ----- the format chain -----

  /** The rules of the format chain, in the order they are tried. */
  datatype FormatRule = Thousands | SuccessRate | Minutes | Percent

  /** The first rule of the chain whose condition holds. */
  function RuleFor(target: nat, caption: string): (r: FormatRule)
    ensures r == Thousands <==> target >= ThousandsFrom
    ensures r == SuccessRate ==> Contains(caption, "success") || Contains(caption, "rate")
    ensures r == Minutes ==> Contains(caption, "minute") || Contains(caption, "average")
    ensures r == Percent ==> !Contains(caption, "minute") && !Contains(caption, "average")
  {
    if target >= ThousandsFrom then Thousands
    else if Contains(caption, "success") || Contains(caption, "rate") then SuccessRate
    else if Contains(caption, "minute") || Contains(caption, "average") then Minutes
    else Percent
  }

  /** The text each rule appends after the number. */
  function Unit(rule: FormatRule): string
  {
    match rule
    case Thousands => "k+"
    case SuccessRate => "%"
    case Minutes => " min"
    case Percent => "%"
  }

  /** The number a rule shows for the current value: whole thousands or whole units, rounded down. */
  function Shown(rule: FormatRule, current: real): int
  {
    if rule == Thousands then (current / 1000.0).Floor else current.Floor
  }

  /**
   * The text a tick writes into the counter element: a number followed by
   * the unit of the first matching rule. For a non-negative value the
   * number is all digits.
   */
  function Format(target: nat, caption: string, current: real): (r: string)
    ensures var u := Unit(RuleFor(target, caption));
            |r| > |u| && r[|r| - |u|..] == u && (current >= 0.0 ==> AllDigits(r[..|r| - |u|]))
  {
    var rule := RuleFor(target, caption);
    var n := IntToDecimal(Shown(rule, current));
    assert (n + Unit(rule))[..|n|] == n;
    n + Unit(rule)
  }

  /**
   * The displayed text is the decimal number the first matching rule shows,
   * followed by that rule's unit, and it can be read back as exactly that
   * number and that unit.
   */
  lemma FormatReadsBack(target: nat, caption: string, current: real)
    requires current >= 0.0
    ensures var rule := RuleFor(target, caption);
            Shown(rule, current) >= 0 &&
            Format(target, caption, current) == NatToDecimal(Shown(rule, current)) + Unit(rule) &&
            SplitNumber(Format(target, caption, current)) == Some((Shown(rule, current), Unit(rule)))
  {
    var rule := RuleFor(target, caption);
    NumberRoundTrip(Shown(rule, current), Unit(rule));
  }

  /** The order of the chain: each rule applies exactly when its own test holds and no earlier test does. */
  lemma RuleOrder(target: nat, caption: string)
    ensures RuleFor(target, caption) == Thousands <==> target >= ThousandsFrom
    ensures RuleFor(target, caption) == SuccessRate <==>
              target < ThousandsFrom && (Contains(caption, "success") || Contains(caption, "rate"))
    ensures RuleFor(target, caption) == Minutes <==>
              target < ThousandsFrom && !Contains(caption, "success") && !Contains(caption, "rate") &&
              (Contains(caption, "minute") || Contains(caption, "average"))
    ensures RuleFor(target, caption) == Percent <==>
              target < ThousandsFrom && !Contains(caption, "success") && !Contains(caption, "rate") &&
              !Contains(caption, "minute") && !Contains(caption, "average")
  {
  }

  /** From 10000 on, the label plays no part in the text. */
  lemma ThousandsIgnoresLabel(target: nat, caption1: string, caption2: string, current: real)
    requires target >= ThousandsFrom
    ensures Format(target, caption1, current) == Format(target, caption2, current)
  {
  }

  /**
   * The second rule and the last rule write the same text: below 10000 a
   * label that mentions neither "minute" nor "average" always gives the
   * floor of the value followed by "%", whether or not it mentions
   * "success" or "rate".
   */
  lemma PercentRulesAgree(target: nat, caption: string, current: real)
    requires target < ThousandsFrom
    requires !Contains(caption, "minute") && !Contains(caption, "average")
    ensures Format(target, caption, current) == IntToDecimal(current.Floor) + "%"
  {
  }

  /** Flooring a whole number of thousands-fractions: floor(t / 1000) is integer division. */
  lemma FloorThousands(t: nat)
    ensures (t as real / 1000.0).Floor == t / 1000
  {
    var q, r := t / 1000, t % 1000;
    assert t == 1000 * q + r;
    assert t as real / 1000.0 == q as real + r as real / 1000.0;
  }

  /** The text the last tick leaves: the target itself, or whole thousands of it followed by "k+". */
  lemma FinalText(target: nat, caption: string)
    ensures target >= ThousandsFrom ==> Format(target, caption, target as real) == NatToDecimal(target / 1000) + "k+"
    ensures target < ThousandsFrom ==>
              Format(target, caption, target as real) == NatToDecimal(target) + Unit(RuleFor(target, caption))
  {
    FloorThousands(target);
  }

  /** A counter of 95 labelled "success rate" ends showing "95%". */
  lemma SampleSuccessRate()
    ensures Format(95, "success rate", 95.0) == "95%"
  {
    assert OccursAt("success rate", "success", 0);
    ContainsAt("success rate", "success", 0);
    assert NatToDecimal(95) == "95";
  }

  /** The label "avg. minutes" selects the minutes rule. */
  lemma MinutesCaptionRule(b: string)
    requires b == "avg. minutes"
    ensures RuleFor(15, b) == Minutes
  {
    assert b[5..11] == "minute";
    ContainsAt(b, "minute", 5);
    NotContainsByFirstChar(b, "success");
    NotContainsByFirstChar(b, "rate");
  }

  /** A counter of 15 labelled "avg. minutes" ends showing "15 min". */
  lemma SampleMinutes(b: string)
    requires b == "avg. minutes"
    ensures Format(15, b, 15.0) == "15 min"
  {
    MinutesCaptionRule(b);
    assert NatToDecimal(15) == "15";
  }

  // ----- the ticking process -----

  /** What each tick adds to `current`. */
  function Increment(target: nat): real
  {
    target as real / Steps as real
  }

  /**
   * `current` after k ticks, computed tick by tick as the timer body does.
   * It never leaves the range from 0 to the target.
   */
  function CurrentAfter(target: nat, k: nat): (c: real)
    ensures 0.0 <= c <= target as real
  {
    if k == 0 then 0.0
    else
      var next := CurrentAfter(target, k - 1) + Increment(target);
      if next >= target as real then target as real else next
  }

  /** Tick k, counting from 1, reaches or passes the target, so it clamps and clears the timer. */
  predicate ClearsAt(target: nat, k: nat)
  {
    k >= 1 && CurrentAfter(target, k - 1) + Increment(target) >= target as real
  }

  /** The tick that clears the timer: the 50th, or the first when the target is 0. */
  function TicksToFinish(target: nat): nat
  {
    if target == 0 then 1 else Steps
  }

  /** Multiplying by a non-negative factor keeps an inequality. */
  lemma ScaleLe(a: real, b: real, c: real)
    requires a <= b && c >= 0.0
    ensures a * c <= b * c
  {
    assert b * c - a * c == (b - a) * c;
  }

  /** Fewer than 50 increments of a positive target stay below it. */
  lemma FractionBelowTarget(target: nat, k: nat)
    requires target > 0 && k < Steps
    ensures k as real * Increment(target) < target as real
  {
    var inc := Increment(target);
    assert 50.0 * inc == target as real;
    ScaleLe(k as real, 49.0, inc);
    assert 49.0 * inc < 50.0 * inc;
  }

  /** In exact arithmetic `current` is k fiftieths of the target until the 50th tick, then the target. */
  lemma {:induction false} CurrentAfterClosedForm(target: nat, k: nat)
    ensures CurrentAfter(target, k) == if k >= Steps then target as real else k as real * Increment(target)
  {
    if k > 0 {
      CurrentAfterClosedForm(target, k - 1);
      var next := CurrentAfter(target, k - 1) + Increment(target);
      if k - 1 >= Steps {
        assert next >= target as real;
      } else {
        assert next == k as real * Increment(target);
        if k < Steps && target > 0 {
          FractionBelowTarget(target, k);
        }
        if k == Steps {
          assert next == target as real;
        }
      }
    }
  }

  /** After every tick `0 <= current <= target`. */
  lemma {:induction false} CurrentAfterBounds(target: nat, k: nat)
    ensures 0.0 <= CurrentAfter(target, k) <= target as real
  {
    CurrentAfterClosedForm(target, k);
    ScaleLe(0.0, k as real, Increment(target));
    if k < Steps && target > 0 {
      FractionBelowTarget(target, k);
    }
  }

  /** One tick never lowers `current`. */
  lemma StepMonotone(target: nat, k: nat)
    ensures CurrentAfter(target, k) <= CurrentAfter(target, k + 1)
  {
    CurrentAfterBounds(target, k);
  }

  /** `current` never decreases from one tick to a later one. */
  lemma {:induction false} CurrentAfterMonotone(target: nat, j: nat, k: nat)
    requires j <= k
    ensures CurrentAfter(target, j) <= CurrentAfter(target, k)
    decreases k - j
  {
    if j < k {
      StepMonotone(target, j);
      CurrentAfterMonotone(target, j + 1, k);
    }
  }

  /** The timer is cleared by tick k exactly when k is at least TicksToFinish: after 50 ticks, or after 1 for a zero target. */
  lemma ClearsExactlyAt(target: nat, k: nat)
    ensures ClearsAt(target, k) <==> k >= TicksToFinish(target)
  {
    if k >= 1 {
      CurrentAfterClosedForm(target, k - 1);
      if target > 0 && k < Steps {
        FractionBelowTarget(target, k);
        assert CurrentAfter(target, k - 1) + Increment(target) == k as real * Increment(target);
      }
      if target > 0 && k == Steps {
        assert CurrentAfter(target, k - 1) + Increment(target) == target as real;
      }
    }
  }

  /** The clearing tick leaves `current` exactly at the target. */
  lemma FinishesAtTarget(target: nat)
    ensures CurrentAfter(target, TicksToFinish(target)) == target as real
  {
    CurrentAfterClosedForm(target, TicksToFinish(target));
  }

  // ----- one counter element -----

  /**
   * A counter element with the state of its animation. `started` says that
   * `animateCounter` has run for it, which is also when it stops being
   * observed; `running` says that its timer is active; `text` is the
   * element's text content.
   */
  class Counter {
    const target: nat
    /** The label element's text, lower-cased. */
    const caption: string
    var current: real
    var running: bool
    var started: bool
    var text: string
    /** Ticks the timer has delivered so far. */
    ghost var ticks: nat

    ghost predicate Valid()
      reads this
    {
      && current == CurrentAfter(target, ticks)
      && (!started ==> ticks == 0 && !running)
      && (started ==> ticks <= TicksToFinish(target) && (running <==> ticks < TicksToFinish(target)))
      && (ticks > 0 ==> text == Format(target, caption, current))
    }

    /** A counter element with target `target`, followed by a label reading `labelText`, showing `initialText`. */
    constructor (target: nat, labelText: string, initialText: string)
      ensures Valid()
      ensures this.target == target && caption == ToLower(labelText)
      ensures current == 0.0 && !running && !started && text == initialText
    {
      this.target := target;
      caption := ToLower(labelText);
      current := 0.0;
      running := false;
      started := false;
      text := initialText;
      ticks := 0;
    }

    /**
     * The observer reports the element. The first report that it is
     * visible starts the animation and unobserves the element; no later
     * report reaches it, so nothing restarts or resets it.
     */
    method OnIntersection(isIntersecting: bool)
      requires Valid()
      modifies this
      ensures Valid()
      ensures old(started) || !isIntersecting ==> unchanged(this)
      ensures !old(started) && isIntersecting ==>
                started && running && current == 0.0 && ticks == 0 && text == old(text)
    {
      if !started && isIntersecting {
        current := 0.0;
        running := true;
        started := true;
      }
    }

    /**
     * The timer fires. A live timer adds a fiftieth of the target, clamps
     * to the target and clears itself once the target is reached, and
     * writes the formatted value; a cleared timer never fires again, so
     * nothing changes.
     */
    method Tick()
      requires Valid()
      modifies this
      ensures Valid()
      ensures !old(running) ==> unchanged(this)
      ensures old(running) ==>
                && ticks == old(ticks) + 1
                && current == (if old(current) + Increment(target) >= target as real
                               then target as real else old(current) + Increment(target))
                && running == (old(current) + Increment(target) < target as real)
                && text == Format(target, caption, current)
                && old(current) <= current <= target as real
      ensures !running ==> current == target as real || !started
    {
      if running {
        ClearsExactlyAt(target, ticks + 1);
        CurrentAfterBounds(target, ticks);
        current := current + Increment(target);
        if current >= target as real {
          current := target as real;
          running := false;
        }
        ticks := ticks + 1;
        text := Format(target, caption, current);
      } else if started {
        FinishesAtTarget(target);
      }
    }

    /**
     * Lets the timer of a started counter fire until it clears itself: it
     * fires 50 times (once for a zero target) in all and leaves the
     * formatted target on display.
     */
    method Run()
      requires Valid() && started
      modifies this
      ensures Valid() && started && !running
      ensures ticks == TicksToFinish(target)
      ensures current == target as real
      ensures text == Format(target, caption, target as real)
    {
      while running
        invariant Valid() && started
        decreases TicksToFinish(target) - ticks
      {
        Tick();
      }
      FinishesAtTarget(target);
    }
  }
}
