/** The statistics counters: each `[data-count]` element counts up linearly
    from 0 to its target once, whichever of two triggers reaches it first. The
    reveal observer starts the counter of a stat card when the card scrolls
    into view; a scroll listener starts every stat card's counter the first
    time the statistics section is in view. A per-counter `counted` flag makes
    every trigger after the first a no-op, and a page-wide `statsAnimated`
    flag lets the scroll path fire once. The counter's accumulator is an exact
    real; each frame of the interval is one call of `Tick`. */
module StatCounter {

  /** Length of the count-up and interval between frames, in milliseconds. */
  const Duration: nat := 2000
  const FrameInterval: nat := 16

  /** Number of frames the count-up is spread over (2000 / 16 = 125). */
  const Frames: nat := Duration / FrameInterval

  /** The amount added to the accumulator on every frame. */
  function Increment(target: nat): real {
    target as real / Frames as real
  }

  /** The accumulator after `k` frames in exact arithmetic: `k` increments,
      clamped to the target once it is reached. */
  function Progress(target: nat, k: nat): (r: real)
    ensures 0.0 <= r <= target as real
    ensures r == target as real || r == k as real * Increment(target)
  {
    if k as real * Increment(target) >= target as real then target as real
    else k as real * Increment(target)
  }

  /** The value the counter shows after `k` frames. */
  function DisplayAt(target: nat, k: nat): (r: int)
    ensures 0 <= r <= target
    ensures r as real <= Progress(target, k) < r as real + 1.0
  {
    Progress(target, k).Floor
  }

  /** The accumulator never goes down and never passes the target. */
  lemma ProgressMonotone(target: nat, j: nat, k: nat)
    requires j <= k
    ensures 0.0 <= Progress(target, j) <= Progress(target, k) <= target as real
  {
    var inc := Increment(target);
    assert j as real * inc <= k as real * inc by {
      assert k as real * inc == j as real * inc + (k - j) as real * inc;
    }
  }

  /** The shown value never goes down and never passes the target. */
  lemma {:induction false} DisplayMonotone(target: nat, j: nat, k: nat)
    requires j <= k
    ensures 0 <= DisplayAt(target, j) <= DisplayAt(target, k) <= target
  {
    ProgressMonotone(target, j, k);
    FloorMonotone(Progress(target, j), Progress(target, k));
    FloorMonotone(Progress(target, k), target as real);
    FloorMonotone(0.0, Progress(target, j));
  }

  lemma FloorMonotone(x: real, y: real)
    requires x <= y
    ensures x.Floor <= y.Floor
  {
  }

  /** While the interval runs, one more frame adds one increment to the
      accumulator and clamps it to the target. */
  lemma FrameStep(target: nat, k: nat)
    requires k == 0 || Progress(target, k) < target as real
    ensures Progress(target, k + 1) ==
              var sum := Progress(target, k) + Increment(target);
              if sum >= target as real then target as real else sum
  {
  }

  /** In exact arithmetic a positive target is reached on frame 125 and not before;
      a zero target on the first frame. */
  lemma ReachesTarget(target: nat, k: nat)
    ensures Progress(target, Frames) == target as real
    ensures DisplayAt(target, Frames) == target
    ensures 0 < target && k < Frames ==> Progress(target, k) < target as real
  {
  }

  /** A `[data-count]` element with its animation state. */
  class Counter {
    /** The element's `data-count` attribute. */
    const target: nat
    /** The `counted` class of the element. */
    var counted: bool
    /** The number the element shows. */
    var text: int
    /** The accumulator and increment of the count-up, once started. */
    var current: real
    var step: real
    /** Whether the interval is still armed. */
    var running: bool
    /** Frames run so far. */
    ghost var ticks: nat

    ghost predicate Valid()
      reads this
    {
      if !counted then !running && ticks == 0 && text == 0
      else
        step == Increment(target) && current == Progress(target, ticks) &&
        text == current.Floor &&
        running == (ticks == 0 || current < target as real)
    }

    /** Counting has just started: nothing shown but 0 and no frame run yet. */
    ghost predicate Started()
      reads this
    {
      counted && running && ticks == 0 && current == 0.0 && text == 0
    }

    /** The element once the counters are initialised: showing 0, not counted. */
    constructor (target: nat)
      ensures Valid() && this.target == target && !counted && text == 0
    {
      this.target := target;
      counted := false;
      text := 0;
      current := 0.0;
      step := 0.0;
      running := false;
      ticks := 0;
    }

    /** One frame of the interval. */
    method Tick()
      requires Valid() && running
      modifies this
      ensures Valid() && counted && ticks == old(ticks) + 1
      ensures text == DisplayAt(target, ticks)
      ensures old(text) <= text <= target
      ensures running <==> current < target as real
      ensures !running ==> current == target as real && text == target
    {
      FrameStep(target, ticks);
      DisplayMonotone(target, ticks, ticks + 1);
      current := current + step;
      ticks := ticks + 1;
      if current >= target as real {
        current := target as real;
        running := false;
      }
      text := current.Floor;
    }
  }

  /** Starts the count-up of a stat element's `[data-count]` child, unless there
      is none or it is already counted. */
  method AnimateCounter(counter: Counter?)
    requires counter != null ==> counter.Valid()
    modifies counter
    ensures counter != null ==> counter.Valid() && counter.counted
    ensures counter != null && old(counter.counted) ==> unchanged(counter)
    ensures counter != null && !old(counter.counted) ==> counter.Started()
  {
    if counter == null || counter.counted {
      return;
    }
    counter.counted := true;
    counter.step := Increment(counter.target);
    counter.current := 0.0;
    counter.running := true;
    counter.ticks := 0;
  }

  /** An element registered for the reveal-on-scroll effect. */
  class RevealTarget {
    /** The `animate-in` class. */
    var revealed: bool
    /** Whether the element is a stat card or stat item. */
    const isStat: bool
    /** Its `[data-count]` child, if any. */
    const counter: Counter?

    /** Registration hides the element. */
    constructor (isStat: bool, counter: Counter?)
      ensures !revealed && this.isStat == isStat && this.counter == counter
    {
      revealed := false;
      this.isStat := isStat;
      this.counter := counter;
    }

    /** The observer's callback for this element. */
    method OnIntersection(isIntersecting: bool)
      requires counter != null ==> counter.Valid()
      modifies this, counter
      ensures !isIntersecting ==> unchanged(this) && (counter != null ==> unchanged(counter))
      ensures isIntersecting ==> revealed
      ensures old(revealed) ==> revealed
      ensures counter != null ==> counter.Valid()
      ensures counter != null && (!isIntersecting || !isStat || old(counter.counted)) ==> unchanged(counter)
      ensures counter != null && isIntersecting && isStat ==> counter.counted
      ensures counter != null && isIntersecting && isStat && !old(counter.counted) ==> counter.Started()
    {
      if isIntersecting {
        revealed := true;
        if isStat {
          AnimateCounter(counter);
        }
      }
    }
  }

  /** Starts the counter of every stat card, in document order. */
  method AnimateAllStats(counters: seq<Counter?>)
    requires forall c: Counter :: c in counters ==> c.Valid()
    modifies set c: Counter | c in counters
    ensures forall c: Counter :: c in counters ==> c.Valid() && c.counted
    ensures forall c: Counter :: c in counters && old(c.counted) ==> unchanged(c)
    ensures forall c: Counter :: c in counters && !old(c.counted) ==> c.Started()
  {
    var i := 0;
    while i < |counters|
      invariant 0 <= i <= |counters|
      invariant forall c: Counter :: c in counters ==> c.Valid()
      invariant forall c: Counter :: c in counters[..i] ==> c.counted
      invariant forall c: Counter :: c in counters && old(c.counted) ==> unchanged(c)
      invariant forall c: Counter :: c in counters[..i] && !old(c.counted) ==> c.Started()
      invariant forall c: Counter :: c in counters && c !in counters[..i] ==> unchanged(c)
    {
      AnimateCounter(counters[i]);
      assert counters[..i + 1] == counters[..i] + [counters[i]];
      i := i + 1;
    }
    assert counters[..i] == counters;
  }

  /** The scroll listener with its page-wide `statsAnimated` flag. */
  class StatsScroll {
    var statsAnimated: bool
    /** The `[data-count]` child of each stat card, if it has one. */
    const counters: seq<Counter?>

    constructor (counters: seq<Counter?>)
      ensures !statsAnimated && this.counters == counters
    {
      statsAnimated := false;
      this.counters := counters;
    }

    /** One scroll event: `sectionPresent` says the statistics section exists,
        `inView` that it overlaps the viewport. */
    method OnScroll(sectionPresent: bool, inView: bool)
      requires forall c: Counter :: c in counters ==> c.Valid()
      modifies this, set c: Counter | c in counters
      ensures forall c: Counter :: c in counters ==> c.Valid()
      ensures statsAnimated == (old(statsAnimated) || (sectionPresent && inView))
      ensures old(statsAnimated) || !sectionPresent || !inView ==>
                forall c: Counter :: c in counters ==> unchanged(c)
      ensures !old(statsAnimated) && sectionPresent && inView ==>
                forall c: Counter :: c in counters ==>
                  c.counted && (old(c.counted) ==> unchanged(c)) && (!old(c.counted) ==> c.Started())
    {
      if sectionPresent && !statsAnimated {
        if inView {
          AnimateAllStats(counters);
          statsAnimated := true;
        }
      }
    }
  }
}
