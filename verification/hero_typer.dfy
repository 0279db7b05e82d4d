/** The hero typing effect: a cursor over a fixed cycle of phrases that types
    one character per step, holds on the full phrase, deletes one character per
    step, and moves on to the next phrase, wrapping around at the end.
    Each step returns the delay after which the next step is scheduled. */
module HeroTyper {
  import opened Cyclic

  /** The phrases of the hero section, in display order. */
  const HeroPhrases: seq<string> := ["SEO خبير", "مطور مواقع", "مسوق رقمي", "استشاري تقني"]

  /** Delay after a typed character, after a deleted character, and on the
      full phrase (all in milliseconds). */
  const TypeDelay: nat := 200
  const DeleteDelay: nat := 100
  const HoldDelay: nat := 2000

  /** A phrase cycle the typer can run on: at least one phrase, none empty. */
  predicate WellFormed(texts: seq<string>) {
    |texts| > 0 && forall i :: 0 <= i < |texts| ==> |texts[i]| > 0
  }

  /** The typer's state: which phrase, how many of its characters are shown,
      and whether characters are being removed. */
  datatype Cursor = Cursor(textIndex: nat, charIndex: nat, deleting: bool)

  /** The state before a step: the phrase index is in range; while typing some
      character of the phrase is still to be typed, while deleting some
      character is still to be removed. */
  predicate Inv(texts: seq<string>, c: Cursor) {
    WellFormed(texts) && c.textIndex < |texts| &&
    if c.deleting then 1 <= c.charIndex <= |texts[c.textIndex]|
    else c.charIndex < |texts[c.textIndex]|
  }

  /** The cursor at the start of phrase `i`. */
  function Start(i: nat): Cursor {
    Cursor(i, 0, false)
  }

  /** The text in the typing element for a cursor. */
  function Shown(texts: seq<string>, c: Cursor): string
    requires Inv(texts, c)
  {
    texts[c.textIndex][..c.charIndex]
  }

  /** The outcome of one step: the new cursor and the delay before the next step. */
  datatype Tick = Tick(next: Cursor, delay: nat)

  /** One step of the typer. */
  function TypeStep(texts: seq<string>, c: Cursor): (t: Tick)
    requires Inv(texts, c)
    ensures Inv(texts, t.next)
    // one character more while typing, one fewer while deleting
    ensures t.next.charIndex + (if c.deleting then 1 else 0) == c.charIndex + (if c.deleting then 0 else 1)
    // the hold happens exactly when typing completes the phrase, with the whole phrase shown
    ensures t.delay == HoldDelay <==> !c.deleting && t.next.deleting
    ensures t.delay == HoldDelay ==> Shown(texts, t.next) == texts[c.textIndex]
    ensures t.delay != HoldDelay ==> t.delay == (if c.deleting then DeleteDelay else TypeDelay)
    // the phrase changes only when deleting empties it, and then to the next one cyclically
    ensures c.deleting && !t.next.deleting ==> t.next == Start((c.textIndex + 1) % |texts|)
    ensures !(c.deleting && !t.next.deleting) ==> t.next.textIndex == c.textIndex
  {
    var current := texts[c.textIndex];
    var ci := if c.deleting then c.charIndex - 1 else c.charIndex + 1;
    var d := if c.deleting then DeleteDelay else TypeDelay;
    if !c.deleting && ci == |current| then
      Tick(Cursor(c.textIndex, ci, true), HoldDelay)
    else if c.deleting && ci == 0 then
      Tick(Cursor((c.textIndex + 1) % |texts|, ci, false), d)
    else
      Tick(Cursor(c.textIndex, ci, c.deleting), d)
  }

  /** The cursor after `n` steps. */
  function Iterate(texts: seq<string>, c: Cursor, n: nat): (r: Cursor)
    requires Inv(texts, c)
    ensures Inv(texts, r)
    decreases n
  {
    if n == 0 then c else Iterate(texts, TypeStep(texts, c).next, n - 1)
  }

  /** Running `a + b` steps is running `a` steps and then `b` more. */
  lemma {:induction false} IterateAdd(texts: seq<string>, c: Cursor, a: nat, b: nat)
    requires Inv(texts, c)
    ensures Iterate(texts, c, a + b) == Iterate(texts, Iterate(texts, c, a), b)
    decreases a
  {
    if a > 0 {
      IterateAdd(texts, TypeStep(texts, c).next, a - 1, b);
    }
  }

  /** Typing from any point of a phrase reaches the full phrase, in deleting
      mode, after one step per missing character. */
  lemma {:induction false} TypingRun(texts: seq<string>, c: Cursor)
    requires Inv(texts, c) && !c.deleting
    ensures Iterate(texts, c, |texts[c.textIndex]| - c.charIndex)
         == Cursor(c.textIndex, |texts[c.textIndex]|, true)
    decreases |texts[c.textIndex]| - c.charIndex
  {
    var next := TypeStep(texts, c).next;
    if !next.deleting {
      TypingRun(texts, next);
    }
  }

  /** Deleting from any point of a phrase reaches the start of the next phrase
      after one step per shown character. */
  lemma {:induction false} DeletingRun(texts: seq<string>, c: Cursor)
    requires Inv(texts, c) && c.deleting
    ensures Iterate(texts, c, c.charIndex) == Start((c.textIndex + 1) % |texts|)
    decreases c.charIndex
  {
    var next := TypeStep(texts, c).next;
    if next.deleting {
      DeletingRun(texts, next);
    }
  }

  /** A phrase of length L takes 2L steps from its start to the start of the
      next phrase. */
  lemma {:induction false} PhraseCycle(texts: seq<string>, i: nat)
    requires WellFormed(texts) && i < |texts|
    ensures Iterate(texts, Start(i), 2 * |texts[i]|) == Start((i + 1) % |texts|)
  {
    var len := |texts[i]|;
    TypingRun(texts, Start(i));
    IterateAdd(texts, Start(i), len, len);
    DeletingRun(texts, Cursor(i, len, true));
  }

  /** Steps taken by `m` whole phrases starting with phrase `i`. */
  function StepsFor(texts: seq<string>, i: nat, m: nat): nat
    requires WellFormed(texts) && i < |texts|
    decreases m
  {
    if m == 0 then 0 else 2 * |texts[i]| + StepsFor(texts, (i + 1) % |texts|, m - 1)
  }

  /** After `m` whole phrases from the start of phrase `i`, the typer is at the
      start of the phrase `m` places further on in the cycle. */
  lemma {:induction false} Rounds(texts: seq<string>, i: nat, m: nat)
    requires WellFormed(texts) && i < |texts|
    ensures Iterate(texts, Start(i), StepsFor(texts, i, m)) == Start(Advance(i, |texts|, m))
    decreases m
  {
    if m > 0 {
      var n := |texts|;
      var rest := StepsFor(texts, (i + 1) % n, m - 1);
      PhraseCycle(texts, i);
      IterateAdd(texts, Start(i), 2 * |texts[i]|, rest);
      Rounds(texts, (i + 1) % n, m - 1);
      assert NextIndex(i, n) == (i + 1) % n;
    }
  }

  /** After one whole round through all N phrases the typer is back at the
      start of the phrase it started with. */
  lemma {:induction false} FullCycle(texts: seq<string>, i: nat)
    requires WellFormed(texts) && i < |texts|
    ensures Iterate(texts, Start(i), StepsFor(texts, i, |texts|)) == Start(i)
  {
    Rounds(texts, i, |texts|);
    FullRotation(i, |texts|);
  }

  /** The typing animation with its three closure variables and the element it
      writes to. */
  class Typer {
    const texts: seq<string>
    var textIndex: nat
    var charIndex: nat
    var isDeleting: bool
    var delay: nat
    /** The text content of the typing element. */
    var content: string

    function State(): Cursor
      reads this
    {
      Cursor(textIndex, charIndex, isDeleting)
    }

    ghost predicate Valid()
      reads this
    {
      Inv(texts, State()) && content == Shown(texts, State())
    }

    /** The typer as set up when the hero section initialises. */
    constructor ()
      ensures Valid() && texts == HeroPhrases
      ensures State() == Start(0) && delay == TypeDelay && content == ""
    {
      texts := HeroPhrases;
      textIndex, charIndex, isDeleting := 0, 0, false;
      delay := TypeDelay;
      content := "";
    }

    /** One run of the typing callback; returns the delay after which it runs again. */
    method Step() returns (d: nat)
      requires Valid()
      modifies this
      ensures Valid()
      ensures Tick(State(), d) == TypeStep(texts, old(State()))
      ensures delay == d
    {
      var currentText := texts[textIndex];
      if isDeleting {
        content := currentText[..charIndex - 1];
        charIndex := charIndex - 1;
        delay := DeleteDelay;
      } else {
        content := currentText[..charIndex + 1];
        charIndex := charIndex + 1;
        delay := TypeDelay;
      }
      if !isDeleting && charIndex == |currentText| {
        delay := HoldDelay;
        isDeleting := true;
      } else if isDeleting && charIndex == 0 {
        isDeleting := false;
        textIndex := (textIndex + 1) % |texts|;
      }
      d := delay;
    }
  }
}
