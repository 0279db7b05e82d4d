/** The testimonial slider: one active position over the testimonial cards and
    their dots, moved by the previous and next buttons, by a click on a dot, and
    by a timer that advances it like the next button. */
module Testimonials {
  import opened Exclusive
  import opened Cyclic

  /** The slider: active flags of the cards and of the dots, and the current position. */
  class Slider {
    const cards: array<bool>
    const dots: array<bool>
    var current: int

    ghost predicate Valid()
      reads this
    {
      cards != dots
    }

    /** Exactly card `current` and dot `current` are active. */
    ghost predicate Showing()
      reads this, cards, dots
    {
      OnlyActive(cards[..], current) && OnlyActive(dots[..], current)
    }

    /** The slider over the page's cards and dots, whose flags come from the
        markup; the position starts at the first card. */
    constructor (cardFlags: seq<bool>, dotFlags: seq<bool>)
      ensures Valid() && fresh(cards) && fresh(dots)
      ensures cards[..] == cardFlags && dots[..] == dotFlags && current == 0
    {
      cards := new bool[|cardFlags|](i requires 0 <= i < |cardFlags| => cardFlags[i]);
      dots := new bool[|dotFlags|](i requires 0 <= i < |dotFlags| => dotFlags[i]);
      current := 0;
    }

    /** Shows the card at `index`: it and its dot become the only active ones. */
    method Show(index: int)
      requires Valid()
      modifies this, cards, dots
      ensures Valid() && Showing() && current == index
    {
      ActivateOnly(cards, index);
      ActivateOnly(dots, index);
      current := index;
    }

    /** The previous button. */
    method Previous()
      requires Valid()
      modifies this, cards, dots
      ensures Valid() && Showing()
      ensures current == PrevIndex(old(current), cards.Length)
    {
      var prevIndex := if current == 0 then cards.Length - 1 else current - 1;
      Show(prevIndex);
    }

    /** The next button. */
    method Next()
      requires Valid()
      modifies this, cards, dots
      ensures Valid() && Showing()
      ensures current == NextIndex(old(current), cards.Length)
    {
      var nextIndex := if current == cards.Length - 1 then 0 else current + 1;
      Show(nextIndex);
    }

    /** The timer callback, which advances like the next button. */
    method AutoAdvance()
      requires Valid()
      modifies this, cards, dots
      ensures Valid() && Showing()
      ensures current == NextIndex(old(current), cards.Length)
    {
      var nextIndex := if current == cards.Length - 1 then 0 else current + 1;
      Show(nextIndex);
    }
  }
}
