/** The "exactly one active" pattern that the page uses for testimonial cards,
    testimonial dots, portfolio filter buttons and navigation links: every
    element of a group gets its `active` class toggled off except the chosen one.
    A group of elements is modelled as an array of `active` flags. */
module Exclusive {

  /** Exactly the element at position `i` is active (none is when `i` is out of range). */
  ghost predicate OnlyActive(flags: seq<bool>, i: int) {
    forall j :: 0 <= j < |flags| ==> flags[j] == (j == i)
  }

  /** Number of active elements in a group. */
  function CountActive(flags: seq<bool>): nat {
    if flags == [] then 0 else (if flags[0] then 1 else 0) + CountActive(flags[1..])
  }

  /** After activating only `i`, one element is active when `i` names an element
      of the group, and none otherwise. */
  lemma {:induction false} OnlyActiveCount(flags: seq<bool>, i: int)
    requires OnlyActive(flags, i)
    ensures CountActive(flags) == if 0 <= i < |flags| then 1 else 0
  {
    if flags != [] {
      OnlyActiveCount(flags[1..], i - 1);
    }
  }

  /** Toggles the `active` flag of every element of the group so that it is set
      exactly on position `index`. */
  method ActivateOnly(flags: array<bool>, index: int)
    modifies flags
    ensures OnlyActive(flags[..], index)
  {
    var j := 0;
    while j < flags.Length
      invariant 0 <= j <= flags.Length
      invariant forall k :: 0 <= k < j ==> flags[k] == (k == index)
    {
      flags[j] := j == index;
      j := j + 1;
    }
  }
}
