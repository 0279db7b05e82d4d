/** The portfolio filter: a row of filter buttons, each with a `data-filter`
    key, over a grid of items, each with a `data-category` key. Clicking a
    button makes it the only active button, displays at once every item the
    key selects, and schedules a 300 ms timeout per other item that hides it.
    An item's visibility is its `display` state; the fade and scale
    transitions around it are left out. A pending hide is kept as the item's
    position in a queue, and each firing of such a timeout is one call of
    `HideTimeout`. */
module Portfolio {
  import opened Exclusive

  /** The key of the button that selects every item. */
  const AllKey: string := "all"

  /** Whether filter key `filter` selects an item of category `category`. */
  predicate Selects(filter: string, category: string) {
    filter == AllKey || category == filter
  }

  /** Number of items among `categories` that filter `filter` shows. */
  function CountShown(filter: string, categories: seq<string>): (r: nat)
    ensures r <= |categories|
  {
    if categories == [] then 0
    else (if Selects(filter, categories[0]) then 1 else 0) + CountShown(filter, categories[1..])
  }

  /** Positions listed in strictly increasing (document) order. */
  predicate Increasing(s: seq<nat>) {
    forall i, j :: 0 <= i < j < |s| ==> s[i] < s[j]
  }

  /** Positions of the items before position `n` that `filter` does not
      select, in document order. */
  function Unselected(filter: string, categories: seq<string>, n: nat): seq<nat>
    requires n <= |categories|
  {
    if n == 0 then []
    else Unselected(filter, categories, n - 1) + (if Selects(filter, categories[n - 1]) then [] else [n - 1])
  }

  /** The positions `Unselected` lists are exactly those of the items before
      `n` that the key does not select, each once and in document order. */
  lemma {:induction false} UnselectedExactly(filter: string, categories: seq<string>, n: nat)
    requires n <= |categories|
    ensures forall p :: p in Unselected(filter, categories, n) ==> p < n && !Selects(filter, categories[p])
    ensures forall k :: 0 <= k < n && !Selects(filter, categories[k]) ==> k in Unselected(filter, categories, n)
    ensures Increasing(Unselected(filter, categories, n))
  {
    if n > 0 {
      UnselectedExactly(filter, categories, n - 1);
      var rest := Unselected(filter, categories, n - 1);
      assert forall i :: 0 <= i < |rest| ==> rest[i] in rest;
    }
  }

  /** The "all" key shows every item. */
  lemma {:induction false} AllShowsEverything(categories: seq<string>)
    ensures CountShown(AllKey, categories) == |categories|
  {
    if categories != [] {
      AllShowsEverything(categories[1..]);
    }
  }

  /** Every item has one category, so two different category keys never
      select the same item, and together show at most every item once. */
  lemma {:induction false} CategoriesDisjoint(f: string, g: string, categories: seq<string>)
    requires f != g && f != AllKey && g != AllKey
    ensures forall k :: 0 <= k < |categories| ==> !(Selects(f, categories[k]) && Selects(g, categories[k]))
    ensures CountShown(f, categories) + CountShown(g, categories) <= |categories|
  {
    if categories != [] {
      CategoriesDisjoint(f, g, categories[1..]);
    }
  }

  /** A key that no item carries shows nothing. */
  lemma {:induction false} UnusedKeyShowsNothing(f: string, categories: seq<string>)
    requires f != AllKey && f !in categories
    ensures CountShown(f, categories) == 0
  {
    if categories != [] {
      UnusedKeyShowsNothing(f, categories[1..]);
    }
  }

  /** The filter bar, the grid and the hide timeouts still pending. */
  class Gallery {
    /** `data-filter` of each button and `data-category` of each item. */
    const filters: seq<string>
    const categories: seq<string>
    /** `active` flag of each button and whether each item is displayed. */
    const active: array<bool>
    const shown: array<bool>
    /** Items whose hide timeout has not fired yet, oldest first. */
    var pending: seq<nat>
    /** The key of the last button clicked. */
    ghost var filter: string

    ghost predicate Valid()
      reads this
    {
      active.Length == |filters| && shown.Length == |categories| && active != shown &&
      forall p :: p in pending ==> p < |categories|
    }

    /** Items are displayed exactly as filter key `key` selects them. */
    ghost predicate Filtered(key: string)
      reads this, shown
      requires Valid()
    {
      forall k :: 0 <= k < shown.Length ==> shown[k] == Selects(key, categories[k])
    }

    /** The grid is on its way to showing what the last key selects: every
        selected item is displayed, every pending hide is of an item the key
        does not select, and every such item still displayed has its hide pending. */
    ghost predicate Converging()
      reads this, shown
      requires Valid()
    {
      (forall k :: 0 <= k < shown.Length && Selects(filter, categories[k]) ==> shown[k]) &&
      (forall p :: p in pending ==> !Selects(filter, categories[p])) &&
      (forall k :: 0 <= k < shown.Length && shown[k] && !Selects(filter, categories[k]) ==> k in pending)
    }

    /** The gallery as the markup sets it up: no click yet, no hide pending. */
    constructor (filters: seq<string>, categories: seq<string>, activeFlags: seq<bool>, shownFlags: seq<bool>)
      requires |activeFlags| == |filters| && |shownFlags| == |categories|
      ensures Valid() && fresh(active) && fresh(shown) && pending == []
      ensures this.filters == filters && this.categories == categories
      ensures active[..] == activeFlags && shown[..] == shownFlags
    {
      this.filters := filters;
      this.categories := categories;
      active := new bool[|activeFlags|](i requires 0 <= i < |activeFlags| => activeFlags[i]);
      shown := new bool[|shownFlags|](i requires 0 <= i < |shownFlags| => shownFlags[i]);
      pending := [];
      filter := AllKey;
    }

    /** The pass over the items for key `f`: each item the key selects is
        displayed at once, and the others are returned, in document order, as
        the hides to schedule. */
    method FilterItems(f: string) returns (queued: seq<nat>)
      requires Valid()
      modifies shown
      ensures forall k :: 0 <= k < shown.Length ==> shown[k] == (Selects(f, categories[k]) || old(shown[k]))
      ensures queued == Unselected(f, categories, |categories|)
    {
      queued := [];
      var k := 0;
      while k < shown.Length
        invariant 0 <= k <= shown.Length
        invariant queued == Unselected(f, categories, k)
        invariant forall j :: 0 <= j < k ==> shown[j] == (Selects(f, categories[j]) || old(shown[j]))
        invariant forall j :: k <= j < shown.Length ==> shown[j] == old(shown[j])
      {
        if f == AllKey || categories[k] == f {
          shown[k] := true;
        } else {
          queued := queued + [k];
        }
        k := k + 1;
      }
    }

    /** The click handler of button `b` as the script has it: hides scheduled
        by earlier clicks stay pending. */
    method ClickAsWritten(b: nat)
      requires Valid() && b < active.Length
      modifies this, active, shown
      ensures Valid() && filter == filters[b]
      ensures OnlyActive(active[..], b)
      ensures forall k :: 0 <= k < shown.Length ==> shown[k] == (Selects(filters[b], categories[k]) || old(shown[k]))
      ensures pending == old(pending) + Unselected(filters[b], categories, |categories|)
    {
      ActivateOnly(active, b);
      var queued := FilterItems(filters[b]);
      UnselectedExactly(filters[b], categories, |categories|);
      pending := pending + queued;
      filter := filters[b];
    }

    /** The click handler of button `b` with the earlier clicks' pending hides
        cancelled first, so that the last click decides what is displayed. */
    method Click(b: nat)
      requires Valid() && b < active.Length
      modifies this, active, shown
      ensures Valid() && filter == filters[b]
      ensures OnlyActive(active[..], b)
      ensures forall k :: 0 <= k < shown.Length ==> shown[k] == (Selects(filters[b], categories[k]) || old(shown[k]))
      ensures pending == Unselected(filters[b], categories, |categories|)
      ensures Converging()
    {
      pending := [];
      ClickAsWritten(b);
      UnselectedExactly(filters[b], categories, |categories|);
    }

    /** The oldest pending hide timeout fires and hides its item. */
    method HideTimeout()
      requires Valid() && pending != []
      modifies this, shown
      ensures Valid() && filter == old(filter)
      ensures pending == old(pending)[1..]
      ensures forall k :: 0 <= k < shown.Length ==> shown[k] == (old(shown[k]) && k != old(pending[0]))
      ensures old(Converging()) ==> Converging()
    {
      var k := pending[0];
      assert k in pending;
      shown[k] := false;
      pending := pending[1..];
      assert forall j :: j in pending ==> j in old(pending);
      assert forall j :: j in old(pending) && j != k ==> j in pending;
    }

    /** Once no hide is pending, a converging grid shows exactly what the last
        key selects. */
    lemma SettledIsFiltered()
      requires Valid() && Converging() && pending == []
      ensures Filtered(filter)
    {
    }

    /** Number of items displayed. */
    function ShownCount(): nat
      reads this, shown
    {
      CountActive(shown[..])
    }

    /** When the items are displayed as `key` selects them, the number of
        displayed items is the number of items that key selects. */
    lemma {:induction false} ShownCountMatches(key: string)
      requires Valid() && Filtered(key)
      ensures ShownCount() == CountShown(key, categories)
    {
      CountsAgree(key, shown[..], categories);
    }
  }

  lemma {:induction false} CountsAgree(filter: string, flags: seq<bool>, categories: seq<string>)
    requires |flags| == |categories|
    requires forall k :: 0 <= k < |flags| ==> flags[k] == Selects(filter, categories[k])
    ensures CountActive(flags) == CountShown(filter, categories)
  {
    if flags != [] {
      CountsAgree(filter, flags[1..], categories[1..]);
    }
  }

  /** A web item, a "seo" and a "web" button: clicking "seo", then "web"
      before 300 ms have passed, then letting the "seo" click's hide fire,
      leaves the item hidden although the active "web" button selects it. */
  method StaleHideExample() returns (webActive: bool, webSelectsItem: bool, itemShown: bool)
    ensures webActive && webSelectsItem && !itemShown
  {
    var g := new Gallery(["seo", "web"], ["web"], [false, false], [true]);
    g.ClickAsWritten(0);
    assert g.pending == [0];
    g.ClickAsWritten(1);
    assert g.pending == [0];
    g.HideTimeout();
    webActive := g.active[1];
    webSelectsItem := Selects(g.filters[1], g.categories[0]);
    itemShown := g.shown[0];
  }

  /** The same clicks with the pending hides cancelled: no hide is left to
      fire and the item stays displayed. */
  method NoStaleHideExample() returns (webActive: bool, webSelectsItem: bool, itemShown: bool, hidesPending: nat)
    ensures webActive && webSelectsItem && itemShown && hidesPending == 0
  {
    var g := new Gallery(["seo", "web"], ["web"], [false, false], [true]);
    g.Click(0);
    g.Click(1);
    webActive := g.active[1];
    webSelectsItem := Selects(g.filters[1], g.categories[0]);
    itemShown := g.shown[0];
    hidesPending := |g.pending|;
  }
}
