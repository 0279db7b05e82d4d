/** The navigation bar: the mobile menu toggle, the in-page links with their
    `active` flags, the click handler that scrolls to a link's section, and the
    scroll spy that marks the link of the section in view. Scrolling itself is
    left out; a section is known by its `id`. */
module Navigation {
  import opened Exclusive

  datatype Option<T> = None | Some(value: T)

  /** The target id of a link: its `href` without the first character, as
      `substring(1)` computes it (the empty string stays empty). */
  function TargetId(href: string): (id: string)
    ensures |href| > 0 ==> [href[0]] + id == href
    ensures |href| == 0 ==> id == ""
  {
    if |href| == 0 then "" else href[1..]
  }

  /** The first position at or after `from` whose `href` is `wanted`. */
  function FirstFrom(hrefs: seq<string>, wanted: string, from: nat): (r: Option<nat>)
    requires from <= |hrefs|
    ensures r.Some? ==> from <= r.value < |hrefs| && hrefs[r.value] == wanted
    ensures r.Some? ==> forall j :: from <= j < r.value ==> hrefs[j] != wanted
    ensures r.None? ==> forall j :: from <= j < |hrefs| ==> hrefs[j] != wanted
    decreases |hrefs| - from
  {
    if from == |hrefs| then None
    else if hrefs[from] == wanted then Some(from)
    else FirstFrom(hrefs, wanted, from + 1)
  }

  /** The link a selector `.nav-link[href="#id"]` finds: the first one in
      document order whose `href` is `#` followed by `id`. */
  function LinkFor(hrefs: seq<string>, id: string): (r: Option<nat>)
    ensures r.Some? ==> r.value < |hrefs| && hrefs[r.value] == "#" + id
    ensures r.Some? ==> forall j :: 0 <= j < r.value ==> hrefs[j] != "#" + id
    ensures r.None? <==> "#" + id !in hrefs
  {
    FirstFrom(hrefs, "#" + id, 0)
  }

  class NavBar {
    /** `href` of each `.nav-link`, in document order. */
    const hrefs: seq<string>
    /** The ids of the page's elements. */
    const ids: set<string>
    /** `active` flag of each link. */
    const active: array<bool>
    /** The `active` class shared by the toggle button and the menu. */
    var menuOpen: bool

    ghost predicate Valid()
      reads this
    {
      active.Length == |hrefs|
    }

    /** The bar over the page's links, whose `active` flags and the menu's
        `active` class come from the markup. */
    constructor (hrefs: seq<string>, ids: set<string>, activeFlags: seq<bool>, menuFlag: bool)
      requires |activeFlags| == |hrefs|
      ensures Valid() && fresh(active) && menuOpen == menuFlag
      ensures this.hrefs == hrefs && this.ids == ids && active[..] == activeFlags
    {
      this.hrefs := hrefs;
      this.ids := ids;
      active := new bool[|activeFlags|](i requires 0 <= i < |activeFlags| => activeFlags[i]);
      menuOpen := menuFlag;
    }

    /** `getElementById` finds an element; the empty id finds none. */
    predicate HasElement(id: string)
      reads this
    {
      id != "" && id in ids
    }

    /** Makes link `k` the only active link. */
    method UpdateActiveNavLink(k: nat)
      requires Valid() && k < active.Length
      modifies active
      ensures OnlyActive(active[..], k)
    {
      ActivateOnly(active, k);
    }

    /** The menu toggle button. */
    method ToggleMenu()
      modifies this
      ensures menuOpen == !old(menuOpen)
    {
      menuOpen := !menuOpen;
    }

    /** A click on link `k`: when its section exists, the menu closes and the
        link becomes the only active one; otherwise nothing changes. */
    method ClickLink(k: nat)
      requires Valid() && k < active.Length
      modifies this, active
      ensures HasElement(TargetId(hrefs[k])) ==> !menuOpen && OnlyActive(active[..], k)
      ensures !HasElement(TargetId(hrefs[k])) ==> unchanged(this) && unchanged(active)
    {
      var targetId := TargetId(hrefs[k]);
      if HasElement(targetId) {
        menuOpen := false;
        UpdateActiveNavLink(k);
      }
    }

    /** The scroll spy's callback for the section with id `id`: the link that
        points to it, if any, becomes the only active one. */
    method OnSectionVisible(id: string, isIntersecting: bool)
      requires Valid()
      modifies active
      ensures isIntersecting && LinkFor(hrefs, id).Some? ==> OnlyActive(active[..], LinkFor(hrefs, id).value)
      ensures !isIntersecting || LinkFor(hrefs, id).None? ==> unchanged(active)
    {
      if isIntersecting {
        var link := LinkFor(hrefs, id);
        if link.Some? {
          ActivateOnly(active, link.value);
        }
      }
    }
  }
}
