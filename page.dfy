/**
 * The page-navigation rules of js/main.js: the scroll spy that picks the
 * section being read and highlights the links to it, the mobile menu toggle,
 * and the FAQ accordion that keeps at most one answer open.
 *
 * Layout values (section tops, the scroll position, the viewport-derived
 * threshold) are parameters; JavaScript numbers are fractional, so they are
 * `real`.
 */
module Page {

  datatype Option<T> = None | Some(value: T)

  // ---------------------------------------------------------------------
  // Scroll spy

  /** A `section` element: its `id` attribute (absent gives null) and its top. */
  datatype Section = Section(id: Option<string>, top: real)

  /** Scroll positions below this always highlight the home link. */
  const TopZone: real := 100.0

  /** The reader has scrolled to within `threshold` above the section's top. */
  predicate Reached(s: Section, scrollY: real, threshold: real)
  {
    scrollY >= s.top - threshold
  }

  /** The last section, in document order, that the reader has reached. */
  function LastReached(sections: seq<Section>, scrollY: real, threshold: real): (r: Option<nat>)
    ensures r.None? <==> forall k :: 0 <= k < |sections| ==> !Reached(sections[k], scrollY, threshold)
    ensures r.Some? ==>
      && r.value < |sections|
      && Reached(sections[r.value], scrollY, threshold)
      && forall k :: r.value < k < |sections| ==> !Reached(sections[k], scrollY, threshold)
  {
    if |sections| == 0 then None
    else if Reached(sections[|sections| - 1], scrollY, threshold) then Some(|sections| - 1)
    else LastReached(sections[..|sections| - 1], scrollY, threshold)
  }

  /**
   * The section id the scroll spy settles on: `home` near the top of the
   * page, otherwise the id of the last section reached, or the empty string
   * when none is.
   */
  function SpiedId(sections: seq<Section>, scrollY: real, threshold: real): (r: Option<string>)
    ensures scrollY < TopZone ==> r == Some("home")
    ensures scrollY >= TopZone && (forall k :: 0 <= k < |sections| ==> !Reached(sections[k], scrollY, threshold)) ==>
      r == Some("")
    ensures scrollY >= TopZone ==> forall k ::
      (&& 0 <= k < |sections| && Reached(sections[k], scrollY, threshold)
       && forall j :: k < j < |sections| ==> !Reached(sections[j], scrollY, threshold))
      ==> r == sections[k].id
  {
    if scrollY < TopZone then Some("home")
    else match LastReached(sections, scrollY, threshold)
      case None => Some("")
      case Some(k) => sections[k].id
  }

  /** The `href` that links to a section id; a null id reads as "null". */
  function HrefFor(id: Option<string>): (r: string)
    ensures r == "#null" <==> id == None || id == Some("null")
  {
    var r := "#" + match id
      case Some(s) => s
      case None => "null";
    assert id.Some? ==> r[1..] == id.value;
    r
  }

  /**
   * Distinct ids give distinct hrefs, except that a section without an id
   * links like a section whose id is the text "null".
   */
  lemma HrefForCollision(a: Option<string>, b: Option<string>)
    ensures HrefFor(a) == HrefFor(b) <==> a == b || {a, b} == {None, Some("null")}
  {
    var ra, rb := HrefFor(a), HrefFor(b);
    if ra == rb {
      assert ra[1..] == rb[1..];
    }
  }

  /**
   * The pass over the sections in document order, each reached one taking
   * over, followed by the override near the top of the page.
   */
  method CurrentSectionId(sections: seq<Section>, scrollY: real, threshold: real) returns (id: Option<string>)
    ensures scrollY < TopZone ==> id == Some("home")
    ensures scrollY >= TopZone && (forall k :: 0 <= k < |sections| ==> !Reached(sections[k], scrollY, threshold)) ==>
      id == Some("")
    ensures scrollY >= TopZone ==> forall k ::
      (&& 0 <= k < |sections| && Reached(sections[k], scrollY, threshold)
       && forall j :: k < j < |sections| ==> !Reached(sections[j], scrollY, threshold))
      ==> id == sections[k].id
    ensures id == SpiedId(sections, scrollY, threshold)
  {
    id := Some("");
    for i := 0 to |sections|
      invariant (forall k :: 0 <= k < i ==> !Reached(sections[k], scrollY, threshold)) ==> id == Some("")
      invariant forall k ::
        (&& 0 <= k < i && Reached(sections[k], scrollY, threshold)
         && forall j :: k < j < i ==> !Reached(sections[j], scrollY, threshold))
        ==> id == sections[k].id
    {
      if scrollY >= sections[i].top - threshold {
        id := sections[i].id;
      }
    }
    if scrollY < TopZone {
      id := Some("home");
    }
  }

  /** The last link, in document order, whose `href` is exactly `target`. */
  function LastLinkTo(hrefs: seq<Option<string>>, target: string): (r: Option<nat>)
    ensures r.None? <==> forall k :: 0 <= k < |hrefs| ==> hrefs[k] != Some(target)
    ensures r.Some? ==>
      && r.value < |hrefs|
      && hrefs[r.value] == Some(target)
      && forall k :: r.value < k < |hrefs| ==> hrefs[k] != Some(target)
  {
    if |hrefs| == 0 then None
    else if hrefs[|hrefs| - 1] == Some(target) then Some(|hrefs| - 1)
    else LastLinkTo(hrefs[..|hrefs| - 1], target)
  }

  /**
   * The navigation bar: the `href` of each link, whether each link carries
   * `active`, the link the sliding indicator is sized to, and whether the
   * mobile menu is open.
   */
  class NavBar {
    const hrefs: seq<Option<string>>
    const linkActive: array<bool>
    var indicator: Option<nat>
    var menuOpen: bool

    ghost predicate Valid()
      reads this
    {
      && linkActive.Length == |hrefs|
      && (indicator.Some? ==> indicator.value < |hrefs|)
    }

    /** The bar as the page is loaded, before the first scroll-spy pass. */
    constructor (links: seq<Option<string>>, active: seq<bool>, open: bool)
      requires |active| == |links|
      ensures Valid() && fresh(linkActive)
      ensures hrefs == links && linkActive[..] == active
      ensures indicator == None && menuOpen == open
    {
      hrefs := links;
      linkActive := new bool[|active|](j requires 0 <= j < |active| => active[j]);
      indicator := None;
      menuOpen := open;
    }

    /** The menu button flips the menu. */
    method ToggleMenu()
      requires Valid()
      modifies this
      ensures Valid()
      ensures menuOpen == !old(menuOpen) && indicator == old(indicator)
    {
      menuOpen := !menuOpen;
    }

    /** A click on any navigation link closes the menu, open or not. */
    method LinkClicked()
      requires Valid()
      modifies this
      ensures Valid()
      ensures !menuOpen && indicator == old(indicator)
    {
      if menuOpen {
        menuOpen := false;
      }
    }

    /**
     * One scroll-spy pass: exactly the links to the spied section become
     * active, and the indicator moves under the last of them, staying where
     * it was when there is none.
     */
    method OnScroll(sections: seq<Section>, scrollY: real, threshold: real)
      requires Valid()
      modifies this, linkActive
      ensures Valid() && menuOpen == old(menuOpen)
      ensures forall k :: 0 <= k < |hrefs| ==>
        (linkActive[k] <==> hrefs[k] == Some(HrefFor(SpiedId(sections, scrollY, threshold))))
      ensures indicator ==
        var last := LastLinkTo(hrefs, HrefFor(SpiedId(sections, scrollY, threshold)));
        if last.Some? then last else old(indicator)
    {
      var id := CurrentSectionId(sections, scrollY, threshold);
      var target := HrefFor(id);
      var activeLink: Option<nat> := None;
      for i := 0 to linkActive.Length
        modifies linkActive
        invariant forall k :: 0 <= k < i ==> (linkActive[k] <==> hrefs[k] == Some(target))
        invariant activeLink == LastLinkTo(hrefs[..i], target)
      {
        assert hrefs[..i + 1][..i] == hrefs[..i];
        linkActive[i] := false;
        if hrefs[i] == Some(target) {
          linkActive[i] := true;
          activeLink := Some(i);
        }
      }
      assert hrefs[..linkActive.Length] == hrefs;
      if activeLink.Some? {
        indicator := activeLink;
      }
    }
  }

  // ---------------------------------------------------------------------
  // FAQ accordion

  /** How many items of the accordion are open. */
  function CountOpen(s: seq<bool>): nat
  {
    if s == [] then 0 else (if s[0] then 1 else 0) + CountOpen(s[1..])
  }

  /** The open flags after a click on item `i`: every other item closes, `i` flips. */
  function AfterClick(s: seq<bool>, i: nat): (r: seq<bool>)
    requires i < |s|
    ensures |r| == |s| && r[i] == !s[i]
    ensures forall j :: 0 <= j < |r| && j != i ==> !r[j]
  {
    seq(|s|, j requires 0 <= j < |s| => j == i && !s[i])
  }

  /** With every item but `i` closed, at most `i` is counted. */
  lemma {:induction false} CountOpenOnlyAt(s: seq<bool>, i: int)
    requires forall j :: 0 <= j < |s| && j != i ==> !s[j]
    ensures CountOpen(s) == if 0 <= i < |s| && s[i] then 1 else 0
  {
    if s != [] {
      CountOpenOnlyAt(s[1..], i - 1);
    }
  }

  /**
   * Whatever was open before, a click leaves at most one item open: none when
   * the clicked item was open, and exactly the clicked item when it was closed.
   */
  lemma ClickLeavesAtMostOneOpen(s: seq<bool>, i: nat)
    requires i < |s|
    ensures CountOpen(AfterClick(s, i)) == if s[i] then 0 else 1
    ensures CountOpen(AfterClick(s, i)) <= 1
    ensures s[i] ==> forall j :: 0 <= j < |s| ==> !AfterClick(s, i)[j]
    ensures !s[i] ==> forall j :: 0 <= j < |s| ==> (AfterClick(s, i)[j] <==> j == i)
  {
    CountOpenOnlyAt(AfterClick(s, i), i);
  }

  /**
   * The accordion: whether each item carries `active`, and whether its
   * answer has a max-height set (null otherwise).
   */
  class Accordion {
    const active: array<bool>
    const heightSet: array<bool>

    /** An answer is expanded exactly when its item is active. */
    ghost predicate Valid()
      reads this, active, heightSet
    {
      && active != heightSet
      && active.Length == heightSet.Length
      && heightSet[..] == active[..]
    }

    /** The items as loaded, each given its height by one `setHeight` call. */
    constructor (initial: seq<bool>)
      ensures Valid() && fresh(active) && fresh(heightSet)
      ensures active[..] == initial
    {
      active := new bool[|initial|](j requires 0 <= j < |initial| => initial[j]);
      heightSet := new bool[|initial|];
      new;
      for i := 0 to |initial|
        invariant forall k :: 0 <= k < i ==> heightSet[k] == active[k]
        invariant active[..] == initial
      {
        SetHeight(i);
      }
    }

    /** Expand the answer of item `i` exactly when the item is active. */
    method SetHeight(i: nat)
      requires active != heightSet && active.Length == heightSet.Length && i < active.Length
      modifies heightSet
      ensures heightSet[i] == active[i]
      ensures forall k :: 0 <= k < heightSet.Length && k != i ==> heightSet[k] == old(heightSet[k])
    {
      if active[i] {
        heightSet[i] := true;
      } else {
        heightSet[i] := false;
      }
    }

    /** A click on the question of item `i`. */
    method Click(i: nat)
      requires Valid() && i < active.Length
      modifies active, heightSet
      ensures Valid()
      ensures active[..] == AfterClick(old(active[..]), i)
    {
      var isActive := active[i];
      for j := 0 to active.Length
        invariant forall k :: 0 <= k < j && k != i ==> !active[k] && !heightSet[k]
        invariant forall k :: j <= k < active.Length || k == i ==>
          active[k] == old(active[k]) && heightSet[k] == old(heightSet[k])
      {
        if j != i {
          active[j] := false;
          heightSet[j] := false;
        }
      }
      if isActive {
        active[i] := false;
      } else {
        active[i] := true;
      }
      SetHeight(i);
    }
  }
}
