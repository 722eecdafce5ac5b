/** The fixed page header: which navigation link is highlighted, whether the
    header is drawn opaque, and the mobile menu. */
module Navbar {

  import opened Optional

  /** The vertical extent of an element relative to the viewport, as
      `getBoundingClientRect` reports it. */
  datatype Rect = Rect(top: real, bottom: real)

  /** The sections whose position the header follows, in the order it tries them. */
  const Tracked: seq<string> := ["hero", "about", "projects", "skills", "contact"]

  /** The links the header shows. "experience" is a link but is not tracked. */
  const NavItems: seq<string> := ["about", "projects", "experience", "skills", "contact"]

  /** The header turns opaque once the page has scrolled past this many pixels. */
  const ScrollThreshold: real := 50.0

  /** The section `id` exists and its extent contains the viewport-relative
      probe height. */
  predicate Contains(dom: map<string, Rect>, id: string, probe: real)
  {
    id in dom && dom[id].top <= probe <= dom[id].bottom
  }

  /** The first of `ids` whose element contains the probe, if any. */
  function FirstContaining(ids: seq<string>, dom: map<string, Rect>, probe: real): (r: Option<nat>)
    ensures r.Some? ==> r.value < |ids| && Contains(dom, ids[r.value], probe)
    ensures r.Some? ==> forall k :: 0 <= k < r.value ==> !Contains(dom, ids[k], probe)
    ensures r.None? ==> forall k :: 0 <= k < |ids| ==> !Contains(dom, ids[k], probe)
  {
    if |ids| == 0 then None
    else if Contains(dom, ids[0], probe) then Some(0)
    else
      match FirstContaining(ids[1..], dom, probe)
      case None => None
      case Some(k) => Some(k + 1)
  }

  class Header {
    var isScrolled: bool
    var activeSection: string
    var mobileMenuOpen: bool

    ghost predicate Valid()
      reads this
    {
      activeSection in Tracked
    }

    /** The header starts transparent, on "hero", with the menu closed. */
    constructor ()
      ensures Valid()
      ensures !isScrolled && activeSection == "hero" && !mobileMenuOpen
    {
      isScrolled := false;
      activeSection := "hero";
      mobileMenuOpen := false;
    }

    /** The header has its opaque background. */
    predicate Opaque()
      reads this
    {
      isScrolled || mobileMenuOpen
    }

    /** The link for `item` is drawn as the current one. */
    predicate Highlighted(item: string)
      reads this
    {
      activeSection == item
    }

    /** The scroll-position subscription. */
    method OnScrollY(y: real)
      modifies this
      ensures isScrolled <==> y > ScrollThreshold
      ensures activeSection == old(activeSection) && mobileMenuOpen == old(mobileMenuOpen)
    {
      isScrolled := y > ScrollThreshold;
    }

    /** The scroll listener: walk the tracked sections in order and take the
        first whose page extent `[scrollY + top, scrollY + bottom]` contains
        the point one third of the way down the viewport. `dom` maps the ids
        present in the document to their rectangles. The result does not
        depend on `scrollY`: it is the first section whose viewport extent
        contains `innerHeight / 3`. */
    method HandleScroll(scrollY: real, innerHeight: real, dom: map<string, Rect>)
      requires Valid()
      modifies this
      ensures Valid()
      ensures isScrolled == old(isScrolled) && mobileMenuOpen == old(mobileMenuOpen)
      ensures match FirstContaining(Tracked, dom, innerHeight / 3.0)
              case Some(k) => activeSection == Tracked[k]
              case None => activeSection == old(activeSection)
    {
      var currentPosition := scrollY + innerHeight / 3.0;
      var i := 0;
      while i < |Tracked|
        invariant 0 <= i <= |Tracked|
        invariant forall k :: 0 <= k < i ==> !Contains(dom, Tracked[k], innerHeight / 3.0)
        invariant activeSection == old(activeSection)
      {
        var section := Tracked[i];
        if section in dom {
          var rect := dom[section];
          var offset := scrollY + rect.top;
          if currentPosition >= offset && currentPosition <= scrollY + rect.bottom {
            activeSection := section;
            return;
          }
        }
        i := i + 1;
      }
    }

    /** The menu button. */
    method ToggleMenu()
      modifies this
      ensures mobileMenuOpen == !old(mobileMenuOpen)
      ensures isScrolled == old(isScrolled) && activeSection == old(activeSection)
      ensures Opaque() <==> isScrolled || !old(mobileMenuOpen)
    {
      mobileMenuOpen := !mobileMenuOpen;
    }

    /** A click on a link of the mobile menu closes the menu. */
    method HandleNavClick()
      modifies this
      ensures !mobileMenuOpen
      ensures isScrolled == old(isScrolled) && activeSection == old(activeSection)
      ensures Opaque() <==> isScrolled
    {
      mobileMenuOpen := false;
    }

    /** Whatever happened before, the "experience" link is never highlighted. */
    lemma ExperienceNeverHighlighted()
      requires Valid()
      ensures !Highlighted("experience")
      ensures "experience" in NavItems
    {
    }
  }
}
