/** The navigation bar of both pages: the mobile menu (`.nav-menu` with class
    `active`) and its toggle icon, the nav links' `active` flags, and on the
    portfolio page the navbar's `scrolled` class and the Escape key. */
module Navigation {
  import opened Strings
  import opened ActiveLink

  /** The toggle's icon: `fa-bars` (menu closed) or `fa-times` (menu open). */
  datatype Glyph = Bars | Times

  function GlyphFor(open: bool): (g: Glyph)
    ensures g == Times <==> open
  {
    if open then Times else Bars
  }

  /** The portfolio page marks the navbar `scrolled` past this offset. */
  const ScrolledOffset := 50

  /** The portfolio's navigation (assets/js/script.js). */
  class PortfolioNav {
    var open: bool
    var glyph: Glyph
    var scrolled: bool
    const links: array<bool>

    /** The icon shows the menu's state. */
    ghost predicate Consistent()
      reads this
    {
      glyph == GlyphFor(open)
    }

    constructor (linkCount: nat)
      ensures Consistent() && !open && !scrolled
      ensures fresh(links) && links.Length == linkCount
      ensures forall k :: 0 <= k < linkCount ==> !links[k]
    {
      open, glyph, scrolled := false, Bars, false;
      links := new bool[linkCount](_ => false);
    }

    /** Clicking the toggle flips `active` on the menu and sets the icon from the new state. */
    method Toggle()
      modifies this`open, this`glyph
      ensures open == !old(open) && glyph == GlyphFor(open)
    {
      open := !open;
      if open {
        glyph := Times;
      } else {
        glyph := Bars;
      }
    }

    /** Clicking a nav link closes the menu and shows the bars icon; the links' flags are untouched. */
    method LinkClicked()
      modifies this`open, this`glyph
      ensures !open && glyph == Bars
    {
      open := false;
      glyph := Bars;
    }

    /** A key press: Escape closes an open menu and shows the bars icon; any other
        key, or Escape on a closed menu, changes nothing. */
    method OnKey(key: string)
      modifies this`open, this`glyph
      ensures key == "Escape" && old(open) ==> !open && glyph == Bars
      ensures !(key == "Escape" && old(open)) ==> open == old(open) && glyph == old(glyph)
      ensures key == "Escape" && old(Consistent()) ==> !open && glyph == Bars
      ensures old(Consistent()) ==> Consistent()
    {
      if key == "Escape" && open {
        open := false;
        glyph := Bars;
      }
    }

    /** A scroll event: the navbar is `scrolled` past 50 and the active link is recomputed. */
    method OnScroll(offset: int, sections: seq<Section>)
      requires LinksWithin(sections, links.Length)
      modifies this`scrolled, links
      ensures scrolled == (offset > ScrolledOffset)
      ensures links[..] == PortfolioPass(old(links[..]), sections, offset)
    {
      scrolled := offset > ScrolledOffset;
      UpdatePortfolio(links, sections, offset);
    }
  }

  /** The site's navigation (script.js). Its toggle's inner HTML is replaced by a
      single icon, so the icon is exactly one of the two glyphs. */
  class SiteNav {
    var open: bool
    var glyph: Glyph
    const links: array<bool>

    ghost predicate Consistent()
      reads this
    {
      glyph == GlyphFor(open)
    }

    constructor (linkCount: nat)
      ensures Consistent() && !open
      ensures fresh(links) && links.Length == linkCount
      ensures forall k :: 0 <= k < linkCount ==> !links[k]
    {
      open, glyph := false, Bars;
      links := new bool[linkCount](_ => false);
    }

    method Toggle()
      modifies this`open, this`glyph
      ensures open == !old(open) && glyph == GlyphFor(open)
    {
      open := !open;
      glyph := if open then Times else Bars;
    }

    /** Clicking nav link `i` closes the menu, shows the bars icon, clears every
        link and marks link `i`. */
    method ClickLink(i: nat)
      requires i < links.Length
      modifies this`open, this`glyph, links
      ensures !open && glyph == Bars
      ensures links[..] == OnlyActive(links.Length, Some(i))
    {
      var k := 0;
      while k < links.Length
        invariant 0 <= k <= links.Length
        invariant forall j :: 0 <= j < k ==> !links[j]
      {
        links[k] := false;
        k := k + 1;
      }
      links[i] := true;
      open := false;
      glyph := Bars;
    }

    /** A scroll event recomputes the links section by section. */
    method OnScroll(offset: int, sections: seq<Section>)
      requires LinksWithin(sections, links.Length)
      modifies links
      ensures links[..] == SitePass(old(links[..]), sections, offset)
    {
      UpdateSite(links, sections, offset);
    }
  }

  /** Toggling twice gives back the menu and the icon as they were. */
  method PortfolioToggleTwice(nav: PortfolioNav)
    requires nav.Consistent()
    modifies nav
    ensures nav.open == old(nav.open) && nav.glyph == old(nav.glyph)
  {
    nav.Toggle();
    nav.Toggle();
  }

  method SiteToggleTwice(nav: SiteNav)
    requires nav.Consistent()
    modifies nav
    ensures nav.open == old(nav.open) && nav.glyph == old(nav.glyph)
  {
    nav.Toggle();
    nav.Toggle();
  }
}
