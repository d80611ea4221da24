/** `updateActiveLink`: on every scroll, the scripts walk the page's
    `section[id]` elements in document order and mark nav links `active`.
    The two scripts use the same band test but different update policies:
    the portfolio page clears every link and marks the section's own link,
    for each section in view (so the last section in view wins and no section
    in view leaves the links as they were); the site page sets or clears each
    section's own link, section by section. */
module ActiveLink {
  import opened Strings

  /** A `section[id]`: its `offsetTop`, its `offsetHeight`, and the index of the
      first `.nav-link` whose `href` is `#<id>`, if there is one. */
  datatype Section = Section(top: int, height: int, link: Option<nat>)

  /** Height of the fixed header the band test compensates for. */
  const HeaderOffset := 100

  /** The band test. The portfolio page computes `y = offset + 100` and asks
      `top < y <= top + height`; the site page lowers the top by 100 and asks
      `top - 100 < offset <= top - 100 + height`. On integers the two agree. */
  predicate InView(s: Section, offset: int) {
    s.top < offset + HeaderOffset <= s.top + s.height
  }

  /** Every section's link is one of the `n` nav links. */
  predicate LinksWithin(sections: seq<Section>, n: nat) {
    forall i :: 0 <= i < |sections| ==> sections[i].link.Some? ==> sections[i].link.value < n
  }

  /** The flags after clearing all `n` links and marking `link`, if any. */
  function OnlyActive(n: nat, link: Option<nat>): (r: seq<bool>)
    ensures |r| == n
    ensures forall k :: 0 <= k < n ==> (r[k] <==> link == Some(k))
  {
    seq(n, k => link == Some(k))
  }

  /** At most one link is marked. */
  predicate AtMostOne(flags: seq<bool>) {
    forall j, k :: 0 <= j < |flags| && 0 <= k < |flags| && flags[j] && flags[k] ==> j == k
  }

  // ----- the portfolio's policy (assets/js/script.js) -----

  function PortfolioVisit(flags: seq<bool>, s: Section, offset: int): seq<bool> {
    if InView(s, offset) then OnlyActive(|flags|, s.link) else flags
  }

  /** The flags after the portfolio's loop has visited `sections` in order. */
  function PortfolioPass(flags: seq<bool>, sections: seq<Section>, offset: int): (r: seq<bool>)
    ensures |r| == |flags|
    decreases |sections|
  {
    if sections == [] then flags
    else
      var n := |sections| - 1;
      PortfolioVisit(PortfolioPass(flags, sections[..n], offset), sections[n], offset)
  }

  /** The index of the last section in view, if any. */
  function LastInView(sections: seq<Section>, offset: int): (r: Option<nat>)
    ensures r.Some? ==> r.value < |sections| && InView(sections[r.value], offset)
    ensures r.Some? ==> forall j :: r.value < j < |sections| ==> !InView(sections[j], offset)
    ensures r.None? ==> forall j :: 0 <= j < |sections| ==> !InView(sections[j], offset)
    decreases |sections|
  {
    if sections == [] then None
    else if InView(sections[|sections| - 1], offset) then Some(|sections| - 1)
    else LastInView(sections[..|sections| - 1], offset)
  }

  /** What the portfolio's pass does: with a section in view, only the last such
      section's link is active (none if it has no link); with none in view,
      nothing changes. */
  lemma {:induction false} PortfolioPassResult(flags: seq<bool>, sections: seq<Section>, offset: int)
    ensures PortfolioPass(flags, sections, offset) ==
      match LastInView(sections, offset)
      case None => flags
      case Some(i) => OnlyActive(|flags|, sections[i].link)
    decreases |sections|
  {
    if sections != [] {
      var n := |sections| - 1;
      PortfolioPassResult(flags, sections[..n], offset);
      if !InView(sections[n], offset) {
        var p := sections[..n];
        match LastInView(p, offset)
        case None =>
        case Some(i) => assert p[i] == sections[i];
      }
    }
  }

  /** The portfolio's pass never leaves two links active when at most one was. */
  lemma PortfolioKeepsAtMostOne(flags: seq<bool>, sections: seq<Section>, offset: int)
    requires AtMostOne(flags) || LastInView(sections, offset).Some?
    ensures AtMostOne(PortfolioPass(flags, sections, offset))
  {
    PortfolioPassResult(flags, sections, offset);
  }

  /** The portfolio's `updateActiveLink` over the array of link flags. */
  method UpdatePortfolio(active: array<bool>, sections: seq<Section>, offset: int)
    requires LinksWithin(sections, active.Length)
    modifies active
    ensures active[..] == PortfolioPass(old(active[..]), sections, offset)
    ensures match LastInView(sections, offset)
      case None => active[..] == old(active[..])
      case Some(i) => forall k :: 0 <= k < active.Length ==> (active[k] <==> sections[i].link == Some(k))
  {
    var i := 0;
    while i < |sections|
      invariant 0 <= i <= |sections|
      invariant active[..] == PortfolioPass(old(active[..]), sections[..i], offset)
    {
      var s := sections[i];
      if InView(s, offset) {
        var k := 0;
        while k < active.Length
          invariant 0 <= k <= active.Length
          invariant forall j :: 0 <= j < k ==> !active[j]
        {
          active[k] := false;
          k := k + 1;
        }
        if s.link.Some? {
          active[s.link.value] := true;
        }
        assert active[..] == OnlyActive(active.Length, s.link);
      }
      assert sections[..i + 1][..i] == sections[..i];
      i := i + 1;
    }
    assert sections[..i] == sections;
    PortfolioPassResult(old(active[..]), sections, offset);
  }

  // ----- the site's policy (script.js) -----

  function SiteVisit(flags: seq<bool>, s: Section, offset: int): seq<bool> {
    if s.link.Some? && s.link.value < |flags| then flags[s.link.value := InView(s, offset)] else flags
  }

  /** The flags after the site's loop has visited `sections` in order. */
  function SitePass(flags: seq<bool>, sections: seq<Section>, offset: int): (r: seq<bool>)
    ensures |r| == |flags|
    decreases |sections|
  {
    if sections == [] then flags
    else
      var n := |sections| - 1;
      SiteVisit(SitePass(flags, sections[..n], offset), sections[n], offset)
  }

  /** The index of the last section whose link is `k`, if any. */
  function LastLinking(sections: seq<Section>, k: nat): (r: Option<nat>)
    ensures r.Some? ==> r.value < |sections| && sections[r.value].link == Some(k)
    ensures r.Some? ==> forall j :: r.value < j < |sections| ==> sections[j].link != Some(k)
    ensures r.None? ==> forall j :: 0 <= j < |sections| ==> sections[j].link != Some(k)
    decreases |sections|
  {
    if sections == [] then None
    else if sections[|sections| - 1].link == Some(k) then Some(|sections| - 1)
    else LastLinking(sections[..|sections| - 1], k)
  }

  /** Link `k` after the site's pass, from its flag before: the band test of the
      last section linking to it, or the old flag when no section links to it. */
  function SiteLinkAfter(before: bool, sections: seq<Section>, offset: int, k: nat): bool {
    match LastLinking(sections, k)
    case None => before
    case Some(i) => InView(sections[i], offset)
  }

  /** What the site's pass does to link `k`: it is active exactly when the last
      section linking to it is in view, and untouched when no section links to it. */
  lemma {:induction false} SitePassResult(flags: seq<bool>, sections: seq<Section>, offset: int, k: nat)
    requires k < |flags|
    ensures SitePass(flags, sections, offset)[k] == SiteLinkAfter(flags[k], sections, offset, k)
    decreases |sections|
  {
    if sections != [] {
      var n := |sections| - 1;
      SitePassResult(flags, sections[..n], offset, k);
      if sections[n].link != Some(k) {
        var p := sections[..n];
        match LastLinking(p, k)
        case None =>
        case Some(i) => assert p[i] == sections[i];
      }
    }
  }

  /** With no section in view, the site's pass clears every link some section points to. */
  lemma SiteNoneInViewClears(flags: seq<bool>, sections: seq<Section>, offset: int)
    requires forall i :: 0 <= i < |sections| ==> !InView(sections[i], offset)
    ensures forall i :: 0 <= i < |sections| && sections[i].link.Some? && sections[i].link.value < |flags|
                ==> !SitePass(flags, sections, offset)[sections[i].link.value]
  {
    forall i | 0 <= i < |sections| && sections[i].link.Some? && sections[i].link.value < |flags|
      ensures !SitePass(flags, sections, offset)[sections[i].link.value]
    {
      SitePassResult(flags, sections, offset, sections[i].link.value);
    }
  }

  /** Overlapping sections with their own links leave both links active on the site page. */
  lemma SiteOverlapBothActive(flags: seq<bool>, sections: seq<Section>, offset: int, i: nat, j: nat)
    requires i < |sections| && j < |sections|
    requires sections[i].link.Some? && sections[i].link.value < |flags|
    requires sections[j].link.Some? && sections[j].link.value < |flags|
    requires LastLinking(sections, sections[i].link.value) == Some(i)
    requires LastLinking(sections, sections[j].link.value) == Some(j)
    requires InView(sections[i], offset) && InView(sections[j], offset)
    ensures SitePass(flags, sections, offset)[sections[i].link.value]
    ensures SitePass(flags, sections, offset)[sections[j].link.value]
  {
    SitePassResult(flags, sections, offset, sections[i].link.value);
    SitePassResult(flags, sections, offset, sections[j].link.value);
  }

  /** At most one section's band holds the offset (bands that do not overlap). */
  predicate AtMostOneInView(sections: seq<Section>, offset: int) {
    forall i, j ::
      0 <= i < |sections| && 0 <= j < |sections| && InView(sections[i], offset) && InView(sections[j], offset)
      ==> i == j
  }

  /** When every link belongs to some section and at most one section is in
      view, the site's pass leaves at most one link active, whatever the flags
      were before. */
  lemma SiteAtMostOneWhenDisjoint(flags: seq<bool>, sections: seq<Section>, offset: int)
    requires AtMostOneInView(sections, offset)
    requires forall k :: 0 <= k < |flags| ==> LastLinking(sections, k).Some?
    ensures AtMostOne(SitePass(flags, sections, offset))
  {
    var r := SitePass(flags, sections, offset);
    forall j, k | 0 <= j < |r| && 0 <= k < |r| && r[j] && r[k]
      ensures j == k
    {
      SitePassResult(flags, sections, offset, j);
      SitePassResult(flags, sections, offset, k);
    }
  }

  /** A link no section points to keeps the flag an earlier click set, so the
      site can show two active links with only one section in view. */
  lemma SiteStaleFlag()
    ensures !AtMostOne(SitePass([true, false], [Section(0, 100, Some(1))], 0))
  {
    var r := SitePass([true, false], [Section(0, 100, Some(1))], 0);
    assert [Section(0, 100, Some(1))][..0] == [];
    assert r == [true, true];
    assert r[0] && r[1];
  }

  /** The site's `updateActiveLink` over the array of link flags. */
  method UpdateSite(active: array<bool>, sections: seq<Section>, offset: int)
    requires LinksWithin(sections, active.Length)
    modifies active
    ensures active[..] == SitePass(old(active[..]), sections, offset)
    ensures forall k :: 0 <= k < active.Length ==>
              active[k] == SiteLinkAfter(old(active[k]), sections, offset, k)
  {
    var i := 0;
    while i < |sections|
      invariant 0 <= i <= |sections|
      invariant active[..] == SitePass(old(active[..]), sections[..i], offset)
    {
      var s := sections[i];
      if s.link.Some? {
        active[s.link.value] := InView(s, offset);
      }
      assert sections[..i + 1][..i] == sections[..i];
      i := i + 1;
    }
    assert sections[..i] == sections;
    forall k | 0 <= k < active.Length
      ensures active[k] == SiteLinkAfter(old(active[k]), sections, offset, k)
    {
      SitePassResult(old(active[..]), sections, offset, k);
    }
  }
}
