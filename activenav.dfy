/**
 * The active-link highlighter of `initActiveNavigation`. On load and on
 * every scroll it probes 100 pixels below the top of the viewport; every
 * section containing the probe, in document order, clears the `active`
 * class of all nav links and then sets it on its own link, if there is one.
 */
module ActiveNav {
  import opened Wrappers
  import opened Flags
  import SmoothScroll

  /** How far below the scroll position the probe lies. */
  const ProbeOffset := 100

  /** A `section[id]` element with its layout: `offsetTop`, `offsetHeight` and `id`. */
  datatype Section = Section(top: int, height: int, id: string)

  /** The section's vertical range `[top, top + height)` holds `probe`. */
  predicate Contains(section: Section, probe: int)
    ensures Contains(section, probe) ==> section.height > 0
  {
    section.top <= probe < section.top + section.height
  }

  /**
   * The nav link a section selects, `.nav-link[href="#id"]`: the first link,
   * in document order, whose `href` is "#" followed by the section's id.
   */
  function LinkFor(hrefs: seq<string>, id: string): (k: Option<nat>)
    ensures k.Some? ==> k.value < |hrefs| && hrefs[k.value] == "#" + id
    ensures k.Some? ==> forall j | 0 <= j < k.value :: hrefs[j] != "#" + id
    ensures k.None? ==> forall j | 0 <= j < |hrefs| :: hrefs[j] != "#" + id
    decreases |hrefs|
  {
    if hrefs == [] then None
    else if hrefs[0] == "#" + id then Some(0)
    else match LinkFor(hrefs[1..], id)
      case Some(k) => Some(k + 1)
      case None => None
  }

  /**
   * The links' `active` flags after the highlighter has scanned `sections`
   * in document order with probe position `probe`.
   */
  function Highlighted(links: seq<bool>, hrefs: seq<string>, sections: seq<Section>, probe: int): (r: seq<bool>)
    requires |links| == |hrefs|
    ensures |r| == |links|
    decreases |sections|
  {
    if sections == [] then links
    else
      var last := |sections| - 1;
      if Contains(sections[last], probe) then Exclusive(|links|, LinkFor(hrefs, sections[last].id))
      else Highlighted(links, hrefs, sections[..last], probe)
  }

  /**
   * The last section containing the probe decides: only its link is active
   * afterwards (no link at all when it has none).
   */
  lemma {:induction false} LastMatchWins(links: seq<bool>, hrefs: seq<string>, sections: seq<Section>, probe: int, k: nat)
    requires |links| == |hrefs|
    requires k < |sections| && Contains(sections[k], probe)
    requires forall m | k < m < |sections| :: !Contains(sections[m], probe)
    ensures Highlighted(links, hrefs, sections, probe) == Exclusive(|links|, LinkFor(hrefs, sections[k].id))
    decreases |sections|
  {
    var last := |sections| - 1;
    if k < last {
      LastMatchWins(links, hrefs, sections[..last], probe, k);
    }
  }

  /** When no section contains the probe, no link changes. */
  lemma {:induction false} NoMatchKeepsLinks(links: seq<bool>, hrefs: seq<string>, sections: seq<Section>, probe: int)
    requires |links| == |hrefs|
    requires forall m | 0 <= m < |sections| :: !Contains(sections[m], probe)
    ensures Highlighted(links, hrefs, sections, probe) == links
    decreases |sections|
  {
    if sections != [] {
      NoMatchKeepsLinks(links, hrefs, sections[..|sections| - 1], probe);
    }
  }

  /** When some section contains the probe, at most one link is active afterwards. */
  lemma {:induction false} MatchLeavesAtMostOne(links: seq<bool>, hrefs: seq<string>, sections: seq<Section>, probe: int)
    requires |links| == |hrefs|
    requires exists m | 0 <= m < |sections| :: Contains(sections[m], probe)
    ensures AtMostOne(Highlighted(links, hrefs, sections, probe))
    decreases |sections|
  {
    var last := |sections| - 1;
    if !Contains(sections[last], probe) {
      var m :| 0 <= m < |sections| && Contains(sections[m], probe);
      assert m < last && sections[..last][m] == sections[m];
      MatchLeavesAtMostOne(links, hrefs, sections[..last], probe);
    }
  }

  /**
   * Running the highlighter again with the same layout and probe changes
   * nothing, so the extra runs of the re-registered scroll listeners leave
   * the same links active as a single run.
   */
  lemma {:induction false} HighlightIdempotent(links: seq<bool>, hrefs: seq<string>, sections: seq<Section>, probe: int)
    requires |links| == |hrefs|
    ensures Highlighted(Highlighted(links, hrefs, sections, probe), hrefs, sections, probe)
         == Highlighted(links, hrefs, sections, probe)
    decreases |sections|
  {
    if sections != [] {
      HighlightIdempotent(links, hrefs, sections[..|sections| - 1], probe);
    }
  }

  /**
   * Smooth-scrolling to section `k` and then highlighting marks that
   * section's link, when the section is taller than the 20 pixels between
   * the navbar offset and the probe offset, no later section reaches the
   * probe, and the browser lands exactly on the requested position.
   */
  lemma ScrollToSectionHighlightsIt(links: seq<bool>, hrefs: seq<string>, sections: seq<Section>, k: nat, y: int)
    requires |links| == |hrefs|
    requires k < |sections| && sections[k].height > ProbeOffset - SmoothScroll.NavbarHeight
    requires SmoothScroll.ScrollTarget(Some(sections[k].top)) == Some(y)
    requires forall m | k < m < |sections| :: !Contains(sections[m], y + ProbeOffset)
    ensures Highlighted(links, hrefs, sections, y + ProbeOffset) == Exclusive(|links|, LinkFor(hrefs, sections[k].id))
  {
    assert y == sections[k].top - SmoothScroll.NavbarHeight;
    assert Contains(sections[k], y + ProbeOffset);
    LastMatchWins(links, hrefs, sections, y + ProbeOffset, k);
  }

  /** The page's nav links: their `href`s and `active` classes, in document order. */
  class NavLinks {
    const hrefs: seq<string>
    var active: array<bool>

    ghost predicate Valid()
      reads this
    {
      active.Length == |hrefs|
    }

    constructor (hrefs: seq<string>, markup: seq<bool>)
      requires |markup| == |hrefs|
      ensures Valid() && fresh(active)
      ensures this.hrefs == hrefs && active[..] == markup
    {
      this.hrefs := hrefs;
      active := new bool[|markup|](j requires 0 <= j < |markup| => markup[j]);
    }

    /** `highlightNavLink`, run with the page scrolled to `scrollY` and the sections laid out as `sections`. */
    method HighlightNavLink(sections: seq<Section>, scrollY: int)
      requires Valid()
      modifies active
      ensures active[..] == Highlighted(old(active[..]), hrefs, sections, scrollY + ProbeOffset)
    {
      var scrollPosition := scrollY + ProbeOffset;
      var s := 0;
      while s < |sections|
        invariant 0 <= s <= |sections|
        invariant active[..] == Highlighted(old(active[..]), hrefs, sections[..s], scrollPosition)
      {
        var section := sections[s];
        var navLink := LinkFor(hrefs, section.id);
        if scrollPosition >= section.top && scrollPosition < section.top + section.height {
          var j := 0;
          while j < active.Length
            invariant 0 <= j <= active.Length
            invariant forall m | 0 <= m < j :: !active[m]
          {
            active[j] := false;
            j := j + 1;
          }
          if navLink.Some? {
            active[navLink.value] := true;
          }
          assert active[..] == Exclusive(active.Length, navLink);
        }
        assert sections[..s + 1][..s] == sections[..s];
        s := s + 1;
      }
      assert sections[..s] == sections;
    }
  }
}
