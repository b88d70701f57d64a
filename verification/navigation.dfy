/** The navigation bar: which link carries the `active` class, recomputed on
    every scroll from the section under the viewport's top edge, and set
    exclusively on the clicked link when that link's target exists. */
module Navigation {
  import opened Wrappers
  import MobileMenu

  /** A page section (`.section` or `.hero`): its `id` and its vertical
      extent, `offsetTop` and `offsetHeight`, in pixels. */
  datatype Section = Section(id: string, top: int, height: int)

  /** A navigation link: its `data-section` attribute and whether it has
      the `active` class. */
  datatype Link = Link(section: string, active: bool)

  /** What the navigation handlers read and write: the links, and the mobile
      menu when both its toggle and its menu element are on the page. */
  datatype Page = Page(links: seq<Link>, menu: Option<MobileMenu.Menu>)

  /** How far below the top of the viewport the probed position lies. */
  const ScrollOffset: int := 100

  /** A section's half-open range `[top, top + height)` contains `pos`. */
  predicate Contains(s: Section, pos: int) {
    s.top <= pos < s.top + s.height
  }

  /** Section `j` contains `pos` and no later section does. */
  predicate IsLastMatch(sections: seq<Section>, pos: int, j: int) {
    && 0 <= j < |sections|
    && Contains(sections[j], pos)
    && forall m :: j < m < |sections| ==> !Contains(sections[m], pos)
  }

  /** No section contains `pos`. */
  predicate NoMatch(sections: seq<Section>, pos: int) {
    forall m :: 0 <= m < |sections| ==> !Contains(sections[m], pos)
  }

  /** The index of the last section, in document order, whose range contains
      `pos`, if there is one. */
  function LastMatch(sections: seq<Section>, pos: int): (r: Option<nat>)
    ensures r.Some? ==> IsLastMatch(sections, pos, r.value)
    ensures r.None? ==> NoMatch(sections, pos)
  {
    if sections == [] then None
    else if Contains(sections[|sections| - 1], pos) then Some(|sections| - 1)
    else LastMatch(sections[..|sections| - 1], pos)
  }

  /** The id the scroll handler settles on: that of the last section
      containing `scrollY + 100`, or the empty string when none does. */
  function CurrentId(sections: seq<Section>, scrollY: int): (r: string)
    ensures NoMatch(sections, scrollY + ScrollOffset) ==> r == ""
    ensures forall j :: IsLastMatch(sections, scrollY + ScrollOffset, j) ==> r == sections[j].id
  {
    match LastMatch(sections, scrollY + ScrollOffset)
    case None => ""
    case Some(j) => sections[j].id
  }

  /** The scroll handler's loop over the sections: a later match overwrites
      an earlier one. */
  method ScrollCurrent(sections: seq<Section>, scrollY: int) returns (current: string)
    ensures current == CurrentId(sections, scrollY)
    ensures NoMatch(sections, scrollY + ScrollOffset) ==> current == ""
    ensures forall j :: IsLastMatch(sections, scrollY + ScrollOffset, j) ==> current == sections[j].id
  {
    current := "";
    var pos := scrollY + ScrollOffset;
    var i := 0;
    while i < |sections|
      invariant 0 <= i <= |sections|
      invariant current == CurrentId(sections[..i], scrollY)
    {
      var section := sections[i];
      if pos >= section.top && pos < section.top + section.height {
        current := section.id;
      }
      assert sections[..i + 1][..i] == sections[..i];
      i := i + 1;
    }
    assert sections[..i] == sections;
  }

  /** Link by link, `active` is removed and added back when the link's
      `data-section` is `current`. */
  function MarkCurrent(links: seq<Link>, current: string): (r: seq<Link>)
    ensures |r| == |links|
    ensures forall k :: 0 <= k < |links| ==> r[k].section == links[k].section
    ensures forall k :: 0 <= k < |links| ==> (r[k].active <==> links[k].section == current)
  {
    seq(|links|, k requires 0 <= k < |links| => Link(links[k].section, links[k].section == current))
  }

  /** The scroll handler on the navigation links. The menu is untouched. */
  function OnScroll(page: Page, sections: seq<Section>, scrollY: int): (r: Page)
    ensures r.menu == page.menu
  {
    Page(MarkCurrent(page.links, CurrentId(sections, scrollY)), page.menu)
  }

  /** After a scroll a link is active exactly when its `data-section` names
      the last section whose range contains `scrollY + 100`, or, when no
      section contains it, when its `data-section` is empty (the handler's
      `current` stays `''`). So with no match, no link with a non-empty
      `data-section` is active. The state before the scroll plays no part. */
  lemma ScrollActiveIff(page: Page, sections: seq<Section>, scrollY: int, k: int)
    requires 0 <= k < |page.links|
    ensures var r := OnScroll(page, sections, scrollY);
            var pos := scrollY + ScrollOffset;
            && |r.links| == |page.links|
            && r.links[k].section == page.links[k].section
            && (r.links[k].active <==>
                  || (exists j :: IsLastMatch(sections, pos, j) && sections[j].id == page.links[k].section)
                  || (NoMatch(sections, pos) && page.links[k].section == ""))
  {
  }

  /** The links after a scroll depend only on their `data-section` values
      and on the sections: an earlier `active` class does not persist. */
  lemma ScrollIgnoresPrior(a: Page, b: Page, sections: seq<Section>, scrollY: int)
    requires |a.links| == |b.links| && a.menu == b.menu
    requires forall k :: 0 <= k < |a.links| ==> a.links[k].section == b.links[k].section
    ensures OnScroll(a, sections, scrollY) == OnScroll(b, sections, scrollY)
  {
  }

  /** With distinct `data-section` values, at most one link is active after
      a scroll, and exactly one when some section contains `scrollY + 100`
      and some link targets the last such section. */
  lemma ScrollAtMostOne(page: Page, sections: seq<Section>, scrollY: int)
    requires forall a, b :: 0 <= a < b < |page.links| ==> page.links[a].section != page.links[b].section
    ensures var r := OnScroll(page, sections, scrollY);
            forall a, b :: 0 <= a < b < |r.links| ==> !(r.links[a].active && r.links[b].active)
    ensures var r := OnScroll(page, sections, scrollY);
            (exists k :: 0 <= k < |page.links| && page.links[k].section == CurrentId(sections, scrollY))
              ==> exists k :: 0 <= k < |r.links| && r.links[k].active
  {
    var r := OnScroll(page, sections, scrollY);
    if k :| 0 <= k < |page.links| && page.links[k].section == CurrentId(sections, scrollY) {
      assert r.links[k].active;
    }
  }

  /** Every link loses `active` and the clicked one, `clicked`, gains it. */
  function MarkOnly(links: seq<Link>, clicked: nat): (r: seq<Link>)
    ensures |r| == |links|
    ensures forall k :: 0 <= k < |links| ==> r[k].section == links[k].section
    ensures forall k :: 0 <= k < |links| ==> (r[k].active <==> k == clicked)
  {
    seq(|links|, k requires 0 <= k < |links| => Link(links[k].section, k == clicked))
  }

  /** Whether `getElementById(target)` finds an element, given the ids of
      the document's elements. An empty `id` attribute gives an element no
      ID, so the empty string never finds one. */
  predicate Found(target: string, ids: set<string>) {
    target != "" && target in ids
  }

  /** The click handler of link `clicked`. `ids` are the element ids in the
      document, which `getElementById` searches. Clicking a link whose target
      exists leaves exactly that link active, keeps every `data-section` and
      closes the mobile menu, keeping its bars; clicking one whose target is
      missing, or whose `data-section` is empty, changes nothing. Scrolling
      the target into view is not modelled. */
  function OnClick(page: Page, clicked: nat, ids: set<string>): (r: Page)
    requires clicked < |page.links|
    ensures Found(page.links[clicked].section, ids) ==>
              && |r.links| == |page.links|
              && (forall k :: 0 <= k < |r.links| ==>
                    r.links[k].section == page.links[k].section && (r.links[k].active <==> k == clicked))
              && (r.menu.Some? <==> page.menu.Some?)
              && (r.menu.Some? ==> MobileMenu.InSync(r.menu.value, false))
              && (r.menu.Some? ==> |r.menu.value.bars| == |page.menu.value.bars|)
    ensures !Found(page.links[clicked].section, ids) ==> r == page
  {
    if Found(page.links[clicked].section, ids) then
      Page(MarkOnly(page.links, clicked), MobileMenu.CloseMobileMenu(page.menu))
    else
      page
  }
}
