/** The collapsible mobile menu: the `show` class on the menu, the `active`
    class on the hamburger toggle and the `active` class on each of its bars. */
module MobileMenu {
  import opened Wrappers

  datatype Menu = Menu(show: bool, toggleActive: bool, bars: seq<bool>)

  /** Menu, toggle and every bar agree, and `open` says whether they are on. */
  predicate InSync(m: Menu, open: bool) {
    && m.show == open
    && m.toggleActive == open
    && forall i :: 0 <= i < |m.bars| ==> m.bars[i] == open
  }

  /** `classList.toggle` on the menu, the toggle and each bar. */
  function Toggle(m: Menu): (r: Menu)
    ensures |r.bars| == |m.bars|
    ensures forall open :: InSync(m, open) ==> InSync(r, !open)
  {
    Menu(!m.show, !m.toggleActive, seq(|m.bars|, i requires 0 <= i < |m.bars| => !m.bars[i]))
  }

  /** `classList.remove` on the menu, the toggle and each bar. */
  function Close(m: Menu): (r: Menu)
    ensures |r.bars| == |m.bars|
    ensures InSync(r, false)
  {
    Menu(false, false, seq(|m.bars|, i => false))
  }

  /** The toggle button's click handler. It is only installed when both the
      toggle and the menu are on the page (`None` otherwise). */
  function OnToggleClick(controls: Option<Menu>): (r: Option<Menu>)
    ensures r.None? <==> controls.None?
    ensures r.Some? ==>
              && r.value.show == !controls.value.show
              && r.value.toggleActive == !controls.value.toggleActive
              && |r.value.bars| == |controls.value.bars|
              && (forall i :: 0 <= i < |r.value.bars| ==> r.value.bars[i] == !controls.value.bars[i])
    ensures forall open :: controls.Some? && InSync(controls.value, open) ==> InSync(r.value, !open)
  {
    match controls
    case None => None
    case Some(m) => Some(Toggle(m))
  }

  /** `closeMobileMenu`, which does nothing unless both elements exist. */
  function CloseMobileMenu(controls: Option<Menu>): (r: Option<Menu>)
    ensures r.None? <==> controls.None?
    ensures r.Some? ==> InSync(r.value, false)
    ensures r.Some? ==> |r.value.bars| == |controls.value.bars|
  {
    match controls
    case None => None
    case Some(m) => Some(Close(m))
  }

  /** Two clicks on the toggle restore every flag. */
  lemma ToggleTwice(controls: Option<Menu>)
    ensures OnToggleClick(OnToggleClick(controls)) == controls
  {
    if controls.Some? {
      var m := controls.value;
      assert Toggle(Toggle(m)).bars == m.bars;
    }
  }

  /** Closing is idempotent, and closing after a toggle is the same as
      closing straight away: the closed state does not depend on history. */
  lemma CloseIdempotent(controls: Option<Menu>)
    ensures CloseMobileMenu(CloseMobileMenu(controls)) == CloseMobileMenu(controls)
    ensures CloseMobileMenu(OnToggleClick(controls)) == CloseMobileMenu(controls)
  {
  }
}
