/** calcite.drawer: drawers opened and closed by their toggles, closed by
    Escape or by a click on the drawer's backdrop, with focus kept inside
    an open drawer. */
module Drawer {
  import opened Wrappers
  import opened ClassList
  import opened Dom
  import opened Overlay

  const DrawerClass := "js-drawer"
  /** The class of the backdrop element a click must land on to close. */
  const BackdropClass := "drawer"
  const EscapeKey := 27

  /** bindDrawerToggle.  `toggle` is the clicked toggle and `drawer` what
      the lookup of '.js-drawer[data-drawer="..."]' for the toggle's
      data-drawer attribute returned; when it found nothing,
      hasClass(null, ...) throws before anything changes. */
  method ToggleClick(o: Overlays, toggle: Element, drawer: Element?) returns (r: Outcome)
    requires o.Valid()
    modifies o`lastOn, o`keyupListening, o`focusinListening, o`focused
    modifies o.items`className, Present(drawer)`className, Present(drawer)`tabIndex
    modifies o.wrapper`ariaHidden, o.footer`ariaHidden
    ensures drawer == null ==> r == Fault && unchanged(o) && unchanged(o.items) && unchanged(o.wrapper, o.footer)
    ensures drawer != null ==> o.Flipped(drawer) && o.Settled(toggle, drawer, r, old(IsActive(drawer)))
  {
    r := o.ToggleFound(toggle, drawer);
  }

  /** The effect of escapeCloseDrawer on Escape: every drawer deactivated,
      toggleAriaHidden, both handlers unregistered, and only then
      lastOn.focus(), which throws while lastOn is undefined. */
  twostate predicate Escaped(o: Overlays, r: Outcome)
    reads o`lastOn, o`keyupListening, o`focusinListening, o`focused
    reads o.items`className, o.items`tabIndex, o.wrapper`ariaHidden, o.footer`ariaHidden
  {
    o.Deactivated() && o.HiddenToggled() &&
    !o.keyupListening && !o.focusinListening && o.lastOn == old(o.lastOn) &&
    (r == Fault <==> o.lastOn == null) &&
    (if r == Done then o.focused == o.lastOn else o.focused == old(o.focused))
  }

  /** A keyup on the document: escapeCloseDrawer runs when it is registered
      and acts on Escape (keyCode 27) only. */
  method KeyUp(o: Overlays, keyCode: int) returns (r: Outcome)
    requires o.Valid()
    modifies o`keyupListening, o`focusinListening, o`focused
    modifies o.items`className, o.items`tabIndex, o.wrapper`ariaHidden, o.footer`ariaHidden
    ensures !(old(o.keyupListening) && keyCode == EscapeKey) ==>
      r == Done && unchanged(o) && unchanged(o.items) && unchanged(o.wrapper, o.footer)
    ensures old(o.keyupListening) && keyCode == EscapeKey ==> Escaped(o, r)
  {
    if o.keyupListening && keyCode == EscapeKey {
      r := Escape(o);
    } else {
      r := Done;
    }
  }

  /** The body of escapeCloseDrawer for an Escape key. */
  method Escape(o: Overlays) returns (r: Outcome)
    requires o.Valid()
    modifies o`keyupListening, o`focusinListening, o`focused
    modifies o.items`className, o.items`tabIndex, o.wrapper`ariaHidden, o.footer`ariaHidden
    ensures Escaped(o, r)
  {
    o.DeactivatePanels();
    o.ToggleHidden();
    r := o.Release();
  }

  /** From a reachable state Escape never throws, closes every drawer,
      returns focus to the toggle that opened it and leads to a reachable
      state. */
  twostate lemma EscapeKeepsReachable(o: Overlays, r: Outcome)
    requires old(o.Reachable() && o.keyupListening) && Escaped(o, r)
    ensures r == Done && o.Reachable() && !AnyActive(o.items)
    ensures o.focused == o.lastOn
  {
    o.DeactivatedClosesAll();
  }

  /** The click handler bound to each drawer: only a click whose target
      carries the class "drawer" (the backdrop) closes it. */
  method BackdropClick(o: Overlays, drawer: Element, target: Element)
    requires o.Valid() && drawer in o.items
    modifies o`keyupListening, o.items`className, o.wrapper`ariaHidden, o.footer`ariaHidden
    ensures !HasClass(old(target.className), BackdropClass) ==>
      unchanged(o) && unchanged(o.items) && unchanged(o.wrapper, o.footer)
    ensures HasClass(old(target.className), BackdropClass) ==> o.BackdropToggled(drawer)
  {
    if HasClass(target.className, BackdropClass) {
      o.Backdrop(drawer);
    }
  }

  /** fenceDrawer on a focusin event whose target and ancestors are `chain`. */
  method FocusIn(o: Overlays, chain: seq<Element>)
    requires o.Valid()
    modifies o`focused
    ensures !old(o.focusinListening) || Found(chain, DrawerClass) != null ==> o.focused == old(o.focused)
    ensures old(o.focusinListening) && Found(chain, DrawerClass) == null ==>
      o.focused == LastActive(o.items, old(o.focused))
  {
    o.Fence(chain, DrawerClass);
  }
}
