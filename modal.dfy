/** calcite.modal: modal dialogues opened and closed by their toggles,
    closed by Escape or by a click on the modal element itself (its
    backdrop), with focus kept inside an open modal. */
module Modal {
  import opened Wrappers
  import opened Dom
  import opened Overlay

  const ModalClass := "js-modal"
  const EscapeKey := 27

  /** The modal a toggle click acts on: the lookup by data-modal when the
      toggle's attribute is present and non-empty (`byId` is what
      '.js-modal[data-modal="..."]' returned), otherwise the closest
      js-modal on `chain`, the toggle and its ancestors. */
  function ModalOf(chain: seq<Element>, modalId: Option<string>, byId: Element?): (r: Element?)
    reads chain
    ensures modalId.Some? && modalId.value != "" ==> r == byId
    ensures modalId.None? || modalId.value == "" ==>
      (r == null <==> forall k :: 0 <= k < |chain| ==> !Matches(chain[k], ModalClass))
    ensures modalId.None? || modalId.value == "" ==> r != null ==>
      exists k :: 0 <= k < |chain| && r == chain[k] && Matches(r, ModalClass) &&
        forall j :: 0 <= j < k ==> !Matches(chain[j], ModalClass)
  {
    if modalId.Some? && modalId.value != "" then byId
    else
      var m := FirstMatch(chain, ModalClass);
      assert m.Some? ==> chain[m.value] == Found(chain, ModalClass);
      Found(chain, ModalClass)
  }

  /** bindModalToggle; chain[0] is the clicked toggle.  With no modal found,
      hasClass(null, ...) throws before anything changes. */
  method ToggleClick(o: Overlays, chain: seq<Element>, modalId: Option<string>, byId: Element?)
    returns (r: Outcome)
    requires o.Valid() && |chain| >= 1
    modifies o`lastOn, o`keyupListening, o`focusinListening, o`focused
    modifies o.items`className, Present(ModalOf(chain, modalId, byId))`className
    modifies Present(ModalOf(chain, modalId, byId))`tabIndex
    modifies o.wrapper`ariaHidden, o.footer`ariaHidden
    ensures var m := old(ModalOf(chain, modalId, byId));
      (m == null ==> r == Fault && unchanged(o) && unchanged(o.items) && unchanged(o.wrapper, o.footer)) &&
      (m != null ==> o.Flipped(m) && o.Settled(chain[0], m, r, old(IsActive(m))))
  {
    var modal := ModalOf(chain, modalId, byId);
    r := o.ToggleFound(chain[0], modal);
  }

  /** The effect of escapeCloseModal on Escape: every modal deactivated,
      then lastOn.focus(); only when that succeeds do toggleAriaHidden and
      the unregistering of both handlers follow. */
  twostate predicate Escaped(o: Overlays, r: Outcome)
    reads o`lastOn, o`keyupListening, o`focusinListening, o`focused
    reads o.items`className, o.items`tabIndex, o.wrapper`ariaHidden, o.footer`ariaHidden
  {
    o.Deactivated() && o.lastOn == old(o.lastOn) &&
    if o.lastOn == null then
      r == Fault && o.focused == old(o.focused) &&
      o.wrapper.ariaHidden == old(o.wrapper.ariaHidden) && o.footer.ariaHidden == old(o.footer.ariaHidden) &&
      o.keyupListening == old(o.keyupListening) && o.focusinListening == old(o.focusinListening)
    else
      r == Done && o.focused == o.lastOn && o.HiddenToggled() &&
      !o.keyupListening && !o.focusinListening
  }

  /** A keyup on the document: escapeCloseModal runs when it is registered
      and acts on Escape (keyCode 27) only. */
  method KeyUp(o: Overlays, keyCode: int) returns (r: Outcome)
    requires o.Valid()
    modifies o`keyupListening, o`focusinListening, o`focused
    modifies o.items`className, o.items`tabIndex, o.wrapper`ariaHidden, o.footer`ariaHidden
    ensures !(old(o.keyupListening) && keyCode == EscapeKey) ==>
      r == Done && unchanged(o) && unchanged(o.items) && unchanged(o.wrapper, o.footer)
    ensures old(o.keyupListening) && keyCode == EscapeKey ==> Escaped(o, r)
  {
    if o.keyupListening && keyCode == EscapeKey {
      r := Escape(o);
    } else {
      r := Done;
    }
  }

  /** The body of escapeCloseModal for an Escape key. */
  method Escape(o: Overlays) returns (r: Outcome)
    requires o.Valid()
    modifies o`keyupListening, o`focusinListening, o`focused
    modifies o.items`className, o.items`tabIndex, o.wrapper`ariaHidden, o.footer`ariaHidden
    ensures Escaped(o, r)
  {
    o.DeactivatePanels();
    if o.lastOn == null {
      return Fault;
    }
    o.focused := o.lastOn;
    o.ToggleHidden();
    o.keyupListening := false;
    o.focusinListening := false;
    return Done;
  }

  /** From a reachable state Escape never throws, closes every modal,
      returns focus to the toggle that opened it and leads to a reachable
      state. */
  twostate lemma EscapeKeepsReachable(o: Overlays, r: Outcome)
    requires old(o.Reachable() && o.keyupListening) && Escaped(o, r)
    ensures r == Done && o.Reachable() && !AnyActive(o.items)
    ensures o.focused == o.lastOn
  {
    o.DeactivatedClosesAll();
  }

  /** The click handler bound to each modal: propagation is stopped, and
      only a click whose target is the modal element itself closes it. */
  method BackdropClick(o: Overlays, modal: Element, target: Element)
    requires o.Valid() && modal in o.items
    modifies o`keyupListening, o.items`className, o.wrapper`ariaHidden, o.footer`ariaHidden
    ensures target != modal ==> unchanged(o) && unchanged(o.items) && unchanged(o.wrapper, o.footer)
    ensures target == modal ==> o.BackdropToggled(modal)
  {
    if target == modal {
      o.Backdrop(modal);
    }
  }

  /** fenceModal on a focusin event whose target and ancestors are `chain`. */
  method FocusIn(o: Overlays, chain: seq<Element>)
    requires o.Valid()
    modifies o`focused
    ensures !old(o.focusinListening) || Found(chain, ModalClass) != null ==> o.focused == old(o.focused)
    ensures old(o.focusinListening) && Found(chain, ModalClass) == null ==>
      o.focused == LastActive(o.items, old(o.focused))
  {
    o.Fence(chain, ModalClass);
  }
}
