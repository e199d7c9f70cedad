/** The state calcite.drawer and calcite.modal keep in their closures, and
    the steps the two widgets share.  Each widget owns a list of panels
    (drawers or modals), the page's .wrapper and .footer (hidden from
    assistive technology while a panel is open), the toggle that last opened
    a panel (lastOn), and whether its Escape (keyup) and focus-fence
    (focusin) handlers are registered on the document. */
module Overlay {
  import opened Wrappers
  import opened ClassList
  import opened Dom

  /** Some element of the list carries is-active. */
  predicate AnyActive(items: seq<Element>)
    reads items
  {
    exists k :: 0 <= k < |items| && IsActive(items[k])
  }

  class Overlays {
    const items: seq<Element>
    const wrapper: Element
    const footer: Element
    /** lastOn: undefined until a toggle first opens a panel. */
    var lastOn: Element?
    var keyupListening: bool
    var focusinListening: bool
    /** The element the widget last called focus() on. */
    ghost var focused: Element?

    predicate Valid() {
      Distinct(items) && wrapper != footer
    }

    /** The states the handlers can reach from a page where no panel is
        open: at most one panel is open, exactly while the Escape handler is
        registered; the Escape handler is only registered together with the
        fence; and once the fence is registered lastOn is set. */
    predicate Reachable()
      reads this, items
    {
      AllWellFormed(items) && AtMostOneActive(items) &&
      (keyupListening ==> focusinListening) &&
      (focusinListening ==> lastOn != null) &&
      (keyupListening <==> AnyActive(items))
    }

    constructor (items: seq<Element>, wrapper: Element, footer: Element)
      requires Distinct(items) && wrapper != footer
      ensures this.items == items && this.wrapper == wrapper && this.footer == footer
      ensures lastOn == null && !keyupListening && !focusinListening && focused == null
      ensures Valid()
      ensures AllWellFormed(items) && (forall k :: 0 <= k < |items| ==> !IsActive(items[k])) ==> Reachable()
    {
      this.items := items;
      this.wrapper := wrapper;
      this.footer := footer;
      lastOn := null;
      keyupListening := false;
      focusinListening := false;
      focused := null;
    }

    /** The effect of toggleAriaHidden([wrapper, footer]). */
    twostate predicate HiddenToggled()
      reads wrapper`ariaHidden, footer`ariaHidden
    {
      wrapper.ariaHidden == ToggledHidden(old(wrapper.ariaHidden)) &&
      footer.ariaHidden == ToggledHidden(old(footer.ariaHidden))
    }

    /** toggleAriaHidden([wrapper, footer]). */
    method ToggleHidden()
      requires Valid()
      modifies wrapper`ariaHidden, footer`ariaHidden
      ensures HiddenToggled()
    {
      var pair := [wrapper, footer];
      ToggleAriaHidden(pair);
      assert pair[0] == wrapper && pair[1] == footer;
    }

    /** What a toggle click on panel `d` opened by `toggle` does once
        toggleActive and toggleAriaHidden are done (Flipped): a panel that
        was open (`wasOpen`) is closed (both handlers unregistered,
        lastOn.focus(), which throws while lastOn is undefined, then
        tabindex removed); a closed one is opened (both handlers registered,
        lastOn becomes the toggle, tabindex 0, focus on `d`). */
    twostate predicate Settled(toggle: Element, d: Element, r: Outcome, wasOpen: bool)
      reads this`lastOn, this`keyupListening, this`focusinListening, this`focused, d`tabIndex
    {
      if wasOpen then
        !keyupListening && !focusinListening && lastOn == old(lastOn) &&
        (r == Fault <==> lastOn == null) &&
        (if r == Done then focused == lastOn && d.tabIndex == None
         else focused == old(focused) && d.tabIndex == old(d.tabIndex))
      else
        r == Done && keyupListening && focusinListening && lastOn == toggle &&
        d.tabIndex == Some("0") && focused == d
    }

    /** The class and aria-hidden changes every toggle and backdrop click
        makes: toggleActive(panels, d), then toggleAriaHidden([wrapper, footer]). */
    twostate predicate Flipped(d: Element)
      reads items`className, d`className, wrapper`ariaHidden, footer`ariaHidden
    {
      ActiveToggled(items, d) && HiddenToggled()
    }

    method Flip(d: Element)
      requires Valid()
      modifies items`className, d`className, wrapper`ariaHidden, footer`ariaHidden
      ensures Flipped(d)
    {
      ToggleActive(items, d);
      ToggleHidden();
    }

    /** What Flipped means for a panel of the list on well-formed class
        strings: the panel's state flips, an opened panel is the only open
        one, and at most one stays open. */
    twostate lemma FlipOutcome(d: Element)
      requires Valid() && d in items && Flipped(d) && old(AllWellFormed(items))
      ensures IsActive(d) == !old(IsActive(d))
      ensures AllWellFormed(items)
      ensures !old(IsActive(d)) ==> forall k :: 0 <= k < |items| && items[k] != d ==> !IsActive(items[k])
      ensures old(AtMostOneActive(items)) ==> AtMostOneActive(items)
    {
      var j :| 0 <= j < |items| && items[j] == d;
      assert old(WellFormed(items[j].className));
      if old(IsActive(d)) {
        RemoveActiveValue(old(d.className));
        assert forall k :: 0 <= k < |items| && IsActive(items[k]) ==> items[k] != d && old(IsActive(items[k]));
      } else {
        RemoveActiveValue(old(d.className));
        AddActive(RemoveClassValue(old(d.className), Active));
        forall k | 0 <= k < |items| && items[k] != d
          ensures !IsActive(items[k]) && WellFormed(items[k].className)
        {
          RemoveActiveValue(old(items[k].className));
        }
      }
    }

    /** The toggle click handler from its lookup on: `d` is the panel the
        lookup returned; with none, hasClass(null, ...) throws before
        anything changes. */
    method ToggleFound(toggle: Element, d: Element?) returns (r: Outcome)
      requires Valid()
      modifies this`lastOn, this`keyupListening, this`focusinListening, this`focused
      modifies items`className, Present(d)`className, Present(d)`tabIndex, wrapper`ariaHidden, footer`ariaHidden
      ensures d == null ==> r == Fault && unchanged(this) && unchanged(items) && unchanged(wrapper, footer)
      ensures d != null ==> Flipped(d) && Settled(toggle, d, r, old(IsActive(d)))
    {
      if d == null {
        return Fault;
      }
      r := Toggle(toggle, d);
    }

    /** The toggle click handler once its panel is found. */
    method Toggle(toggle: Element, d: Element) returns (r: Outcome)
      requires Valid()
      modifies this`lastOn, this`keyupListening, this`focusinListening, this`focused
      modifies items`className, d`className, d`tabIndex, wrapper`ariaHidden, footer`ariaHidden
      ensures Flipped(d)
      ensures Settled(toggle, d, r, old(IsActive(d)))
    {
      var isOpen := HasClass(d.className, Active);
      Flip(d);
      r := Settle(toggle, d, isOpen);
    }

    /** The toggle handler after toggleActive and toggleAriaHidden: close
        the panel when it was open, open it otherwise. */
    method Settle(toggle: Element, d: Element, wasOpen: bool) returns (r: Outcome)
      modifies this`lastOn, this`keyupListening, this`focusinListening, this`focused, d`tabIndex
      ensures Settled(toggle, d, r, wasOpen)
    {
      if wasOpen {
        r := Close(d);
      } else {
        Open(toggle, d);
        r := Done;
      }
    }

    /** Both handlers unregistered, then lastOn.focus(), which throws while
        lastOn is undefined: the closing steps the toggle and the Escape
        handler of the drawer share. */
    method Release() returns (r: Outcome)
      modifies this`keyupListening, this`focusinListening, this`focused
      ensures !keyupListening && !focusinListening
      ensures r == Fault <==> lastOn == null
      ensures focused == (if r == Done then lastOn else old(focused))
    {
      keyupListening := false;
      focusinListening := false;
      if lastOn == null {
        return Fault;
      }
      focused := lastOn;
      return Done;
    }

    /** The closing branch of the toggle handler. */
    method Close(d: Element) returns (r: Outcome)
      modifies this`keyupListening, this`focusinListening, this`focused, d`tabIndex
      ensures !keyupListening && !focusinListening
      ensures r == Fault <==> lastOn == null
      ensures r == Done ==> focused == lastOn && d.tabIndex == None
      ensures r == Fault ==> focused == old(focused) && d.tabIndex == old(d.tabIndex)
    {
      r := Release();
      if r == Done {
        d.tabIndex := None;
      }
    }

    /** The opening branch of the toggle handler. */
    method Open(toggle: Element, d: Element)
      modifies this`lastOn, this`keyupListening, this`focusinListening, this`focused, d`tabIndex
      ensures keyupListening && focusinListening && lastOn == toggle
      ensures d.tabIndex == Some("0") && focused == d
    {
      keyupListening := true;
      focusinListening := true;
      lastOn := toggle;
      d.tabIndex := Some("0");
      focused := d;
    }

    /** From a reachable state a toggle click on one of the panels never
        throws, flips the panel and leads to a reachable state. */
    twostate lemma ToggleKeepsReachable(toggle: Element, d: Element, r: Outcome)
      requires Valid() && d in items && old(Reachable())
      requires Flipped(d) && Settled(toggle, d, r, old(IsActive(d)))
      ensures r == Done && Reachable()
      ensures IsActive(d) == !old(IsActive(d))
    {
      var j :| 0 <= j < |items| && items[j] == d;
      FlipOutcome(d);
      if old(IsActive(d)) {
        assert old(AnyActive(items));
        forall k | 0 <= k < |items|
          ensures !IsActive(items[k])
        {
          if items[k] != d {
            assert k != j;
            assert !old(IsActive(items[k]));
          }
        }
      } else {
        assert IsActive(items[j]);
      }
    }

    /** The effect of the click handler on panel `d` when the click lands on
        the backdrop: toggleActive, toggleAriaHidden and the Escape handler
        unregistered; the fence stays registered and lastOn is kept. */
    twostate predicate BackdropToggled(d: Element)
      reads this`lastOn, this`keyupListening, this`focusinListening, items`className, d`className
      reads wrapper`ariaHidden, footer`ariaHidden
    {
      Flipped(d) && !keyupListening && focusinListening == old(focusinListening) && lastOn == old(lastOn)
    }

    /** The backdrop handler once the click is known to be on the backdrop. */
    method Backdrop(d: Element)
      requires Valid()
      modifies this`keyupListening, items`className, d`className, wrapper`ariaHidden, footer`ariaHidden
      ensures BackdropToggled(d)
    {
      Flip(d);
      keyupListening := false;
    }

    /** A backdrop click on the open panel closes it and keeps the state
        reachable, but leaves the fence registered with no panel open. */
    twostate lemma BackdropLeavesFence(d: Element)
      requires Valid() && d in items && old(Reachable() && IsActive(d)) && BackdropToggled(d)
      ensures Reachable() && !AnyActive(items)
      ensures focusinListening && !keyupListening
    {
      var j :| 0 <= j < |items| && items[j] == d;
      FlipOutcome(d);
      forall k | 0 <= k < |items|
        ensures !IsActive(items[k])
      {
        if items[k] != d {
          assert k != j;
          assert !old(IsActive(items[k]));
        }
      }
      assert old(keyupListening) by {
        assert old(IsActive(items[j]));
      }
    }

    /** The backdrop handlers do not check that the panel is open: a click
        on a closed panel's backdrop opens it without registering the Escape
        handler, which leaves the reachable states. */
    twostate lemma BackdropOpensClosed(d: Element)
      requires Valid() && d in items && old(Reachable() && !IsActive(d)) && BackdropToggled(d)
      ensures IsActive(d) && !keyupListening && AnyActive(items)
      ensures !Reachable()
    {
      var j :| 0 <= j < |items| && items[j] == d;
      FlipOutcome(d);
      assert IsActive(items[j]);
    }

    /** The loop both Escape handlers start with: every panel loses
        is-active and its tabindex. */
    twostate predicate Deactivated()
      reads items`className, items`tabIndex
    {
      forall k :: 0 <= k < |items| ==>
        items[k].className == RemoveClassValue(old(items[k].className), Active) && items[k].tabIndex == None
    }

    method DeactivatePanels()
      requires Valid()
      modifies items`className, items`tabIndex
      ensures Deactivated()
    {
      DeactivateAll(items, Active);
    }

    /** After the Escape loop no panel is open and the class strings stay well formed. */
    twostate lemma DeactivatedClosesAll()
      requires old(AllWellFormed(items)) && Deactivated()
      ensures !AnyActive(items) && AllWellFormed(items) && AtMostOneActive(items)
    {
      forall k | 0 <= k < |items|
        ensures !IsActive(items[k]) && WellFormed(items[k].className)
      {
        RemoveActiveValue(old(items[k].className));
      }
    }

    /** The focus fence: a focusin outside every panel (`chain` is the
        event target and its ancestors, `panelClass` the js- class of the
        panels) calls focus() on each open panel in turn. */
    method Fence(chain: seq<Element>, panelClass: string)
      requires Valid()
      modifies this`focused
      ensures !old(focusinListening) || Found(chain, panelClass) != null ==> focused == old(focused)
      ensures old(focusinListening) && Found(chain, panelClass) == null ==>
        focused == LastActive(items, old(focused))
    {
      var inside := Closest(panelClass, chain);
      if focusinListening && inside == null {
        for i := 0 to |items|
          invariant focused == LastActive(items[..i], old(focused))
        {
          assert items[..i + 1][..i] == items[..i];
          if HasClass(items[i].className, Active) {
            focused := items[i];
          }
        }
        assert items[..|items|] == items;
      }
    }
  }

  /** The last active element of the list, or `none` when none is. */
  function LastActive(items: seq<Element>, none: Element?): (r: Element?)
    reads items
    ensures r == none || (r in items && IsActive(r))
    ensures (forall k :: 0 <= k < |items| ==> !IsActive(items[k])) ==> r == none
  {
    if items == [] then none
    else if IsActive(items[|items| - 1]) then items[|items| - 1]
    else LastActive(items[..|items| - 1], none)
  }

  /** The fence ends on the last open panel: when items[j] is open and no
      later panel is, focus lands on items[j]. */
  lemma {:induction false} LastActiveIsLast(items: seq<Element>, none: Element?, j: nat)
    requires j < |items| && IsActive(items[j])
    requires forall k :: j < k < |items| ==> !IsActive(items[k])
    ensures LastActive(items, none) == items[j]
    decreases |items|
  {
    var n := |items| - 1;
    if j < n {
      var front := items[..n];
      assert !IsActive(items[n]);
      assert LastActive(items, none) == LastActive(front, none);
      assert front[j] == items[j];
      assert forall k :: j < k < |front| ==> !IsActive(front[k]) by {
        assert forall k :: 0 <= k < |front| ==> front[k] == items[k];
      }
      LastActiveIsLast(front, none, j);
    }
  }

  /** With at most one panel open, the fence moves focus to the open panel. */
  lemma FenceFocusesOpen(items: seq<Element>, none: Element?, j: nat)
    requires AtMostOneActive(items) && j < |items| && IsActive(items[j])
    ensures LastActive(items, none) == items[j]
  {
    LastActiveIsLast(items, none, j);
  }
}
