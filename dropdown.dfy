/** Dropdown menus: a click on a toggle closes every menu of the group and
    opens the clicked toggle's menu unless it was the open one; a click that
    reaches the document body closes them all. */
module Dropdown {
  import opened Wrappers
  import opened ClassList
  import opened Dom

  const DropdownClass := "js-dropdown"

  /** The state calcite.dropdown(domNode) keeps in its closure: the group's
      menus and whether closeAllDropdowns is registered as a click listener
      on document.body. */
  class Dropdowns {
    const dropdowns: seq<Element>
    var bodyListening: bool

    predicate Valid() {
      Distinct(dropdowns)
    }

    constructor (dropdowns: seq<Element>)
      requires Distinct(dropdowns)
      ensures this.dropdowns == dropdowns && !bodyListening && Valid()
    {
      this.dropdowns := dropdowns;
      bodyListening := false;
    }

    /** The effect of closeAllDropdowns: the body listener is unregistered
        and every menu has lost is-active. */
    twostate predicate AllClosed()
      reads this`bodyListening, dropdowns`className
    {
      !bodyListening &&
      forall k :: 0 <= k < |dropdowns| ==>
        dropdowns[k].className == RemoveClassValue(old(dropdowns[k].className), Active)
    }

    /** The effect of a toggle click whose menu is `d`: every other menu of
        the group has lost is-active, `d` has toggled (ToggledOpen), and the
        body listener is registered. */
    twostate predicate MenuToggled(d: Element)
      reads this`bodyListening, dropdowns`className, d`className
    {
      bodyListening &&
      (forall k :: 0 <= k < |dropdowns| && dropdowns[k] != d ==>
        dropdowns[k].className == RemoveClassValue(old(dropdowns[k].className), Active)) &&
      ToggledOpen(d in dropdowns, old(d.className), d.className)
    }

    /** closeAllDropdowns. */
    method CloseAllDropdowns()
      requires Valid()
      modifies this`bodyListening, dropdowns`className
      ensures AllClosed()
    {
      bodyListening := false;
      RemoveActive(dropdowns);
    }

    /** The click handler bindToggle attaches to a toggle; `chain` is the
        toggle and its ancestors.  Without a js-dropdown on the chain,
        hasClass(null, ...) throws before anything changes. */
    method ToggleClick(chain: seq<Element>) returns (r: Outcome)
      requires Valid()
      modifies this`bodyListening, dropdowns`className, chain`className
      ensures var d := old(Found(chain, DropdownClass));
        (r == Fault <==> d == null) &&
        (d == null ==>
          unchanged(this`bodyListening) && unchanged(dropdowns`className) && unchanged(chain`className)) &&
        (d != null ==>
          MenuToggled(d) &&
          forall k :: 0 <= k < |chain| && chain[k] != d && chain[k] !in dropdowns ==>
            chain[k].className == old(chain[k].className))
    {
      var dropdown := Closest(DropdownClass, chain);
      if dropdown == null {
        return Fault;
      }
      ToggleMenu(dropdown);
      return Done;
    }

    /** The handler once its menu is found: note whether it is open, close
        every menu, reopen it unless it was open, register the body listener. */
    method ToggleMenu(dropdown: Element)
      requires Valid()
      modifies this`bodyListening, dropdowns`className, dropdown`className
      ensures MenuToggled(dropdown)
    {
      var isOpen := HasClass(dropdown.className, Active);
      CloseAllDropdowns();
      if !isOpen {
        AddClass(dropdown, Active);
      }
      bodyListening := true;
    }

    /** On well-formed class strings a toggle click leaves every other menu
        of the group closed, so at most one is open; the clicked menu is open
        exactly when it was closed (or, outside the group, open in any case). */
    twostate lemma MenuToggledOutcome(d: Element)
      requires Valid() && MenuToggled(d)
      requires old(AllWellFormed(dropdowns) && WellFormed(d.className))
      ensures forall k :: 0 <= k < |dropdowns| && dropdowns[k] != d ==> !IsActive(dropdowns[k])
      ensures d in dropdowns ==> IsActive(d) == !old(IsActive(d))
      ensures d !in dropdowns ==> IsActive(d)
      ensures AtMostOneActive(dropdowns)
    {
      ToggleClickExclusive(d in dropdowns, old(d.className), d.className);
      forall k | 0 <= k < |dropdowns| && dropdowns[k] != d
        ensures !IsActive(dropdowns[k])
      {
        RemoveActiveValue(old(dropdowns[k].className));
      }
    }

    /** A click that reaches document.body: closeAllDropdowns runs when it is
        registered, and nothing happens otherwise. */
    method BodyClick()
      requires Valid()
      modifies this`bodyListening, dropdowns`className
      ensures old(bodyListening) ==> AllClosed()
      ensures !old(bodyListening) ==> unchanged(this`bodyListening) && unchanged(dropdowns`className)
    {
      if bodyListening {
        CloseAllDropdowns();
      }
    }
  }

  /** The class string a toggle click leaves on the clicked menu: it first
      loses is-active as a member of the group (when it is one), then gains
      it back unless it was open. */
  predicate ToggledOpen(inGroup: bool, before: string, after: string) {
    var closed := if inGroup then RemoveClassValue(before, Active) else before;
    after == if HasClass(before, Active) then closed else AddClassValue(closed, Active)
  }

  /** On a well-formed class string: a menu of the group ends up open exactly
      when it was closed; a menu outside the group ends up open either way. */
  lemma ToggleClickExclusive(inGroup: bool, before: string, after: string)
    requires WellFormed(before) && ToggledOpen(inGroup, before, after)
    ensures inGroup ==> HasClass(after, Active) == !HasClass(before, Active)
    ensures !inGroup ==> HasClass(after, Active)
    ensures WellFormed(after)
  {
    var closed := if inGroup then RemoveClassValue(before, Active) else before;
    if inGroup {
      RemoveActiveValue(before);
    }
    if !HasClass(before, Active) {
      AddActive(closed);
    }
  }
}
