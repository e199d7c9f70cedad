/** DOM elements as far as the widgets use them, the class-manipulation
    functions applied to an element (addClass, removeClass, toggleClass),
    the ancestor search `closest`, and the list helpers removeActive,
    toggleActive and toggleAriaHidden. */
module Dom {
  import opened Wrappers
  import opened ClassList

  /** The class every widget uses to mark its open or selected element. */
  const Active := "is-active"

  /** An element node.  Attributes that may be absent are options; an
      attribute set by setAttribute holds the string form of the value. */
  class Element {
    const nodeType: int
    var className: string
    var ariaHidden: Option<string>
    var ariaExpanded: Option<string>
    var tabIndex: Option<string>
    /** The `value` property of a form control. */
    var value: string

    constructor (nodeType: int, className: string)
      ensures this.nodeType == nodeType && this.className == className
      ensures ariaHidden == None && ariaExpanded == None && tabIndex == None && value == ""
    {
      this.nodeType := nodeType;
      this.className := className;
      ariaHidden := None;
      ariaExpanded := None;
      tabIndex := None;
      value := "";
    }
  }

  /** The element, as a frame: nothing when it is null. */
  function Present(e: Element?): (r: set<Element>)
    ensures e != null ==> r == {e}
    ensures e == null ==> r == {}
  {
    if e == null then {} else {e}
  }

  /** No element occurs twice (a NodeList from querySelectorAll never repeats a node). */
  predicate Distinct(items: seq<Element>) {
    forall i, j :: 0 <= i < j < |items| ==> items[i] != items[j]
  }

  predicate IsActive(e: Element)
    reads e
  {
    HasClass(e.className, Active)
  }

  /** Every class string of the list is well formed. */
  predicate AllWellFormed(items: seq<Element>)
    reads items
  {
    forall k :: 0 <= k < |items| ==> WellFormed(items[k].className)
  }

  /** At most one element of the list carries is-active. */
  predicate AtMostOneActive(items: seq<Element>)
    reads items
  {
    forall i, j :: 0 <= i < |items| && 0 <= j < |items| && IsActive(items[i]) && IsActive(items[j]) ==> i == j
  }

  lemma ActiveIsToken()
    ensures IsToken(Active)
  {
    assert forall ch :: ch in Active ==> ch in "-aceistv";
  }

  // ---------------------------------------------------------------------------
  // Class manipulation on an element
  // ---------------------------------------------------------------------------

  /** addClass(domNode, classes): for each piece of classes.split(' '), append
      " " + piece unless hasClass already holds. */
  method AddClass(el: Element, classes: string)
    modifies el`className
    ensures el.className == AddClassValue(old(el.className), classes)
  {
    var cs := Split(classes);
    for i := 0 to |cs|
      invariant el.className == AddAll(old(el.className), cs[..i])
    {
      if !HasClass(el.className, cs[i]) {
        el.className := el.className + " " + cs[i];
      }
      assert cs[..i + 1][..i] == cs[..i];
    }
    assert cs[..|cs|] == cs;
  }

  /** removeClass(domNode, classes): in the padded class string replace the
      first " " + piece + " " by " " for each piece, then trim. */
  method RemoveClass(el: Element, classes: string)
    modifies el`className
    ensures el.className == RemoveClassValue(old(el.className), classes)
  {
    var padded := " " + el.className + " ";
    var cs := Split(classes);
    for i := 0 to |cs|
      invariant padded == RemoveAll(" " + old(el.className) + " ", cs[..i])
    {
      padded := ReplaceFirst(padded, " " + cs[i] + " ", " ");
      assert cs[..i + 1][..i] == cs[..i];
    }
    assert cs[..|cs|] == cs;
    el.className := Trim(padded);
  }

  /** toggleClass(domNode, className). */
  method ToggleClass(el: Element, className: string)
    modifies el`className
    ensures el.className == ToggleClassValue(old(el.className), className)
  {
    if HasClass(el.className, className) {
      RemoveClass(el, className);
    } else {
      AddClass(el, className);
    }
  }

  /** The class-only effect of adding is-active to a well-formed class string. */
  lemma AddActive(s: string)
    requires WellFormed(s)
    ensures HasClass(AddClassValue(s, Active), Active) && WellFormed(AddClassValue(s, Active))
  {
    ActiveIsToken();
    AddClassToken(s, Active);
  }

  /** The class-only effect of removing is-active from a well-formed class string. */
  lemma RemoveActiveValue(s: string)
    requires WellFormed(s)
    ensures !HasClass(RemoveClassValue(s, Active), Active) && WellFormed(RemoveClassValue(s, Active))
  {
    ActiveIsToken();
    RemoveClassWellFormed(s, Active);
  }

  /** toggleClass(_, 'is-active') on a well-formed class string flips the state. */
  lemma ToggleActiveValue(s: string)
    requires WellFormed(s)
    ensures HasClass(ToggleClassValue(s, Active), Active) == !HasClass(s, Active)
    ensures WellFormed(ToggleClassValue(s, Active))
  {
    ActiveIsToken();
    ToggleClassFlips(s, Active);
  }

  // ---------------------------------------------------------------------------
  // closest
  // ---------------------------------------------------------------------------

  /** The test closest applies to each node: an element node carrying the class. */
  predicate Matches(n: Element, className: string)
    reads n
  {
    n.nodeType == 1 && HasClass(n.className, className)
  }

  /** The position on the ancestor-or-self chain of the first node that matches. */
  function FirstMatch(chain: seq<Element>, className: string): (r: Option<nat>)
    reads chain
    ensures r.Some? ==> r.value < |chain| && Matches(chain[r.value], className)
    ensures r.Some? ==> forall k :: 0 <= k < r.value ==> !Matches(chain[k], className)
    ensures r.None? <==> forall k :: 0 <= k < |chain| ==> !Matches(chain[k], className)
  {
    if chain == [] then None
    else if Matches(chain[0], className) then Some(0)
    else
      var rest := FirstMatch(chain[1..], className);
      assert forall k :: 1 <= k < |chain| ==> chain[k] == chain[1..][k - 1];
      if rest.None? then None else Some(rest.value + 1)
  }

  /** The element FirstMatch designates, or null. */
  function Found(chain: seq<Element>, className: string): (r: Element?)
    reads chain
    ensures r != null ==> r in chain && Matches(r, className)
    ensures r == null <==> forall k :: 0 <= k < |chain| ==> !Matches(chain[k], className)
  {
    var m := FirstMatch(chain, className);
    if m.Some? then chain[m.value] else null
  }

  /** closest(className, context): walk the chain context, context.parentNode,
      ... (chain[0] is the context node) and return the first node that is an
      element carrying the class; null when the chain runs out. */
  method Closest(className: string, chain: seq<Element>) returns (current: Element?)
    ensures current == Found(chain, className)
    ensures current != null ==>
      exists k :: 0 <= k < |chain| && chain[k] == current && Matches(current, className) &&
        (forall j :: 0 <= j < k ==> !Matches(chain[j], className))
  {
    var i := 0;
    while i < |chain|
      invariant 0 <= i <= |chain|
      invariant forall k :: 0 <= k < i ==> !Matches(chain[k], className)
    {
      if chain[i].nodeType == 1 && HasClass(chain[i].className, className) {
        FirstAt(chain, className, i);
        return chain[i];
      }
      i := i + 1;
    }
    return null;
  }

  /** A match with no match before it is where FirstMatch points. */
  lemma FirstAt(chain: seq<Element>, className: string, i: nat)
    requires i < |chain| && Matches(chain[i], className)
    requires forall k :: 0 <= k < i ==> !Matches(chain[k], className)
    ensures FirstMatch(chain, className) == Some(i)
  {
  }

  // ---------------------------------------------------------------------------
  // removeActive, toggleActive, toggleAriaHidden
  // ---------------------------------------------------------------------------

  /** removeClass(item, c) on every item of the list. */
  method RemoveClassAll(items: seq<Element>, c: string)
    requires Distinct(items)
    modifies items`className
    ensures forall k :: 0 <= k < |items| ==> items[k].className == RemoveClassValue(old(items[k].className), c)
  {
    for i := 0 to |items|
      invariant forall k :: 0 <= k < i ==> items[k].className == RemoveClassValue(old(items[k].className), c)
      invariant forall k :: i <= k < |items| ==> items[k].className == old(items[k].className)
    {
      RemoveClass(items[i], c);
    }
  }

  /** removeActive(array): removeClass(item, 'is-active') on every item. */
  method RemoveActive(items: seq<Element>)
    requires Distinct(items)
    modifies items`className
    ensures forall k :: 0 <= k < |items| ==> items[k].className == RemoveClassValue(old(items[k].className), Active)
    ensures forall k :: 0 <= k < |items| && WellFormed(old(items[k].className)) ==>
      !IsActive(items[k]) && WellFormed(items[k].className)
  {
    RemoveClassAll(items, Active);
    forall k | 0 <= k < |items| && WellFormed(old(items[k].className))
      ensures !IsActive(items[k]) && WellFormed(items[k].className)
    {
      RemoveActiveValue(old(items[k].className));
    }
  }

  /** The class changes toggleActive(items, el) makes: an active el loses
      is-active and nothing else changes; otherwise every other item loses
      it and el, after losing it too when it is in the list, gains it. */
  twostate predicate ActiveToggled(items: seq<Element>, el: Element)
    reads items`className, el`className
  {
    if old(IsActive(el)) then
      el.className == RemoveClassValue(old(el.className), Active) &&
      forall k :: 0 <= k < |items| && items[k] != el ==> items[k].className == old(items[k].className)
    else
      (forall k :: 0 <= k < |items| && items[k] != el ==>
        items[k].className == RemoveClassValue(old(items[k].className), Active)) &&
      el.className == AddClassValue(if el in items then RemoveClassValue(old(el.className), Active)
                                    else old(el.className), Active)
  }

  /** toggleActive(array, el).  `el` need not be in the list. */
  method ToggleActive(items: seq<Element>, el: Element)
    requires Distinct(items)
    modifies items`className, el`className
    ensures ActiveToggled(items, el)
  {
    var isActive := HasClass(el.className, Active);
    if isActive {
      RemoveClass(el, Active);
    } else {
      RemoveActive(items);
      AddClass(el, Active);
    }
  }

  /** What toggleActive means on well-formed class strings: el's state flips,
      an element that becomes active is the only active one of the list, and
      "at most one active" is kept. */
  twostate lemma ActiveToggledOutcome(items: seq<Element>, el: Element)
    requires Distinct(items) && ActiveToggled(items, el)
    requires old(AllWellFormed(items) && WellFormed(el.className))
    ensures IsActive(el) == !old(IsActive(el))
    ensures AllWellFormed(items) && WellFormed(el.className)
    ensures !old(IsActive(el)) ==> forall k :: 0 <= k < |items| && items[k] != el ==> !IsActive(items[k])
    ensures old(AtMostOneActive(items)) ==> AtMostOneActive(items)
  {
    if old(IsActive(el)) {
      RemoveActiveValue(old(el.className));
      assert forall k :: 0 <= k < |items| && IsActive(items[k]) ==> items[k] != el && old(IsActive(items[k]));
    } else {
      var mid := if el in items then RemoveClassValue(old(el.className), Active) else old(el.className);
      if el in items {
        RemoveActiveValue(old(el.className));
      }
      AddActive(mid);
      forall k | 0 <= k < |items| && items[k] != el
        ensures !IsActive(items[k]) && WellFormed(items[k].className)
      {
        RemoveActiveValue(old(items[k].className));
      }
    }
  }

  /** The attribute value toggleAriaHidden leaves: "true" is removed, any
      other value (absent, "false", "") becomes "true". */
  function ToggledHidden(v: Option<string>): (r: Option<string>)
    ensures r == None <==> v == Some("true")
    ensures r != None ==> r == Some("true")
  {
    if v != Some("true") then Some("true") else None
  }

  /** Toggling twice restores a node whose attribute was absent or "true". */
  lemma ToggledHiddenTwice(v: Option<string>)
    requires v == None || v == Some("true")
    ensures ToggledHidden(ToggledHidden(v)) == v
  {
  }

  /** ... but not one that held "false": it ends up without the attribute. */
  lemma ToggledHiddenFalseTwice()
    ensures ToggledHidden(ToggledHidden(Some("false"))) == None
  {
  }

  /** toggleAriaHidden(array). */
  method ToggleAriaHidden(nodes: seq<Element>)
    requires Distinct(nodes)
    modifies nodes`ariaHidden
    ensures forall k :: 0 <= k < |nodes| ==> nodes[k].ariaHidden == ToggledHidden(old(nodes[k].ariaHidden))
  {
    for i := 0 to |nodes|
      invariant forall k :: 0 <= k < i ==> nodes[k].ariaHidden == ToggledHidden(old(nodes[k].ariaHidden))
      invariant forall k :: i <= k < |nodes| ==> nodes[k].ariaHidden == old(nodes[k].ariaHidden)
    {
      var hidden := nodes[i].ariaHidden;
      if hidden != Some("true") {
        nodes[i].ariaHidden := Some("true");
      } else {
        nodes[i].ariaHidden := None;
      }
    }
  }

  /** The loop of the Escape handlers: removeClass(x, c) and
      removeAttribute('tabindex') on every item (c is 'is-active' there). */
  method DeactivateAll(items: seq<Element>, c: string)
    requires Distinct(items)
    modifies items`className, items`tabIndex
    ensures forall k :: 0 <= k < |items| ==>
      items[k].className == RemoveClassValue(old(items[k].className), c) && items[k].tabIndex == None
  {
    for i := 0 to |items|
      invariant forall k :: 0 <= k < i ==>
        items[k].className == RemoveClassValue(old(items[k].className), c) && items[k].tabIndex == None
      invariant forall k :: i <= k < |items| ==> items[k].className == old(items[k].className)
    {
      RemoveClass(items[i], c);
      items[i].tabIndex := None;
    }
  }
}
