/** The accordion: a list of sections, each opened and closed by a click (or
    Enter) on it.  A click toggles the section's is-active class and its
    aria-expanded attribute; the two are toggled by different rules, so they
    can disagree. */
module Accordion {
  import opened Wrappers
  import opened ClassList
  import opened Dom

  const SectionClass := "accordion-section"

  /** The value toggleAriaExpanded writes.  It tests the attribute for
      truthiness, so any present non-empty value, "false" included, becomes
      "false"; only an absent or empty attribute becomes "true". */
  function ToggledExpanded(v: Option<string>): (r: Option<string>)
    ensures r == Some("false") <==> (v.Some? && v.value != "")
    ensures r == Some("true") <==> !(v.Some? && v.value != "")
  {
    if v.Some? && v.value != "" then Some("false") else Some("true")
  }

  /** The attribute after `n` clicks. */
  function AfterClicks(v: Option<string>, n: nat): Option<string> {
    if n == 0 then v else ToggledExpanded(AfterClicks(v, n - 1))
  }

  /** Setup writes "true" or "false"; from then on every click leaves "false". */
  lemma {:induction false} ClicksLeaveFalse(v: Option<string>, n: nat)
    requires v == Some("true") || v == Some("false")
    requires n >= 1
    ensures AfterClicks(v, n) == Some("false")
  {
    if n > 1 {
      ClicksLeaveFalse(v, n - 1);
    }
  }

  /** The value setup writes for a section. */
  function SetupExpanded(className: string): (r: Option<string>)
    ensures r == Some("true") <==> HasClass(className, Active)
    ensures r == Some("false") <==> !HasClass(className, Active)
  {
    if HasClass(className, Active) then Some("true") else Some("false")
  }

  /** A collapsed section, set up, then clicked: it is now active but its
      aria-expanded attribute says "false". */
  lemma FirstClickDisagrees(s: string)
    requires WellFormed(s) && !HasClass(s, Active)
    ensures HasClass(ToggleClassValue(s, Active), Active)
    ensures ToggledExpanded(SetupExpanded(s)) == Some("false")
  {
    ToggleActiveValue(s);
  }

  /** The position of the first false entry, or |flags| when there is none. */
  function FirstFalse(flags: seq<bool>): (n: nat)
    ensures n <= |flags|
    ensures forall k :: 0 <= k < n ==> flags[k]
    ensures n < |flags| ==> !flags[n]
  {
    if flags == [] || !flags[0] then 0 else 1 + FirstFalse(flags[1..])
  }

  /** The setup loop over an accordion's sections.  `hasChild[k]` says
      whether section k has an element child: the loop first writes role and
      tabindex on that child, so at the first section without one the loop
      throws, and that section and every later one keep their aria-expanded.
      Every section before it gets "true" when active and "false" otherwise. */
  method SetupSections(children: seq<Element>, hasChild: seq<bool>) returns (r: Outcome)
    requires Distinct(children) && |hasChild| == |children|
    modifies children`ariaExpanded
    ensures var n := FirstFalse(hasChild);
      (r == Fault <==> n < |children|) &&
      forall k :: 0 <= k < |children| ==>
        children[k].ariaExpanded == if k < n then SetupExpanded(children[k].className) else old(children[k].ariaExpanded)
  {
    var n := FirstFalse(hasChild);
    for i := 0 to |children|
      invariant i <= n
      invariant forall k :: 0 <= k < |children| ==>
        children[k].ariaExpanded == if k < i then SetupExpanded(children[k].className) else old(children[k].ariaExpanded)
    {
      if !hasChild[i] {
        return Fault;
      }
      if HasClass(children[i].className, Active) {
        children[i].ariaExpanded := Some("true");
      } else {
        children[i].ariaExpanded := Some("false");
      }
    }
    return Done;
  }

  /** toggleAriaExpanded(domNode). */
  method ToggleAriaExpanded(el: Element)
    modifies el`ariaExpanded
    ensures el.ariaExpanded == ToggledExpanded(old(el.ariaExpanded))
  {
    if el.ariaExpanded.Some? && el.ariaExpanded.value != "" {
      el.ariaExpanded := Some("false");
    } else {
      el.ariaExpanded := Some("true");
    }
  }

  /** toggleAccordion(e): `chain` is the event target and its ancestors.
      With no accordion-section on the chain, toggleClass(null, ...) throws
      and nothing changes. */
  method ToggleAccordion(chain: seq<Element>) returns (r: Outcome)
    modifies chain`className, chain`ariaExpanded
    ensures var p := old(Found(chain, SectionClass));
      (r == Fault <==> p == null) &&
      (p == null ==> forall k :: 0 <= k < |chain| ==>
        chain[k].className == old(chain[k].className) && chain[k].ariaExpanded == old(chain[k].ariaExpanded)) &&
      (p != null ==>
        p.className == ToggleClassValue(old(p.className), Active) &&
        p.ariaExpanded == ToggledExpanded(old(p.ariaExpanded)) &&
        forall k :: 0 <= k < |chain| && chain[k] != p ==>
          chain[k].className == old(chain[k].className) && chain[k].ariaExpanded == old(chain[k].ariaExpanded))
  {
    var parent := Closest(SectionClass, chain);
    if parent == null {
      return Fault;
    }
    ToggleClass(parent, Active);
    ToggleAriaExpanded(parent);
    return Done;
  }
}
