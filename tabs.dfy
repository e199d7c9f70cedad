/** calcite.tabs: a tab group holds a row of tabs and a parallel list of
    tab sections; selecting a tab activates it and the section at the same
    position, and deactivates every other tab and section of the group. */
module Tabs {
  import opened Wrappers
  import opened ClassList
  import opened Dom

  const TabClass := "js-tab"
  const TabGroupClass := "js-tab-group"

  /** Array.prototype.indexOf on a list of elements: the first position
      holding `x`, or -1. */
  function Position(xs: seq<Element>, x: Element): (r: int)
    ensures -1 <= r < |xs|
    ensures r == -1 <==> x !in xs
    ensures r >= 0 ==> xs[r] == x && forall j :: 0 <= j < r ==> xs[j] != x
  {
    if xs == [] then -1
    else if xs[0] == x then 0
    else
      var p := Position(xs[1..], x);
      if p == -1 then -1 else p + 1
  }

  /** The ancestor-or-self chain of the first node on `chain` that closest
      would return for `className`; empty when there is none. */
  function From(chain: seq<Element>, className: string): (r: seq<Element>)
    reads chain
    ensures Found(chain, className) == null ==> r == []
    ensures Found(chain, className) != null ==> |r| >= 1 && r[0] == Found(chain, className)
    ensures forall k :: 0 <= k < |r| ==> r[k] in chain
    ensures Found(chain, className) != null ==>
      exists m :: 0 <= m < |chain| && r == chain[m..] && chain[m] == Found(chain, className)
  {
    var m := FirstMatch(chain, className);
    if m.None? then [] else
      assert chain[m.value..] == chain[m.value..];
      chain[m.value..]
  }

  /** No element is both a tab and a section of the group. */
  predicate Disjoint(tabs: seq<Element>, contents: seq<Element>) {
    forall i, j :: 0 <= i < |tabs| && 0 <= j < |contents| ==> tabs[i] != contents[j]
  }

  /** removeClass(item, c) (removeActive, for c = is-active) and
      aria-expanded "false" on every item. */
  method Clear(items: seq<Element>, c: string)
    requires Distinct(items)
    modifies items`className, items`ariaExpanded
    ensures forall k :: 0 <= k < |items| ==>
      items[k].className == RemoveClassValue(old(items[k].className), c) &&
      items[k].ariaExpanded == Some("false")
  {
    RemoveClassAll(items, c);
    SetExpanded(items, Some("false"));
  }

  /** setAttribute('aria-expanded', v) on every item. */
  method SetExpanded(items: seq<Element>, v: Option<string>)
    modifies items`ariaExpanded
    ensures forall k :: 0 <= k < |items| ==> items[k].ariaExpanded == v
  {
    for i := 0 to |items|
      invariant forall k :: 0 <= k < i ==> items[k].ariaExpanded == v
    {
      items[i].ariaExpanded := v;
    }
  }

  /** What switchTab does to the group once the tab `t` and its group are
      found: every tab and section is cleared, `t` gains is-active, and, when
      `t`'s position names a section, that section gains is-active and both
      get aria-expanded "true".  Otherwise contents[index] is undefined,
      addClass on it throws, and `t` is left active with aria-expanded as
      the clearing left it. */
  twostate predicate Selected(tabs: seq<Element>, contents: seq<Element>, t: Element, r: Outcome)
    reads tabs`className, tabs`ariaExpanded, contents`className, contents`ariaExpanded
    reads t`className, t`ariaExpanded
  {
    var index := Position(tabs, t);
    var ok := 0 <= index < |contents|;
    (r == Done <==> ok) &&
    (forall k :: 0 <= k < |tabs| && tabs[k] != t ==>
      tabs[k].className == RemoveClassValue(old(tabs[k].className), Active) &&
      tabs[k].ariaExpanded == Some("false")) &&
    (forall k :: 0 <= k < |contents| && k != index ==>
      contents[k].className == RemoveClassValue(old(contents[k].className), Active) &&
      contents[k].ariaExpanded == Some("false")) &&
    t.className == AddClassValue(if t in tabs then RemoveClassValue(old(t.className), Active)
                                 else old(t.className), Active) &&
    t.ariaExpanded == (if ok then Some("true") else if t in tabs then Some("false") else old(t.ariaExpanded)) &&
    (ok ==>
      contents[index].className == AddClassValue(RemoveClassValue(old(contents[index].className), Active), Active) &&
      contents[index].ariaExpanded == Some("true"))
  }

  /** switchTab: `chain` is the event target and its ancestors; `tabs` and
      `contents` are what the group's queries for .js-tab and
      .js-tab-section return.  Without a tab on the chain closest returns
      null for the group as well, and without a group querySelectorAll on
      null throws; both leave everything unchanged. */
  method SwitchTab(chain: seq<Element>, tabs: seq<Element>, contents: seq<Element>) returns (r: Outcome)
    requires Distinct(tabs) && Distinct(contents) && Disjoint(tabs, contents)
    requires Found(chain, TabClass) !in contents
    modifies tabs`className, tabs`ariaExpanded, contents`className, contents`ariaExpanded
    modifies Present(Found(chain, TabClass))`className, Present(Found(chain, TabClass))`ariaExpanded
    ensures var t := old(Found(chain, TabClass));
      var g := old(Found(From(chain, TabClass), TabGroupClass));
      (t == null || g == null ==>
        r == Fault && unchanged(tabs) && unchanged(contents) && unchanged(chain)) &&
      (t != null && g != null ==> Selected(tabs, contents, t, r))
  {
    var tab := Found(chain, TabClass);
    var group := Found(From(chain, TabClass), TabGroupClass);
    if tab == null || group == null {
      return Fault;
    }
    var index := Position(tabs, tab);
    r := Select(tabs, contents, tab, index, Active);
  }

  /** The body of switchTab once the tab's position `index` is known; `c`
      is the class it moves (is-active). */
  method Select(tabs: seq<Element>, contents: seq<Element>, t: Element, index: int, c: string)
    returns (r: Outcome)
    requires Distinct(tabs) && Distinct(contents) && Disjoint(tabs, contents) && t !in contents
    requires index == Position(tabs, t)
    modifies tabs`className, tabs`ariaExpanded, contents`className, contents`ariaExpanded
    modifies t`className, t`ariaExpanded
    ensures r == Done <==> 0 <= index < |contents|
    ensures forall k :: 0 <= k < |tabs| && tabs[k] != t ==>
      tabs[k].className == RemoveClassValue(old(tabs[k].className), c) &&
      tabs[k].ariaExpanded == Some("false")
    ensures forall k :: 0 <= k < |contents| && k != index ==>
      contents[k].className == RemoveClassValue(old(contents[k].className), c) &&
      contents[k].ariaExpanded == Some("false")
    ensures t.className == AddClassValue(if t in tabs then RemoveClassValue(old(t.className), c)
                                         else old(t.className), c)
    ensures t.ariaExpanded == (if r == Done then Some("true") else if t in tabs then Some("false") else old(t.ariaExpanded))
    ensures r == Done ==>
      contents[index].className == AddClassValue(RemoveClassValue(old(contents[index].className), c), c) &&
      contents[index].ariaExpanded == Some("true")
  {
    ClearGroup(tabs, contents, t, c);
    if index < 0 || index >= |contents| {
      return Fault;
    }
    Mark(t, contents[index], c);
    return Done;
  }

  /** removeClass(_, c) and aria-expanded "false" on every tab and section,
      then addClass(tab, c). */
  method ClearGroup(tabs: seq<Element>, contents: seq<Element>, t: Element, c: string)
    requires Distinct(tabs) && Distinct(contents) && Disjoint(tabs, contents) && t !in contents
    modifies tabs`className, tabs`ariaExpanded, contents`className, contents`ariaExpanded
    modifies t`className
    ensures forall k :: 0 <= k < |tabs| && tabs[k] != t ==>
      tabs[k].className == RemoveClassValue(old(tabs[k].className), c) &&
      tabs[k].ariaExpanded == Some("false")
    ensures forall k :: 0 <= k < |contents| ==>
      contents[k].className == RemoveClassValue(old(contents[k].className), c) &&
      contents[k].ariaExpanded == Some("false")
    ensures t.className == AddClassValue(if t in tabs then RemoveClassValue(old(t.className), c)
                                         else old(t.className), c)
    ensures t.ariaExpanded == if t in tabs then Some("false") else old(t.ariaExpanded)
  {
    Clear(tabs, c);
    Clear(contents, c);
    AddClass(t, c);
  }

  /** The last three statements of switchTab, once contents[index] exists. */
  method Mark(t: Element, section: Element, c: string)
    requires t != section
    modifies t`ariaExpanded, section`className, section`ariaExpanded
    ensures section.className == AddClassValue(old(section.className), c)
    ensures t.ariaExpanded == Some("true") && section.ariaExpanded == Some("true")
  {
    AddClass(section, c);
    t.ariaExpanded := Some("true");
    section.ariaExpanded := Some("true");
  }

  /** Selecting a tab whose position names a section, on well-formed class
      strings: afterwards exactly that tab and that section carry is-active
      and aria-expanded "true", and every other tab and section of the group
      is inactive with aria-expanded "false". */
  twostate lemma SwitchTabOutcome(tabs: seq<Element>, contents: seq<Element>, t: Element)
    requires Distinct(tabs) && Distinct(contents) && Disjoint(tabs, contents)
    requires Selected(tabs, contents, t, Done) && t in tabs
    requires old(AllWellFormed(tabs) && AllWellFormed(contents))
    ensures var index := Position(tabs, t);
      0 <= index < |contents| &&
      (forall k :: 0 <= k < |tabs| ==>
        (IsActive(tabs[k]) <==> k == index) &&
        tabs[k].ariaExpanded == (if k == index then Some("true") else Some("false"))) &&
      (forall k :: 0 <= k < |contents| ==>
        (IsActive(contents[k]) <==> k == index) &&
        contents[k].ariaExpanded == (if k == index then Some("true") else Some("false")))
  {
    var index := Position(tabs, t);
    forall k | 0 <= k < |tabs|
      ensures IsActive(tabs[k]) <==> k == index
    {
      RemoveActiveValue(old(tabs[k].className));
      if k == index {
        AddActive(RemoveClassValue(old(tabs[k].className), Active));
      }
    }
    forall k | 0 <= k < |contents|
      ensures IsActive(contents[k]) <==> k == index
    {
      RemoveActiveValue(old(contents[k].className));
      if k == index {
        AddActive(RemoveClassValue(old(contents[k].className), Active));
      }
    }
  }

  /** A tab with no section at its position: the click throws after the
      tab has been made active, so the tab is active while every section
      has been cleared and the tab's aria-expanded still says "false". */
  twostate lemma MissingSectionLeavesTab(tabs: seq<Element>, contents: seq<Element>, t: Element)
    requires Distinct(tabs) && Disjoint(tabs, contents)
    requires Selected(tabs, contents, t, Fault) && t in tabs
    requires old(WellFormed(t.className) && AllWellFormed(contents))
    ensures IsActive(t) && t.ariaExpanded == Some("false")
    ensures forall k :: 0 <= k < |contents| ==> !IsActive(contents[k]) && contents[k].ariaExpanded == Some("false")
  {
    RemoveActiveValue(old(t.className));
    AddActive(RemoveClassValue(old(t.className), Active));
    forall k | 0 <= k < |contents|
      ensures !IsActive(contents[k])
    {
      RemoveActiveValue(old(contents[k].className));
    }
  }
}
