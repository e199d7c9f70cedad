/** calcite.siteSearch: the search bar in the top navigation expands when
    focus enters it and collapses, clearing its input, when focus leaves. */
module SiteSearch {
  import opened Wrappers
  import opened ClassList
  import opened Dom

  const SearchClass := "js-site-search"

  /** toggleForm, run for both focusin and focusout; chain[0] is the event
      target (the input) and the rest its ancestors.  Without a
      js-site-search on the chain, hasClass(null, ...) throws. */
  method ToggleForm(chain: seq<Element>) returns (r: Outcome)
    requires |chain| >= 1
    modifies Present(Found(chain, SearchClass))`className, {chain[0]}`value
    ensures var c := old(Found(chain, SearchClass));
      (r == Fault <==> c == null) &&
      (c == null ==> unchanged(chain)) &&
      (c != null && old(IsActive(c)) ==>
        c.className == RemoveClassValue(old(c.className), Active) && chain[0].value == "") &&
      (c != null && !old(IsActive(c)) ==>
        c.className == AddClassValue(old(c.className), Active) && chain[0].value == old(chain[0].value))
  {
    var container := Closest(SearchClass, chain);
    if container == null {
      return Fault;
    }
    ToggleContainer(container, chain[0]);
    return Done;
  }

  /** The body of toggleForm once the container is found. */
  method ToggleContainer(container: Element, input: Element)
    modifies container`className, input`value
    ensures old(IsActive(container)) ==>
      container.className == RemoveClassValue(old(container.className), Active) && input.value == ""
    ensures !old(IsActive(container)) ==>
      container.className == AddClassValue(old(container.className), Active) && input.value == old(input.value)
  {
    var isOpen := HasClass(container.className, Active);
    if isOpen {
      RemoveClass(container, Active);
      input.value := "";
    } else {
      AddClass(container, Active);
    }
  }

  /** A collapsed bar with a well-formed class string: focus entering
      expands it, focus leaving collapses it again to the same classes. */
  lemma OpenThenClose(s: string)
    requires WellFormed(s) && !HasClass(s, Active)
    ensures HasClass(AddClassValue(s, Active), Active)
    ensures !HasClass(RemoveClassValue(AddClassValue(s, Active), Active), Active)
    ensures Words(RemoveClassValue(AddClassValue(s, Active), Active)) == Words(s)
  {
    ActiveIsToken();
    ToggleClassTwice(s, Active);
    AddActive(s);
    RemoveActiveValue(AddClassValue(s, Active));
  }
}
