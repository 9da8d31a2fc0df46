/**
 * Click-driven navigation (`initSmoothScrolling` and
 * `updateActiveNavigation`): a click on a `#` link scrolls to the element
 * it names and makes that link the only active one.
 */
module Navigation {
  import opened Wrappers
  import opened Page
  import Highlight

  /** Pixels left above the target element when scrolling to it. */
  const ScrollOffset: int := 100

  /** The links after `updateActiveNavigation(links[k])`. */
  function ActivateOnly(links: seq<Link>, k: nat): (r: seq<Link>)
    requires k < |links|
    ensures |r| == |links|
    ensures forall i :: 0 <= i < |links| ==>
      r[i].href == links[i].href && r[i].classes - {Active} == links[i].classes - {Active} &&
      (Active in r[i].classes <==> i == k)
  {
    seq(|links|, i requires 0 <= i < |links| =>
      var cleared := links[i].(classes := links[i].classes - {Active});
      if i == k then cleared.(classes := cleared.classes + {Active}) else cleared)
  }

  /** Calling `updateActiveNavigation` again on the same link changes nothing. */
  lemma ActivateOnlyIdempotent(links: seq<Link>, k: nat)
    requires k < |links|
    ensures ActivateOnly(ActivateOnly(links, k), k) == ActivateOnly(links, k)
  {
    var once := ActivateOnly(links, k);
    var twice := ActivateOnly(once, k);
    forall i | 0 <= i < |links| ensures twice[i] == once[i] {
      assert twice[i].classes == once[i].classes;
    }
  }

  /**
   * `updateActiveNavigation(activeLink)`, with `activeLink` given as its
   * position among the page's `.nav-link` elements.
   */
  method UpdateActiveNavigation(links: array<Link>, k: nat)
    requires k < links.Length
    modifies links
    ensures links[..] == ActivateOnly(old(links[..]), k)
  {
    var i := 0;
    while i < links.Length
      invariant 0 <= i <= links.Length
      invariant forall j :: 0 <= j < i ==> links[j] == old(links[j]).(classes := old(links[j]).classes - {Active})
      invariant forall j :: i <= j < links.Length ==> links[j] == old(links[j])
    {
      links[i] := links[i].(classes := links[i].classes - {Active});
      i := i + 1;
    }
    links[k] := links[k].(classes := links[k].classes + {Active});
  }

  /**
   * Where a click on a link with this href scrolls: `offsetTop - 100` of
   * the first element whose id is the href without its first character, or
   * nowhere when no element has that id.
   */
  function ScrollTarget(doc: seq<Element>, href: string): (r: Option<int>)
    ensures r.Some? <==> TargetId(href) != "" && exists k :: 0 <= k < |doc| && doc[k].id == TargetId(href)
    ensures r.Some? ==> exists k :: 0 <= k < |doc| && doc[k].id == TargetId(href) &&
                                      r.value == doc[k].top - ScrollOffset &&
                                      forall j :: 0 <= j < k ==> doc[j].id != TargetId(href)
  {
    match GetElementById(doc, TargetId(href))
    case None => None
    case Some(target) => Some(target.top - ScrollOffset)
  }

  /** A link whose href is exactly "#" never scrolls. */
  lemma BareHashNeverScrolls(doc: seq<Element>)
    ensures ScrollTarget(doc, "#") == None
  {
  }

  /**
   * The click handler of a `#` link. It always cancels the browser's own
   * navigation; it returns the requested scroll position, if any, and
   * updates the active link only when it scrolls.
   */
  method ClickNavLink(doc: seq<Element>, links: array<Link>, k: nat) returns (scrollTo: Option<int>)
    requires k < links.Length && IsHashLink(links[k].href)
    modifies links
    ensures scrollTo == ScrollTarget(doc, old(links[k].href))
    ensures scrollTo.Some? ==> links[..] == ActivateOnly(old(links[..]), k)
    ensures scrollTo.None? ==> links[..] == old(links[..])
  {
    var targetId := TargetId(links[k].href);
    var targetSection := GetElementById(doc, targetId);
    if targetSection.Some? {
      var offsetTop := targetSection.value.top - ScrollOffset;
      scrollTo := Some(offsetTop);
      UpdateActiveNavigation(links, k);
    } else {
      scrollTo := None;
    }
  }

  /**
   * The position a click scrolls to lies in the target's own highlight
   * window exactly when the target is taller than 50 pixels.
   */
  lemma ClickLandsInTargetWindow(target: Element)
    ensures Highlight.InWindow(target, target.top - ScrollOffset) <==>
            target.height > Highlight.HeaderOffset - ScrollOffset
  {
  }

  /**
   * On `#` links, the next scroll event's highlighting erases whatever a
   * click set: the result is the same as highlighting without the click.
   */
  lemma HighlightAfterClickForgetsClick(links: seq<Link>, k: nat, current: string)
    requires k < |links|
    ensures forall i :: 0 <= i < |links| && IsHashLink(links[i].href) ==>
      Highlight.Highlighted(ActivateOnly(links, k), current)[i] == Highlight.Highlighted(links, current)[i]
  {
    var clicked := ActivateOnly(links, k);
    forall i | 0 <= i < |links| && IsHashLink(links[i].href)
      ensures Highlight.Highlighted(clicked, current)[i] == Highlight.Highlighted(links, current)[i]
    {
      Highlight.HighlightIgnoresPreviousActive(clicked[i], links[i], current);
    }
  }
}
