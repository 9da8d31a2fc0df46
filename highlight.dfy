/**
 * Scroll-position navigation highlighting (`highlightNavigation`): pick the
 * section the reader is looking at, then mark exactly the links that point
 * to it as `active`.
 */
module Highlight {
  import opened Page

  /** Pixels subtracted from a section's `offsetTop` to open its window. */
  const HeaderOffset: int := 150

  /** The scroll offset lies in the half-open window [top-150, top-150+height). */
  predicate InWindow(s: Element, scrollY: int)
    ensures InWindow(s, scrollY) ==> s.height > 0
  {
    scrollY >= s.top - HeaderOffset && scrollY < s.top - HeaderOffset + s.height
  }

  /** The window is closed at its start, open at its end, and empty for a section without height. */
  lemma WindowBoundaries(s: Element)
    ensures InWindow(s, s.top - HeaderOffset) <==> s.height > 0
    ensures !InWindow(s, s.top - HeaderOffset + s.height)
    ensures s.height <= 0 ==> forall y :: !InWindow(s, y)
  {
  }

  /**
   * The value of `current` after the walk over `sections`: each section
   * whose window holds the offset overwrites what earlier ones wrote.
   */
  function Current(sections: seq<Element>, scrollY: int): (r: string)
    ensures r == "" || exists k :: 0 <= k < |sections| && InWindow(sections[k], scrollY) && sections[k].id == r
  {
    if sections == [] then ""
    else
      var n := |sections|;
      var last := sections[n - 1];
      if InWindow(last, scrollY) then last.id
      else
        var r := Current(sections[..n - 1], scrollY);
        assert forall j :: 0 <= j < n - 1 ==> sections[..n - 1][j] == sections[j];
        r
  }

  /** Section `k` holds the offset and no later section does. */
  ghost predicate IsLastMatch(sections: seq<Element>, scrollY: int, k: int) {
    0 <= k < |sections| && InWindow(sections[k], scrollY) &&
    forall j :: k < j < |sections| ==> !InWindow(sections[j], scrollY)
  }

  /** The last section in document order whose window holds the offset gives `current`. */
  lemma {:induction false} CurrentIsLastMatch(sections: seq<Element>, scrollY: int, k: int)
    requires IsLastMatch(sections, scrollY, k)
    ensures Current(sections, scrollY) == sections[k].id
  {
    var n := |sections|;
    if k < n - 1 {
      var init := sections[..n - 1];
      assert !InWindow(sections[n - 1], scrollY);
      assert forall j :: 0 <= j < n - 1 ==> init[j] == sections[j];
      CurrentIsLastMatch(init, scrollY, k);
    }
  }

  /** When no window holds the offset, `current` stays the empty string. */
  lemma {:induction false} CurrentWhenNoMatch(sections: seq<Element>, scrollY: int)
    requires forall k :: 0 <= k < |sections| ==> !InWindow(sections[k], scrollY)
    ensures Current(sections, scrollY) == ""
  {
    var n := |sections|;
    if n > 0 {
      var init := sections[..n - 1];
      assert !InWindow(sections[n - 1], scrollY);
      assert forall j :: 0 <= j < n - 1 ==> init[j] == sections[j];
      CurrentWhenNoMatch(init, scrollY);
    }
  }

  /**
   * A non-empty `current` is the id of the last matching section, and that
   * section has a positive height.
   */
  lemma {:induction false} CurrentComesFromLastMatch(sections: seq<Element>, scrollY: int)
    ensures Current(sections, scrollY) == "" ||
            exists k :: IsLastMatch(sections, scrollY, k) && sections[k].id == Current(sections, scrollY) &&
                        sections[k].height > 0
  {
    var n := |sections|;
    if n > 0 && !InWindow(sections[n - 1], scrollY) {
      var init := sections[..n - 1];
      assert forall j :: 0 <= j < n - 1 ==> init[j] == sections[j];
      CurrentComesFromLastMatch(init, scrollY);
      if Current(init, scrollY) != "" {
        var k :| IsLastMatch(init, scrollY, k) && init[k].id == Current(init, scrollY) && init[k].height > 0;
        assert IsLastMatch(sections, scrollY, k);
      }
    } else if n > 0 {
      assert IsLastMatch(sections, scrollY, n - 1);
    }
  }

  /** The first `forEach` of `highlightNavigation`: compute `current`. */
  method SelectCurrent(sections: seq<Element>, scrollY: int) returns (current: string)
    ensures current == Current(sections, scrollY)
    ensures forall k :: IsLastMatch(sections, scrollY, k) ==> current == sections[k].id
    ensures (forall k :: 0 <= k < |sections| ==> !InWindow(sections[k], scrollY)) ==> current == ""
  {
    current := "";
    var i := 0;
    while i < |sections|
      invariant 0 <= i <= |sections|
      invariant current == Current(sections[..i], scrollY)
    {
      var section := sections[i];
      var sectionTop := section.top - HeaderOffset;
      var sectionHeight := section.height;
      if scrollY >= sectionTop && scrollY < sectionTop + sectionHeight {
        current := section.id;
      }
      assert sections[..i + 1][..i] == sections[..i];
      i := i + 1;
    }
    assert sections[..i] == sections;
    forall k | IsLastMatch(sections, scrollY, k) ensures current == sections[k].id {
      CurrentIsLastMatch(sections, scrollY, k);
    }
    if forall k :: 0 <= k < |sections| ==> !InWindow(sections[k], scrollY) {
      CurrentWhenNoMatch(sections, scrollY);
    }
  }

  /**
   * One step of the second `forEach`: a link selected by `[href^="#"]`
   * loses `active` and regains it when its target id is `current`; a link
   * the selector leaves out is not touched.
   */
  function HighlightLink(link: Link, current: string): (r: Link)
    ensures r.href == link.href
    ensures r.classes - {Active} == link.classes - {Active}
    ensures IsHashLink(link.href) ==> (Active in r.classes <==> TargetId(link.href) == current)
    ensures !IsHashLink(link.href) ==> r == link
  {
    if !IsHashLink(link.href) then link
    else
      var cleared := link.classes - {Active};
      link.(classes := if TargetId(link.href) == current then cleared + {Active} else cleared)
  }

  /** The links after the second `forEach`, in the same order. */
  function Highlighted(links: seq<Link>, current: string): (r: seq<Link>)
    ensures |r| == |links|
    ensures forall i :: 0 <= i < |links| ==>
      r[i].href == links[i].href && r[i].classes - {Active} == links[i].classes - {Active}
  {
    seq(|links|, i requires 0 <= i < |links| => HighlightLink(links[i], current))
  }

  /**
   * After highlighting, a `#` link is active exactly when its href without
   * the `#` is `current`; hrefs, the other classes and the number of links
   * do not change.
   */
  lemma HighlightedActiveIff(links: seq<Link>, current: string)
    ensures |Highlighted(links, current)| == |links|
    ensures forall i :: 0 <= i < |links| ==>
      var r := Highlighted(links, current)[i];
      r.href == links[i].href && r.classes - {Active} == links[i].classes - {Active} &&
      (IsHashLink(links[i].href) ==> (Active in r.classes <==> TargetId(links[i].href) == current)) &&
      (!IsHashLink(links[i].href) ==> r == links[i])
  {
  }

  /** The link whose href is exactly "#" is active whenever no section matches. */
  lemma BareHashActiveWhenNothingMatches(sections: seq<Element>, scrollY: int, links: seq<Link>, i: int)
    requires forall k :: 0 <= k < |sections| ==> !InWindow(sections[k], scrollY)
    requires 0 <= i < |links| && links[i].href == "#"
    ensures Active in Highlighted(links, Current(sections, scrollY))[i].classes
  {
    CurrentWhenNoMatch(sections, scrollY);
  }

  /**
   * What highlighting does to a link depends on its href and its classes
   * other than `active` only: a previous `active` mark does not survive.
   */
  lemma HighlightIgnoresPreviousActive(a: Link, b: Link, current: string)
    requires a.href == b.href && a.classes - {Active} == b.classes - {Active}
    requires IsHashLink(a.href)
    ensures HighlightLink(a, current) == HighlightLink(b, current)
  {
  }

  /** Highlighting twice at the same scroll offset changes nothing more. */
  lemma HighlightIdempotent(links: seq<Link>, current: string)
    ensures Highlighted(Highlighted(links, current), current) == Highlighted(links, current)
  {
    var once := Highlighted(links, current);
    forall i | 0 <= i < |links|
      ensures Highlighted(once, current)[i] == once[i]
    {
      if IsHashLink(links[i].href) {
        HighlightIgnoresPreviousActive(once[i], links[i], current);
      }
    }
  }

  /**
   * `highlightNavigation` on a scroll event: the navigation links are the
   * page's `.nav-link` elements; those whose href begins with `#` get their
   * `active` class rewritten.
   */
  method HighlightNavigation(sections: seq<Element>, scrollY: int, links: array<Link>) returns (current: string)
    modifies links
    ensures current == Current(sections, scrollY)
    ensures links[..] == Highlighted(old(links[..]), current)
  {
    current := SelectCurrent(sections, scrollY);
    var i := 0;
    while i < links.Length
      invariant 0 <= i <= links.Length
      invariant forall j :: 0 <= j < i ==> links[j] == HighlightLink(old(links[j]), current)
      invariant forall j :: i <= j < links.Length ==> links[j] == old(links[j])
    {
      var link := links[i];
      if IsHashLink(link.href) {
        link := link.(classes := link.classes - {Active});
        if TargetId(link.href) == current {
          link := link.(classes := link.classes + {Active});
        }
        links[i] := link;
      }
      i := i + 1;
    }
  }
}
