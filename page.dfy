/**
 * The part of the page's DOM that the navigation rules read: laid-out
 * elements with an id and a pixel geometry, and navigation links with an
 * `href` attribute and a class list.
 */
module Page {
  import opened Wrappers

  /**
   * An element of the document: its `id` attribute ("" when it has none),
   * its `offsetTop` and its `offsetHeight`, in whole pixels.
   */
  datatype Element = Element(id: string, top: int, height: int)

  /** A `.nav-link` element: its `href` attribute and its `classList`. */
  datatype Link = Link(href: string, classes: set<string>)

  /** The class names the script adds and removes. */
  const Active: string := "active"
  const Visible: string := "visible"
  const FadeIn: string := "fade-in"

  /** `href.substring(1)`: the attribute without its first character. */
  function TargetId(href: string): (r: string)
    ensures |href| > 0 ==> href == href[..1] + r
    ensures |href| == 0 ==> r == ""
  {
    if |href| == 0 then "" else href[1..]
  }

  /** The attribute selector `[href^="#"]`: the href begins with `#`. */
  predicate IsHashLink(href: string)
    ensures IsHashLink(href) ==> href == "#" + TargetId(href)
  {
    |href| > 0 && href[0] == '#'
  }

  /**
   * `document.getElementById(id)` over the document's elements in tree
   * order: the first element whose id is `id`; the empty id finds nothing.
   */
  function GetElementById(doc: seq<Element>, id: string): (r: Option<Element>)
    ensures r.Some? <==> id != "" && exists k :: 0 <= k < |doc| && doc[k].id == id
    ensures r.Some? ==> exists k :: 0 <= k < |doc| && doc[k] == r.value && r.value.id == id &&
                                      forall j :: 0 <= j < k ==> doc[j].id != id
  {
    if id == "" || doc == [] then None
    else if doc[0].id == id then Some(doc[0])
    else
      var r := GetElementById(doc[1..], id);
      assert forall k :: 1 <= k < |doc| ==> doc[k] == doc[1..][k - 1];
      r
  }
}
