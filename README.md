# Navigation rules of a personal webpage, in Dafny

The page script wires browser events to small class and style changes. This
project models its rule layer on plain data instead of a DOM:

- an element is `Element(id, top, height)`: its `id` attribute, `offsetTop`
  and `offsetHeight` in whole pixels;
- a navigation link is `Link(href, classes)`: its `href` attribute and its
  class list as a set;
- the page's `.nav-link` elements are an `array<Link>` that the handlers
  update in place, and the observed elements of the reveal animation are an
  `array<set<string>>` of class lists.

Modules:

- `Page`: the data, the class names, `href.substring(1)` (`TargetId`), the
  `[href^="#"]` selector (`IsHashLink`) and `document.getElementById`.
- `Highlight`: `highlightNavigation`. `InWindow` is the half-open window
  `[top-150, top-150+height)`. `Current` gives the value of `current`: the id
  of the last matching section, or `""` if none matches. `SelectCurrent` is
  the loop that computes it. `HighlightNavigation` rewrites `active` on the
  `#` links in place.
- `Navigation`: the click handler of a `#` link. `ScrollTarget` is its
  `offsetTop - 100` rule, taken only when the id resolves.
  `UpdateActiveNavigation` leaves `active` on the clicked link only.
- `ScrollToTop`: the button shows only when the scroll offset is strictly
  greater than 300.
- `Reveal`: the fade-in set-up loop and the observer callback, which only
  ever adds `visible`.

The page's scroll offset (`window.scrollY`) and the intersection entries are
parameters. A requested scroll is returned as a value instead of being
performed.

## Model

| member | source | states |
|---|---|---|
| `Page.TargetId` | script.js:31 | the target id is the href without its first character, and `""` for an empty href |
| `Page.IsHashLink` | script.js:64 | a link the `[href^="#"]` selector picks is `#` followed by its target id |
| `Page.GetElementById` | script.js:32 | finds an element iff the id is non-empty and some element has it; what it finds is the first such element in document order |
| `Highlight.WindowBoundaries` | script.js:70-74 | the window includes `top-150` exactly when height > 0, never includes `top-150+height`, and is empty when height <= 0 |
| `Highlight.InWindow` | script.js:73-74 | the half-open window test; a matching section has positive height (boundaries in `WindowBoundaries`) |
| `Highlight.Current` | script.js:67-77 | the value of `current`: either `""` or the id of some section whose window holds the offset (exact last-match meaning in the three lemmas below) |
| `Highlight.CurrentIsLastMatch` | script.js:67-77 | when section k holds the offset and no later section does, `current` is section k's id (later matches overwrite earlier ones) |
| `Highlight.CurrentWhenNoMatch` | script.js:67-77 | when no section's window holds the offset, `current` is `""` |
| `Highlight.CurrentComesFromLastMatch` | script.js:69-77 | a non-empty `current` is the id of the last matching section, and that section has positive height |
| `Highlight.SelectCurrent` | script.js:67-77 | the loop over the sections returns `Current`: the last match's id, or `""` when nothing matches |
| `Highlight.HighlightLink` | script.js:79-84 | on a `#` link, `active` is present afterwards iff the href without `#` equals `current`; other classes and the href are unchanged; other links are untouched |
| `Highlight.Highlighted` | script.js:79-84 | the links after the second loop: same length, same hrefs, same classes other than `active` (the `active` rule in `HighlightedActiveIff`) |
| `Highlight.HighlightedActiveIff` | script.js:79-84 | over the whole link list: same length, same hrefs, same other classes, and `active` iff the target id is `current` on every `#` link |
| `Highlight.BareHashActiveWhenNothingMatches` | script.js:67-84 | a link whose href is exactly `"#"` becomes active when no section matches |
| `Highlight.HighlightIgnoresPreviousActive` | script.js:80-83 | a `#` link's state after highlighting does not depend on whether it was active before |
| `Highlight.HighlightIdempotent` | script.js:79-84 | highlighting twice with the same `current` gives the same links as highlighting once |
| `Highlight.HighlightNavigation` | script.js:66-85 | the handler computes `Current` and leaves the link array equal to `Highlighted` of its old contents |
| `Navigation.ActivateOnly` | script.js:51-59 | afterwards the chosen link is the only one with `active`; hrefs and other classes are unchanged |
| `Navigation.ActivateOnlyIdempotent` | script.js:51-59 | activating the same link again changes nothing |
| `Navigation.UpdateActiveNavigation` | script.js:51-59 | the in-place loop leaves the array equal to `ActivateOnly` of its old contents |
| `Navigation.ScrollTarget` | script.js:31-36 | a scroll is requested iff the target id is non-empty and names an element; the position is that first element's `offsetTop - 100` |
| `Navigation.BareHashNeverScrolls` | script.js:31-34 | a click on `"#"` never scrolls, because the empty id resolves to nothing |
| `Navigation.ClickNavLink` | script.js:28-46 | the click requests `ScrollTarget`; it updates the active link exactly when it scrolls and otherwise leaves the links unchanged |
| `Navigation.ClickLandsInTargetWindow` | script.js:70-74 | the position a click scrolls to (`offsetTop - 100`, line 36) is in the target's own highlight window iff the target is taller than 50 pixels |
| `Navigation.HighlightAfterClickForgetsClick` | script.js:79-84 | on `#` links, the next highlighting after a click gives the same result as highlighting with no click |
| `ScrollToTop.Opacity` | script.js:205-211 | the opacity is `"1"` iff the offset is > 300 and `"0"` iff it is <= 300 |
| `ScrollToTop.ThresholdIsStrict` | script.js:206 | at exactly 300 the button is hidden; at 301 it shows |
| `ScrollToTop.ScrollToTopButton.constructor` | script.js:182-202 | the button starts hidden, with opacity `"0"` |
| `ScrollToTop.ScrollToTopButton.OnScroll` | script.js:205-211 | after a scroll event the opacity is `"1"` exactly when the offset is > 300 |
| `ScrollToTop.ScrollToTopButton.OnClick` | script.js:214-219 | clicking the button requests scroll position 0 |
| `Reveal.Revealed` | script.js:98-104 | the class lists after one callback, one per observed element (their exact contents in `RevealedAt`) |
| `Reveal.RevealedAt` | script.js:98-104 | after a callback, an element's classes are its old classes plus `visible` iff some intersecting entry targets it |
| `Reveal.RevealMonotone` | script.js:100-102 | the callback never removes a class, so `visible` is monotone; only `visible` can be added |
| `Reveal.NonIntersectingLeavesUnchanged` | script.js:100-102 | a batch made only of non-intersecting entries changes nothing |
| `Reveal.RevealOnIntersect` | script.js:98-104 | the in-place loop over the entries leaves the class lists equal to `Revealed` of their old values |
| `Reveal.MarkFadeIn` | script.js:111-115 | every animated element gains `fade-in` and keeps its other classes |

## Left out

- Fade-in on load and the notification (script.js:12-21, 151-178): these are timers, style transitions and DOM creation and removal. There is no rule to state.
- Clipboard copy (script.js:141-148): an asynchronous browser API with promise callbacks and console logging.
- Intersection geometry (threshold 0.1, root margin, script.js:93-96): the browser computes whether an entry intersects. Here `isIntersecting` is an input.
- `transitionDelay` of `index * 0.1` seconds and `observer.observe` (script.js:113-114): floating-point string formatting and observer registration.
- Card hover transforms and the card click log (script.js:119-137), the inline CSS text, and the smooth-scroll animation: presentation only.
- Navigation.ScrollTarget: returns the requested `top`. The browser's clamping of that value into the scrollable range is not modelled.
- Navigation.ClickNavLink: `preventDefault` is always called. It has no state in this model, so it is only a comment.
- Event registration (`addEventListener`, `DOMContentLoaded`, the load-time call of `highlightNavigation`): each handler is modelled as one call on given inputs. The sequence of events is not modelled.
- `offsetTop` and `offsetHeight` are whole numbers in the DOM and are modelled as mathematical integers. The scroll offset `window.scrollY` is taken in whole pixels too, but the browser reports it as a floating-point number. Fractional values such as 300.5, which shows the button, are not modelled.
