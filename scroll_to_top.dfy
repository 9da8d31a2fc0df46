/** The scroll-to-top button (`addScrollToTop`). */
module ScrollToTop {
  /** The button shows once the page is scrolled strictly past this many pixels. */
  const ShowThreshold: int := 300

  /** The `style.opacity` the scroll handler writes for a scroll offset. */
  function Opacity(scrollY: int): (r: string)
    ensures r == "1" <==> scrollY > ShowThreshold
    ensures r == "0" <==> scrollY <= ShowThreshold
  {
    if scrollY > ShowThreshold then "1" else "0"
  }

  /** At exactly 300 pixels the button is still hidden; one pixel more shows it. */
  lemma ThresholdIsStrict()
    ensures Opacity(ShowThreshold) == "0" && Opacity(ShowThreshold + 1) == "1"
  {
  }

  /** The button element, reduced to the one style property the script changes. */
  class ScrollToTopButton {
    var opacity: string

    /** The button is created hidden (`opacity: 0` in its inline style). */
    constructor ()
      ensures opacity == "0"
    {
      opacity := "0";
    }

    /** The window's scroll listener. */
    method OnScroll(scrollY: int)
      modifies this
      ensures opacity == Opacity(scrollY)
      ensures opacity == "1" <==> scrollY > ShowThreshold
    {
      if scrollY > ShowThreshold {
        opacity := "1";
      } else {
        opacity := "0";
      }
    }

    /** The button's click listener: it asks to scroll to the top of the page and changes no state. */
    method OnClick() returns (top: int)
      ensures top == 0
    {
      top := 0;
    }
  }
}
