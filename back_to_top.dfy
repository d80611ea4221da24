/** The back-to-top button: its scroll listener gives it the class `visible`
    exactly when the page is scrolled past a threshold, and takes the class
    away otherwise. */
module BackToTop {

  /** `CONFIG.scrollThreshold` on the portfolio page. */
  const PortfolioThreshold := 100

  /** The literal threshold on the site page. */
  const SiteThreshold := 300

  /** The `#backToTop` element with the scroll listener `initBackToTop` registers. */
  class Button {
    /** The offset the page must be scrolled past for the button to show. */
    const threshold: int
    /** Whether the element has the class `visible`. */
    var visible: bool

    /** The portfolio page's button, as the page loads it. */
    constructor Portfolio(visible: bool)
      ensures threshold == 100 && this.visible == visible
    {
      threshold := PortfolioThreshold;
      this.visible := visible;
    }

    /** The site page's button, as the page loads it. */
    constructor Site(visible: bool)
      ensures threshold == 300 && this.visible == visible
    {
      threshold := SiteThreshold;
      this.visible := visible;
    }

    /** A `scroll` event with the page scrolled to `offset`: the class is added
        past the threshold and removed at or below it. */
    method OnScroll(offset: int)
      modifies this`visible
      ensures visible <==> offset > threshold
    {
      if offset > threshold {
        visible := true;
      } else {
        visible := false;
      }
    }
  }

  /** The button keeps no memory of earlier scrolls: after two scroll events its
      state is the one the second offset alone gives, whatever the first was
      and whatever the button showed before. */
  method ScrollTwice(b: Button, first: int, second: int)
    modifies b`visible
    ensures b.visible <==> second > b.threshold
  {
    b.OnScroll(first);
    b.OnScroll(second);
  }
}
