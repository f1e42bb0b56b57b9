/**
 * The smooth-scroll rule of `initSmoothScrolling`: a nav-link click scrolls
 * so that the target section starts just below the fixed navbar.
 */
module SmoothScroll {
  import opened Wrappers

  /** The height kept free for the fixed navbar. */
  const NavbarHeight := 80

  /**
   * The scroll position requested for a target section whose `offsetTop`
   * is `targetTop`, or no scroll when the link's target does not resolve.
   */
  function ScrollTarget(targetTop: Option<int>): (y: Option<int>)
    ensures y.Some? <==> targetTop.Some?
    ensures y.Some? ==> y.value + NavbarHeight == targetTop.value
  {
    match targetTop
    case Some(top) => Some(top - NavbarHeight)
    case None => None
  }
}

/**
 * The navbar restyling of `initScrollEffects`: one of two fixed presets,
 * chosen by the scroll position alone.
 */
module NavbarEffect {

  const ScrollThreshold := 100

  datatype NavbarStyle = NavbarStyle(background: string, boxShadow: string)

  const ScrolledStyle := NavbarStyle("rgba(26, 26, 46, 0.98)", "0 2px 20px rgba(0, 0, 0, 0.3)")
  const TopStyle := NavbarStyle("rgba(26, 26, 46, 0.95)", "none")

  /** The navbar's inline style once the scroll handler has run at `scrollY`. */
  function StyleAt(scrollY: int): (style: NavbarStyle)
    ensures style == ScrolledStyle || style == TopStyle
    ensures style == ScrolledStyle <==> scrollY > ScrollThreshold
  {
    if scrollY > ScrollThreshold then ScrolledStyle else TopStyle
  }
}
