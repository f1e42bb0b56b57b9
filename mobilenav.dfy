/**
 * The mobile menu of `initMobileNav`: the `active` class of the hamburger
 * button and of the nav menu, and the hamburger's `aria-expanded`.
 */
module MobileNav {

  class MobileMenu {
    var hamburgerActive: bool
    var menuActive: bool
    var ariaExpanded: bool

    /** The button and the panel agree on whether the menu is open. */
    ghost predicate Lockstep()
      reads this
    {
      hamburgerActive == menuActive
    }

    /** Everything closed, as after a nav-link click or an outside click. */
    ghost predicate Closed()
      reads this
    {
      !hamburgerActive && !menuActive && !ariaExpanded
    }

    /** The state the markup starts in. */
    constructor (hamburgerActive: bool, menuActive: bool, ariaExpanded: bool)
      ensures this.hamburgerActive == hamburgerActive && this.menuActive == menuActive
      ensures this.ariaExpanded == ariaExpanded
    {
      this.hamburgerActive := hamburgerActive;
      this.menuActive := menuActive;
      this.ariaExpanded := ariaExpanded;
    }

    /** The hamburger's click handler: flip both flags and mirror the menu in `aria-expanded`. */
    method HamburgerClick()
      modifies this
      ensures hamburgerActive == !old(hamburgerActive) && menuActive == !old(menuActive)
      ensures ariaExpanded == menuActive
      ensures old(Lockstep()) ==> Lockstep()
    {
      hamburgerActive := !hamburgerActive;
      menuActive := !menuActive;
      var isExpanded := menuActive;
      ariaExpanded := isExpanded;
    }

    /** A nav link's click handler: close the menu, whatever its state. */
    method NavLinkClick()
      modifies this
      ensures Closed() && Lockstep()
    {
      hamburgerActive := false;
      menuActive := false;
      ariaExpanded := false;
    }

    /**
     * The document's click handler: a click whose target lies neither in the
     * hamburger nor in the menu closes the menu; any other click leaves it.
     */
    method DocumentClick(inHamburger: bool, inMenu: bool)
      modifies this
      ensures !inHamburger && !inMenu ==> Closed() && Lockstep()
      ensures inHamburger || inMenu ==> unchanged(this)
    {
      if !inHamburger && !inMenu {
        hamburgerActive := false;
        menuActive := false;
        ariaExpanded := false;
      }
    }
  }
}
