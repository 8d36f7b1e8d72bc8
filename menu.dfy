/**
 * The mobile navigation menu: five flags (the `active` class on the menu, the
 * backdrop and the toggle button, `menu-open` on `<body>`, and the button's
 * `aria-expanded`) that every handler moves together. The page is assumed to
 * have both the toggle button and the menu, without which no handler is
 * installed; the backdrop and the close button are created when missing.
 */
module MobileMenu {

  class Menu {
    var navActive: bool
    var backdropActive: bool
    var toggleActive: bool
    var bodyMenuOpen: bool
    var ariaExpanded: string

    /** All five flags tell the same story. */
    predicate Agree()
      reads this
    {
      && backdropActive == navActive
      && toggleActive == navActive
      && bodyMenuOpen == navActive
      && ariaExpanded == (if navActive then "true" else "false")
    }

    predicate Closed()
      reads this
    {
      Agree() && !navActive
    }

    /** `resetMobileMenuState()` at load: closed whatever the markup said. */
    constructor ()
      ensures Closed()
    {
      navActive, backdropActive, toggleActive, bodyMenuOpen := false, false, false, false;
      ariaExpanded := "false";
    }

    /** `toggleMobileMenu(forceClose)`: close when forced or open, open otherwise. */
    method Toggle(forceClose: bool)
      modifies this
      ensures Agree()
      ensures navActive == !(forceClose || old(navActive))
      ensures forceClose ==> Closed()
    {
      var shouldClose := forceClose || navActive;
      if shouldClose {
        navActive, backdropActive, toggleActive, bodyMenuOpen := false, false, false, false;
        ariaExpanded := "false";
      } else {
        navActive, backdropActive, toggleActive, bodyMenuOpen := true, true, true, true;
        ariaExpanded := "true";
      }
    }

    /** A click on the toggle button flips the menu. */
    method ToggleClick()
      modifies this
      ensures Agree() && navActive == !old(navActive)
    {
      Toggle(false);
    }

    /** A click on the backdrop, the close button or a navigation link closes the menu. */
    method CloseClick()
      modifies this
      ensures Closed()
    {
      Toggle(true);
    }

    /** A resize closes an open menu once the window is at least 1024 pixels wide. */
    method Resize(innerWidth: int)
      modifies this
      ensures innerWidth >= 1024 && old(navActive) ==> Closed()
      ensures !(innerWidth >= 1024 && old(navActive)) ==> unchanged(this)
    {
      if innerWidth >= 1024 && navActive {
        Toggle(true);
      }
    }

    /** Escape closes an open menu; any other key does nothing. */
    method KeyDown(key: string)
      modifies this
      ensures key == "Escape" && old(navActive) ==> Closed()
      ensures !(key == "Escape" && old(navActive)) ==> unchanged(this)
    {
      if key == "Escape" && navActive {
        Toggle(true);
      }
    }
  }
}
