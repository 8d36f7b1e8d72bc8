/**
 * The dark-mode toggle: the `dark-mode` class on `<body>`, the button's
 * `aria-pressed`, its icon and label, and the stored preference.
 */
module Theme {

  /** Storage key of the theme preference. */
  const ThemeKey := "hrRecruitTheme"

  const MoonIcon := "\U{1F319}"
  const SunIcon := "\U{2600}\U{FE0F}"

  /** The stored value the page reads back as dark mode. */
  predicate SavedDark(storage: map<string, string>) {
    ThemeKey in storage && storage[ThemeKey] == "dark"
  }

  /** The value written on a click; only `dark` reads back as dark. */
  function StoredValue(dark: bool): (v: string)
    ensures v == "dark" <==> dark
    ensures v == "dark" || v == "light"
  {
    if dark then "dark" else "light"
  }

  class ThemeToggle {
    var darkMode: bool        // `<body>` has the class `dark-mode`
    var ariaPressed: string
    var icon: string          // text of `.theme-toggle-icon`
    var labelText: string    // text of `.theme-toggle-label`
    var storage: map<string, string>

    /** The button describes the theme the body is in. */
    predicate Consistent()
      reads this
    {
      && ariaPressed == (if darkMode then "true" else "false")
      && icon == (if darkMode then MoonIcon else SunIcon)
      && labelText == (if darkMode then "Dark" else "Light")
    }

    /** Reloading the page would bring back the theme it is in. */
    predicate Persisted()
      reads this
    {
      SavedDark(storage) == darkMode
    }

    /** Start-up: a stored `dark` turns dark mode on; anything else only sets the button
        to light. A `dark-mode` class already in the markup is not removed, so the button
        then disagrees with the body. */
    constructor (markupDark: bool, storage0: map<string, string>)
      ensures storage == storage0
      ensures darkMode == (markupDark || SavedDark(storage0))
      ensures ariaPressed == (if SavedDark(storage0) then "true" else "false")
      ensures icon == (if SavedDark(storage0) then MoonIcon else SunIcon)
      ensures labelText == (if SavedDark(storage0) then "Dark" else "Light")
      ensures Consistent() <==> !markupDark || SavedDark(storage0)
      ensures !markupDark ==> Consistent() && Persisted()
    {
      storage := storage0;
      darkMode := markupDark;
      if SavedDark(storage0) {
        darkMode := true;
        ariaPressed, icon, labelText := "true", MoonIcon, "Dark";
      } else {
        ariaPressed, icon, labelText := "false", SunIcon, "Light";
      }
    }

    /** The click handler: toggle the class, then make the button and the storage follow it.
        It restores both invariants from whatever state it finds. */
    method Click()
      modifies this
      ensures darkMode == !old(darkMode)
      ensures Consistent() && Persisted()
      ensures storage == old(storage)[ThemeKey := StoredValue(darkMode)]
    {
      darkMode := !darkMode;
      ariaPressed := if darkMode then "true" else "false";
      icon := if darkMode then MoonIcon else SunIcon;
      labelText := if darkMode then "Dark" else "Light";
      storage := storage[ThemeKey := StoredValue(darkMode)];
    }
  }
}
