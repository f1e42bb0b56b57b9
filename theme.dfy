/**
 * The theme controller of `initThemeToggle` and `setTheme`: the `theme`
 * key of local storage, the root element's `data-theme` attribute, and the
 * toggle button's icon class and `aria-label`.
 */
module Theme {
  import opened Wrappers

  const Light := "light"
  const Dark := "dark"

  /**
   * The theme applied at start-up: the stored preference, or "dark" when
   * the key is unset or holds the empty string (both are falsy for `||`).
   */
  function InitialTheme(saved: Option<string>): (theme: string)
    ensures theme != ""
    ensures saved.Some? && saved.value != "" ==> theme == saved.value
    ensures saved.None? || saved.value == "" ==> theme == Dark
  {
    match saved
    case Some(t) => if t != "" then t else Dark
    case None => Dark
  }

  /** The theme a toggle click switches to: "dark" from "light", "light" from anything else. */
  function Opposite(current: string): (next: string)
    ensures next == Light || next == Dark
    ensures next == Dark <==> current == Light
    ensures (current == Light || current == Dark) ==> next != current
  {
    if current == Light then Dark else Light
  }

  /** On the two real themes, toggling twice is the identity. */
  lemma OppositeInvolutive(theme: string)
    requires theme == Light || theme == Dark
    ensures Opposite(Opposite(theme)) == theme
  {
  }

  /** Any other stored value is not restored by two toggles: it settles on "dark". */
  lemma OppositeForgetsUnknownTheme(theme: string)
    requires theme != Light && theme != Dark
    ensures Opposite(Opposite(theme)) == Dark != theme
  {
  }

  /** The icon that pictures a theme: a moon for dark, a sun for light. */
  function IconOf(theme: string): string {
    if theme == Dark then "fas fa-moon" else "fas fa-sun"
  }

  /** What the toggle button shows. */
  datatype ToggleView = ToggleView(iconClass: string, ariaLabel: string)

  /**
   * The toggle button for an applied theme: both the icon and the label
   * announce the theme a click would switch to.
   */
  function Render(theme: string): (v: ToggleView)
    ensures v.iconClass == IconOf(Opposite(theme))
    ensures v.ariaLabel == "Switch to " + Opposite(theme) + " theme"
  {
    if theme == Light then ToggleView("fas fa-moon", "Switch to dark theme")
    else ToggleView("fas fa-sun", "Switch to light theme")
  }

  /** A first visit, with nothing stored, shows the dark theme and offers the light one. */
  lemma FirstVisitIsDark()
    ensures InitialTheme(None) == Dark
    ensures Render(InitialTheme(None)) == ToggleView("fas fa-sun", "Switch to light theme")
  {
  }

  class ThemeToggle {
    /** The `theme` key of local storage. */
    var stored: Option<string>
    /** The `data-theme` attribute of the root element. */
    var dataTheme: string
    /** The class of the toggle button's icon. */
    var iconClass: string
    /** The toggle button's `aria-label`. */
    var ariaLabel: string

    /** The page shows `theme`: the attribute holds it and the button matches it. */
    ghost predicate Shows(theme: string)
      reads this
    {
      dataTheme == theme && ToggleView(iconClass, ariaLabel) == Render(theme)
    }

    /** `initThemeToggle`: apply the stored preference, or "dark". */
    constructor Init(saved: Option<string>)
      ensures stored == saved
      ensures Shows(InitialTheme(saved))
    {
      stored := saved;
      new;
      SetTheme(InitialTheme(saved));
    }

    /**
     * `setTheme`: the new state is determined by `theme` alone, so applying
     * the same theme again changes nothing.
     */
    method SetTheme(theme: string)
      modifies this`dataTheme, this`iconClass, this`ariaLabel
      ensures Shows(theme)
    {
      dataTheme := theme;
      if theme == Light {
        iconClass := "fas fa-moon";
        ariaLabel := "Switch to dark theme";
      } else {
        iconClass := "fas fa-sun";
        ariaLabel := "Switch to light theme";
      }
    }

    /** The toggle button's click handler: apply the opposite theme and store it. */
    method Click()
      modifies this
      ensures Shows(Opposite(old(dataTheme)))
      ensures stored == Some(Opposite(old(dataTheme)))
    {
      var currentTheme := dataTheme;
      var newTheme := if currentTheme == Light then Dark else Light;
      SetTheme(newTheme);
      stored := Some(newTheme);
    }
  }
}
