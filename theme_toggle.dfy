/**
 * The theme button's next-state rule (`cycleTheme`): dark goes to light,
 * light to system, and anything else to dark.
 */
module ThemeToggle {

  /** The three themes the button cycles through. */
  predicate IsTheme(t: string) {
    t == "dark" || t == "light" || t == "system"
  }

  /** `cycleTheme`: the theme that `setTheme` is called with. */
  function CycleTheme(theme: string): (next: string)
    ensures IsTheme(next)
    ensures next != theme
  {
    if theme == "dark" then "light"
    else if theme == "light" then "system"
    else "dark"
  }

  lemma DarkGoesToLight()
    ensures CycleTheme("dark") == "light"
  {
  }

  lemma LightGoesToSystem()
    ensures CycleTheme("light") == "system"
  {
  }

  /** Every other current value, `"system"` included, goes to dark. */
  lemma OtherGoesToDark(theme: string)
    requires theme != "dark" && theme != "light"
    ensures CycleTheme(theme) == "dark"
  {
  }

  /** Three presses bring each of the three themes back to itself, passing through the other two. */
  lemma ThreePressesReturn(theme: string)
    requires IsTheme(theme)
    ensures CycleTheme(CycleTheme(CycleTheme(theme))) == theme
    ensures {theme, CycleTheme(theme), CycleTheme(CycleTheme(theme))} == {"dark", "light", "system"}
  {
  }
}
