/** The colour theme: a theme name kept in a closure variable, mirrored into the
    page's `data-theme` attribute, remembered in storage under `theme`, and a
    toggle button whose text shows the theme a click switches to. */
module Theme {
  import opened Wrappers

  const Dark: string := "dark"
  const Light: string := "light"
  /** Sun (with an emoji presentation selector) and crescent moon. */
  const SunLabel: string := "\U{2600}\U{FE0F}"
  const MoonLabel: string := "\U{1F319}"

  /** The theme at page load: a stored name if it is a non-empty string (any
      string, not only the two known ones), else the system preference. */
  function InitialTheme(saved: Option<string>, prefersDark: bool): (t: string)
    ensures saved.Some? && saved.value != "" ==> t == saved.value
    ensures (saved.None? || saved.value == "") ==> (t == Dark <==> prefersDark)
    ensures (saved.None? || saved.value == "") ==> t in {Dark, Light}
  {
    if saved.Some? && saved.value != "" then saved.value
    else if prefersDark then Dark else Light
  }

  /** The theme a click switches to: light from dark, dark from anything else. */
  function Toggled(t: string): (r: string)
    ensures r in {Dark, Light} && r != t
    ensures t != Dark ==> r == Dark
  {
    if t == Dark then Light else Dark
  }

  /** The button text: the sun exactly when the theme is dark. */
  function Label(t: string): (l: string)
    ensures l in {SunLabel, MoonLabel}
    ensures l == SunLabel <==> t == Dark
  {
    if t == Dark then SunLabel else MoonLabel
  }

  /** Two clicks restore a known theme; a foreign stored name is not restored
      but ends up light. */
  lemma ToggleTwice(t: string)
    ensures t in {Dark, Light} ==> Toggled(Toggled(t)) == t
    ensures t !in {Dark, Light} ==> Toggled(Toggled(t)) == Light != t
  {
  }

  class ThemeToggle {
    var current: string
    var dataTheme: string
    var saved: Option<string>
    const hasButton: bool
    var buttonText: string

    /** The page, the button text and the theme name agree. */
    ghost predicate InSync()
      reads this
    {
      dataTheme == current && (hasButton ==> buttonText == Label(current))
    }

    /** Start-up: pick the theme and show it; storage is only read. */
    constructor (saved: Option<string>, prefersDark: bool, hasButton: bool, buttonText: string)
      ensures InSync()
      ensures current == InitialTheme(saved, prefersDark) && this.saved == saved
      ensures this.hasButton == hasButton && (!hasButton ==> this.buttonText == buttonText)
    {
      var t := InitialTheme(saved, prefersDark);
      current := t;
      dataTheme := t;
      this.saved := saved;
      this.hasButton := hasButton;
      this.buttonText := if hasButton then Label(t) else buttonText;
    }

    /** A click on the toggle button (no handler exists without a button):
        flip the theme, show it, store it and relabel the button. */
    method Click()
      requires InSync()
      modifies this
      ensures InSync()
      ensures hasButton ==> current == Toggled(old(current)) && saved == Some(current)
      ensures hasButton ==> current in {Dark, Light} && (buttonText == SunLabel <==> current == Dark)
      ensures !hasButton ==> current == old(current) && saved == old(saved) && buttonText == old(buttonText)
    {
      if !hasButton {
        return;
      }
      current := Toggled(current);
      dataTheme := current;
      saved := Some(current);
      buttonText := Label(current);
    }
  }
}
