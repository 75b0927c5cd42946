/** The theme button (src/components/theme-toggle.tsx): a click moves the
    stored theme name along light, dark, system; the button shows an icon
    and a label for the current name, and a fixed system look until the
    component has mounted. */
module ThemeToggle {
  /** The three looks the button tells apart. Any stored name other than
      `light` and `dark` (`system` or an unrecognised string) is shown as
      System; an undefined theme takes the same branches as an unrecognised
      string and is not modelled separately. */
  datatype Mode = Light | Dark | System

  /** The name `setTheme` stores for each mode. */
  function ModeName(m: Mode): string {
    match m
    case Light => "light"
    case Dark => "dark"
    case System => "system"
  }

  /** How the icon and label branches read a stored name. */
  function ModeOf(theme: string): Mode {
    if theme == "light" then Light else if theme == "dark" then Dark else System
  }

  /** The cycle the button walks. */
  function Next(m: Mode): Mode {
    match m
    case Light => Dark
    case Dark => System
    case System => Light
  }

  const SunIcon: string := "\U{2600}\U{FE0F}"
  const MoonIcon: string := "\U{1F319}"
  const LaptopIcon: string := "\U{1F4BB}"

  /** The name stored by a click on the button. */
  function ToggleTheme(theme: string): (r: string)
    ensures r == ModeName(Next(ModeOf(theme)))
    ensures r != theme
  {
    if theme == "light" then "dark"
    else if theme == "dark" then "system"
    else "light"
  }

  /** The icon shown for a stored name once mounted. */
  function ThemeIcon(theme: string): (r: string)
    ensures ModeOf(theme) == Light <==> r == SunIcon
    ensures ModeOf(theme) == Dark <==> r == MoonIcon
    ensures ModeOf(theme) == System <==> r == LaptopIcon
  {
    if theme == "light" then SunIcon
    else if theme == "dark" then MoonIcon
    else LaptopIcon
  }

  /** The label shown for a stored name once mounted. */
  function ThemeLabel(theme: string): (r: string)
    ensures ModeOf(theme) == Light <==> r == "Light"
    ensures ModeOf(theme) == Dark <==> r == "Dark"
    ensures ModeOf(theme) == System <==> r == "System"
  {
    if theme == "light" then "Light"
    else if theme == "dark" then "Dark"
    else "System"
  }

  /** What the button shows: the icon and label of the stored name once
      mounted, and the system look before, whatever is stored. */
  function ButtonDisplay(mounted: bool, theme: string): (r: (string, string))
    ensures mounted ==> r == (ThemeIcon(theme), ThemeLabel(theme))
    ensures !mounted ==> r == (LaptopIcon, "System")
  {
    if mounted then (ThemeIcon(theme), ThemeLabel(theme)) else (LaptopIcon, "System")
  }

  /** Every name the button stores is read back as the mode it was stored
      for. */
  lemma NameRoundTrip(m: Mode)
    ensures ModeOf(ModeName(m)) == m
  {
  }

  /** Three clicks bring any stored name back to its own look, and bring
      each of the three names the button stores back to itself. */
  lemma ThreeClicks(theme: string)
    ensures ModeOf(ToggleTheme(ToggleTheme(ToggleTheme(theme)))) == ModeOf(theme)
    ensures ModeName(ModeOf(theme)) == theme ==> ToggleTheme(ToggleTheme(ToggleTheme(theme))) == theme
  {
    var m := ModeOf(theme);
    NameRoundTrip(Next(m));
    NameRoundTrip(Next(Next(m)));
    NameRoundTrip(Next(Next(Next(m))));
  }

  /** A click always changes what the button shows once mounted. */
  lemma ClickChangesDisplay(theme: string)
    ensures ButtonDisplay(true, ToggleTheme(theme)) != ButtonDisplay(true, theme)
  {
    NameRoundTrip(Next(ModeOf(theme)));
  }

  /** The icon and the label never disagree: two stored names get the same
      icon exactly when they get the same label. */
  lemma IconMatchesLabel(t1: string, t2: string)
    ensures ThemeIcon(t1) == ThemeIcon(t2) <==> ThemeLabel(t1) == ThemeLabel(t2)
  {
    assert SunIcon != MoonIcon && SunIcon != LaptopIcon && MoonIcon != LaptopIcon;
  }

  /** Before mounting the button looks exactly as it does for the `system`
      name after mounting, so the first paint does not depend on a stored
      name the server cannot know. */
  lemma UnmountedLooksSystem(theme: string)
    ensures ButtonDisplay(false, theme) == ButtonDisplay(true, "system")
  {
  }
}
