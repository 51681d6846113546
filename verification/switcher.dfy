/**
 * The light/dark theme switch (src/components/common/Switcher.tsx): the
 * theme is kept under the "theme" key of local storage, re-read every
 * 100 ms, and mirrored as a class on the root element.
 */
module Switcher {
  import opened Wrappers

  datatype Theme = Light | Dark

  function ThemeName(t: Theme): string {
    match t
    case Light => "light"
    case Dark => "dark"
  }

  /** `getThemeFromStorage`: only the exact text "dark" selects the dark theme. */
  function ReadTheme(stored: Option<string>): (t: Theme)
    ensures t == Dark <==> stored == Some("dark")
  {
    if stored == Some("dark") then Dark else Light
  }

  /** The theme and the stored value after a click on the switch. */
  datatype Switched = Switched(theme: Theme, stored: string)

  /** `toggle`: the other theme, written to storage under its name. */
  function Toggle(t: Theme): (r: Switched)
    ensures r.theme != t
    ensures r.stored == ThemeName(r.theme)
  {
    var next := if t == Dark then Light else Dark;
    Switched(next, ThemeName(next))
  }

  /** Two clicks give back the theme one started with. */
  lemma ToggleTwice(t: Theme)
    ensures Toggle(Toggle(t).theme).theme == t
  {
  }

  /** What a click stores reads back as the new theme, so the 100 ms poll keeps it. */
  lemma ToggleReadsBack(t: Theme)
    ensures ReadTheme(Some(Toggle(t).stored)) == Toggle(t).theme
  {
  }

  /** The poll: the theme becomes whatever the storage now says. */
  function Poll(t: Theme, stored: Option<string>): (r: Theme)
    ensures r == ReadTheme(stored)
  {
    var current := ReadTheme(stored);
    if current != t then current else t
  }

  /** The class list of the root element after the theme effect runs. */
  function RootClasses(classes: set<string>, t: Theme): (r: set<string>)
    ensures ThemeName(t) in r
    ensures "light" in r <==> t == Light
    ensures "dark" in r <==> t == Dark
    ensures forall c | c != "light" && c != "dark" :: c in r <==> c in classes
  {
    classes - {"light", "dark"} + {ThemeName(t)}
  }
}
