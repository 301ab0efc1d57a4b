/** The light/dark theme toggle. */
module Theme {
  import opened Values

  const Light := "light"
  const Dark := "dark"
  const FollowSystem := "system"

  /** The two themes a page can actually show; the system preference is always one of them. */
  predicate IsConcrete(t: string) {
    t == Light || t == Dark
  }

  /** `localStorage.getItem(THEME_KEY) || "system"`. */
  function SavedTheme(stored: Option<string>): (t: string)
    ensures t != ""
    ensures Truthy(stored) ==> t == stored.value
    ensures !Truthy(stored) ==> t == FollowSystem
  {
    OrElse(stored, FollowSystem)
  }

  /** The theme `applyTheme` puts on the document: the system's for "system", else the given name. */
  function Applied(theme: string, system: string): (t: string)
    requires IsConcrete(system)
    ensures t != FollowSystem
    ensures theme == FollowSystem ==> t == system
    ensures theme != FollowSystem ==> t == theme
  {
    if theme == FollowSystem then system else theme
  }

  /** What the click handler takes as the current theme: the document's, else the system's. */
  function CurrentTheme(shown: string, system: string): string {
    if shown != "" then shown else system
  }

  /** The next theme after a click: light after dark, dark after anything else; never "system". */
  function NextTheme(current: string): (n: string)
    ensures IsConcrete(n)
    ensures IsConcrete(current) ==> n != current
    ensures current != Dark ==> n == Dark
  {
    if current == Dark then Light else Dark
  }

  /** Two clicks come back to the starting theme exactly when it was light or dark. */
  lemma NextThemeTwice(t: string)
    ensures NextTheme(NextTheme(t)) == t <==> IsConcrete(t)
  {
  }

  /** The label `applyTheme` gives the toggle button. */
  function ButtonLabel(t: string): (text: string)
    ensures text == "🌙 Dark mode" <==> t == Dark
    ensures t != Dark ==> text == "☀️ Light mode"
  {
    if t == Dark then "🌙 Dark mode" else "☀️ Light mode"
  }
}
