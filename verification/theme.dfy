/** The theme toggle of `initTheme` (identical in both scripts): the page
    theme is the `data-theme` attribute, the saved preference is the
    `localStorage` entry `theme`. */
module Theme {
  import opened Wrappers

  /** The theme applied at load: the saved preference, or 'light' when
      nothing usable is saved (`getItem(...) || 'light'` also treats an
      empty saved string as missing). */
  function InitialTheme(saved: Option<string>): (theme: string)
    ensures theme != ""
    ensures saved.Some? && saved.value != "" ==> theme == saved.value
    ensures saved == None || saved == Some("") ==> theme == "light"
  {
    match saved
    case None => "light"
    case Some(v) => if v == "" then "light" else v
  }

  /** The click handler's choice: 'dark' becomes 'light', anything else
      becomes 'dark'. */
  function Toggled(current: string): (next: string)
    ensures next == "light" || next == "dark"
    ensures next != current
  {
    if current == "dark" then "light" else "dark"
  }

  /** Toggling maps 'dark' to 'light' and everything else to 'dark', so it
      always changes the theme, and it undoes itself on 'light' and 'dark'. */
  lemma ToggleAlternates(current: string)
    ensures Toggled(current) == "light" <==> current == "dark"
    ensures Toggled(current) == "dark" <==> current != "dark"
    ensures current == "light" || current == "dark" ==> Toggled(Toggled(current)) == current
  {
  }

  /** The theme after `k` clicks of the toggle. */
  function ThemeAfter(saved: Option<string>, k: nat): (theme: string)
  {
    if k == 0 then InitialTheme(saved) else Toggled(ThemeAfter(saved, k - 1))
  }

  /** After `k >= 1` clicks the theme is dark exactly when the parity of
      `k` says so: odd when the page did not start dark, even when it did. */
  lemma {:induction false} ThemeParity(saved: Option<string>, k: nat)
    requires k >= 1
    ensures ThemeAfter(saved, k) == "light" || ThemeAfter(saved, k) == "dark"
    ensures ThemeAfter(saved, k) == "dark" <==> ((k % 2 == 1) <==> InitialTheme(saved) != "dark")
    decreases k
  {
    if k > 1 {
      ThemeParity(saved, k - 1);
    }
  }

  /** With nothing saved, the page starts light and the first click makes
      it dark. */
  lemma DefaultIsLight()
    ensures ThemeAfter(None, 0) == "light"
    ensures ThemeAfter(None, 1) == "dark"
  {
  }

  /** The page's theme state. */
  class ThemeToggle {
    /** The `data-theme` attribute of the document element. */
    var theme: string
    /** The `localStorage` entry `theme`. */
    var stored: Option<string>

    /** `initTheme`: applies the saved preference without writing it. */
    constructor (saved: Option<string>)
      ensures theme == InitialTheme(saved) && stored == saved
    {
      theme := InitialTheme(saved);
      stored := saved;
    }

    /** The click handler: the new theme is applied and saved. */
    method Toggle()
      modifies this
      ensures theme == Toggled(old(theme))
      ensures stored == Some(theme)
    {
      var newTheme := if theme == "dark" then "light" else "dark";
      theme := newTheme;
      stored := Some(newTheme);
    }
  }
}
