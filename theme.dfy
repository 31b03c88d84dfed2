/**
 * The persistent dark mode: the 'data-theme' attribute of the root element
 * and the 'dq_theme' storage key, switched by the dark-mode button.
 */
module Theme {
  import opened Wrappers

  /**
   * One click of the dark-mode button, as a rule on the current attribute:
   * the new attribute and the value written to storage. Dark becomes light
   * (the attribute is removed), anything else becomes dark, and the stored
   * value names the new state.
   */
  function Toggled(current: Option<string>): (r: (Option<string>, string))
    ensures r.0 == Some("dark") <==> current != Some("dark")
    ensures r.0 == None || r.0 == Some("dark")
    ensures r.1 == (if r.0 == Some("dark") then "dark" else "light")
  {
    if current == Some("dark") then (None, "light") else (Some("dark"), "dark")
  }

  /** Two clicks bring a page that was dark, or had no theme, back to where it was. */
  lemma ToggleTwice(current: Option<string>)
    requires current == None || current == Some("dark")
    ensures Toggled(Toggled(current).0).0 == current
  {
  }

  class Page {
    /** The root element's 'data-theme' attribute. */
    var theme: Option<string>
    /** The value under 'dq_theme'. */
    var saved: Option<string>

    /** The page is dark exactly when the stored preference is dark. */
    predicate Consistent()
      reads this
    {
      theme == Some("dark") <==> saved == Some("dark")
    }

    /**
     * themeInit: a stored "dark" preference turns the page dark; otherwise the
     * attribute the markup carries is left as it is.
     */
    constructor (markup: Option<string>, stored: Option<string>)
      ensures saved == stored
      ensures theme == if stored == Some("dark") then Some("dark") else markup
      ensures markup == None ==> Consistent()
    {
      saved := stored;
      theme := if stored == Some("dark") then Some("dark") else markup;
    }

    /** The click handler on '#btnDarkMode': flips the theme and stores the new state. */
    method Toggle()
      modifies this
      ensures theme == Toggled(old(theme)).0 && saved == Some(Toggled(old(theme)).1)
      ensures (theme == Some("dark")) != (old(theme) == Some("dark"))
      ensures Consistent()
    {
      if theme == Some("dark") {
        theme := None;
        saved := Some("light");
      } else {
        theme := Some("dark");
        saved := Some("dark");
      }
    }
  }
}
