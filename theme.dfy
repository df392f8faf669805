/** `theme_manager.py`: the module-level `current_theme` and the style sheet of the
    application. */
module Theme {
  import opened Wrappers
  import opened Text

  const Light: string := "light"
  const Dark: string := "dark"

  /** The theme `toggle_theme` switches to. */
  function Toggled(theme: string): (r: string)
    ensures r == Dark <==> theme == Light
    ensures r == Light || r == Dark
  {
    if theme == Light then Dark else Light
  }

  /** Toggling twice restores the theme exactly when it was one of the two known ones. */
  lemma ToggleTwice(theme: string)
    ensures Toggled(Toggled(theme)) == theme <==> theme == Light || theme == Dark
  {
  }

  /** `themes/{name}.qss` */
  function StyleSheetPath(theme: string): (r: string)
    ensures StartsWith(r, "themes/") && EndsWith(r, ".qss") && |r| == |theme| + 11
  {
    "themes/" + theme + ".qss"
  }

  /** Different theme names read different files. */
  lemma StyleSheetPathInjective(a: string, b: string)
    ensures StyleSheetPath(a) == StyleSheetPath(b) ==> a == b
  {
    if StyleSheetPath(a) == StyleSheetPath(b) {
      assert |a| == |b|;
      assert forall i :: 0 <= i < |a| ==> a[i] == StyleSheetPath(a)[7 + i];
      assert forall i :: 0 <= i < |b| ==> b[i] == StyleSheetPath(b)[7 + i];
    }
  }

  class ThemeManager {
    var currentTheme: string
    /** The style sheet last set on the application. */
    var appStyleSheet: Option<string>

    constructor ()
      ensures currentTheme == Light && appStyleSheet == None
    {
      currentTheme := Light;
      appStyleSheet := None;
    }

    /** `apply_theme(name)`: the theme is recorded first; the style sheet changes only
        when `themes/{name}.qss` opens (`sheets` maps the readable style files to their
        contents) and an application exists. */
    method ApplyTheme(name: string, sheets: map<string, string>, appExists: bool)
      modifies this
      ensures currentTheme == name
      ensures appStyleSheet ==
        if StyleSheetPath(name) in sheets && appExists then Some(sheets[StyleSheetPath(name)]) else old(appStyleSheet)
    {
      currentTheme := name;
      var path := StyleSheetPath(name);
      if path in sheets {
        var qss := sheets[path];
        if appExists {
          appStyleSheet := Some(qss);
        }
      }
    }

    /** `toggle_theme` */
    method ToggleTheme(sheets: map<string, string>, appExists: bool) returns (newTheme: string)
      modifies this
      ensures newTheme == Toggled(old(currentTheme)) && currentTheme == newTheme
      ensures appStyleSheet ==
        if StyleSheetPath(newTheme) in sheets && appExists then Some(sheets[StyleSheetPath(newTheme)]) else old(appStyleSheet)
    {
      newTheme := if currentTheme == Light then Dark else Light;
      ApplyTheme(newTheme, sheets, appExists);
    }
  }
}
