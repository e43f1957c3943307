/**
 * Light/dark theme engine (assets/js/modules/themeController.js).
 *
 * The browser is reduced to plain state: the `barnevis-theme` slot of
 * local storage, the root element's `data-theme` attribute, the content of
 * the `theme-color` meta element, and the log of `themechange` events
 * dispatched on the document. The operating system's colour-scheme
 * preference and the presence of `matchMedia` are inputs.
 */
module ThemeController {
  import opened Wrappers

  const ThemeKey := "barnevis-theme"
  const LightName := "light"
  const DarkName := "dark"

  datatype Theme = Light | Dark {
    /** The string stored and written to the attribute. */
    function Name(): string {
      match this
      case Light => LightName
      case Dark => DarkName
    }
  }

  /**
   * JavaScript truthiness of a storage read or an attribute value: `null`
   * and `""` are false (for storage: nothing is stored).
   */
  predicate Truthy(value: Option<string>) {
    value.Some? && value.value != ""
  }

  /** `setTheme`'s validation: anything other than `'light'` or `'dark'` becomes light. */
  function Coerce(theme: string): (t: Theme)
    ensures t == Dark <==> theme == DarkName
    ensures theme == LightName || theme == DarkName ==> t.Name() == theme
  {
    if theme != LightName && theme != DarkName then Light
    else if theme == DarkName then Dark
    else Light
  }

  /** Coercion leaves the two valid names alone and is idempotent. */
  lemma CoerceName(t: Theme)
    ensures Coerce(t.Name()) == t
  {
  }

  /** `updateMetaThemeColor`'s colour map. */
  function MetaColor(t: Theme): (c: string)
    ensures t == Light ==> c == "#f9fafb"
    ensures t == Dark ==> c == "#09090b"
  {
    match t
    case Light => "#f9fafb"
    case Dark => "#09090b"
  }

  /** The two themes get different browser-chrome colours. */
  lemma MetaColorDistinguishes(a: Theme, b: Theme)
    ensures MetaColor(a) == MetaColor(b) <==> a == b
  {
  }

  /** `getTheme` on the attribute value: the attribute, or `'light'` when it is absent or empty. */
  function ThemeOfAttribute(attr: Option<string>): (r: string)
    ensures Truthy(attr) ==> r == attr.value
    ensures !Truthy(attr) ==> r == LightName
    ensures r != ""
  {
    if Truthy(attr) then attr.value else LightName
  }

  /** `detectSystemPreference`: dark only when `matchMedia` exists and reports a dark preference. */
  function SystemPreference(hasMatchMedia: bool, prefersDark: bool): (t: Theme)
    ensures t == Dark <==> hasMatchMedia && prefersDark
  {
    if hasMatchMedia && prefersDark then Dark else Light
  }

  /** `savedTheme || systemTheme`: priority stored > system (> light, through the system default). */
  function InitialTheme(saved: Option<string>, system: Theme): (r: string)
    ensures Truthy(saved) ==> r == saved.value
    ensures !Truthy(saved) ==> r == system.Name()
  {
    if Truthy(saved) then saved.value else system.Name()
  }

  /** `toggleTheme`'s choice: dark exactly when the current theme reads `'light'`. */
  function Flip(current: string): (t: Theme)
    ensures t == Dark <==> current == LightName
  {
    if current == LightName then Dark else Light
  }

  /** Toggling twice from a valid theme restores it. */
  lemma FlipTwice(t: Theme)
    ensures Flip(Flip(t.Name()).Name()) == t
  {
  }

  /** A current value that is neither valid name toggles to light, like a dark one. */
  lemma FlipOfInvalid(current: string)
    requires current != LightName && current != DarkName
    ensures Flip(current) == Flip(DarkName) == Light
  {
  }

  /** The document, storage and event log as the theme engine sees them. */
  class ThemeEngine {
    /** `localStorage['barnevis-theme']` */
    var storage: Option<string>
    /** `data-theme` on the root element */
    var dataTheme: Option<string>
    /** `content` of `meta[name="theme-color"]`; `None` while that element does not exist */
    var metaColor: Option<string>
    /** whether the OS-preference change listener has been installed */
    var watching: bool
    /** the `detail.theme` of every `themechange` event dispatched, in order */
    ghost var events: seq<Theme>

    constructor (storage: Option<string>, dataTheme: Option<string>, metaColor: Option<string>)
      ensures this.storage == storage && this.dataTheme == dataTheme && this.metaColor == metaColor
      ensures !watching && events == []
    {
      this.storage := storage;
      this.dataTheme := dataTheme;
      this.metaColor := metaColor;
      watching := false;
      events := [];
    }

    /** `getTheme` */
    function GetTheme(): (r: string)
      reads this
      ensures Truthy(dataTheme) ==> r == dataTheme.value
      ensures !Truthy(dataTheme) ==> r == LightName
      ensures r != ""
    {
      ThemeOfAttribute(dataTheme)
    }

    /** `updateMetaThemeColor`: creates the meta element if missing, then sets its colour. */
    method UpdateMetaThemeColor(t: Theme)
      modifies this
      ensures metaColor == Some(MetaColor(t))
      ensures storage == old(storage) && dataTheme == old(dataTheme)
      ensures watching == old(watching) && events == old(events)
    {
      if metaColor.None? {
        metaColor := Some("");
      }
      metaColor := Some(MetaColor(t));
    }

    /**
     * `setTheme(theme, save)`: the coerced theme goes to the attribute and
     * the meta colour, to storage only when `save`, and exactly one event
     * carrying it is dispatched.
     */
    method SetTheme(theme: string, save: bool)
      modifies this
      ensures dataTheme == Some(Coerce(theme).Name())
      ensures metaColor == Some(MetaColor(Coerce(theme)))
      ensures storage == if save then Some(Coerce(theme).Name()) else old(storage)
      ensures events == old(events) + [Coerce(theme)]
      ensures watching == old(watching)
    {
      var t := if theme != LightName && theme != DarkName then LightName else theme;
      var applied := Coerce(t);
      dataTheme := Some(t);
      UpdateMetaThemeColor(applied);
      if save {
        storage := Some(t);
      }
      events := events + [applied];
    }

    /** `toggleTheme`: flips the current theme, applies it, always persists it, and returns it. */
    method ToggleTheme() returns (newTheme: string)
      modifies this
      ensures newTheme == Flip(old(GetTheme())).Name()
      ensures newTheme == DarkName <==> old(GetTheme()) == LightName
      ensures dataTheme == Some(newTheme) && storage == Some(newTheme)
      ensures metaColor == Some(MetaColor(Flip(old(GetTheme()))))
      ensures events == old(events) + [Flip(old(GetTheme()))]
      ensures watching == old(watching)
    {
      var currentTheme := GetTheme();
      newTheme := if currentTheme == LightName then DarkName else LightName;
      SetTheme(newTheme, true);
    }

    /**
     * `initializeTheme`: applies the stored value (coerced) without writing
     * storage, or, when nothing is stored, the system theme and persists it.
     * Either way storage holds a value afterwards.
     */
    method InitializeTheme(hasMatchMedia: bool, prefersDark: bool)
      modifies this
      ensures Truthy(old(storage)) ==> dataTheme == Some(Coerce(old(storage).value).Name()) && storage == old(storage)
      ensures !Truthy(old(storage)) ==>
        var system := SystemPreference(hasMatchMedia, prefersDark);
        dataTheme == Some(system.Name()) && storage == Some(system.Name())
      ensures events == old(events) + [Coerce(InitialTheme(old(storage), SystemPreference(hasMatchMedia, prefersDark)))]
      ensures metaColor == Some(MetaColor(Coerce(InitialTheme(old(storage), SystemPreference(hasMatchMedia, prefersDark)))))
      ensures Truthy(storage)
      ensures watching == old(watching)
    {
      var savedTheme := storage;
      var systemTheme := SystemPreference(hasMatchMedia, prefersDark);
      var initialTheme := InitialTheme(savedTheme, systemTheme);
      SetTheme(initialTheme, !Truthy(savedTheme));
    }

    /** `watchSystemPreference`: installs the change listener only when `matchMedia` exists. */
    method WatchSystemPreference(hasMatchMedia: bool)
      modifies this
      ensures watching == (old(watching) || hasMatchMedia)
      ensures storage == old(storage) && dataTheme == old(dataTheme)
      ensures metaColor == old(metaColor) && events == old(events)
    {
      if !hasMatchMedia {
        return;
      }
      watching := true;
    }

    /** `initThemeEarly`: resolve and apply the theme, then watch the OS preference. */
    method InitThemeEarly(hasMatchMedia: bool, prefersDark: bool)
      modifies this
      ensures Truthy(storage)
      ensures Truthy(old(storage)) ==> storage == old(storage)
      ensures !Truthy(old(storage)) ==> storage == Some(SystemPreference(hasMatchMedia, prefersDark).Name())
      ensures watching == (old(watching) || hasMatchMedia)
      ensures events == old(events) + [Coerce(InitialTheme(old(storage), SystemPreference(hasMatchMedia, prefersDark)))]
      ensures dataTheme == Some(Coerce(InitialTheme(old(storage), SystemPreference(hasMatchMedia, prefersDark))).Name())
      ensures metaColor == Some(MetaColor(Coerce(InitialTheme(old(storage), SystemPreference(hasMatchMedia, prefersDark)))))
    {
      InitializeTheme(hasMatchMedia, prefersDark);
      WatchSystemPreference(hasMatchMedia);
    }

    /**
     * The OS-change listener: applies the OS theme without persisting,
     * only when the listener is installed and storage holds no value;
     * otherwise nothing changes.
     */
    method OnSystemPreferenceChange(matches: bool)
      modifies this
      ensures !watching || Truthy(old(storage)) ==>
        storage == old(storage) && dataTheme == old(dataTheme) && metaColor == old(metaColor) && events == old(events)
      ensures watching && !Truthy(old(storage)) ==>
        var t := if matches then Dark else Light;
        dataTheme == Some(t.Name()) && metaColor == Some(MetaColor(t)) && events == old(events) + [t]
      ensures storage == old(storage) && watching == old(watching)
    {
      if !watching {
        return;
      }
      var savedTheme := storage;
      if !Truthy(savedTheme) {
        var newTheme := if matches then DarkName else LightName;
        SetTheme(newTheme, false);
      }
    }
  }

  /**
   * Once the theme has been initialised, storage always holds a value, so
   * a later OS colour-scheme change is never applied.
   */
  method OsChangeAfterInitIsIgnored(page: ThemeEngine, hasMatchMedia: bool, prefersDark: bool, matches: bool)
    modifies page
    ensures page.dataTheme == Some(Coerce(InitialTheme(old(page.storage), SystemPreference(hasMatchMedia, prefersDark))).Name())
    ensures |page.events| == |old(page.events)| + 1
  {
    page.InitThemeEarly(hasMatchMedia, prefersDark);
    page.OnSystemPreferenceChange(matches);
  }
}
