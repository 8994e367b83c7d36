/**
 * src/components/theme-switcher.tsx: the colour-mode select. On mount it selects the
 * option named by the colour-mode cookie; choosing an option selects it and requests
 * that mode from the colour-mode provider.
 */
module ThemeSwitcher {
  import opened JsStrings
  import opened Environment
  import opened Store
  import ColorModeProvider

  datatype ThemeOption = ThemeOption(value: string, caption: string)

  /** `THEME_OPTIONS` */
  const ThemeOptions: seq<ThemeOption> := [
    ThemeOption("light", "Light"),
    ThemeOption("dark", "Dark"),
    ThemeOption("system", "System")
  ]

  /** `parseCookie()`: the value of the colour-mode cookie in `document.cookie`. */
  function ParseThemeCookie(cookie: string): Option<string> {
    ParseCookie(cookie, ColorModeStorageKey)
  }

  /** `THEME_OPTIONS.find((option) => option.value === v)`; an absent `v` matches none. */
  function FindOption(v: Option<string>): (r: Option<ThemeOption>)
    ensures r.Some? <==> v.Some? && IsConfigColorMode(v.value)
    ensures r.Some? ==> r.value in ThemeOptions && r.value.value == v.value
  {
    if v == Some("light") then Some(ThemeOptions[0])
    else if v == Some("dark") then Some(ThemeOptions[1])
    else if v == Some("system") then Some(ThemeOptions[2])
    else None
  }

  /** The select's `value`: the selection, or the first option. */
  function Displayed(selected: Option<ThemeOption>): (r: ThemeOption)
    ensures selected.Some? ==> r == selected.value
    ensures selected.None? ==> r == ThemeOption("light", "Light")
  {
    selected.GetOr(ThemeOptions[0])
  }

  class Switcher {
    const provider: ColorModeProvider.Provider
    /** The `selectedTheme` signal. */
    var selected: Option<ThemeOption>

    constructor (provider: ColorModeProvider.Provider)
      ensures this.provider == provider && selected == None
    {
      this.provider := provider;
      selected := None;
    }

    /** `onMount`: select the option the cookie names, or none. */
    method OnMount()
      modifies this
      ensures selected == FindOption(ParseThemeCookie(provider.env.cookie))
    {
      selected := FindOption(ParseThemeCookie(provider.env.cookie));
    }

    /** `onChange`: a null option changes nothing; an option is selected and requested. */
    method OnChange(option: Option<ThemeOption>)
      requires provider.Valid()
      requires provider.manager.CookieStorageManager? ==> !provider.env.isServer
      modifies this, provider, provider.env
      ensures provider.Valid()
      ensures option.None? ==> unchanged(this) && unchanged(provider) && unchanged(provider.env)
      ensures option.Some? ==>
        (selected == option
         && provider.colorMode == ColorModeProvider.Resolve(option.value.value, provider.env.prefersDark)
         && provider.env.kbTheme == Some(provider.colorMode)
         && (provider.cleanupFn.Some? <==> option.value.value == "system")
         && provider.Persisted(option.value.value))
    {
      if option.Some? {
        selected := option;
        provider.SetColorMode(option.value.value);
      }
    }
  }

  // ---------------------------------------------------------------------------
  // Properties

  /** The options are light, dark and system, in that order, one per configured mode. */
  lemma OptionsAreModes()
    ensures |ThemeOptions| == 3
    ensures forall o :: o in ThemeOptions ==> IsConfigColorMode(o.value)
    ensures forall v :: IsConfigColorMode(v) ==> exists i :: 0 <= i < 3 && ThemeOptions[i].value == v
  {
    assert ThemeOptions[0].value == "light";
    assert ThemeOptions[1].value == "dark";
    assert ThemeOptions[2].value == "system";
  }

  /**
   * Written by the cookie manager, a mode is read back on mount: the selection then
   * shows the mode that was stored.
   */
  lemma MountAfterCookieWrite(v: string)
    requires IsConfigColorMode(v)
    ensures FindOption(ParseThemeCookie(CookieAssignment(ColorModeStorageKey, v))).Some?
    ensures Displayed(FindOption(ParseThemeCookie(CookieAssignment(ColorModeStorageKey, v)))).value == v
  {
    CookieRoundTrip(ColorModeStorageKey, v);
  }

  /**
   * The switcher reads only the cookie: with a cookie-free document it shows 'Light',
   * whatever mode the provider keeps in localStorage.
   */
  lemma NoCookieShowsLight(cookie: string)
    requires !Contains(cookie, ColorModeStorageKey + "=")
    ensures Displayed(FindOption(ParseThemeCookie(cookie))) == ThemeOption("light", "Light")
  {
    CookieNeedsKey(cookie, ColorModeStorageKey);
  }

  /** A cookie value is found only where `key=` occurs. */
  lemma CookieNeedsKey(cookie: string, key: string)
    ensures !Contains(cookie, key + "=") ==> ParseCookie(cookie, key).None?
  {
    var m := FirstCookieMatch(cookie, key, 0);
    if m.Some? {
      assert OccursAt(cookie, key + "=", m.value);
    }
  }
}
