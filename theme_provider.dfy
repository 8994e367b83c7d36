/**
 * src/providers/theme-provider.tsx: a second theme context kept in localStorage. The
 * theme starts from the stored item, `setTheme` stores and sets it, and an effect keeps
 * exactly one resolved theme class on the root element.
 */
module ThemeProvider {
  import opened JsStrings
  import opened Environment

  const DefaultStorageKey := "vite-ui-theme"
  /** The theme of the context's default value, used outside any provider. */
  const ContextDefaultTheme := "system"

  /** `props.storageKey ?? 'vite-ui-theme'`, the same key for reading and writing. */
  function StorageKey(storageKey: Option<string>): (k: string)
    ensures storageKey.Some? ==> k == storageKey.value
    ensures storageKey.None? ==> k == DefaultStorageKey
  {
    storageKey.GetOr(DefaultStorageKey)
  }

  /** `localStorage.getItem(key)`: `null` for a missing item. */
  function GetItem(storage: map<string, string>, key: string): Option<string> {
    if key in storage then Some(storage[key]) else None
  }

  /**
   * `(getItem(key) || props.defaultTheme) ?? 'system'`: a non-empty stored string is
   * taken as it is, without checking that it names a theme.
   */
  function InitialTheme(stored: Option<string>, defaultTheme: Option<string>): (r: string)
    ensures stored.Some? && stored.value != "" ==> r == stored.value
    ensures (stored.None? || stored.value == "") && defaultTheme.Some? ==> r == defaultTheme.value
    ensures (stored.None? || stored.value == "") && defaultTheme.None? ==> r == "system"
  {
    if stored.Some? && stored.value != "" then stored.value
    else defaultTheme.GetOr("system")
  }

  /** The class the effect adds: 'system' follows the media query. */
  function ResolvedTheme(theme: string, prefersDark: bool): (r: string)
    ensures theme == "system" ==> (r == "dark" <==> prefersDark) && (r == "light" <==> !prefersDark)
    ensures theme != "system" ==> r == theme
  {
    if theme == "system" then (if prefersDark then "dark" else "light") else theme
  }

  /** The ASCII whitespace that `DOMTokenList.add` refuses inside a token. */
  predicate IsAsciiWhitespace(c: char) {
    c == ' ' || c == '\t' || c == '\n' || c == '\r' || c == '\U{C}'
  }

  /** A token `classList.add` accepts: non-empty and free of ASCII whitespace. */
  predicate ValidToken(t: string) {
    t != "" && forall i :: 0 <= i < |t| ==> !IsAsciiWhitespace(t[i])
  }

  /**
   * The root classes after the effect: 'light' and 'dark' removed, then the resolved
   * theme added; when `add` throws on the token, only the removal has happened.
   */
  function ClassesAfterEffect(classes: set<string>, resolved: string): (r: set<string>)
    ensures forall c :: c != "light" && c != "dark" && c != resolved ==> (c in r <==> c in classes)
    ensures ValidToken(resolved) ==> resolved in r
    ensures !ValidToken(resolved) ==> "light" !in r && "dark" !in r
  {
    var removed := classes - {"light", "dark"};
    if ValidToken(resolved) then removed + {resolved} else removed
  }

  class Provider {
    const storageKey: Option<string>
    const env: Browser
    /** The `theme` signal. */
    var theme: string

    /** Reading the item runs during rendering: on the server, or with storage refused, it throws. */
    constructor (storageKey: Option<string>, defaultTheme: Option<string>, env: Browser)
      requires !env.isServer && !env.storageThrows
      ensures this.storageKey == storageKey && this.env == env
      ensures theme == InitialTheme(GetItem(env.localStorage, StorageKey(storageKey)), defaultTheme)
    {
      this.storageKey := storageKey;
      this.env := env;
      theme := InitialTheme(GetItem(env.localStorage, StorageKey(storageKey)), defaultTheme);
    }

    /** The effect; `ok` is false when `classList.add` throws on the resolved token. */
    method ApplyTheme() returns (ok: bool)
      modifies env
      ensures ok <==> ValidToken(ResolvedTheme(theme, env.prefersDark))
      ensures env.rootClasses
        == ClassesAfterEffect(old(env.rootClasses), ResolvedTheme(theme, env.prefersDark))
      ensures env.localStorage == old(env.localStorage) && env.prefersDark == old(env.prefersDark)
      ensures env.isServer == old(env.isServer) && env.storageThrows == old(env.storageThrows)
      ensures env.cookie == old(env.cookie) && env.cookieWrites == old(env.cookieWrites)
      ensures env.mediaListeners == old(env.mediaListeners) && env.kbTheme == old(env.kbTheme)
    {
      env.rootClasses := env.rootClasses - {"light", "dark"};
      var resolved := if theme == "system" then (if env.prefersDark then "dark" else "light")
                      else theme;
      ok := ValidToken(resolved);
      if ok {
        env.rootClasses := env.rootClasses + {resolved};
      }
    }

    /**
     * `setTheme(newTheme)`: the item is written first, then the signal; when the write
     * throws the signal is left as it was.
     */
    method SetTheme(newTheme: string)
      modifies this, env
      ensures old(env.storageThrows) ==> theme == old(theme) && env.localStorage == old(env.localStorage)
      ensures !old(env.storageThrows) ==>
        (theme == newTheme
         && env.localStorage == old(env.localStorage)[StorageKey(storageKey) := newTheme])
      ensures env.rootClasses == old(env.rootClasses) && env.prefersDark == old(env.prefersDark)
      ensures env.isServer == old(env.isServer) && env.storageThrows == old(env.storageThrows)
      ensures env.cookie == old(env.cookie) && env.cookieWrites == old(env.cookieWrites)
      ensures env.mediaListeners == old(env.mediaListeners) && env.kbTheme == old(env.kbTheme)
    {
      if !env.storageThrows {
        env.localStorage := env.localStorage[StorageKey(storageKey) := newTheme];
        theme := newTheme;
      }
    }
  }

  /** `useTheme()` outside a provider: the default context, theme 'system' and a setter that does nothing. */
  datatype ContextValue = ContextValue(theme: string)

  function DefaultContext(): (c: ContextValue)
    ensures c.theme == "system"
  {
    ContextValue(ContextDefaultTheme)
  }

  /** The default context's `setTheme`. */
  function DefaultSetTheme(c: ContextValue, newTheme: string): (r: ContextValue)
    ensures r.theme == c.theme
  {
    c
  }

  // ---------------------------------------------------------------------------
  // Properties

  /**
   * After the effect the root holds exactly one of 'light' and 'dark' when the theme is
   * one of the three themes, and that one is the resolved theme.
   */
  lemma OneThemeClass(classes: set<string>, theme: string, prefersDark: bool)
    requires theme == "light" || theme == "dark" || theme == "system"
    ensures var r := ClassesAfterEffect(classes, ResolvedTheme(theme, prefersDark));
      && ("light" in r <==> ResolvedTheme(theme, prefersDark) == "light")
      && ("dark" in r <==> ResolvedTheme(theme, prefersDark) == "dark")
      && ("light" in r) != ("dark" in r)
  {
    var resolved := ResolvedTheme(theme, prefersDark);
    assert ValidToken(resolved) by {
      assert resolved == "light" || resolved == "dark";
    }
  }

  /** A theme written by `setTheme` is the initial theme of the next provider with the same key. */
  lemma SetThenReload(storage: map<string, string>, storageKey: Option<string>,
                      newTheme: string, defaultTheme: Option<string>)
    requires newTheme != ""
    ensures InitialTheme(GetItem(storage[StorageKey(storageKey) := newTheme], StorageKey(storageKey)),
                         defaultTheme) == newTheme
  {
  }

  /** A stored value that names no theme still becomes the theme and a root class. */
  lemma StoredValueUnchecked(classes: set<string>, stored: string, prefersDark: bool)
    requires ValidToken(stored) && stored != "system" && stored != "light" && stored != "dark"
    ensures InitialTheme(Some(stored), Some("dark")) == stored
    ensures stored in ClassesAfterEffect(classes, ResolvedTheme(stored, prefersDark))
    ensures "dark" !in ClassesAfterEffect(classes, ResolvedTheme(stored, prefersDark))
  {
  }
}
