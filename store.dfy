/**
 * src/lib/store.ts: the site constants, the category map, cookie parsing, the two
 * colour-mode storage managers and the resolution of the initial colour mode.
 */
module Store {
  import opened JsStrings
  import Utils
  import opened Environment

  // ---------------------------------------------------------------------------
  // APP, built from package.json

  datatype Package = Package(name: string, description: string, homepage: string,
                             repositoryUrl: string, authorName: string)

  datatype AppInfo = AppInfo(githubUrl: string, description: string, homePage: string,
                             shortName: string, longName: string, author: string,
                             ogImageUrl: string)

  const OgImageSuffix := "/og-image.jpg"

  /** `APP`: the package fields, the name turned into a title, the Open Graph image URL. */
  function App(pkg: Package): (a: AppInfo)
    ensures a.githubUrl == pkg.repositoryUrl && a.description == pkg.description
    ensures a.homePage == pkg.homepage && a.shortName == pkg.name && a.author == pkg.authorName
    ensures |a.longName| == |pkg.name|
    ensures forall i :: 0 <= i < |pkg.name| && pkg.name[i] == '-' ==> a.longName[i] == ' '
    ensures StartsWith(a.ogImageUrl, pkg.homepage) && EndsWith(a.ogImageUrl, OgImageSuffix)
    ensures |a.ogImageUrl| == |pkg.homepage| + |OgImageSuffix|
  {
    SanitizeSlugDashes(pkg.name);
    AppInfo(pkg.repositoryUrl, pkg.description, pkg.homepage, pkg.name,
            Utils.SanitizeSlug(pkg.name), pkg.authorName, pkg.homepage + OgImageSuffix)
  }

  lemma SanitizeSlugDashes(name: string)
    ensures |Utils.SanitizeSlug(name)| == |name|
    ensures forall i :: 0 <= i < |name| && name[i] == '-' ==> Utils.SanitizeSlug(name)[i] == ' '
  {
    Utils.SanitizeSlugChars(name);
  }

  // ---------------------------------------------------------------------------
  // categoryMap and categoriesKeys

  /** `categoryMap`, its entries in declaration order. */
  const CategoryMap: seq<(string, string)> := [
    ("calculs", "Calculs"),
    ("ressources", "Ressources"),
    ("cours", "Cours Académiques"),
    ("research", "Recherches")
  ]

  function Keys(m: seq<(string, string)>): (r: seq<string>)
    ensures |r| == |m| && forall i :: 0 <= i < |m| ==> r[i] == m[i].0
  {
    if m == [] then [] else [m[0].0] + Keys(m[1..])
  }

  /** `categoriesKeys = Object.keys(categoryMap)` */
  function CategoriesKeys(): seq<string> {
    Keys(CategoryMap)
  }

  lemma CategoriesKeysInOrder()
    ensures CategoriesKeys() == ["calculs", "ressources", "cours", "research"]
  {
  }

  /** `record[key]` on an own key; `None` for a key the record does not have. */
  function Lookup(m: seq<(string, string)>, key: string): (r: Option<string>)
    ensures r.None? <==> key !in Keys(m)
    ensures r.Some? ==> exists i :: 0 <= i < |m| && m[i] == (key, r.value)
  {
    if m == [] then None
    else if m[0].0 == key then Some(m[0].1)
    else
      var r := Lookup(m[1..], key);
      assert Keys(m) == [m[0].0] + Keys(m[1..]);
      if r.Some? then
        ghost var i :| 0 <= i < |m| - 1 && m[1..][i] == (key, r.value);
        assert m[i + 1] == (key, r.value);
        r
      else r
  }

  /** `categoryMap[key]` */
  function CategoryTitle(key: string): Option<string> {
    Lookup(CategoryMap, key)
  }

  // ---------------------------------------------------------------------------
  // parseCookie: cookie.match(new RegExp(`(^| )${key}=([^;]+)`))?.[2]

  /**
   * The pattern matches with `key=` at index `k`: `k` is the start of the string or
   * follows a space, and at least one character other than ';' comes after the '='.
   */
  predicate CookieMatchAt(cookie: string, key: string, k: nat) {
    OccursAt(cookie, key + "=", k) && (k == 0 || cookie[k - 1] == ' ')
    && k + |key| + 1 < |cookie| && cookie[k + |key| + 1] != ';'
  }

  /** The leftmost match: the least key index at or after `from` where the pattern matches. */
  function FirstCookieMatch(cookie: string, key: string, from: nat): (r: Option<nat>)
    ensures r.Some? ==> from <= r.value && CookieMatchAt(cookie, key, r.value)
    ensures r.Some? ==> forall j :: from <= j < r.value ==> !CookieMatchAt(cookie, key, j)
    ensures r.None? ==> forall j :: from <= j ==> !CookieMatchAt(cookie, key, j)
    decreases |cookie| - from
  {
    if from >= |cookie| then None
    else if CookieMatchAt(cookie, key, from) then Some(from)
    else FirstCookieMatch(cookie, key, from + 1)
  }

  /** `[^;]+` read greedily from `from`: the longest run of characters other than ';'. */
  function ValueRun(s: string, from: nat): (r: string)
    requires from <= |s|
    ensures from + |r| <= |s| && r == s[from..from + |r|] && ';' !in r
    ensures from + |r| == |s| || s[from + |r|] == ';'
    decreases |s| - from
  {
    if from == |s| || s[from] == ';' then ""
    else [s[from]] + ValueRun(s, from + 1)
  }

  function ParseCookie(cookie: string, key: string): Option<string> {
    match FirstCookieMatch(cookie, key, 0)
    case None => None
    case Some(k) => Some(ValueRun(cookie, k + |key| + 1))
  }

  /** A run of non-';' characters followed by ';' or the end is the greedy run. */
  lemma {:induction false} ValueRunIs(s: string, from: nat, v: string)
    requires from + |v| <= |s| && s[from..from + |v|] == v && ';' !in v
    requires from + |v| == |s| || s[from + |v|] == ';'
    ensures ValueRun(s, from) == v
    decreases |v|
  {
    if v != [] {
      assert s[from] == v[0] && v[0] in v;
      assert s[from + 1..from + 1 + |v[1..]|] == v[1..];
      ValueRunIs(s, from + 1, v[1..]);
    }
  }

  /** `createCookieStorageManager(...).set`: what is assigned to `document.cookie`. */
  function CookieAssignment(key: string, value: string): string {
    key + "=" + value + "; max-age=31536000; path=/"
  }

  /** parseCookie reads back the value that the cookie manager writes. */
  lemma CookieRoundTrip(key: string, value: string)
    requires value != "" && ';' !in value
    ensures ParseCookie(CookieAssignment(key, value), key) == Some(value)
  {
    var s := CookieAssignment(key, value);
    var n := |key| + 1;
    assert s[..n] == key + "=";
    assert s[n..n + |value|] == value;
    assert s[n + |value|] == ';';
    assert s[n] == value[0];
    assert CookieMatchAt(s, key, 0);
    ValueRunIs(s, n, value);
  }

  /**
   * In a cookie string without spaces only index 0 can match, so a cookie is found
   * exactly when the string starts with `key=` and a character other than ';'.
   */
  lemma NoSpaceCookie(cookie: string, key: string)
    requires ' ' !in cookie
    ensures ParseCookie(cookie, key).Some? <==>
      StartsWith(cookie, key + "=") && |key| + 1 < |cookie| && cookie[|key| + 1] != ';'
  {
    forall j | 0 < j
      ensures !CookieMatchAt(cookie, key, j)
    {
      if j <= |cookie| {
        assert cookie[j - 1] in cookie;
      }
    }
    assert CookieMatchAt(cookie, key, 0) <==>
      StartsWith(cookie, key + "=") && |key| + 1 < |cookie| && cookie[|key| + 1] != ';';
  }

  /** A cookie whose name merely ends in the key is not matched. */
  lemma LongerNameNotMatched()
    ensures ParseCookie("xkb-color-mode=dark", ColorModeStorageKey) == None
  {
    var c := "xkb-color-mode=dark";
    assert ' ' !in c;
    assert c[0] != (ColorModeStorageKey + "=")[0];
    NoSpaceCookie(c, ColorModeStorageKey);
  }

  /** An empty value is not matched. */
  lemma EmptyValueNotMatched(key: string)
    requires ' ' !in key
    ensures ParseCookie(key + "=;", key) == None
  {
    var c := key + "=;";
    assert ' ' !in c by {
      assert forall i :: 0 <= i < |c| ==> c[i] == ' ' ==> i < |key| && key[i] in key;
    }
    NoSpaceCookie(c, key);
  }

  // ---------------------------------------------------------------------------
  // Colour modes and the storage managers

  const ColorModeStorageKey := "kb-color-mode"
  const FallbackColorModeValue := "system"

  /** `ColorMode` */
  predicate IsColorMode(v: string) {
    v == "light" || v == "dark"
  }

  /** `ConfigColorMode` */
  predicate IsConfigColorMode(v: string) {
    IsColorMode(v) || v == "system"
  }

  datatype StorageType = CookieStorage | LocalStorage

  /**
   * A `ColorModeStorageManager`: the localStorage manager of `key`, or the cookie
   * manager of `key` with the cookie string injected for server rendering, if any.
   */
  datatype StorageManager =
    | LocalStorageManager(key: string)
    | CookieStorageManager(key: string, cookie: Option<string>)
  {
    function Type(): StorageType {
      if LocalStorageManager? then LocalStorage else CookieStorage
    }

    /** `ssr`: false for localStorage, `!!cookie` for the cookie manager. */
    predicate Ssr() {
      CookieStorageManager? && cookie.Some? && cookie.value != ""
    }
  }

  const DefaultLocalStorageManager := LocalStorageManager(ColorModeStorageKey)
  const DefaultCookieStorageManager := CookieStorageManager(ColorModeStorageKey, None)

  /** `cookieStorageManagerSSR(cookie)` */
  function CookieStorageManagerSsr(cookie: string): (m: StorageManager)
    ensures m.Type() == CookieStorage && m.key == ColorModeStorageKey
    ensures m.Ssr() <==> cookie != ""
  {
    CookieStorageManager(ColorModeStorageKey, Some(cookie))
  }

  /** `value ?? fallback` */
  function OrElse(value: Option<string>, fallback: Option<string>): Option<string> {
    if value.Some? then value else fallback
  }

  /** `manager.get(fallback)` */
  function Get(m: StorageManager, env: Browser, fallback: Option<string>): Option<string>
    reads env
  {
    match m
    case LocalStorageManager(key) =>
      if env.isServer || env.storageThrows then fallback
      else if key in env.localStorage then Some(env.localStorage[key])
      else fallback
    case CookieStorageManager(key, cookie) =>
      if cookie.Some? && cookie.value != "" then OrElse(ParseCookie(cookie.value, key), fallback)
      else if env.isServer then fallback
      else OrElse(ParseCookie(env.cookie, key), fallback)
  }

  /** The stored value, as `manager.get()` returns it without a fallback. */
  function Stored(m: StorageManager, env: Browser): Option<string>
    reads env
  {
    Get(m, env, None)
  }

  /** Every manager falls back exactly when nothing is stored, and only then. */
  lemma GetFallsBack(m: StorageManager, env: Browser, fallback: Option<string>)
    ensures Get(m, env, fallback) == OrElse(Stored(m, env), fallback)
  {
    if m.CookieStorageManager? && !(m.cookie.Some? && m.cookie.value != "") && !env.isServer {
      assert Stored(m, env) == ParseCookie(env.cookie, m.key);
    }
  }

  /**
   * The cookie manager reads an injected non-empty cookie string before anything else:
   * the environment is then irrelevant.
   */
  lemma InjectedCookieFirst(m: StorageManager, env1: Browser, env2: Browser, fallback: Option<string>)
    requires m.Ssr()
    ensures Get(m, env1, fallback) == Get(m, env2, fallback)
    ensures Stored(m, env1) == ParseCookie(m.cookie.value, m.key)
  {
  }

  /** `manager.set(value)` */
  method Set(m: StorageManager, env: Browser, value: string)
    requires m.CookieStorageManager? ==> !env.isServer
    modifies env
    ensures m.LocalStorageManager? ==>
      env.localStorage == (if old(env.isServer || env.storageThrows) then old(env.localStorage)
                           else old(env.localStorage)[m.key := value])
    ensures m.LocalStorageManager? ==> env.cookieWrites == old(env.cookieWrites)
    ensures m.CookieStorageManager? ==> env.localStorage == old(env.localStorage)
    ensures m.CookieStorageManager? ==>
      env.cookieWrites == old(env.cookieWrites) + [CookieAssignment(m.key, value)]
    ensures env.isServer == old(env.isServer) && env.prefersDark == old(env.prefersDark)
    ensures env.storageThrows == old(env.storageThrows) && env.cookie == old(env.cookie)
    ensures env.rootClasses == old(env.rootClasses)
    ensures env.mediaListeners == old(env.mediaListeners) && env.kbTheme == old(env.kbTheme)
    ensures m.LocalStorageManager? && !env.isServer && !env.storageThrows ==>
      Stored(m, env) == Some(value)
    ensures m.CookieStorageManager? && value != "" && ';' !in value ==>
      ParseCookie(env.cookieWrites[|env.cookieWrites| - 1], m.key) == Some(value)
  {
    match m
    case LocalStorageManager(key) =>
      if !env.isServer && !env.storageThrows {
        env.localStorage := env.localStorage[key := value];
      }
    case CookieStorageManager(key, _) =>
      env.cookieWrites := env.cookieWrites + [CookieAssignment(key, value)];
      if value != "" && ';' !in value {
        CookieRoundTrip(key, value);
      }
  }

  /** `getSystemColorMode(fallback)`: `matches ?? fallback === 'dark'`. */
  function GetSystemColorMode(matches: Option<bool>, fallback: Option<string>): (r: string)
    ensures r == "dark" <==>
      (if matches.Some? then matches.value else fallback == Some("dark"))
    ensures IsColorMode(r)
  {
    var isDark := if matches.Some? then matches.value else fallback == Some("dark");
    if isDark then "dark" else "light"
  }

  /** Since `??` guards `matches` alone, the fallback is ignored whenever `matches` is known. */
  lemma SystemModeIgnoresFallback(matches: bool, f1: Option<string>, f2: Option<string>)
    ensures GetSystemColorMode(Some(matches), f1) == GetSystemColorMode(Some(matches), f2)
  {
  }

  /** The system colour mode of the environment. */
  function SystemMode(env: Browser): string
    reads env
  {
    GetSystemColorMode(Some(env.prefersDark), None)
  }

  /** `getInitialColorMode(manager)` */
  function GetInitialColorMode(m: StorageManager, env: Browser): string
    reads env
  {
    var initial := Get(m, env, Some("light")).GetOr("light");
    if initial == "system" then
      if env.isServer then "light" else SystemMode(env)
    else initial
  }

  /**
   * An absent stored value gives 'light'; a stored 'system' gives 'light' on the server
   * and the system mode in the browser; any other stored string is returned unvalidated.
   */
  lemma InitialColorModeCases(m: StorageManager, env: Browser)
    ensures Stored(m, env).None? ==> GetInitialColorMode(m, env) == "light"
    ensures Stored(m, env) == Some("system") ==>
      GetInitialColorMode(m, env) == (if env.isServer then "light" else SystemMode(env))
    ensures Stored(m, env).Some? && Stored(m, env).value != "system" ==>
      GetInitialColorMode(m, env) == Stored(m, env).value
  {
    GetFallsBack(m, env, Some("light"));
  }

  /** A valid stored value (or none) always resolves to 'light' or 'dark'. */
  lemma InitialColorModeResolved(m: StorageManager, env: Browser)
    requires Stored(m, env).None? || IsConfigColorMode(Stored(m, env).value)
    ensures IsColorMode(GetInitialColorMode(m, env))
  {
    InitialColorModeCases(m, env);
  }
}
