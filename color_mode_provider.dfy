/**
 * src/components/theme/color-mode-provider.tsx: the colour-mode context. It holds the
 * resolved mode, persists every requested mode through the storage manager, and keeps a
 * listener on the system preference after a request for 'system' (and none after any
 * other request).
 */
module ColorModeProvider {
  import opened JsStrings
  import opened Environment
  import opened Store

  /** The mode shown for a requested mode: 'system' follows the system preference. */
  function Resolve(value: string, prefersDark: bool): (r: string)
    ensures value != "system" ==> r == value
    ensures value == "system" ==> r == (if prefersDark then "dark" else "light")
    ensures IsConfigColorMode(value) ==> IsColorMode(r)
  {
    if value == "system" then GetSystemColorMode(Some(prefersDark), None) else value
  }

  /** `toggleColorMode`: 'light' after 'dark', 'dark' after anything else. */
  function ToggleRequest(colorMode: string): (r: string)
    ensures IsColorMode(r) && r != "system"
    ensures IsColorMode(colorMode) ==> r != colorMode
    ensures r == "light" <==> colorMode == "dark"
  {
    if colorMode == "dark" then "light" else "dark"
  }

  /** The effect's request: `manager.get() ?? props.initialColorMode ?? 'system'`. */
  function EffectRequest(stored: Option<string>, initialColorMode: Option<string>): (r: string)
    ensures stored.Some? ==> r == stored.value
    ensures stored.None? && initialColorMode.Some? ==> r == initialColorMode.value
    ensures stored.None? && initialColorMode.None? ==> r == FallbackColorModeValue
  {
    OrElse(stored, Some(initialColorMode.GetOr(FallbackColorModeValue))).value
  }

  class Provider {
    /** `props.storageManager ?? localStorageManager` */
    const manager: StorageManager
    /** `props.initialColorMode` */
    const initialColorMode: Option<string>
    const env: Browser
    /** The `colorMode` signal. */
    var colorMode: string
    /** `colorModeListenerCleanupFn`: the identity of the listener it removes. */
    var cleanupFn: Option<nat>
    /** Identity for the next listener registered. */
    var nextId: nat

    /** Only the listener that `cleanupFn` removes can be registered. */
    ghost predicate Valid()
      reads this, env
    {
      env.mediaListeners <= (if cleanupFn.Some? then {cleanupFn.value} else {})
    }

    constructor (storageManager: Option<StorageManager>, initialColorMode: Option<string>,
                 env: Browser)
      requires env.mediaListeners == {}
      ensures Valid()
      ensures manager == (if storageManager.Some? then storageManager.value
                          else DefaultLocalStorageManager)
      ensures this.initialColorMode == initialColorMode && this.env == env
      ensures colorMode == GetInitialColorMode(manager, env) && cleanupFn == None
    {
      manager := if storageManager.Some? then storageManager.value else DefaultLocalStorageManager;
      this.initialColorMode := initialColorMode;
      this.env := env;
      colorMode := GetInitialColorMode(
        if storageManager.Some? then storageManager.value else DefaultLocalStorageManager, env);
      cleanupFn := None;
      nextId := 0;
    }

    /** `applyColorMode(value)`: the signal and the root element's dataset. */
    method ApplyColorMode(value: string)
      modifies this, env
      ensures colorMode == value && env.kbTheme == Some(value)
      ensures cleanupFn == old(cleanupFn) && nextId == old(nextId)
      ensures env.mediaListeners == old(env.mediaListeners)
      ensures env.prefersDark == old(env.prefersDark) && env.isServer == old(env.isServer)
      ensures env.localStorage == old(env.localStorage) && env.cookieWrites == old(env.cookieWrites)
      ensures env.storageThrows == old(env.storageThrows) && env.cookie == old(env.cookie)
      ensures env.rootClasses == old(env.rootClasses)
    {
      colorMode := value;
      env.kbTheme := Some(value);
    }

    /**
     * What `colorModeManager().set(value)` leaves in the environment: localStorage gets
     * the value under the key (unless on the server or when storage throws), the cookie
     * manager appends one cookie assignment, and nothing else the manager could touch
     * changes.
     */
    twostate predicate Persisted(value: string)
      reads this, env
    {
      && env.localStorage == (if manager.LocalStorageManager? && !old(env.isServer)
                                 && !old(env.storageThrows)
                              then old(env.localStorage)[manager.key := value]
                              else old(env.localStorage))
      && env.cookieWrites == (if manager.CookieStorageManager?
                              then old(env.cookieWrites) + [CookieAssignment(manager.key, value)]
                              else old(env.cookieWrites))
      && env.isServer == old(env.isServer) && env.prefersDark == old(env.prefersDark)
      && env.storageThrows == old(env.storageThrows) && env.cookie == old(env.cookie)
      && env.rootClasses == old(env.rootClasses)
    }

    /**
     * `setColorMode(value)`: drop any listener, register a new one for 'system', apply
     * the resolved mode and store the requested one.
     */
    method SetColorMode(value: string)
      requires Valid()
      requires manager.CookieStorageManager? ==> !env.isServer
      modifies this, env
      ensures Valid()
      ensures cleanupFn.Some? <==> value == "system"
      ensures env.mediaListeners == (if value == "system" then {cleanupFn.value} else {})
      ensures colorMode == Resolve(value, env.prefersDark) && env.kbTheme == Some(colorMode)
      ensures Persisted(value)
      ensures manager.LocalStorageManager? && !env.isServer && !env.storageThrows ==>
        Stored(manager, env) == Some(value)
    {
      if cleanupFn.Some? {
        env.mediaListeners := env.mediaListeners - {cleanupFn.value};
        cleanupFn := None;
      }
      var isSystem := value == "system";
      if isSystem {
        env.mediaListeners := env.mediaListeners + {nextId};
        cleanupFn := Some(nextId);
        nextId := nextId + 1;
      }
      ApplyColorMode(if isSystem then GetSystemColorMode(Some(env.prefersDark), None) else value);
      Set(manager, env, value);
    }

    /** `toggleColorMode()`: always leaves system mode, drops the listener and stores the new mode. */
    method ToggleColorMode()
      requires Valid()
      requires manager.CookieStorageManager? ==> !env.isServer
      modifies this, env
      ensures Valid()
      ensures colorMode == ToggleRequest(old(colorMode)) && env.kbTheme == Some(colorMode)
      ensures cleanupFn == None && env.mediaListeners == {}
      ensures Persisted(ToggleRequest(old(colorMode)))
      ensures manager.LocalStorageManager? && !env.isServer && !env.storageThrows ==>
        Stored(manager, env) == Some(colorMode)
    {
      SetColorMode(ToggleRequest(colorMode));
    }

    /** The effect: `setColorMode(manager.get() ?? fallbackColorMode())`. */
    method Effect()
      requires Valid()
      requires manager.CookieStorageManager? ==> !env.isServer
      modifies this, env
      ensures Valid()
      ensures var request := EffectRequest(old(Stored(manager, env)), initialColorMode);
        && colorMode == Resolve(request, env.prefersDark) && env.kbTheme == Some(colorMode)
        && (cleanupFn.Some? <==> request == "system")
        && env.mediaListeners == (if request == "system" then {cleanupFn.value} else {})
        && Persisted(request)
        && (manager.LocalStorageManager? && !env.isServer && !env.storageThrows ==>
              Stored(manager, env) == Some(request))
    {
      SetColorMode(EffectRequest(Stored(manager, env), initialColorMode));
    }

    /** `onCleanup`: the listener, if any, is removed; nothing else changes. */
    method Cleanup()
      requires Valid()
      modifies env
      ensures Valid()
      ensures env.mediaListeners == {}
      ensures env.kbTheme == old(env.kbTheme) && env.isServer == old(env.isServer)
      ensures env.prefersDark == old(env.prefersDark) && env.localStorage == old(env.localStorage)
      ensures env.storageThrows == old(env.storageThrows) && env.cookie == old(env.cookie)
      ensures env.cookieWrites == old(env.cookieWrites) && env.rootClasses == old(env.rootClasses)
    {
      if cleanupFn.Some? {
        env.mediaListeners := env.mediaListeners - {cleanupFn.value};
      }
    }

    /**
     * The system preference changes: the registered listener, if any, applies the new
     * system mode; without one the colour mode stays.
     */
    method SystemChange(prefersDark: bool)
      requires Valid()
      modifies this, env
      ensures Valid() && env.prefersDark == prefersDark
      ensures cleanupFn == old(cleanupFn) && env.mediaListeners == old(env.mediaListeners)
      ensures colorMode == (if env.mediaListeners != {} then Resolve("system", prefersDark)
                            else old(colorMode))
      ensures env.kbTheme == (if env.mediaListeners != {} then Some(colorMode) else old(env.kbTheme))
      ensures env.isServer == old(env.isServer) && env.localStorage == old(env.localStorage)
      ensures env.storageThrows == old(env.storageThrows) && env.cookie == old(env.cookie)
      ensures env.cookieWrites == old(env.cookieWrites) && env.rootClasses == old(env.rootClasses)
    {
      env.prefersDark := prefersDark;
      if cleanupFn.Some? && cleanupFn.value in env.mediaListeners {
        ApplyColorMode(if prefersDark then "dark" else "light");
      }
    }
  }

  // ---------------------------------------------------------------------------
  // Properties

  /**
   * At most one listener is ever registered on the media query: a consequence of
   * `Valid`, which every method of the provider keeps.
   */
  lemma AtMostOneListener(p: Provider)
    requires p.Valid()
    ensures |p.env.mediaListeners| <= 1
  {
    if p.cleanupFn.Some? {
      SubsetOfSingleton(p.env.mediaListeners, p.cleanupFn.value);
    }
  }

  lemma SubsetOfSingleton(s: set<nat>, x: nat)
    requires s <= {x}
    ensures |s| <= 1
  {
    if s != {} {
      assert s == {x};
    }
  }

  /** A valid requested mode always resolves to 'light' or 'dark', and toggling twice returns. */
  lemma ResolveAndToggle(value: string, prefersDark: bool)
    ensures IsConfigColorMode(value) ==> IsColorMode(Resolve(value, prefersDark))
    ensures IsColorMode(value) ==> ToggleRequest(ToggleRequest(value)) == value
    ensures ToggleRequest(Resolve("system", prefersDark)) == (if prefersDark then "light" else "dark")
  {
  }
}
