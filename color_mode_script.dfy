/**
 * src/components/theme/color-mode-script.tsx: the inline script that applies the stored
 * colour mode before the page renders. Modelled: the value normalisation, the merge of
 * the props over their defaults, the choice between the cookie and the localStorage
 * script, and the element id. The JavaScript text itself is not modelled.
 */
module ColorModeScript {
  import opened JsStrings
  import opened Store

  /** `VALID_VALUES` */
  const ValidValues: set<string> := {"light", "dark", "system"}

  /** `normalize`: a valid value is kept, anything else becomes the fallback 'system'. */
  function Normalize(initialColorMode: string): (r: string)
    ensures r in ValidValues
    ensures initialColorMode in ValidValues ==> r == initialColorMode
    ensures initialColorMode !in ValidValues ==> r == FallbackColorModeValue
  {
    if initialColorMode !in ValidValues then FallbackColorModeValue else initialColorMode
  }

  /** The props as passed: each one may be `undefined`. */
  datatype ScriptProps = ScriptProps(initialColorMode: Option<string>,
                                     storageType: Option<string>,
                                     storageKey: Option<string>,
                                     nonce: Option<string>)

  /** The props after `mergeProps(defaults, props)`. */
  datatype MergedProps = MergedProps(initialColorMode: string, storageType: string,
                                     storageKey: string, nonce: Option<string>)

  const DefaultStorageType := "localStorage"

  /** `mergeProps` takes a prop unless it is `undefined`; `nonce` has no default. */
  function Merge(props: ScriptProps): (m: MergedProps)
    ensures props.initialColorMode.Some? ==> m.initialColorMode == props.initialColorMode.value
    ensures props.initialColorMode.None? ==> m.initialColorMode == FallbackColorModeValue
    ensures props.storageType.Some? ==> m.storageType == props.storageType.value
    ensures props.storageType.None? ==> m.storageType == DefaultStorageType
    ensures props.storageKey.Some? ==> m.storageKey == props.storageKey.value
    ensures props.storageKey.None? ==> m.storageKey == ColorModeStorageKey
    ensures m.nonce == props.nonce
  {
    MergedProps(props.initialColorMode.GetOr(FallbackColorModeValue),
                props.storageType.GetOr(DefaultStorageType),
                props.storageKey.GetOr(ColorModeStorageKey),
                props.nonce)
  }

  /**
   * Which of the two scripts is emitted, with the values embedded in it: the normalised
   * initial mode and the storage key.
   */
  datatype Script =
    | CookieScript(init: string, storageKey: string)
    | LocalStorageScript(init: string, storageKey: string)

  /** `scriptSrc()`, up to the script text: only a storage type of exactly 'cookie' picks the cookie script. */
  function ScriptSrc(props: ScriptProps): (s: Script)
    ensures s.CookieScript? <==> props.storageType == Some("cookie")
    ensures s.init in ValidValues
    ensures s.init == Normalize(Merge(props).initialColorMode)
    ensures s.storageKey == Merge(props).storageKey
  {
    var merged := Merge(props);
    var init := Normalize(merged.initialColorMode);
    if merged.storageType == "cookie" then CookieScript(init, merged.storageKey)
    else LocalStorageScript(init, merged.storageKey)
  }

  /** The script element's id: built from the fixed key, whatever `storageKey` says. */
  function ScriptId(props: ScriptProps): (id: string)
    ensures id == "kb-color-mode-script"
  {
    ColorModeStorageKey + "-script"
  }

  // ---------------------------------------------------------------------------
  // Properties

  /** `normalize` is idempotent and agrees with the store's notion of a configured mode. */
  lemma NormalizeIdempotent(v: string)
    ensures Normalize(Normalize(v)) == Normalize(v)
    ensures IsConfigColorMode(Normalize(v))
    ensures IsConfigColorMode(v) <==> v in ValidValues
  {
  }

  /** With no props at all, the localStorage script runs with 'system' under 'kb-color-mode'. */
  lemma DefaultScript()
    ensures ScriptSrc(ScriptProps(None, None, None, None))
      == LocalStorageScript("system", "kb-color-mode")
  {
  }

  /** A storage type other than 'cookie', misspelt or in another case, falls back to localStorage. */
  lemma OnlyExactCookie(t: string, props: ScriptProps)
    requires props.storageType == Some(t) && t != "cookie"
    ensures ScriptSrc(props).LocalStorageScript?
  {
  }
}
