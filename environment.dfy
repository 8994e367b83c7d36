/**
 * The parts of the browser (or server) environment that the colour-mode and theme code
 * reads and writes: whether the code runs on the server, the `prefers-color-scheme: dark`
 * media query, `localStorage`, `document.cookie` and the class list of the root element.
 */
module Environment {
  import opened JsStrings

  class Browser {
    /** `isServer` from solid-js/web. */
    var isServer: bool
    /** `window.matchMedia('(prefers-color-scheme: dark)').matches` */
    var prefersDark: bool
    /** The `localStorage` items. */
    var localStorage: map<string, string>
    /** Whether `localStorage` access throws (storage disabled, sandboxed frame). */
    var storageThrows: bool
    /** What reading `document.cookie` returns. */
    var cookie: string
    /** The strings assigned to `document.cookie`, oldest first. */
    var cookieWrites: seq<string>
    /** `window.document.documentElement.classList` */
    var rootClasses: set<string>
    /** The `change` listeners registered on the dark-scheme media query, by identity. */
    var mediaListeners: set<nat>
    /** `document.documentElement.dataset.kbTheme`, also written to `style.colorScheme`. */
    var kbTheme: Option<string>

    constructor (isServer: bool, prefersDark: bool, localStorage: map<string, string>,
                 storageThrows: bool, cookie: string, rootClasses: set<string>)
      ensures this.isServer == isServer && this.prefersDark == prefersDark
      ensures this.localStorage == localStorage && this.storageThrows == storageThrows
      ensures this.cookie == cookie && this.cookieWrites == []
      ensures this.rootClasses == rootClasses
      ensures mediaListeners == {} && kbTheme == None
    {
      this.isServer := isServer;
      this.prefersDark := prefersDark;
      this.localStorage := localStorage;
      this.storageThrows := storageThrows;
      this.cookie := cookie;
      this.cookieWrites := [];
      this.rootClasses := rootClasses;
      this.mediaListeners := {};
      this.kbTheme := None;
    }
  }
}
