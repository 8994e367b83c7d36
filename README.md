# fintech-academy in Dafny

A model of the logic behind the fintech-academy documentation site, a SolidJS
application. The model covers:

- the inline markup scanner that turns `%caption%`, `[label](href)` and `**bold**` into
  nodes, and the slug helpers;
- the navigation rules: side-nav sections, the page of a URL and its neighbours, the
  footer pager, breadcrumbs, and the command palette;
- the resolution of a document path to a module, and the split of a tall document into
  panels;
- the table of contents' set of active headings;
- the colour-mode cookie, the storage managers, and the colour-mode and theme providers;
- the small pure rules of the text field, the data table and the head metadata.

Each source file is one module. Pure code is written as functions with lemmas. Code that
changes things step by step is written as methods with loops, proved equal to a
specification function. Stateful components are classes whose methods state their new
state: the colour-mode provider, the theme provider, the theme switcher, the table of
contents and the command palette. The browser is the class `Environment.Browser`. It
holds `isServer`, the dark-scheme media query, `localStorage`, `document.cookie`, the
cookies written and the root element's classes.

Three modules are shared library models:

- `JsStrings`: the JavaScript string built-ins the site uses.
- `JsSort`: the default `Array.prototype.sort()`, a stable sort by string conversion.
- `Content`: the `allDocs`/`allPages` collections with `find`, `indexOf` and indexing.

In these places the model follows the code as written:

- A breadcrumb for a page with no pathname renders an empty trail. The component does
  not return `null` there.
- The breadcrumb links leave out the first path segment.
- The theme switcher reads only the cookie, whatever storage manager the provider uses.
- The callout renders its nodes with `<Dynamic component={comp.type}>`, but
  `parseMarkdown` sets `comp` and never `type`. Only the plain-text pieces show any
  content.
- `docs-layout.tsx` drops three `/`-pieces of the pathname: the empty one before the
  leading `/`, the base path and `docs`.

## Model

| member | source | states |
|---|---|---|
| Utils.Capitalize | src/lib/utils.ts:8-10 | length kept, the first character upper-cased, every other character unchanged ("" stays "") |
| Utils.SlugRun | src/lib/utils.ts:17-19 | a maximal whitespace run between two non-space characters becomes exactly one '-' in the slug |
| Utils.CollapseAppend | src/lib/utils.ts:17-19 | collapsing whitespace runs distributes over a concatenation whose left part ends in a non-space |
| Utils.CollapseNoSpace | src/lib/utils.ts:17-19 | a text without whitespace is left unchanged by the run replacement |
| Utils.CollapseHasNoSpace | src/lib/utils.ts:17-19 | no whitespace survives the run replacement |
| Utils.SlugNoSpace | src/lib/utils.ts:17-19 | the slug of a text without whitespace is that text lower-cased, character for character |
| Utils.SlugHasNoSpace | src/lib/utils.ts:17-19 | a slug contains no whitespace |
| Utils.CollapseKeepsLower | src/lib/utils.ts:17-19 | replacing runs keeps a lower-case text lower-case |
| Utils.SlugIdempotent | src/lib/utils.ts:17-19 | createSlug(createSlug(t)) == createSlug(t) |
| Utils.MapCapitalize | src/lib/utils.ts:21-23 | the words, each capitalized, in order |
| Utils.JoinCapitalize | src/lib/utils.ts:21-23 | joining capitalized space-free words equals capitalizing the joined text at every word start |
| Utils.SanitizeSlugChars | src/lib/utils.ts:21-23 | length kept; each '-' becomes a space, each character after a start, '-' or space is upper-cased, every other character is unchanged |
| Utils.FaviconUrl | src/lib/utils.ts:30-32 | the Google favicon service prefix followed by the domain, unchanged |
| Markdown.RenderAppend | src/lib/utils.ts:39-62 | the markup of a concatenation of pieces is the concatenation of their markups |
| Markdown.FirstFrom | src/lib/utils.ts:69-109 | the first position at or after `from` holding `c`, or none exists |
| Markdown.MatchBoldAtCorrect | src/lib/store.ts:21 | the bold scanner at one position finds the shortest `**…**` match there, or none exists there |
| Markdown.CloseBoldCorrect | src/lib/store.ts:21 | the closing `**` search returns the first closing pair after a non-empty single-line inner text, or reports that none exists |
| Markdown.FindBoldCorrect | src/lib/store.ts:21 | the global BOLD regex finds the leftmost match, with the shortest inner text, or there is no match from that index |
| Markdown.FindBold | src/lib/store.ts:21 | a match starts after `from`, has a non-empty inner text and ends within the string |
| Markdown.BoldPiecesStep | src/lib/utils.ts:44-55 | one match adds the text before it (only if non-empty) and one strong node, then the scan resumes after the closing `**` |
| Markdown.ProcessBoldDone | src/lib/utils.ts:57-59 | after the last match the rest of the text is pushed only when non-empty |
| Markdown.ProcessBold | src/lib/utils.ts:39-62 | the `while (true)` exec loop yields exactly the specified bold pieces of the text |
| Markdown.MatchLinkAtCorrect | src/lib/store.ts:22 | at one position the link scanner finds `[label](href)` with a non-empty `]`-free label and a non-empty `)`-free href, or no link starts there |
| Markdown.LinkAtUnique | src/lib/store.ts:22 | a link starting at a position has one label end and one href end |
| Markdown.FindLinkCorrect | src/lib/store.ts:22 | the global LINK regex finds the leftmost link, or there is none from that index |
| Markdown.FindLink | src/lib/store.ts:22 | a match starts after `from` and its brackets and parentheses lie within the string |
| Markdown.MatchCaptionAtCorrect | src/lib/store.ts:20 | the BREAK scanner finds the shortest single-line `%…%` at a position, or none starts there |
| Markdown.SplitFrom | src/lib/utils.ts:70 | the split yields at least one part |
| Markdown.LinkPiecesStep | src/lib/utils.ts:80-101 | one link adds the bold pieces of the text before it, then an anchor with the href and the label, then the scan resumes after `)` |
| Markdown.ScanLinksDone | src/lib/utils.ts:103-105 | after the last link only a non-empty rest is handed to processBold |
| Markdown.ScanLinks | src/lib/utils.ts:76-105 | the link exec loop yields exactly the specified link pieces of the part |
| Markdown.ParsePartScan | src/lib/utils.ts:71-107 | a part gives its caption node, its scanned nodes, or the part itself when the scan gives nothing |
| Markdown.ParseMarkdown | src/lib/utils.ts:69-109 | parseMarkdown as the flat map of the part parser over the caption split |
| MarkdownFacts.FindBoldStars | src/lib/store.ts:21 | a bold match is opened and closed by two '*' each |
| MarkdownFacts.FindLinkBrackets | src/lib/store.ts:22 | a link match has '[' , '](' and ')' where it says |
| MarkdownFacts.BoldRoundTrip | src/lib/utils.ts:49-58 | re-wrapping strong nodes in `**` and concatenating all pieces gives back the scanned text |
| MarkdownFacts.LinkRoundTrip | src/lib/utils.ts:85-104 | re-writing anchors as `[label](href)` and bold as `**…**` gives back the scanned part |
| MarkdownFacts.BoldPiecesOk | src/lib/utils.ts:44-61 | for a link-free text, every bold piece is a non-empty text with no bold match left in it, or a strong node whose inner text is non-empty, single-line and holds no earlier closing `**` |
| MarkdownFacts.LinkPiecesOk | src/lib/utils.ts:80-101 | every link piece is an anchor with a non-empty `]`-free label and a non-empty `)`-free href, or a bold piece of link-free text between links |
| MarkdownParse.SplitCaptionsShape | src/lib/utils.ts:70 | the split alternates caption-free text parts and `%…%` parts, and its concatenation is the input |
| MarkdownParse.ParseTextPart | src/lib/utils.ts:71-107 | a caption-free part is not taken for a caption; "" gives [""]; other parts give their link pieces, which render back to the part |
| MarkdownParse.ParseCaptionPart | src/lib/utils.ts:71-74 | a `%x%` part gives one CodeCaption labelled with x trimmed |
| MarkdownParse.RenderFlat | src/lib/utils.ts:70-108 | the parts' pieces render back to the concatenated parts when captions are already trimmed |
| MarkdownParse.ParseMarkdownRoundTrip | src/lib/utils.ts:69-109 | with trimmed captions, rendering parseMarkdown's output gives back the input |
| MarkdownParse.ParseMarkdownPieces | src/lib/utils.ts:69-109 | every output piece is the empty text of an empty part, a caption, or a well-formed link or bold piece |
| MarkdownParse.NoMarkupParse | src/lib/utils.ts:103-107 | a text with no caption, link or bold match (including "") parses to exactly [text] |
| MarkdownParse.ParseEmptyPart | src/lib/utils.ts:107 | the empty part comes back as the string "" |
| MarkdownParse.CaptionParse | src/lib/utils.ts:70-74 | "%x%" parses to ["", CodeCaption(trim x), ""] |
| MarkdownParse.LinkParse | src/lib/utils.ts:80-101 | "[l](h)" parses to one anchor with href h and children l |
| MarkdownParse.BoldParse | src/lib/utils.ts:39-62 | "a**b**c" parses to the non-empty texts a and c around one strong node b |
| SolidMdx.CreateSlugAsInUtils | src/tools/solid-mdx.tsx:12-13 | the file's own createSlug agrees with the one in utils on every input |
| SolidMdx.Heading | src/tools/solid-mdx.tsx:19-69 | h1-h4 keep their level and text; the id has no whitespace and is the lower-cased text when the text has none |
| SolidMdx.SameTextSameId | src/tools/solid-mdx.tsx:26 | two headings whose texts lower-case alike get the same id, whatever their levels |
| SolidMdx.HeadingIdIsSlug | src/tools/solid-mdx.tsx:26 | a heading id is its own slug |
| SolidMdx.Math | src/tools/solid-mdx.tsx:133-143 | class 'math-display' exactly when block is true, else 'math-inline'; KaTeX display mode likewise; the source is kept |
| SolidMdx.MathClassAgreesWithMode | src/tools/solid-mdx.tsx:133-143 | the class and the display mode always agree |
| Callout.TypeOf | src/components/callout.tsx:74 | a missing type selects note; a given type selects the config of that name, or none for an unknown name |
| Callout.TypeNameRoundTrip | src/components/callout.tsx:35-66 | type names and config entries correspond one to one |
| Callout.Header | src/components/callout.tsx:82-84 | the title upper-cased, followed by " : " and the subject, not upper-cased, only for a truthy subject |
| Callout.RenderPiece | src/components/callout.tsx:88-96 | text pieces render verbatim; node pieces render through Dynamic with no component, since the nodes have no `type` |
| Callout.NoPieceHasType | src/components/callout.tsx:75 | no node parseMarkdown makes has a `type` property |
| Callout.Callout | src/components/callout.tsx:73-100 | a known type renders one body item per parseMarkdown piece, in order; an unknown type has no config |
| Callout.DefaultIsNote | src/components/callout.tsx:74 | without a type the header starts with NOTE |
| Callout.Titles | src/components/callout.tsx:35-66 | tip, note, caution, attention are titled Astuce, Note, Caution, Attention |
| Store.App | src/lib/store.ts:27-35 | APP copies the package fields; LONG_NAME has the name's dashes as spaces; OG_IMAGE_URL is the homepage plus /og-image.jpg |
| Store.SanitizeSlugDashes | src/lib/store.ts:32 | LONG_NAME has the package name's length, with a space for every '-' |
| Store.Keys | src/lib/store.ts:44 | the keys of the category map, in declaration order |
| Store.CategoriesKeysInOrder | src/lib/store.ts:37-44 | categoriesKeys is calculs, ressources, cours, research |
| Store.Lookup | src/lib/store.ts:37-42 | a lookup finds the key's entry, or none exactly when the key is absent |
| Store.FirstCookieMatch | src/lib/store.ts:149-152 | the first position from which `key=` follows the start or a space, with a non-';' value character; none when no position qualifies |
| Store.ValueRun | src/lib/store.ts:150 | the maximal run of non-';' characters from a position |
| Store.ValueRunIs | src/lib/store.ts:150 | a ';'-free run followed by ';' or the end is the value read |
| Store.CookieRoundTrip | src/lib/store.ts:149-174 | parsing the cookie string written by `set` returns the value, for a non-empty value without ';' |
| Store.NoSpaceCookie | src/lib/store.ts:149-152 | for a space-free cookie, a value is found exactly when it starts with `key=` followed by a non-';' character |
| Store.LongerNameNotMatched | src/lib/store.ts:150 | 'xkb-color-mode=dark' is not the kb-color-mode cookie |
| Store.EmptyValueNotMatched | src/lib/store.ts:150 | `key=;` gives no value |
| Store.CookieStorageManagerSsr | src/lib/store.ts:182-184 | a cookie manager with the colour-mode key whose `ssr` is true exactly for a non-empty cookie string |
| Store.GetFallsBack | src/lib/store.ts:121-171 | `get` returns the stored value if there is one, else the fallback |
| Store.InjectedCookieFirst | src/lib/store.ts:161-171 | with an injected cookie string, `get` reads that string whatever the environment |
| Store.Set | src/lib/store.ts:135-174 | localStorage `set` stores the value unless on the server or refused; cookie `set` appends `key=value; max-age=…; path=/`; nothing else changes; the value reads back |
| Store.GetSystemColorMode | src/lib/store.ts:190-193 | 'dark' exactly when the query matches, or, without a query result, when the fallback is dark; always light or dark |
| Store.SystemModeIgnoresFallback | src/lib/store.ts:190-193 | with a boolean `matches` the fallback has no effect |
| Store.InitialColorModeCases | src/lib/store.ts:195-208 | nothing stored gives light; a stored 'system' gives light on the server, else the system mode; any other stored string is returned unchecked |
| Store.InitialColorModeResolved | src/lib/store.ts:195-208 | a valid stored mode resolves to light or dark |
| ColorModeProvider.Resolve | src/components/theme/color-mode-provider.tsx:30-48 | 'system' resolves to the system mode; any other request is shown as given |
| ColorModeProvider.ToggleRequest | src/components/theme/color-mode-provider.tsx:52-54 | 'light' after 'dark', 'dark' after anything else; never 'system', and different from a resolved mode |
| ColorModeProvider.EffectRequest | src/components/theme/color-mode-provider.tsx:56-58 | stored value, else the initial prop, else 'system' |
| ColorModeProvider.Provider.constructor | src/components/theme/color-mode-provider.tsx:21-28 | the manager defaults to localStorage; the mode starts as getInitialColorMode; no listener |
| ColorModeProvider.Provider.ApplyColorMode | src/components/theme/color-mode-provider.tsx:30-34 | the signal and the root dataset take the value; nothing else changes |
| ColorModeProvider.Provider.SetColorMode | src/components/theme/color-mode-provider.tsx:36-50 | one listener exactly while the request is 'system'; the mode and the dataset hold the resolved request; the manager stores the request itself (localStorage under the key unless on the server or when storage throws, or one cookie assignment appended); no other environment field changes |
| ColorModeProvider.Provider.ToggleColorMode | src/components/theme/color-mode-provider.tsx:52-54 | the mode becomes the toggled request and the listener is gone; the manager stores that request and no other environment field changes |
| ColorModeProvider.Provider.Effect | src/components/theme/color-mode-provider.tsx:56-58 | the stored or initial request is applied and stored again; the listener set is the one new listener exactly when that request is 'system', else empty; no other environment field changes |
| ColorModeProvider.Provider.Cleanup | src/components/theme/color-mode-provider.tsx:60-63 | the listener is removed and the provider stays valid; the mode and every other environment field are kept |
| ColorModeProvider.Provider.SystemChange | src/components/theme/color-mode-provider.tsx:42-46 | a change of preference re-resolves the mode and writes the dataset only while the listener is registered; the listener, storage, cookies and root classes are untouched |
| ColorModeProvider.AtMostOneListener | src/components/theme/color-mode-provider.tsx:37-46 | a valid provider has at most one listener on the media query |
| ColorModeProvider.ResolveAndToggle | src/components/theme/color-mode-provider.tsx:30-54 | a valid request resolves to light or dark; toggling twice returns; toggling 'system' leaves the system mode |
| ColorModeScript.Normalize | src/components/theme/color-mode-script.tsx:14-20 | light, dark and system kept; anything else becomes system |
| ColorModeScript.NormalizeIdempotent | src/components/theme/color-mode-script.tsx:9-20 | normalize is idempotent and its result is a configured mode |
| ColorModeScript.Merge | src/components/theme/color-mode-script.tsx:23-30 | defaults system, localStorage, kb-color-mode; given props win |
| ColorModeScript.ScriptSrc | src/components/theme/color-mode-script.tsx:32-44 | the cookie script exactly for storageType 'cookie'; the normalised mode and the key are embedded |
| ColorModeScript.DefaultScript | src/components/theme/color-mode-script.tsx:23-44 | default props choose the localStorage script with system and kb-color-mode |
| ColorModeScript.OnlyExactCookie | src/components/theme/color-mode-script.tsx:40-41 | any storage type other than 'cookie' selects localStorage |
| ColorModeScript.ScriptId | src/components/theme/color-mode-script.tsx:48 | the element id is kb-color-mode-script |
| ThemeSwitcher.FindOption | src/components/theme-switcher.tsx:45 | the option with the cookie's value, found exactly for light, dark or system |
| ThemeSwitcher.Displayed | src/components/theme-switcher.tsx:71 | the selection, or the Light option without one |
| ThemeSwitcher.Switcher.constructor | src/components/theme-switcher.tsx:40-41 | no option selected |
| ThemeSwitcher.Switcher.OnMount | src/components/theme-switcher.tsx:43-47 | selects the option the colour-mode cookie names, or none |
| ThemeSwitcher.Switcher.OnChange | src/components/theme-switcher.tsx:60-65 | a null option leaves the switcher, the provider and the environment unchanged; an option is selected, applied to the mode and the dataset, and persisted through the provider's manager |
| ThemeSwitcher.OptionsAreModes | src/components/theme-switcher.tsx:21-37 | light, dark and system, one per configured mode |
| ThemeSwitcher.MountAfterCookieWrite | src/components/theme-switcher.tsx:14-19 | a mode written as the colour-mode cookie is displayed after mount |
| ThemeSwitcher.NoCookieShowsLight | src/components/theme-switcher.tsx:14-19 | without the colour-mode cookie the Light option is displayed |
| ThemeSwitcher.CookieNeedsKey | src/components/theme-switcher.tsx:15-18 | a value is found only where `key=` occurs |
| ThemeProvider.StorageKey | src/providers/theme-provider.tsx:27 | the given key, else vite-ui-theme |
| ThemeProvider.InitialTheme | src/providers/theme-provider.tsx:26-30 | a non-empty stored value, else the default theme, else system |
| ThemeProvider.ResolvedTheme | src/providers/theme-provider.tsx:37-47 | system resolves to dark exactly when the query matches, else light; any other theme is used as it is |
| ThemeProvider.ClassesAfterEffect | src/providers/theme-provider.tsx:35-47 | light and dark removed, then the resolved class added; other classes untouched |
| ThemeProvider.Provider.constructor | src/providers/theme-provider.tsx:25-30 | the theme starts from storage under the key |
| ThemeProvider.Provider.ApplyTheme | src/providers/theme-provider.tsx:32-48 | the root classes after the effect; fails exactly when the token is not a valid class; every other environment field is kept |
| ThemeProvider.Provider.SetTheme | src/providers/theme-provider.tsx:52-55 | storage under the key, then the theme, take the new value; when storage throws neither changes; every other environment field is kept |
| ThemeProvider.DefaultContext | src/providers/theme-provider.tsx:16-23 | outside a provider the theme is system |
| ThemeProvider.DefaultSetTheme | src/providers/theme-provider.tsx:18-20 | the default setter changes nothing |
| ThemeProvider.OneThemeClass | src/providers/theme-provider.tsx:35-47 | for a valid theme exactly one of light and dark is on the root, the resolved one |
| ThemeProvider.SetThenReload | src/providers/theme-provider.tsx:27-53 | a theme set is the initial theme of the next provider with the same key |
| ThemeProvider.StoredValueUnchecked | src/providers/theme-provider.tsx:26-47 | a stored value naming no theme still becomes the theme and a root class |
| TextField.MapKeys | src/components/ui/text-field.tsx:111-113 | the keys of the map, in insertion order |
| TextField.MapValues | src/components/ui/text-field.tsx:111-113 | the values of the map, in insertion order |
| TextField.MapSet | src/components/ui/text-field.tsx:112 | `Map.set`: an existing key keeps its place and takes the value; a new key goes last |
| TextField.UniqueErrors | src/components/ui/text-field.tsx:111-113 | absent errors give []; otherwise the reference de-duplication |
| TextField.BuildMapIsUnique | src/components/ui/text-field.tsx:112 | the Map built by successive `set`s holds each message by first occurrence with its last error |
| TextField.MapSetStep | src/components/ui/text-field.tsx:112 | one `set` keeps the map equal to the reference entries of the prefix |
| TextField.KeysInOrderDistinct | src/components/ui/text-field.tsx:112 | the keys are distinct and are exactly the messages of the errors |
| TextField.KeysByFirstOccurrence | src/components/ui/text-field.tsx:112 | keys are ordered by first occurrence |
| TextField.LastWins | src/components/ui/text-field.tsx:112 | the error kept for a message is the last with that message |
| TextField.UniqueByMessage | src/components/ui/text-field.tsx:111-113 | no two entries share a message; every message has an entry; empty exactly for no errors |
| TextField.DisplayRules | src/components/ui/text-field.tsx:120-133 | children first; nothing without errors; the message for one unique error; else the list of all unique messages |
| TextField.SameMessageOnce | src/components/ui/text-field.tsx:111-133 | two errors with the same message show that message once, keeping the later error |
| DataTable.CellDisplay | src/components/data-table.tsx:105-122 | 'No' anywhere gives a cross, else 'Yes' gives a check mark, else the rendered value |
| DataTable.SubstringNotWord | src/components/data-table.tsx:105-111 | 'No' anywhere inside a text (as in 'November') gives a cross; a text with no capital 'N' or 'Y' (such as 'no') is shown as it is |
| DataTable.NoBeforeYes | src/components/data-table.tsx:105-118 | a text with both words is a cross |
| DataTable.ShownIsMarkOrText | src/components/data-table.tsx:105-122 | a shown cell is one of the two marks or its own text |
| DataTable.TableBody | src/components/data-table.tsx:88-122 | no data or no rows gives one fallback row over every column; otherwise one row per data row with each cell marked |
| Metadata.FullTitle | src/components/metadata.tsx:22 | the title, a space, a vertical bar, a space, then LONG_NAME; title and LONG_NAME are kept whole |
| Metadata.MetaDescription | src/components/metadata.tsx:24 | the description unless absent, so an empty one is kept |
| Metadata.CanonicalUrl | src/components/metadata.tsx:26-35 | a truthy prop, else the window's href, else the home page |
| Metadata.Render | src/components/metadata.tsx:22-111 | each tag: shared title and description, image, card and type defaults, keywords only when non-empty, robots only for noIndex, article tags only for type article and truthy props |
| Metadata.ArticleOnlyWhenTyped | src/components/metadata.tsx:83-104 | article tags appear exactly for the type 'article' |
| Metadata.Defaults | src/components/metadata.tsx:24-60 | with only a title every default applies and no conditional tag appears |
| Metadata.EmptyValues | src/components/metadata.tsx:24-53 | an empty description is kept, an empty canonical falls back, an empty keyword list emits nothing |
| SideNav.EntryKeys | src/components/side-nav.tsx:62 | the keys of the entries, in order |
| SideNav.DocKeys | src/components/side-nav.tsx:47-60 | each doc's category key, "undefined" for none |
| SideNav.GroupByCategory | src/components/side-nav.tsx:47-60 | the reduce loop yields exactly the reference grouping |
| SideNav.PushHolds | src/components/side-nav.tsx:47-60 | one push keeps the record in step with the reference grouping |
| SideNav.GroupStep | src/components/side-nav.tsx:47-60 | the grouping grows by one doc at a time |
| SideNav.GroupDistinct | src/components/side-nav.tsx:47-60 | no category has two entries |
| SideNav.GroupKeys | src/components/side-nav.tsx:47-60 | a category has an entry exactly when a doc has it |
| SideNav.GroupLinks | src/components/side-nav.tsx:47-60 | each entry holds the links of exactly its docs, in allDocs order |
| SideNav.LinksOfAbsent | src/components/side-nav.tsx:47-60 | a category no doc has gets no links |
| SideNav.SortLinksKeepsOrder | src/components/side-nav.tsx:65 | `links.sort()` leaves the links in allDocs order |
| SideNav.SectionsShape | src/components/side-nav.tsx:43-67 | the two fixed sections first, then the entries sorted as a permutation of the groups, each with its title and its docs' links |
| SideNav.SectionsLayout | src/components/side-nav.tsx:43-67 | fixed sections, then one section per sorted entry |
| SideNav.SortedEntriesLinks | src/components/side-nav.tsx:62-66 | each sorted entry keeps the links of its category |
| SideNav.KnownKeysIncomparable | src/lib/store.ts:37-42 | two category keys differ before either ends |
| SideNav.KnownKeysSortByKey | src/components/side-nav.tsx:62 | for known categories the sections are in key order |
| SideNav.AllLinks | src/components/side-nav.tsx:53-56 | one link per doc: its title and /docs/ path |
| SideNav.GroupUncategorised | src/components/side-nav.tsx:47-60 | docs without category form one "undefined" entry |
| SideNav.UncategorisedDocs | src/components/side-nav.tsx:43-67 | they give one section with no title |
| SideNav.UndefinedHasNoTitle | src/components/side-nav.tsx:64 | categoryMap has no "undefined" title |
| JsSort.SortBySorted | src/components/side-nav.tsx:62 | the sort's result is ordered by string conversion |
| JsSort.SortByPermutes | src/components/side-nav.tsx:62 | the sort is a permutation |
| JsSort.SortByEqualKeys | src/components/side-nav.tsx:65 | when every element has the same string conversion, the sort returns the input unchanged |
| JsSort.SortByStable | src/components/side-nav.tsx:65 | stability: for every string, the elements converting to it appear in the same relative order before and after the sort |
| Content.At | src/components/docs-layout.tsx:56-65 | an element for an index in range, else none |
| Content.FindIndex | src/components/docs-layout.tsx:21-29 | the first index satisfying the test, or none exists |
| Content.IndexOf | src/components/docs-layout.tsx:34-38 | the first index holding the element, -1 exactly when absent |
| Content.IndexOfFound | src/components/docs-layout.tsx:21-38 | `indexOf` of what `find` found is the index `find` stopped at |
| DocsLayout.NoSegmentNoPage | src/components/docs-layout.tsx:15-31 | no segment gives no page |
| DocsLayout.LaterSegmentsIgnored | src/components/docs-layout.tsx:21-29 | segments after the second do not matter |
| DocsLayout.DocsUrlSegments | src/components/docs-layout.tsx:15 | for /base/docs/rest, the segments are the '/'-pieces of rest |
| DocsLayout.CurrentIdxIsPage | src/components/docs-layout.tsx:20-38 | the index of the first match in allDocs then allPages, or -1 exactly without a page |
| DocsLayout.NextPrevious | src/components/docs-layout.tsx:34-65 | neighbours by position; none beyond the ends; without a page, next is the first document and previous is absent |
| DocsLayout.HeadingsOfPage | src/components/docs-layout.tsx:41-46 | the page's headings, or none without a page |
| IntroRoute.CurrentIdxIsIntro | src/routes/docs/index.tsx:12-16 | the first page titled Introduction in allPages, or -1 exactly when none is |
| IntroRoute.IntroNeighbours | src/routes/docs/index.tsx:14-30 | neighbours in allPages only; without the page, next is allPages[0] and previous is absent |
| DocFooter.ValidKeys | src/components/doc-footer.tsx:15-17 | only keys holding a page, each with it |
| DocFooter.Reverse | src/components/doc-footer.tsx:25 | the reversed order |
| DocFooter.LinkRules | src/components/doc-footer.tsx:29-50 | the classes, arrow, row direction, label, target and title of a link, per key and count |
| DocFooter.NextThenPrevious | src/components/doc-footer.tsx:15-50 | previous is shown before next when both exist; one alone is shown alone; none shows nothing |
| SubNav.NonEmpty | src/components/sub-nav.tsx:19-21 | exactly the non-empty pieces |
| SubNav.NonEmptyAppend | src/components/sub-nav.tsx:19-21 | the filter keeps order and multiplicity: it distributes over concatenation, and keeps a single piece exactly when it is non-empty |
| SubNav.Segments | src/components/sub-nav.tsx:19-21 | segments exist exactly with a pathname; each is non-empty and '/'-free |
| SubNav.SegmentsOfPath | src/components/sub-nav.tsx:19-21 | the pieces of a path without the first |
| SubNav.NonEmptyKeeps | src/components/sub-nav.tsx:20 | the filter keeps a list without empty pieces |
| SubNav.NullCases | src/components/sub-nav.tsx:23-25 | null exactly with a pathname of at most one segment; no pathname gives no crumbs |
| SubNav.ConstructSegmentIsPrefix | src/components/sub-nav.tsx:27-32 | '/' and the segments up to the index, joined |
| SubNav.ConstructSegmentExtends | src/components/sub-nav.tsx:27-32 | each href extends the previous one |
| SubNav.Crumbs | src/components/sub-nav.tsx:73-89 | one crumb per segment |
| SubNav.CrumbRules | src/components/sub-nav.tsx:73-89 | each crumb's href, its sanitizeSlug label, and a separator after all but the last |
| SubNav.RedirectSrcFileSteps | src/components/sub-nav.tsx:34-53 | the step-by-step rewrite equals the reference path |
| SubNav.RedirectOfSegments | src/components/sub-nav.tsx:34-53 | /index for internship dirs, first 'docs' replaced by 'pages', under the editor source dir with .mdx |
| SubNav.RedirectShape | src/components/sub-nav.tsx:34-53 | the path is in the source dir and ends in .mdx; no pathname gives undefined.mdx |
| SubNav.ReplaceAbsent | src/components/sub-nav.tsx:50 | replace leaves a dir without 'docs' unchanged |
| SubNav.ReplaceAtStart | src/components/sub-nav.tsx:50 | only the first 'docs' is replaced |
| SubNav.NestleIsInternship | src/components/side-nav.tsx:18-27 | the Nestlé internship href contains docs/nestle |
| SubNav.FaqIsNotInternship | src/components/sub-nav.tsx:45 | docs/faq is not an internship dir |
| SubNav.NoFaqWithoutQ | src/components/sub-nav.tsx:45 | a text without 'q' does not contain docs/faq |
| SubNav.SegmentsOfDocsPath | src/components/sub-nav.tsx:19-21 | /base/docs/slug gives segments docs and slug |
| SubNav.RedirectDocsSlug | src/components/sub-nav.tsx:34-53 | /base/docs/slug opens pages/slug/index.mdx for internships, else pages/slug.mdx |
| Search.InCategory | src/components/search.tsx:141 | the filter keeps at most all docs |
| Search.InCategoryMembers | src/components/search.tsx:141 | exactly the docs of the category |
| Search.InCategoryAppend | src/components/search.tsx:141 | the filter keeps allDocs order |
| Search.Items | src/components/search.tsx:142-148 | one item per doc with its /docs/ path |
| Search.Groups | src/components/search.tsx:136-148 | one group per categoryMap entry |
| Search.GroupRules | src/components/search.tsx:136-148 | groups in categoryMap order, headed by the title, with exactly the items of that category's docs |
| Search.DocGroups | src/components/search.tsx:136-141 | a doc appears in its category's group only, and nowhere for other categories |
| Search.CommandMenu.constructor | src/components/search.tsx:68 | closed, nothing navigated |
| Search.CommandMenu.HandleKeyDown | src/components/search.tsx:75-89 | a shortcut outside a field flips `open` and is prevented; any other key changes nothing |
| Search.CommandMenu.SetOpen | src/components/search.tsx:100 | the dialog's open state is set |
| Search.CommandMenu.Select | src/components/search.tsx:70-73 | closes, then navigates to the item's path |
| Search.ToggleRules | src/components/search.tsx:75-89 | the shortcut is '/' or 'k' with meta or ctrl, case-sensitive, ignored in editable targets |
| Search.TogglePairs | src/components/search.tsx:75-89 | two presses return to the start; one flips |
| Search.CountToggles | src/components/search.tsx:75-89 | the toggles are at most the events |
| Search.FoldOpenParity | src/components/search.tsx:75-89 | after events the dialog has flipped once per toggling event |
| Toc.Remove | src/components/toc.tsx:29-32 | the list without the id |
| Toc.RemoveAppend | src/components/toc.tsx:29-32 | removal keeps the order of the remaining ids: it distributes over concatenation |
| Toc.RemoveDistinct | src/components/toc.tsx:29-32 | removal keeps a duplicate-free list so and drops exactly one element when present |
| Toc.TocState.constructor | src/components/toc.tsx:16 | no active item |
| Toc.TocState.OnIntersect | src/components/toc.tsx:18-34 | the batch loop with early returns gives the reference batch result |
| Toc.AfterBatchDistinct | src/components/toc.tsx:25-27 | activeItem never holds duplicates |
| Toc.AtMostOneChange | src/components/toc.tsx:18-34 | one batch appends one absent id, removes one present id, or changes nothing |
| Toc.FirstDecisiveEntry | src/components/toc.tsx:20-33 | the first entry that changes something, or lacks an id, decides the batch |
| Toc.QuietBatch | src/components/toc.tsx:24-33 | a batch of entries that agree with the list changes nothing |
| Toc.Item | src/components/toc.tsx:42-50 | data-active exactly for active slugs; depth, text, and href '#' + slug |
| Toc.Targets | src/components/toc.tsx:9-14 | the headings' ids present in the page |
| Docs.StripPrefix | src/components/docs.tsx:24-25 | the anchored pattern removes a prefix and leaves a suffix |
| Docs.PrefixMatchShape | src/components/docs.tsx:24-25 | a match of `^\/?word\/?` is the word with or without a trailing '/', after an optional leading '/' |
| Docs.StripPrefixMatch | src/components/docs.tsx:24-25 | the replacement removes the longest match of `^\/?word\/?` (the greedy choice), and leaves the text unchanged when there is no match |
| Docs.DocPath | src/components/docs.tsx:36-37 | path() is a suffix of the pathname |
| Docs.DocPathRules | src/components/docs.tsx:24-37 | /pkg/docs/rest and pkg/docs/rest both give rest; '' stays '' |
| Docs.FirstEndingWith | src/components/docs.tsx:51-53 | a key with the suffix that no earlier key has, or none exactly when no key has it |
| Docs.FindEndingWith | src/components/docs.tsx:51-53 | the find loop gives the first key with the suffix |
| Docs.LoadContent | src/components/docs.tsx:39-76 | the fallback chain with a mutable module gives the reference result |
| Docs.LoadEmpty | src/components/docs.tsx:40-42 | an empty path loads '' |
| Docs.ResolveOrder | src/components/docs.tsx:45-65 | exact .mdx, then exact .md, then a suffix .mdx, then a suffix .md |
| Docs.ResolveFindsSuffix | src/components/docs.tsx:45-65 | a resolved key ends in /p.mdx or /p.md; none resolves exactly when no key does |
| Docs.LoadErrors | src/components/docs.tsx:67-75 | not found and failed loads give their error texts; otherwise the file's content |
| Docs.CollectParagraphs | src/components/docs.tsx:141-155 | the line loop gives the reference paragraphs |
| Docs.GroupLinesShape | src/components/docs.tsx:145-152 | paragraphs are non-blank and end in a newline |
| Docs.ParagraphsShape | src/components/docs.tsx:141-155 | every paragraph is non-blank and each kept line ends with '\n' |
| Docs.NoBlankLineOneParagraph | src/components/docs.tsx:141-155 | content without a blank line is one paragraph, the content plus '\n' |
| Docs.DistributeParagraphs | src/components/docs.tsx:93-134 | the loop gives the reference three parts |
| Docs.DistCovers | src/components/docs.tsx:99-133 | the parts concatenate to the paragraphs in order; the part only moves 1→2→3 |
| Docs.AllFits | src/components/docs.tsx:105-131 | when everything fits, all paragraphs stay in part 1 |
| Docs.TallParagraphs | src/components/docs.tsx:105-131 | when half a paragraph overflows, the first goes to part 2 and the rest to part 3 |
| Docs.DistHeightNonNegative | src/components/docs.tsx:102-130 | the running height never goes negative |
| Docs.SplitMarkdownByHeight | src/components/docs.tsx:136-162 | the method gives the reference split |
| Docs.EmptySplit | src/components/docs.tsx:137-139 | empty content gives three empty parts |
| Docs.ContentParts | src/components/docs.tsx:174-179 | three parts |
| Docs.NonEmptyParts | src/components/docs.tsx:181 | exactly the non-empty parts |
| Docs.NonEmptyPartsAppend | src/components/docs.tsx:181 | the filter keeps the parts' order and multiplicity: it distributes over concatenation, and keeps a single part exactly when it is non-empty |
| Docs.NoSplitParts | src/components/docs.tsx:174-181 | without a split the parts are [content, '', ''] and the shown parts are the content alone, if non-empty |
| JsStrings.SplitJoin | src/components/sub-nav.tsx:19-21 | joining the pieces of a split gives back the text |
| JsStrings.JoinSplit | src/components/sub-nav.tsx:27-32 | splitting a join of separator-free pieces gives back the pieces |
| JsStrings.TrimFixed | src/lib/utils.ts:73 | trim leaves a string unchanged exactly when it has no surrounding whitespace |
| JsStrings.BlankIffAllSpace | src/components/docs.tsx:146 | `trim() === ''` exactly for all-whitespace text |
| JsStrings.StrLeTotal | src/components/side-nav.tsx:62 | the default string order is total |
| JsStrings.StrLeTrans | src/components/side-nav.tsx:62 | and transitive |
| JsStrings.StrLeAntisym | src/components/side-nav.tsx:62 | and antisymmetric |

## Left out

- Character data: case mapping (`toLowerCase`, `toUpperCase`) is ASCII only. The `\s` class is the whitespace of the ECMAScript standard, over code points. String order is by code point, not by UTF-16 code unit.
- Regular expressions: the engine itself is left out. Each pattern used (BOLD, LINK, BREAK, CODE, the two path prefixes, the cookie pattern) is written out as a scanner and proved against a predicate saying what a match is.
- MarkdownParse.ParseMarkdownRoundTrip: holds for captions whose interior is already trimmed. `trim()` loses the surrounding spaces of a caption, which no render can restore.
- The `comp`/`class`/`rel`/`target` string fields of the nodes are a `Piece` datatype, and the JSX rendering of the nodes is not modelled.
- `document.cookie` is modelled as one string, plus the list of cookie assignments written. A browser's cookie jar, max-age and path are not modelled.
- Store.Set: writing a cookie on the server throws a ReferenceError in the source. This is modelled as a requirement that the code runs in a browser.
- Store: `preventTransition`, `setColorModeDataset`, `addColorModeListener` and `useIsMobile` are DOM timing and listener wiring. The dataset is the `kbTheme` field, and a listener is an identity in a set.
- Store: `FAVICON_URL` is modelled by its prefix (Utils.FaviconUrl).
- ColorModeScript: the JavaScript text embedded in the script is not modelled. Only the choice between the two scripts and the values embedded in them are.
- ThemeProvider: `localStorage.getItem` on the server throws. The constructor requires a browser with working storage.
- ThemeProvider: the `!context` branch of `useTheme` can never be taken, because the context has a default value. It is left out.
- SideNav: a doc's `category` is optional in the model, since the collection lets it be missing.
- Toc: the IntersectionObserver is a parameter. The model receives the batches of entries it delivers; `getElementById` becomes a set of ids present in the page.
- Search: the keyboard listener's registration and removal, the dialog's rendering and the router are left out. Navigation is a list of visited paths.
- SubNav: the toaster and `console.log` calls are left out. The development flag and the working directory are parameters.
- Docs: heights are real numbers rather than floating point. The measured height, the viewport height, `devicePixelRatio`, the 0.6 threshold, `requestAnimationFrame` and the resize listener are inputs. The split decision is a parameter.
- Docs: the asynchronous `module()` call is a lookup in a map from keys to content. A key without an entry stands for a failing load.
- Docs: rendering through solid-markdown and KaTeX is left out.
- DataTable: TanStack sorting, filtering and column definitions are left out. A row is a list of rendered cell texts.
- Metadata: `JSON.stringify` of the structured data is an opaque string, and the favicon links are left out.
- Solid reactivity (signals, memos, effects, resources) is modelled as plain functions of their inputs, or as the fields and methods of a class.
