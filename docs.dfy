/**
 * src/components/docs.tsx: the document viewer. The route path gives the document path;
 * the document is looked up among the modules under `docs/` by a chain of fallbacks;
 * a tall document is cut into paragraphs and spread over up to three panels.
 */
module Docs {
  import opened JsStrings

  // ---------------------------------------------------------------------------
  // path(): the two anchored prefixes `^/?<pkg.name>/?` and `^/?docs/?`

  /**
   * The first `n` characters of `s` are a match of `^\/?word\/?`: the word with an
   * optional '/' on each side.
   */
  predicate PrefixMatch(s: string, word: string, n: nat) {
    n <= |s| &&
    (s[..n] == word || s[..n] == "/" + word || s[..n] == word + "/" || s[..n] == "/" + word + "/")
  }

  /** `s.replace(/^\/?word\/?/, '')` */
  function StripPrefix(s: string, word: string): (r: string)
    ensures |r| <= |s| && r == s[|s| - |r|..]
  {
    var slashed := "/" + word;
    if StartsWith(s, slashed) then DropSlash(s[|slashed|..])
    else if StartsWith(s, word) then DropSlash(s[|word|..])
    else s
  }

  /** An optional `/`. */
  function DropSlash(t: string): (r: string)
    ensures |r| <= |t| && r == t[|t| - |r|..]
  {
    if t != [] && t[0] == '/' then t[1..] else t
  }

  /** The shape of every match: the word, then a '/', each optionally preceded by a '/'. */
  lemma PrefixMatchShape(s: string, word: string, n: nat)
    requires PrefixMatch(s, word, n)
    ensures (StartsWith(s, word) && (n == |word| || (n == |word| + 1 && s[|word|] == '/')))
         || (StartsWith(s, "/" + word)
             && (n == |word| + 1 || (n == |word| + 2 && s[|word| + 1] == '/')))
  {
    var m := s[..n];
    if m == word + "/" {
      assert s[..|word|] == m[..|word|] && s[|word|] == m[|word|];
    } else if m == "/" + word + "/" {
      assert s[..|word| + 1] == m[..|word| + 1] && s[|word| + 1] == m[|word| + 1];
    }
  }

  /** A match of length `k`, followed by an optional '/', is a match of the longer length. */
  lemma SlashExtends(s: string, word: string, k: nat, pre: string)
    requires pre == word || pre == "/" + word
    requires k == |pre| && StartsWith(s, pre)
    ensures PrefixMatch(s, word, |s| - |DropSlash(s[k..])|)
  {
    if k < |s| && s[k] == '/' {
      SlashAfter(s, k, pre);
      assert |s| - |DropSlash(s[k..])| == k + 1;
    } else {
      assert |s| - |DropSlash(s[k..])| == k;
    }
  }

  lemma SlashAfter(s: string, k: nat, pre: string)
    requires k < |s| && s[k] == '/' && k == |pre| && s[..k] == pre
    ensures s[..k + 1] == pre + "/"
  {
    assert s[..k + 1] == s[..k] + [s[k]];
  }

  /** No match is longer than the prefix StripPrefix removes. */
  lemma MatchNoLonger(s: string, word: string, n: nat)
    requires PrefixMatch(s, word, n)
    ensures n <= |s| - |StripPrefix(s, word)|
  {
    PrefixMatchShape(s, word, n);
    var k := |word| + 1;
    if StartsWith(s, "/" + word) {
      if k < |s| && s[k] == '/' {
        assert |s| - |StripPrefix(s, word)| == k + 1;
      } else {
        assert |s| - |StripPrefix(s, word)| == k;
      }
    } else {
      assert StartsWith(s, word);
      if |word| < |s| && s[|word|] == '/' {
        assert |s| - |StripPrefix(s, word)| == k;
      } else {
        assert |s| - |StripPrefix(s, word)| == |word|;
      }
    }
  }

  /** Without either prefix there is no match at all. */
  lemma NoPrefixMatch(s: string, word: string, n: nat)
    requires !StartsWith(s, "/" + word) && !StartsWith(s, word)
    ensures !PrefixMatch(s, word, n)
  {
    if PrefixMatch(s, word, n) {
      PrefixMatchShape(s, word, n);
    }
  }

  /**
   * StripPrefix removes the match of `^\/?word\/?`: greedy `?` with backtracking settles
   * on the longest one, and without a match `s` is unchanged.
   */
  lemma StripPrefixMatch(s: string, word: string)
    ensures var r := StripPrefix(s, word);
      PrefixMatch(s, word, |s| - |r|) || (r == s && forall n: nat :: !PrefixMatch(s, word, n))
    ensures forall n: nat :: PrefixMatch(s, word, n) ==> n <= |s| - |StripPrefix(s, word)|
  {
    forall n: nat | PrefixMatch(s, word, n)
      ensures n <= |s| - |StripPrefix(s, word)|
    {
      MatchNoLonger(s, word, n);
    }
    if StartsWith(s, "/" + word) {
      SlashExtends(s, word, |word| + 1, "/" + word);
    } else if StartsWith(s, word) {
      SlashExtends(s, word, |word|, word);
    } else {
      forall n: nat
        ensures !PrefixMatch(s, word, n)
      {
        NoPrefixMatch(s, word, n);
      }
    }
  }

  /** `path()`: the package-name prefix, then the `docs` prefix, each with optional slashes. */
  function DocPath(pathname: string, pkgName: string): (r: string)
    ensures EndsWith(pathname, r)
  {
    var t := StripPrefix(pathname, pkgName);
    var r := StripPrefix(t, "docs");
    assert EndsWith(pathname, t) && EndsWith(t, r);
    EndsWithTrans(pathname, t, r);
    r
  }

  lemma EndsWithTrans(a: string, b: string, c: string)
    requires EndsWith(a, b) && EndsWith(b, c)
    ensures EndsWith(a, c)
  {
    assert a[|a| - |c|..] == b[|b| - |c|..];
  }

  // ---------------------------------------------------------------------------
  // loadContent

  const DocsRoot := "../../docs/"

  /** `modulePath(ext)` */
  function ModulePath(docPath: string, ext: string): string {
    DocsRoot + docPath + "." + ext
  }

  /** `Object.keys(docsModules).find((key) => key.endsWith(suffix))` */
  function FirstEndingWith(keys: seq<string>, suffix: string): (r: Option<string>)
    ensures r.Some? ==> r.value in keys && EndsWith(r.value, suffix)
    ensures r.Some? ==> exists i :: 0 <= i < |keys| && keys[i] == r.value
                                 && forall j :: 0 <= j < i ==> !EndsWith(keys[j], suffix)
    ensures r.None? <==> forall k :: k in keys ==> !EndsWith(k, suffix)
  {
    if keys == [] then None
    else if EndsWith(keys[0], suffix) then Some(keys[0])
    else FirstEndingWith(keys[1..], suffix)
  }

  /** The module key `loadContent` settles on, if any. */
  function Resolve(docPath: string, keys: seq<string>): Option<string> {
    if ModulePath(docPath, "mdx") in keys then Some(ModulePath(docPath, "mdx"))
    else if ModulePath(docPath, "md") in keys then Some(ModulePath(docPath, "md"))
    else match FirstEndingWith(keys, "/" + docPath + ".mdx")
      case Some(k) => Some(k)
      case None => FirstEndingWith(keys, "/" + docPath + ".md")
  }

  function NotFoundText(docPath: string): string {
    "# Error\n\nDocument not found: " + docPath
  }

  function LoadErrorText(docPath: string): string {
    "# Error\n\nCould not load documentation for " + docPath + "."
  }

  /**
   * `loadContent(docPath)`: `files` holds the text of every module whose loader succeeds;
   * a key of `keys` missing from it is a loader that throws.
   */
  function LoadContentSpec(docPath: string, keys: seq<string>, files: map<string, string>): string {
    if docPath == "" then ""
    else match Resolve(docPath, keys)
      case None => NotFoundText(docPath)
      case Some(k) => if k in files then files[k] else LoadErrorText(docPath)
  }

  /** `loadContent` as written: a mutable `module` filled by each fallback in turn. */
  method LoadContent(docPath: string, keys: seq<string>, files: map<string, string>)
    returns (content: string)
    ensures content == LoadContentSpec(docPath, keys, files)
  {
    if docPath == "" {
      return "";
    }
    var found: Option<string> := None;
    if ModulePath(docPath, "mdx") in keys {
      found := Some(ModulePath(docPath, "mdx"));
    } else if ModulePath(docPath, "md") in keys {
      found := Some(ModulePath(docPath, "md"));
    }
    if found.None? {
      var foundKey := FindEndingWith(keys, "/" + docPath + ".mdx");
      if foundKey.Some? {
        found := foundKey;
      } else {
        var foundKeyMd := FindEndingWith(keys, "/" + docPath + ".md");
        if foundKeyMd.Some? {
          found := foundKeyMd;
        }
      }
    }
    if found.Some? {
      if found.value in files {
        return files[found.value];
      }
      return LoadErrorText(docPath);
    }
    return NotFoundText(docPath);
  }

  /** `Array.prototype.find` over the keys, as a loop. */
  method FindEndingWith(keys: seq<string>, suffix: string) returns (r: Option<string>)
    ensures r == FirstEndingWith(keys, suffix)
  {
    var i := 0;
    while i < |keys|
      invariant 0 <= i <= |keys|
      invariant FirstEndingWith(keys, suffix) == FirstEndingWith(keys[i..], suffix)
    {
      assert keys[i..][1..] == keys[i + 1..];
      if EndsWith(keys[i], suffix) {
        return Some(keys[i]);
      }
      i := i + 1;
    }
    return None;
  }

  // ---------------------------------------------------------------------------
  // splitMarkdownByHeight: lines grouped into paragraphs

  /** The loop state: the paragraphs pushed so far and `currentParagraph`. */
  datatype Grouping = Grouping(paragraphs: seq<string>, current: string)

  /** One line: a blank line closes a non-blank paragraph; any other line is kept with `\n`. */
  function GroupStep(g: Grouping, line: string): Grouping {
    if IsBlank(line) && !IsBlank(g.current) then Grouping(g.paragraphs + [g.current], "")
    else Grouping(g.paragraphs, g.current + line + "\n")
  }

  function GroupLines(lines: seq<string>): Grouping {
    if lines == [] then Grouping([], "")
    else GroupStep(GroupLines(lines[..|lines| - 1]), lines[|lines| - 1])
  }

  /** The paragraphs of `content`: the last one is pushed only when it is not blank. */
  function Paragraphs(content: string): seq<string> {
    var g := GroupLines(Split(content, '\n'));
    if !IsBlank(g.current) then g.paragraphs + [g.current] else g.paragraphs
  }

  lemma GroupLinesPrefix(lines: seq<string>, i: nat)
    requires i < |lines|
    ensures GroupLines(lines[..i + 1]) == GroupStep(GroupLines(lines[..i]), lines[i])
  {
    assert lines[..i + 1][..i] == lines[..i];
  }

  /** The `for` loop over `content.split('\n')` and the final push. */
  method CollectParagraphs(content: string) returns (paragraphs: seq<string>)
    ensures paragraphs == Paragraphs(content)
  {
    var lines := Split(content, '\n');
    paragraphs := [];
    var currentParagraph := "";
    var i := 0;
    while i < |lines|
      invariant 0 <= i <= |lines|
      invariant GroupLines(lines[..i]) == Grouping(paragraphs, currentParagraph)
    {
      var line := lines[i];
      GroupLinesPrefix(lines, i);
      if IsBlank(line) && !IsBlank(currentParagraph) {
        paragraphs := paragraphs + [currentParagraph];
        currentParagraph := "";
      } else {
        currentParagraph := currentParagraph + line + "\n";
      }
      i := i + 1;
    }
    assert lines[..|lines|] == lines;
    if !IsBlank(currentParagraph) {
      paragraphs := paragraphs + [currentParagraph];
    }
  }

  // ---------------------------------------------------------------------------
  // distributeParagraphs

  /** The loop state: `currentPart`, `currentHeight`, and the three lists. */
  datatype Dist = Dist(part: int, height: real, part1: seq<string>, part2: seq<string>,
                       part3: seq<string>)

  /** One paragraph: move on to the next part when half of it would overflow, then push. */
  function DistStep(d: Dist, p: string, target: real, avg: real): Dist {
    var part :=
      if d.part == 1 && d.height + avg / 2.0 > target then 2
      else if d.part == 2 && d.height + avg / 2.0 > target then 3
      else d.part;
    var height := if part != d.part then 0.0 else d.height;
    Dist(part, height + avg,
         if part == 1 then d.part1 + [p] else d.part1,
         if part == 2 then d.part2 + [p] else d.part2,
         if part != 1 && part != 2 then d.part3 + [p] else d.part3)
  }

  function DistFold(ps: seq<string>, target: real, avg: real): Dist {
    if ps == [] then Dist(1, 0.0, [], [], [])
    else DistStep(DistFold(ps[..|ps| - 1], target, avg), ps[|ps| - 1], target, avg)
  }

  /** The three parts, each joined by a blank line. */
  function Distribute(ps: seq<string>, target: real, avg: real): (r: seq<string>)
    ensures |r| == 3
  {
    var d := DistFold(ps, target, avg);
    [Join(d.part1, "\n\n"), Join(d.part2, "\n\n"), Join(d.part3, "\n\n")]
  }

  /** `distributeParagraphs(paragraphs, targetHeight, avgParagraphHeight)` */
  method DistributeParagraphs(paragraphs: seq<string>, targetHeight: real, avgParagraphHeight: real)
    returns (parts: seq<string>)
    ensures parts == Distribute(paragraphs, targetHeight, avgParagraphHeight)
  {
    var part1, part2, part3: seq<string> := [], [], [];
    var currentHeight := 0.0;
    var currentPart := 1;
    var i := 0;
    while i < |paragraphs|
      invariant 0 <= i <= |paragraphs|
      invariant DistFold(paragraphs[..i], targetHeight, avgParagraphHeight)
        == Dist(currentPart, currentHeight, part1, part2, part3)
    {
      var paragraph := paragraphs[i];
      assert paragraphs[..i + 1][..i] == paragraphs[..i];
      var paragraphHeight := avgParagraphHeight;
      if currentPart == 1 && currentHeight + paragraphHeight / 2.0 > targetHeight {
        currentPart := 2;
        currentHeight := 0.0;
      } else if currentPart == 2 && currentHeight + paragraphHeight / 2.0 > targetHeight {
        currentPart := 3;
        currentHeight := 0.0;
      }
      if currentPart == 1 {
        part1 := part1 + [paragraph];
      } else if currentPart == 2 {
        part2 := part2 + [paragraph];
      } else {
        part3 := part3 + [paragraph];
      }
      currentHeight := currentHeight + paragraphHeight;
      i := i + 1;
    }
    assert paragraphs[..|paragraphs|] == paragraphs;
    parts := [Join(part1, "\n\n"), Join(part2, "\n\n"), Join(part3, "\n\n")];
  }

  /**
   * `splitMarkdownByHeight(content)`. The average paragraph height is the measured total
   * height over the paragraph count; `targetHeight` is the viewport height available.
   * With no paragraph the loop does not run, so the average is not needed.
   */
  function SplitByHeight(content: string, totalHeight: real, targetHeight: real): (r: seq<string>)
    ensures |r| == 3
  {
    if content == "" then ["", "", ""]
    else
      var ps := Paragraphs(content);
      Distribute(ps, targetHeight, if |ps| == 0 then 0.0 else totalHeight / (|ps| as real))
  }

  method SplitMarkdownByHeight(content: string, totalHeight: real, targetHeight: real)
    returns (parts: seq<string>)
    ensures parts == SplitByHeight(content, totalHeight, targetHeight)
  {
    if content == "" {
      return ["", "", ""];
    }
    var paragraphs := CollectParagraphs(content);
    var avg := if |paragraphs| == 0 then 0.0 else totalHeight / (|paragraphs| as real);
    parts := DistributeParagraphs(paragraphs, targetHeight, avg);
  }

  /**
   * `contentParts()`: the split parts when there is content and it should be split,
   * otherwise the whole content and two empty parts. A missing content reads as ''.
   */
  function ContentParts(content: Option<string>, shouldSplit: bool, totalHeight: real,
                        targetHeight: real): (r: seq<string>)
    ensures |r| == 3
  {
    var c := content.GetOr("");
    if c != "" && shouldSplit then SplitByHeight(c, totalHeight, targetHeight)
    else [c, "", ""]
  }

  /** `contentParts().filter((p) => p)` */
  function NonEmptyParts(parts: seq<string>): (r: seq<string>)
    ensures |r| <= |parts|
    ensures forall x :: x in r <==> x in parts && x != ""
  {
    if parts == [] then []
    else (if parts[0] != "" then [parts[0]] else []) + NonEmptyParts(parts[1..])
  }

  /**
   * The filter keeps order and multiplicity: it distributes over concatenation and keeps
   * a single part exactly when it is non-empty.
   */
  lemma {:induction false} NonEmptyPartsAppend(a: seq<string>, b: seq<string>)
    ensures NonEmptyParts(a + b) == NonEmptyParts(a) + NonEmptyParts(b)
    ensures forall x: string :: NonEmptyParts([x]) == (if x != "" then [x] else [])
    decreases |a|
  {
    if a == [] {
      assert a + b == b;
    } else {
      assert (a + b)[0] == a[0] && (a + b)[1..] == a[1..] + b;
      NonEmptyPartsAppend(a[1..], b);
    }
    forall x: string
      ensures NonEmptyParts([x]) == (if x != "" then [x] else [])
    {
      assert [x][1..] == [];
    }
  }

  // ---------------------------------------------------------------------------
  // Properties

  /** After the package prefix, `docs/<rest>` loses its `docs/`. */
  lemma StripDocs(rest: string)
    ensures StripPrefix("docs/" + rest, "docs") == rest
  {
    var t := "docs/" + rest;
    var w := "/" + "docs";
    assert t[0] == 'd' && w[0] == '/';
    assert !StartsWith(t, w) by {
      if |w| <= |t| {
        assert t[..|w|][0] == t[0];
      }
    }
    assert t[..4] == "docs";
    var u := t[4..];
    assert u == "/" + rest;
    assert DropSlash(u) == rest;
  }

  lemma StripSlashedPkg(pkgName: string, t: string)
    ensures StripPrefix("/" + pkgName + "/" + t, pkgName) == t
  {
    var s := "/" + pkgName + "/" + t;
    var w := "/" + pkgName;
    assert s == w + "/" + t;
    assert s[..|w|] == w;
    assert s[|w|..] == "/" + t;
  }

  lemma StripBarePkg(pkgName: string, t: string)
    requires t != [] && t[0] != '/'
    ensures StripPrefix(pkgName + "/" + t, pkgName) == t
  {
    var s := pkgName + "/" + t;
    var w := "/" + pkgName;
    assert s[..|pkgName|] == pkgName;
    assert s[|pkgName|..] == "/" + t;
    if StartsWith(s, w) {
      // s would start with both `/<pkg>` and `<pkg>/`: the two prefixes then coincide
      // character by character, which forces t to start with '/'.
      SlashShift(s, pkgName);
      assert s[|w|] == t[0];
    }
  }

  /** If `s` starts with `<w>/` and with `/<w>`, every character of `s` up to there is '/'. */
  lemma SlashShift(s: string, w: string)
    requires StartsWith(s, w + "/") && StartsWith(s, "/" + w)
    ensures forall i :: 0 <= i <= |w| ==> s[i] == '/'
  {
    forall i | 0 <= i <= |w|
      ensures s[i] == '/'
    {
      SlashShiftAt(s, w, i);
    }
  }

  lemma {:induction false} SlashShiftAt(s: string, w: string, i: nat)
    requires StartsWith(s, w + "/") && StartsWith(s, "/" + w)
    requires i <= |w|
    ensures s[i] == '/'
    decreases i
  {
    if i == 0 {
      assert ("/" + w)[0] == '/';
    } else {
      SlashShiftAt(s, w, i - 1);
      assert s[i] == ("/" + w)[i] == w[i - 1];
      assert s[i - 1] == (w + "/")[i - 1] == w[i - 1];
    }
  }

  /**
   * A route `/<pkg>/docs/<rest>` gives `rest`, and so does `<pkg>/docs/<rest>`; a path
   * that is '' gives ''.
   */
  lemma DocPathRules(pkgName: string, rest: string)
    ensures DocPath("/" + pkgName + "/docs/" + rest, pkgName) == rest
    ensures DocPath(pkgName + "/docs/" + rest, pkgName) == rest
    ensures DocPath("", pkgName) == ""
  {
    StripDocs(rest);
    SlashedRoute(pkgName, rest);
    BareRoute(pkgName, rest);
  }

  lemma DocPathOf(pathname: string, pkgName: string, t: string, rest: string)
    requires StripPrefix(pathname, pkgName) == t && StripPrefix(t, "docs") == rest
    ensures DocPath(pathname, pkgName) == rest
  {
  }

  lemma SlashedRoute(pkgName: string, rest: string)
    requires StripPrefix("docs/" + rest, "docs") == rest
    ensures DocPath("/" + pkgName + "/docs/" + rest, pkgName) == rest
  {
    var t := "docs/" + rest;
    assert "/" + pkgName + "/docs/" + rest == "/" + pkgName + "/" + t;
    StripSlashedPkg(pkgName, t);
    DocPathOf("/" + pkgName + "/docs/" + rest, pkgName, t, rest);
  }

  lemma BareRoute(pkgName: string, rest: string)
    requires StripPrefix("docs/" + rest, "docs") == rest
    ensures DocPath(pkgName + "/docs/" + rest, pkgName) == rest
  {
    var t := "docs/" + rest;
    assert pkgName + "/docs/" + rest == pkgName + "/" + t;
    StripBarePkg(pkgName, t);
    DocPathOf(pkgName + "/docs/" + rest, pkgName, t, rest);
  }

  /** `loadContent('')` is ''; every other path gives a module's text or an error text. */
  lemma LoadEmpty(keys: seq<string>, files: map<string, string>)
    ensures LoadContentSpec("", keys, files) == ""
  {
  }

  /**
   * The resolved key is a module key ending in `/<p>.mdx` or `/<p>.md`; nothing resolves
   * exactly when no key ends in either.
   */
  lemma ResolveFindsSuffix(docPath: string, keys: seq<string>)
    ensures var r := Resolve(docPath, keys);
      && (r.Some? ==> r.value in keys
                      && (EndsWith(r.value, "/" + docPath + ".mdx")
                          || EndsWith(r.value, "/" + docPath + ".md")))
      && (r.None? <==> forall k :: k in keys ==>
            !EndsWith(k, "/" + docPath + ".mdx") && !EndsWith(k, "/" + docPath + ".md"))
  {
    ExactEndsWith(docPath, "mdx");
    ExactEndsWith(docPath, "md");
  }

  lemma ExactEndsWith(docPath: string, ext: string)
    ensures EndsWith(ModulePath(docPath, ext), "/" + docPath + "." + ext)
  {
    var m := ModulePath(docPath, ext);
    var suf := "/" + docPath + "." + ext;
    assert m == "../../docs" + suf;
  }

  /**
   * The precedence of the chain: the exact `.mdx` module wins; then the exact `.md`
   * module, even over a deeper `.mdx` match; then the first key ending in `/<p>.mdx`.
   */
  lemma ResolveOrder(docPath: string, keys: seq<string>)
    ensures ModulePath(docPath, "mdx") in keys ==>
      Resolve(docPath, keys) == Some(ModulePath(docPath, "mdx"))
    ensures ModulePath(docPath, "mdx") !in keys && ModulePath(docPath, "md") in keys ==>
      Resolve(docPath, keys) == Some(ModulePath(docPath, "md"))
    ensures (ModulePath(docPath, "mdx") !in keys && ModulePath(docPath, "md") !in keys
             && FirstEndingWith(keys, "/" + docPath + ".mdx").Some?) ==>
      Resolve(docPath, keys) == FirstEndingWith(keys, "/" + docPath + ".mdx")
  {
  }

  /** The error texts: a missing document, and a loader that fails. */
  lemma LoadErrors(docPath: string, keys: seq<string>, files: map<string, string>)
    requires docPath != ""
    ensures Resolve(docPath, keys).None? ==>
      LoadContentSpec(docPath, keys, files) == "# Error\n\nDocument not found: " + docPath
    ensures Resolve(docPath, keys).Some? && Resolve(docPath, keys).value !in files ==>
      LoadContentSpec(docPath, keys, files)
        == "# Error\n\nCould not load documentation for " + docPath + "."
    ensures Resolve(docPath, keys).Some? && Resolve(docPath, keys).value in files ==>
      LoadContentSpec(docPath, keys, files) == files[Resolve(docPath, keys).value]
  {
  }

  /** Every paragraph pushed is non-blank and ends with the `\n` of its last line. */
  lemma {:induction false} GroupLinesShape(lines: seq<string>)
    ensures var g := GroupLines(lines);
      && (forall i :: 0 <= i < |g.paragraphs| ==>
            !IsBlank(g.paragraphs[i]) && EndsWith(g.paragraphs[i], "\n"))
      && (g.current == "" || EndsWith(g.current, "\n"))
  {
    if lines != [] {
      var g0 := GroupLines(lines[..|lines| - 1]);
      GroupLinesShape(lines[..|lines| - 1]);
      var line := lines[|lines| - 1];
      if !(IsBlank(line) && !IsBlank(g0.current)) {
        var c := g0.current + line + "\n";
        assert c[|c| - 1..] == "\n";
      } else {
        assert g0.current != "";
      }
    }
  }

  lemma ParagraphsShape(content: string)
    ensures forall i :: 0 <= i < |Paragraphs(content)| ==>
      !IsBlank(Paragraphs(content)[i]) && EndsWith(Paragraphs(content)[i], "\n")
  {
    GroupLinesShape(Split(content, '\n'));
  }

  /** Without a blank line the lines accumulate, each followed by `\n`. */
  lemma {:induction false} GroupNoBlank(lines: seq<string>)
    requires forall i :: 0 <= i < |lines| ==> !IsBlank(lines[i])
    ensures GroupLines(lines) == Grouping([], Terminated(lines))
  {
    if lines != [] {
      GroupNoBlank(lines[..|lines| - 1]);
    }
  }

  /** Every line followed by `\n`, concatenated. */
  function Terminated(lines: seq<string>): string {
    if lines == [] then "" else Terminated(lines[..|lines| - 1]) + lines[|lines| - 1] + "\n"
  }

  lemma {:induction false} TerminatedJoin(lines: seq<string>)
    requires lines != []
    ensures Terminated(lines) == Join(lines, "\n") + "\n"
  {
    if |lines| > 1 {
      var init := lines[..|lines| - 1];
      TerminatedJoin(init);
      JoinAppend(init, lines[|lines| - 1], "\n");
      assert init + [lines[|lines| - 1]] == lines;
    }
  }

  /** A content without blank lines is one paragraph: the content and a final `\n`. */
  lemma NoBlankLineOneParagraph(content: string)
    requires forall i :: 0 <= i < |Split(content, '\n')| ==> !IsBlank(Split(content, '\n')[i])
    ensures Paragraphs(content) == [content + "\n"]
  {
    var lines := Split(content, '\n');
    GroupNoBlank(lines);
    TerminatedJoin(lines);
    SplitJoin(content, '\n');
    var c := content + "\n";
    assert c[|c| - 1] == '\n';
    assert IsSpace(c[|c| - 1]);
    assert !IsBlank(c) by {
      TrimEndShape(TrimStart(c));
      TrimStartShape(c);
      assert !IsBlank(lines[0]);
      BlankIffAllSpace(lines[0]);
      BlankIffAllSpace(c);
      NotAllSpacePart(content, c);
    }
  }

  /** A string that is not all white space stays so with text appended. */
  lemma NotAllSpacePart(content: string, c: string)
    requires c == content + "\n"
    requires exists i :: 0 <= i < |content| && !IsSpace(content[i])
    ensures !AllSpace(c)
  {
    var i :| 0 <= i < |content| && !IsSpace(content[i]);
    assert c[i] == content[i];
  }

  /**
   * The three parts hold every paragraph once and in order, and the part index only
   * moves forward: while in part 1 the later parts are empty, while in part 2 part 3 is.
   */
  lemma {:induction false} DistCovers(ps: seq<string>, target: real, avg: real)
    ensures var d := DistFold(ps, target, avg);
      && d.part1 + d.part2 + d.part3 == ps
      && 1 <= d.part <= 3
      && (d.part == 1 ==> d.part2 == [] && d.part3 == [])
      && (d.part == 2 ==> d.part3 == [])
  {
    if ps != [] {
      var init := ps[..|ps| - 1];
      DistCovers(init, target, avg);
      assert init + [ps[|ps| - 1]] == ps;
    }
  }

  /** When every paragraph fits under the target, everything stays in the first part. */
  lemma {:induction false} AllFits(ps: seq<string>, target: real, avg: real)
    requires avg >= 0.0
    requires Times(|ps|, avg) - avg / 2.0 <= target
    ensures var d := DistFold(ps, target, avg);
      d.part == 1 && d.height == Times(|ps|, avg) && d.part1 == ps
  {
    if ps != [] {
      var init := ps[..|ps| - 1];
      AllFits(init, target, avg);
      assert init + [ps[|ps| - 1]] == ps;
    }
  }

  /** `k` paragraphs of height `avg`, stacked. */
  function Times(k: nat, avg: real): real {
    if k == 0 then 0.0 else Times(k - 1, avg) + avg
  }

  /**
   * A paragraph taller than twice the target moves the first one to part 2 and all
   * the others to part 3, leaving part 1 empty.
   */
  lemma {:induction false} TallParagraphs(ps: seq<string>, target: real, avg: real)
    requires avg >= 0.0 && avg / 2.0 > target && |ps| >= 1
    ensures var d := DistFold(ps, target, avg);
      d.part1 == [] && d.part2 == [ps[0]] && d.part3 == ps[1..]
      && (|ps| == 1 ==> d.part == 2 && d.height == avg)
      && (|ps| > 1 ==> d.part == 3)
  {
    if |ps| > 1 {
      var init := ps[..|ps| - 1];
      TallParagraphs(init, target, avg);
      assert init[1..] + [ps[|ps| - 1]] == ps[1..];
      if |init| > 1 {
        DistHeightNonNegative(init, target, avg);
      }
    } else {
      assert ps[..0] == [];
    }
  }

  lemma {:induction false} DistHeightNonNegative(ps: seq<string>, target: real, avg: real)
    requires avg >= 0.0
    ensures DistFold(ps, target, avg).height >= 0.0
  {
    if ps != [] {
      DistHeightNonNegative(ps[..|ps| - 1], target, avg);
    }
  }

  /** Without splitting, the parts are the content and two empty ones, filtered to the content. */
  lemma NoSplitParts(content: Option<string>, totalHeight: real, targetHeight: real)
    ensures ContentParts(content, false, totalHeight, targetHeight) == [content.GetOr(""), "", ""]
    ensures var c := content.GetOr("");
      NonEmptyParts(ContentParts(content, false, totalHeight, targetHeight))
        == (if c == "" then [] else [c])
  {
    var c := content.GetOr("");
    var parts := [c, "", ""];
    assert parts[1..] == ["", ""] && parts[1..][1..] == [""] && parts[1..][1..][1..] == [];
    assert NonEmptyParts([""]) == [];
    assert NonEmptyParts(["", ""]) == [];
  }

  /** An empty document splits into three empty parts. */
  lemma EmptySplit(totalHeight: real, targetHeight: real)
    ensures SplitByHeight("", totalHeight, targetHeight) == ["", "", ""]
  {
  }
}
