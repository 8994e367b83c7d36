/**
 * src/components/sub-nav.tsx: the breadcrumb above a document. The path is cut at '/',
 * empty pieces are dropped, the first piece is removed, and each remaining segment
 * becomes a link to the path up to it, labelled with its sanitized slug. In development
 * an "edit" link opens the document's source file in the editor.
 */
module SubNav {
  import opened JsStrings
  import Utils
  import SideNav

  /** `parts.filter(Boolean)` on strings: the empty string is falsy. */
  function NonEmpty(parts: seq<string>): (r: seq<string>)
    ensures |r| <= |parts|
    ensures forall i :: 0 <= i < |r| ==> r[i] != ""
    ensures forall x :: x in r <==> x in parts && x != ""
  {
    if parts == [] then []
    else (if parts[0] != "" then [parts[0]] else []) + NonEmpty(parts[1..])
  }

  /**
   * The filter keeps order and multiplicity: it distributes over concatenation and keeps
   * a single piece exactly when it is non-empty.
   */
  lemma {:induction false} NonEmptyAppend(a: seq<string>, b: seq<string>)
    ensures NonEmpty(a + b) == NonEmpty(a) + NonEmpty(b)
    ensures forall x: string :: NonEmpty([x]) == (if x != "" then [x] else [])
    decreases |a|
  {
    if a == [] {
      assert a + b == b;
    } else {
      assert (a + b)[0] == a[0] && (a + b)[1..] == a[1..] + b;
      NonEmptyAppend(a[1..], b);
    }
    forall x: string
      ensures NonEmpty([x]) == (if x != "" then [x] else [])
    {
      assert [x][1..] == [];
    }
  }

  /** `s.shift()`: removes the first element, and leaves an empty array empty. */
  function Shift(s: seq<string>): seq<string> {
    if s == [] then [] else s[1..]
  }

  /**
   * `props.pathname?.split('/').filter(Boolean)` followed by `segments?.shift()`;
   * `undefined` when there is no pathname.
   */
  function Segments(pathname: Option<string>): (r: Option<seq<string>>)
    ensures r.Some? <==> pathname.Some?
    ensures r.Some? ==> forall i :: 0 <= i < |r.value| ==> r.value[i] != "" && '/' !in r.value[i]
  {
    match pathname
    case None => None
    case Some(p) =>
      var parts := Split(p, '/');
      assert forall x :: x in parts ==> '/' !in x;
      Some(Shift(NonEmpty(parts)))
  }

  /**
   * `(segments?.length as number) <= 1`: with no pathname the comparison is
   * `undefined <= 1`, which is false, so the component is not null then.
   */
  predicate IsNull(pathname: Option<string>) {
    match Segments(pathname)
    case None => false
    case Some(s) => |s| <= 1
  }

  /** `constructSegment(seg, idx)` for the segment at index `idx`. */
  function ConstructSegment(segs: seq<string>, idx: nat): string
    requires idx < |segs|
  {
    if idx == 0 then "/" + segs[0]
    else "/" + Join(segs[..idx + 1], "/")
  }

  /** One breadcrumb: its link, its label, and whether a separator follows it. */
  datatype Crumb = Crumb(href: string, text: string, separator: bool)

  /** The `<For>` over the segments; `segments?.[idx() + 1]` is truthy for a next segment. */
  function Crumbs(segs: seq<string>): (r: seq<Crumb>)
    requires forall i :: 0 <= i < |segs| ==> segs[i] != ""
    ensures |r| == |segs|
  {
    seq(|segs|, i requires 0 <= i < |segs| =>
      Crumb(ConstructSegment(segs, i), Utils.SanitizeSlug(segs[i]), i + 1 < |segs|))
  }

  const Ide := "zed://file"

  /** `srcDir`: the editor URL prefix followed by the working directory and the content root. */
  function SrcDir(cwd: string): string {
    Ide + cwd + "/src/content"
  }

  /** `internships[0].links.find((link) => link.href.includes(docDir))` is an entry. */
  predicate IsInternshipDir(docDir: string) {
    exists i :: 0 <= i < |SideNav.Internships[0].links| &&
      Contains(SideNav.Internships[0].links[i].href, docDir)
  }

  /**
   * `redirectSrcFile()`. A missing pathname leaves `docDir` undefined: `includes`
   * receives the string "undefined", `replace` is skipped and the template prints
   * "undefined".
   */
  function RedirectSrcFile(pathname: Option<string>, cwd: string): string {
    match Segments(pathname)
    case None =>
      SrcDir(cwd) + "/" + "undefined" + ".mdx"
    case Some(segs) =>
      var dir := Join(segs, "/");
      var dir' := if IsInternshipDir(dir) then dir + "/index" else dir;
      SrcDir(cwd) + "/" + ReplaceFirst(dir', "docs", "pages") + ".mdx"
  }

  /**
   * `redirectSrcFile` as the source computes it: the segments are shifted in place and
   * `docDir` is reassigned step by step, `?.` skipping each step on `undefined`.
   */
  method RedirectSrcFileSteps(pathname: Option<string>, cwd: string) returns (r: string)
    ensures r == RedirectSrcFile(pathname, cwd)
  {
    var srcDir := Ide + cwd + "/src/content";
    var segments: Option<seq<string>> := None;
    if pathname.Some? {
      segments := Some(NonEmpty(Split(pathname.value, '/')));
    }
    if segments.Some? && segments.value != [] {
      segments := Some(segments.value[1..]);
    }
    var docDir: Option<string> := None;
    if segments.Some? {
      docDir := Some(Join(segments.value, "/"));
    }
    if IsInternshipDir(docDir.GetOr("undefined")) && docDir.Some? {
      docDir := Some(docDir.value + "/index");
    }
    if docDir.Some? {
      docDir := Some(ReplaceFirst(docDir.value, "docs", "pages"));
    }
    r := srcDir + "/" + docDir.GetOr("undefined") + ".mdx";
  }

  /** What the component renders when it is not null. */
  datatype NavView = NavView(crumbs: seq<Crumb>, editHref: Option<string>)

  /** `SubNav(props)`: None for `null`; the edit link only when `NODE_ENV` is development. */
  function SubNavView(pathname: Option<string>, development: bool, cwd: string): Option<NavView> {
    if IsNull(pathname) then None
    else
      var crumbs := match Segments(pathname)
        case None => []
        case Some(segs) => Crumbs(segs);
      Some(NavView(crumbs, if development then Some(RedirectSrcFile(pathname, cwd)) else None))
  }

  // ---------------------------------------------------------------------------
  // Properties

  lemma {:induction false} NonEmptyKeeps(parts: seq<string>)
    requires forall i :: 0 <= i < |parts| ==> parts[i] != ""
    ensures NonEmpty(parts) == parts
  {
    if parts != [] {
      NonEmptyKeeps(parts[1..]);
      assert parts == [parts[0]] + parts[1..];
    }
  }

  /**
   * For a path `/s0/s1/.../sn` of non-empty '/'-free pieces, the segments are
   * `s1, ..., sn`: the first piece is dropped.
   */
  lemma SegmentsOfPath(pieces: seq<string>)
    requires |pieces| >= 1
    requires forall i :: 0 <= i < |pieces| ==> pieces[i] != "" && '/' !in pieces[i]
    ensures Segments(Some("/" + Join(pieces, "/"))) == Some(pieces[1..])
  {
    var all := [""] + pieces;
    assert all[1..] == pieces;
    assert Join(all, "/") == "/" + Join(pieces, "/");
    assert forall i :: 0 <= i < |all| ==> '/' !in all[i] by {
      forall i | 0 <= i < |all|
        ensures '/' !in all[i]
      {
        if i > 0 {
          assert all[i] == pieces[i - 1];
        }
      }
    }
    JoinSplit(all, '/');
    NonEmptyKeeps(pieces);
    assert NonEmpty(all) == NonEmpty(pieces);
  }

  /**
   * The component is null exactly when a pathname leaves at most one segment; without a
   * pathname it renders an empty breadcrumb.
   */
  lemma NullCases(pathname: Option<string>, development: bool, cwd: string)
    ensures SubNavView(pathname, development, cwd).None? <==>
      pathname.Some? && |Segments(pathname).value| <= 1
    ensures pathname.None? ==> SubNavView(pathname, development, cwd).value.crumbs == []
  {
  }

  /** Each breadcrumb links to `/` followed by the segments up to and including its own. */
  lemma ConstructSegmentIsPrefix(segs: seq<string>, idx: nat)
    requires idx < |segs|
    ensures ConstructSegment(segs, idx) == "/" + Join(segs[..idx + 1], "/")
  {
    if idx == 0 {
      assert segs[..1] == [segs[0]];
    }
  }

  /** The link of a breadcrumb extends the previous one by `/` and its own segment. */
  lemma ConstructSegmentExtends(segs: seq<string>, idx: nat)
    requires idx + 1 < |segs|
    ensures ConstructSegment(segs, idx + 1) == ConstructSegment(segs, idx) + "/" + segs[idx + 1]
  {
    ConstructSegmentIsPrefix(segs, idx);
    ConstructSegmentIsPrefix(segs, idx + 1);
    assert segs[..idx + 2] == segs[..idx + 1] + [segs[idx + 1]];
    JoinAppend(segs[..idx + 1], segs[idx + 1], "/");
  }

  /**
   * The breadcrumbs: one per segment, the last links to the whole remaining path, each
   * label is the sanitized segment, and a separator follows all but the last.
   */
  lemma CrumbRules(segs: seq<string>)
    requires |segs| >= 1
    requires forall i :: 0 <= i < |segs| ==> segs[i] != ""
    ensures var c := Crumbs(segs);
      && (forall i :: 0 <= i < |segs| ==>
            c[i].href == "/" + Join(segs[..i + 1], "/")
            && c[i].text == Utils.SanitizeSlug(segs[i])
            && (c[i].separator <==> i != |segs| - 1))
      && c[|segs| - 1].href == "/" + Join(segs, "/")
  {
    forall i | 0 <= i < |segs|
      ensures Crumbs(segs)[i].href == "/" + Join(segs[..i + 1], "/")
    {
      ConstructSegmentIsPrefix(segs, i);
    }
    assert segs[..|segs|] == segs;
  }

  /** `replace('docs', 'pages')` leaves a directory without "docs" unchanged. */
  lemma ReplaceAbsent(s: string)
    requires !Includes(s, "docs")
    ensures ReplaceFirst(s, "docs", "pages") == s
  {
    assert !Contains(s, "docs");
  }

  /** A directory starting with "docs" gets "pages" in its place. */
  lemma ReplaceAtStart(rest: string)
    ensures ReplaceFirst("docs" + rest, "docs", "pages") == "pages" + rest
  {
    var s := "docs" + rest;
    assert OccursAt(s, "docs", 0);
    assert IndexOfFrom(s, "docs", 0) == Some(0);
  }

  /**
   * The edit link is always a `.mdx` file under the content root. A segment path that is
   * part of an internship link points at that directory's `index.mdx`.
   */
  lemma RedirectShape(pathname: Option<string>, cwd: string)
    ensures var r := RedirectSrcFile(pathname, cwd);
      StartsWith(r, SrcDir(cwd) + "/") && EndsWith(r, ".mdx")
    ensures pathname.None? ==> RedirectSrcFile(pathname, cwd) == SrcDir(cwd) + "/undefined.mdx"
    ensures match Segments(pathname)
      case None => true
      case Some(segs) =>
        var dir := Join(segs, "/");
        IsInternshipDir(dir) ==>
          RedirectSrcFile(pathname, cwd)
            == SrcDir(cwd) + "/" + ReplaceFirst(dir + "/index", "docs", "pages") + ".mdx"
  {
    var r := RedirectSrcFile(pathname, cwd);
    var p := SrcDir(cwd) + "/";
    match Segments(pathname)
    case None =>
      assert r == p + "undefined" + ".mdx";
      assert r[..|p|] == p;
    case Some(segs) =>
      var dir := Join(segs, "/");
      var dir' := if IsInternshipDir(dir) then dir + "/index" else dir;
      var mid := ReplaceFirst(dir', "docs", "pages");
      assert r == p + mid + ".mdx";
      assert r[..|p|] == p;
      assert r[|r| - 4..] == ".mdx";
  }

  /** The internship link `/docs/nestle` contains the directory `docs/nestle`. */
  lemma NestleIsInternship()
    ensures IsInternshipDir("docs/nestle")
  {
    var href := SideNav.Internships[0].links[1].href;
    assert href == "/docs/nestle";
    assert OccursAt(href, "docs/nestle", 1);
    assert Contains(href, "docs/nestle");
  }

  /** No internship link contains `docs/faq`: none of them has a 'q' in it. */
  lemma FaqIsNotInternship()
    ensures !IsInternshipDir("docs/faq")
  {
    var links := SideNav.Internships[0].links;
    forall i | 0 <= i < 3
      ensures !Includes(links[i].href, "docs/faq")
    {
      assert 'q' !in links[i].href;
      NoFaqWithoutQ(links[i].href);
    }
  }

  lemma NoFaqWithoutQ(h: string)
    requires 'q' !in h
    ensures !Includes(h, "docs/faq")
  {
    forall k: nat | k <= |h|
      ensures !OccursAt(h, "docs/faq", k)
    {
      assert k + 8 > |h| || h[k + 7] != 'q';
    }
  }

  lemma SegmentsOfDocsPath(path: string, base: string, slug: string)
    requires base != "" && '/' !in base && slug != "" && '/' !in slug
    requires path == "/" + base + "/docs/" + slug
    ensures Segments(Some(path)) == Some(["docs", slug])
  {
    var pieces := [base, "docs", slug];
    assert pieces[1..] == ["docs", slug];
    assert pieces[1..][1..] == [slug];
    assert Join(pieces[1..], "/") == "docs" + "/" + slug;
    assert Join(pieces, "/") == base + "/" + ("docs" + "/" + slug);
    assert path == "/" + Join(pieces, "/");
    SegmentsOfPath(pieces);
  }

  lemma RedirectOfSegments(pathname: Option<string>, segs: seq<string>, cwd: string)
    requires Segments(pathname) == Some(segs)
    ensures var dir := Join(segs, "/");
      RedirectSrcFile(pathname, cwd) == SrcDir(cwd) + "/"
        + ReplaceFirst(if IsInternshipDir(dir) then dir + "/index" else dir, "docs", "pages")
        + ".mdx"
  {
  }

  lemma PagesIndexPath(src: string, slug: string)
    ensures src + "/" + ("pages" + ("/" + slug + "/index")) + ".mdx"
         == src + "/pages/" + slug + "/index.mdx"
  {
    var t := "/" + slug + "/index";
    assert "pages" + t == "pages/" + slug + "/index";
    assert src + "/" + ("pages/" + slug + "/index") + ".mdx" == src + "/pages/" + slug + "/index" + ".mdx";
  }

  /**
   * Under `/<base>/docs/`, the edit link of a slug opens `pages/<slug>/index.mdx` when an
   * internship link contains `docs/<slug>`, and `pages/<slug>.mdx` otherwise.
   */
  lemma RedirectDocsSlug(path: string, base: string, slug: string, cwd: string)
    requires base != "" && '/' !in base && slug != "" && '/' !in slug
    requires path == "/" + base + "/docs/" + slug
    ensures IsInternshipDir("docs/" + slug) ==>
      RedirectSrcFile(Some(path), cwd) == SrcDir(cwd) + "/pages/" + slug + "/index.mdx"
    ensures !IsInternshipDir("docs/" + slug) ==>
      RedirectSrcFile(Some(path), cwd) == SrcDir(cwd) + "/pages/" + slug + ".mdx"
  {
    SegmentsOfDocsPath(path, base, slug);
    assert ["docs", slug][1..] == [slug];
    assert Join(["docs", slug], "/") == "docs/" + slug;
    RedirectOfSegments(Some(path), ["docs", slug], cwd);
    if IsInternshipDir("docs/" + slug) {
      RedirectIndexCase(RedirectSrcFile(Some(path), cwd), slug, SrcDir(cwd));
    } else {
      RedirectPageCase(RedirectSrcFile(Some(path), cwd), slug, SrcDir(cwd));
    }
  }

  lemma RedirectIndexCase(r: string, slug: string, src: string)
    requires r == src + "/" + ReplaceFirst("docs/" + slug + "/index", "docs", "pages") + ".mdx"
    ensures r == src + "/pages/" + slug + "/index.mdx"
  {
    var tail := "/" + slug + "/index";
    ReplaceAtStart(tail);
    assert "docs/" + slug + "/index" == "docs" + tail;
    PagesIndexPath(src, slug);
  }

  lemma RedirectPageCase(r: string, slug: string, src: string)
    requires r == src + "/" + ReplaceFirst("docs/" + slug, "docs", "pages") + ".mdx"
    ensures r == src + "/pages/" + slug + ".mdx"
  {
    var tail := "/" + slug;
    ReplaceAtStart(tail);
    assert "docs/" + slug == "docs" + tail;
    assert src + "/" + ("pages" + tail) + ".mdx" == src + "/pages/" + slug + ".mdx";
  }
}
