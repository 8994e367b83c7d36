/**
 * src/components/docs-layout.tsx: the page a docs URL shows, its index in the merged
 * list `[...allDocs, ...allPages]`, its headings, and the next and previous pages.
 */
module DocsLayout {
  import opened JsStrings
  import opened Content

  /** `location.pathname.split('/').slice(3)` */
  function PathSegments(pathname: string): seq<string> {
    var parts := Split(pathname, '/');
    if |parts| <= 3 then [] else parts[3..]
  }

  /** The `find` callback: one segment is the page path, two or more give `seg0/seg1`. */
  function Matches(segs: seq<string>, d: Doc): bool {
    if |segs| == 1 then d.path == segs[0]
    else if |segs| > 1 then d.path == segs[0] + "/" + segs[1]
    else false
  }

  function Merged(allDocs: seq<Doc>, allPages: seq<Doc>): seq<Doc> {
    allDocs + allPages
  }

  /** `currentPage()` */
  function CurrentPage(allDocs: seq<Doc>, allPages: seq<Doc>, pathname: string): Option<Doc> {
    var segs := PathSegments(pathname);
    Find(Merged(allDocs, allPages), d => Matches(segs, d))
  }

  /** `currentIdx()`: `allDocuments.indexOf(page)`, or -1 without a page. */
  function CurrentIdx(allDocs: seq<Doc>, allPages: seq<Doc>, pathname: string): int {
    match CurrentPage(allDocs, allPages, pathname)
    case None => -1
    case Some(p) => IndexOf(Merged(allDocs, allPages), p)
  }

  /** `headings()`: `page?.headings || []` */
  function Headings(allDocs: seq<Doc>, allPages: seq<Doc>, pathname: string): seq<Heading> {
    match CurrentPage(allDocs, allPages, pathname)
    case None => []
    case Some(p) => p.headings.GetOr([])
  }

  /** The `next` prop: `allDocuments[idx + 1]` */
  function Next(allDocs: seq<Doc>, allPages: seq<Doc>, pathname: string): Option<Doc> {
    At(Merged(allDocs, allPages), CurrentIdx(allDocs, allPages, pathname) + 1)
  }

  /** The `previous` prop: `allDocuments[idx - 1]` */
  function Previous(allDocs: seq<Doc>, allPages: seq<Doc>, pathname: string): Option<Doc> {
    At(Merged(allDocs, allPages), CurrentIdx(allDocs, allPages, pathname) - 1)
  }

  /** Fewer than four '/'-pieces leave no segment, so no page is found. */
  lemma NoSegmentNoPage(allDocs: seq<Doc>, allPages: seq<Doc>, pathname: string)
    requires PathSegments(pathname) == []
    ensures CurrentPage(allDocs, allPages, pathname) == None
  {
  }

  /** Segments after the second are ignored. */
  lemma LaterSegmentsIgnored(segs: seq<string>, more: seq<string>, d: Doc)
    requires |segs| >= 2
    ensures Matches(segs + more, d) == Matches(segs, d)
  {
  }

  /**
   * The page found is the first entry of the merged list that matches the path: docs are
   * searched before pages, and `currentIdx` is exactly its position, or -1 for no page.
   */
  lemma CurrentIdxIsPage(allDocs: seq<Doc>, allPages: seq<Doc>, pathname: string)
    ensures var all, idx := Merged(allDocs, allPages), CurrentIdx(allDocs, allPages, pathname);
      var segs := PathSegments(pathname);
      && -1 <= idx < |all|
      && (idx == -1 <==> CurrentPage(allDocs, allPages, pathname).None?)
      && (idx == -1 ==> forall j :: 0 <= j < |all| ==> !Matches(segs, all[j]))
      && (idx >= 0 ==> CurrentPage(allDocs, allPages, pathname) == Some(all[idx])
                       && Matches(segs, all[idx])
                       && forall j :: 0 <= j < idx ==> !Matches(segs, all[j]))
  {
    var segs := PathSegments(pathname);
    IndexOfFound(Merged(allDocs, allPages), d => Matches(segs, d));
  }

  /**
   * With a page at index `idx`, next and previous are its neighbours in the merged list,
   * absent beyond either end; with no page, next is the first entry and previous absent.
   */
  lemma NextPrevious(allDocs: seq<Doc>, allPages: seq<Doc>, pathname: string)
    ensures var all, idx := Merged(allDocs, allPages), CurrentIdx(allDocs, allPages, pathname);
      && (CurrentPage(allDocs, allPages, pathname).None? ==>
            Next(allDocs, allPages, pathname) == At(all, 0)
            && Previous(allDocs, allPages, pathname) == None)
      && (CurrentPage(allDocs, allPages, pathname).Some? ==>
            (Next(allDocs, allPages, pathname).Some? <==> idx + 1 < |all|)
            && (Previous(allDocs, allPages, pathname).Some? <==> idx > 0)
            && (idx + 1 < |all| ==> Next(allDocs, allPages, pathname) == Some(all[idx + 1]))
            && (idx > 0 ==> Previous(allDocs, allPages, pathname) == Some(all[idx - 1])))
  {
    CurrentIdxIsPage(allDocs, allPages, pathname);
  }

  /** The headings are the page's own, or none when no page is found. */
  lemma HeadingsOfPage(allDocs: seq<Doc>, allPages: seq<Doc>, pathname: string)
    ensures CurrentPage(allDocs, allPages, pathname).None? ==>
      Headings(allDocs, allPages, pathname) == []
    ensures CurrentIdx(allDocs, allPages, pathname) >= 0 ==>
      Headings(allDocs, allPages, pathname)
        == Merged(allDocs, allPages)[CurrentIdx(allDocs, allPages, pathname)].headings.GetOr([])
  {
    CurrentIdxIsPage(allDocs, allPages, pathname);
  }

  lemma SplitAfter(a: string, b: string, c: char)
    requires c !in a
    ensures Split(a + [c] + b, c) == [a] + Split(b, c)
  {
    var s := a + [c] + b;
    assert s[..|a|] == a;
    IndexOfCharIs(s, c, |a|);
    assert s[|a| + 1..] == b;
  }

  lemma SplitThree(a: string, b: string, c: string, rest: string)
    requires '/' !in a && '/' !in b && '/' !in c
    ensures Split(a + ['/'] + (b + ['/'] + (c + ['/'] + rest)), '/')
         == [a] + ([b] + ([c] + Split(rest, '/')))
  {
    SplitAfter(c, rest, '/');
    SplitAfter(b, c + ['/'] + rest, '/');
    SplitAfter(a, b + ['/'] + (c + ['/'] + rest), '/');
  }

  lemma SegmentsOfParts(url: string, a: string, b: string, c: string, sr: seq<string>)
    requires |sr| >= 1 && Split(url, '/') == [a] + ([b] + ([c] + sr))
    ensures PathSegments(url) == sr
  {
    assert ([a] + ([b] + ([c] + sr)))[3..] == sr;
  }

  /** Three '/'-free pieces before the third '/' are exactly what `slice(3)` drops. */
  lemma SegmentsAfterThree(a: string, b: string, c: string, rest: string)
    requires '/' !in a && '/' !in b && '/' !in c
    ensures PathSegments(a + "/" + b + "/" + c + "/" + rest) == Split(rest, '/')
  {
    var url := a + "/" + b + "/" + c + "/" + rest;
    assert url == a + ['/'] + (b + ['/'] + (c + ['/'] + rest));
    SplitThree(a, b, c, rest);
    SegmentsOfParts(url, a, b, c, Split(rest, '/'));
  }

  /** For a URL `/<base>/docs/<rest>`, the segments are the '/'-pieces of `rest`. */
  lemma DocsUrlSegments(base: string, rest: string)
    requires '/' !in base
    ensures PathSegments("/" + base + "/docs/" + rest) == Split(rest, '/')
  {
    SegmentsAfterThree("", base, "docs", rest);
    DocsUrlShape(base, rest);
  }

  lemma DocsUrlShape(base: string, rest: string)
    ensures "" + "/" + base + "/" + "docs" + "/" + rest == "/" + base + "/docs/" + rest
  {
  }
}
