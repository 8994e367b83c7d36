/**
 * src/routes/docs/index.tsx: the Introduction page, found by title in `allPages`, and
 * its next and previous pages, taken from `allPages` alone.
 */
module IntroRoute {
  import opened JsStrings
  import opened Content

  const PageTitle := "Introduction"

  function IsIntro(p: Doc): bool {
    p.title == PageTitle
  }

  /** `allPages.find((page) => page.title === pageTitle)` */
  function CurrentPage(allPages: seq<Doc>): Option<Doc> {
    Find(allPages, IsIntro)
  }

  /** `allPages.indexOf(currentPage)`: no array entry is `undefined`, so a miss gives -1. */
  function CurrentIdx(allPages: seq<Doc>): int {
    match CurrentPage(allPages)
    case None => -1
    case Some(p) => IndexOf(allPages, p)
  }

  function Next(allPages: seq<Doc>): Option<Doc> {
    At(allPages, CurrentIdx(allPages) + 1)
  }

  function Previous(allPages: seq<Doc>): Option<Doc> {
    At(allPages, CurrentIdx(allPages) - 1)
  }

  /** `currentIdx` is the position of the first page titled 'Introduction', or -1. */
  lemma CurrentIdxIsIntro(allPages: seq<Doc>)
    ensures var idx := CurrentIdx(allPages);
      && -1 <= idx < |allPages|
      && (idx == -1 <==> forall j :: 0 <= j < |allPages| ==> allPages[j].title != PageTitle)
      && (idx >= 0 ==> allPages[idx].title == PageTitle
                       && forall j :: 0 <= j < idx ==> allPages[j].title != PageTitle)
  {
    IndexOfFound(allPages, IsIntro);
  }

  /**
   * Next and previous are the neighbours in `allPages`; with no Introduction page,
   * next is the first page and previous is absent.
   */
  lemma IntroNeighbours(allPages: seq<Doc>)
    ensures CurrentPage(allPages).None? ==>
      Next(allPages) == At(allPages, 0) && Previous(allPages) == None
    ensures var idx := CurrentIdx(allPages);
      CurrentPage(allPages).Some? ==>
        && idx >= 0
        && Next(allPages) == At(allPages, idx + 1)
        && (idx == 0 ==> Previous(allPages) == None)
        && (idx > 0 ==> Previous(allPages) == Some(allPages[idx - 1]))
  {
    CurrentIdxIsIntro(allPages);
  }
}
