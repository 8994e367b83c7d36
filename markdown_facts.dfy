/**
 * What the inline markup scanner of src/lib/utils.ts produces: every piece renders back
 * to the text it was cut from, text pieces contain no markup the scanner missed, bold
 * text is the shortest match, link labels and targets are the maximal runs, and the
 * caption split alternates text and `%caption%` parts.
 */
module MarkdownFacts {
  import opened JsStrings
  import opened Markdown

  // ---------------------------------------------------------------------------
  // Round trips

  lemma FindBoldStars(s: string, from: nat, i: nat, k: nat)
    requires from <= |s| && FindBold(s, from) == Some(BoldMatch(i, k))
    ensures s[i] == '*' && s[i + 1] == '*' && s[k] == '*' && s[k + 1] == '*'
  {
    FindBoldCorrect(s, from);
  }

  lemma FindLinkBrackets(s: string, from: nat, i: nat, j: nat, m: nat)
    requires from <= |s| && FindLink(s, from) == Some(LinkMatch(i, j, m))
    ensures s[i] == '[' && s[j] == ']' && s[j + 1] == '(' && s[m] == ')'
  {
    FindLinkCorrect(s, from);
  }

  lemma RenderOne(p: Piece)
    ensures Render([p]) == Markup(p)
  {
    assert [p][1..] == [];
  }

  lemma BoldMarkupSlice(s: string, last: nat, i: nat, k: nat)
    requires last <= i && i + 2 < k && k + 2 <= |s|
    requires s[i] == '*' && s[i + 1] == '*' && s[k] == '*' && s[k + 1] == '*'
    ensures s[last..] == s[last..i] + Markup(Strong(s[i + 2..k])) + s[k + 2..]
  {
    assert Markup(Strong(s[i + 2..k])) == "**" + s[i + 2..k] + "**";
    assert s[i..i + 2] == "**" && s[k..k + 2] == "**";
    assert s[last..] == s[last..i] + s[i..i + 2] + s[i + 2..k] + s[k..k + 2] + s[k + 2..];
  }

  lemma BoldPiecesNone(s: string, last: nat)
    requires last <= |s| && FindBold(s, last).None?
    ensures BoldPieces(s, last) == if last < |s| then [Str(s[last..])] else []
  {
  }

  lemma BoldRoundTripNone(s: string, last: nat)
    requires last <= |s| && FindBold(s, last).None?
    ensures Render(BoldPieces(s, last)) == s[last..]
  {
    BoldPiecesNone(s, last);
    if last < |s| {
      RenderOne(Str(s[last..]));
    }
  }

  lemma BoldRoundTripSome(s: string, last: nat, i: nat, k: nat)
    requires last <= |s| && FindBold(s, last) == Some(BoldMatch(i, k))
    requires Render(BoldPieces(s, k + 2)) == s[k + 2..]
    ensures Render(BoldPieces(s, last)) == s[last..]
  {
    var before: seq<Piece> := if i > last then [Str(s[last..i])] else [];
    var strong := Strong(s[i + 2..k]);
    var rest := BoldPieces(s, k + 2);
    BoldPiecesStep(s, last, i, k);
    FindBoldStars(s, last, i, k);
    BoldMarkupSlice(s, last, i, k);
    RenderAppend(before + [strong], rest);
    RenderAppend(before, [strong]);
    if i > last {
      RenderOne(Str(s[last..i]));
    }
    RenderOne(strong);
  }

  /** processBold loses nothing: its pieces render back to the text they came from. */
  lemma {:induction false} BoldRoundTrip(s: string, last: nat)
    requires last <= |s|
    ensures Render(BoldPieces(s, last)) == s[last..]
    decreases |s| - last
  {
    match FindBold(s, last)
    case None => BoldRoundTripNone(s, last);
    case Some(BoldMatch(i, k)) =>
      BoldRoundTrip(s, k + 2);
      BoldRoundTripSome(s, last, i, k);
  }

  lemma LinkPiecesNone(part: string, last: nat)
    requires last <= |part| && FindLink(part, last).None?
    ensures LinkPieces(part, last) == BoldPieces(part[last..], 0)
  {
  }

  lemma LinkMarkupSlice(s: string, last: nat, i: nat, j: nat, m: nat)
    requires last <= i && i + 1 < j && j + 2 < m < |s|
    requires s[i] == '[' && s[j] == ']' && s[j + 1] == '(' && s[m] == ')'
    ensures s[last..] == s[last..i] + Markup(Anchor(s[j + 2..m], s[i + 1..j])) + s[m + 1..]
  {
    var link := s[i..m + 1];
    assert Markup(Anchor(s[j + 2..m], s[i + 1..j])) == "[" + s[i + 1..j] + "](" + s[j + 2..m] + ")";
    assert link == s[i..i + 1] + s[i + 1..j] + s[j..j + 2] + s[j + 2..m] + s[m..m + 1];
    assert s[i..i + 1] == "[" && s[j..j + 2] == "](" && s[m..m + 1] == ")";
    assert s[last..] == s[last..i] + link + s[m + 1..];
  }

  lemma LinkRoundTripNone(part: string, last: nat)
    requires last <= |part| && FindLink(part, last).None?
    ensures Render(LinkPieces(part, last)) == part[last..]
  {
    LinkPiecesNone(part, last);
    BoldRoundTrip(part[last..], 0);
    assert part[last..][0..] == part[last..];
  }

  lemma LinkRoundTripSome(part: string, last: nat, i: nat, j: nat, m: nat)
    requires last <= |part| && FindLink(part, last) == Some(LinkMatch(i, j, m))
    requires Render(LinkPieces(part, m + 1)) == part[m + 1..]
    ensures Render(LinkPieces(part, last)) == part[last..]
  {
    var before := BoldPieces(part[last..i], 0);
    var link := Anchor(part[j + 2..m], part[i + 1..j]);
    var rest := LinkPieces(part, m + 1);
    LinkPiecesStep(part, last, i, j, m);
    FindLinkBrackets(part, last, i, j, m);
    LinkMarkupSlice(part, last, i, j, m);
    BoldRoundTrip(part[last..i], 0);
    assert part[last..i][0..] == part[last..i];
    RenderAppend(before + [link], rest);
    RenderAppend(before, [link]);
    RenderOne(link);
  }

  /** The link loop loses nothing either: its pieces render back to the part. */
  lemma {:induction false} LinkRoundTrip(part: string, last: nat)
    requires last <= |part|
    ensures Render(LinkPieces(part, last)) == part[last..]
    decreases |part| - last
  {
    match FindLink(part, last)
    case None => LinkRoundTripNone(part, last);
    case Some(LinkMatch(i, j, m)) =>
      LinkRoundTrip(part, m + 1);
      LinkRoundTripSome(part, last, i, j, m);
  }

  // ---------------------------------------------------------------------------
  // A match inside a slice is a match in the whole string

  lemma BoldAtSlice(s: string, a: nat, b: nat, j: int, k: int)
    requires a <= b <= |s| && IsBoldAt(s[a..b], j, k)
    ensures IsBoldAt(s, a + j, a + k)
  {
    var t := s[a..b];
    forall x | a + j + 2 <= x < a + k
      ensures !IsLineTerminator(s[x])
    {
      assert s[x] == t[x - a];
    }
    assert s[a + j] == t[j] && s[a + j + 1] == t[j + 1] && s[a + k] == t[k] && s[a + k + 1] == t[k + 1];
  }

  lemma LinkAtSlice(s: string, a: nat, b: nat, i: int, j: int, m: int)
    requires a <= b <= |s| && IsLinkAt(s[a..b], i, j, m)
    ensures IsLinkAt(s, a + i, a + j, a + m)
  {
    var t := s[a..b];
    forall x | a + i + 1 <= x < a + j
      ensures s[x] != ']'
    {
      assert s[x] == t[x - a];
    }
    forall x | a + j + 2 <= x < a + m
      ensures s[x] != ')'
    {
      assert s[x] == t[x - a];
    }
    assert s[a + i] == t[i] && s[a + j] == t[j] && s[a + j + 1] == t[j + 1] && s[a + m] == t[m];
  }

  lemma CaptionAtSlice(s: string, a: nat, b: nat, q: int, k: int)
    requires a <= b <= |s| && IsCaptionAt(s[a..b], q, k)
    ensures IsCaptionAt(s, a + q, a + k)
  {
    var t := s[a..b];
    forall x | a + q < x < a + k
      ensures s[x] != '%' && !IsLineTerminator(s[x])
    {
      assert s[x] == t[x - a];
    }
    assert s[a + q] == t[q] && s[a + k] == t[k];
  }

  /** A slice in which no bold match starts contains no bold match. */
  lemma NoBoldSlice(s: string, a: nat, b: nat)
    requires a <= b <= |s|
    requires forall j, k :: a <= j < b ==> !IsBoldAt(s, j, k)
    ensures NoBold(s[a..b])
  {
    forall j, k | IsBoldAt(s[a..b], j, k)
      ensures IsBoldAt(s, a + j, a + k)
    {
      BoldAtSlice(s, a, b, j, k);
    }
  }

  lemma NoLinkSlice(s: string, a: nat, b: nat)
    requires a <= b <= |s|
    requires forall i, j, m :: a <= i < b ==> !IsLinkAt(s, i, j, m)
    ensures NoLink(s[a..b])
  {
    forall i, j, m | IsLinkAt(s[a..b], i, j, m)
      ensures IsLinkAt(s, a + i, a + j, a + m)
    {
      LinkAtSlice(s, a, b, i, j, m);
    }
  }

  lemma NoCaptionSlice(s: string, a: nat, b: nat)
    requires a <= b <= |s|
    requires forall q, k :: a <= q < b ==> !IsCaptionAt(s, q, k)
    ensures NoCaption(s[a..b])
  {
    forall q, k | IsCaptionAt(s[a..b], q, k)
      ensures IsCaptionAt(s, a + q, a + k)
    {
      CaptionAtSlice(s, a, b, q, k);
    }
  }

  // ---------------------------------------------------------------------------
  // The shape of the pieces

  /** The inner text of a lazy bold match: no `**` can close it earlier. */
  ghost predicate LazyInner(c: string) {
    c != "" && NoLineTerminator(c)
    && (forall j :: 1 <= j < |c| - 1 ==> !(c[j] == '*' && c[j + 1] == '*'))
    && (|c| >= 2 ==> c[|c| - 1] != '*')
  }

  ghost predicate BoldPieceOk(p: Piece) {
    match p
    case Str(t) => t != "" && NoBold(t) && NoLink(t)
    case Strong(c) => LazyInner(c) && NoLink(c)
    case _ => false
  }

  ghost predicate LinkPieceOk(p: Piece) {
    match p
    case Anchor(h, c) =>
      c != "" && h != ""
      && (forall x :: 0 <= x < |c| ==> c[x] != ']')
      && (forall x :: 0 <= x < |h| ==> h[x] != ')')
    case _ => BoldPieceOk(p)
  }

  lemma LazyInnerOf(s: string, i: nat, k: nat)
    requires IsLazyBoldAt(s, i, k)
    ensures LazyInner(s[i + 2..k])
  {
    var c := s[i + 2..k];
    forall x | 0 <= x < |c|
      ensures !IsLineTerminator(c[x])
    {
      assert c[x] == s[i + 2 + x];
    }
    forall j | 1 <= j < |c| - 1
      ensures !(c[j] == '*' && c[j + 1] == '*')
    {
      assert !IsBoldAt(s, i, i + 2 + j);
      assert c[j] == s[i + 2 + j] && c[j + 1] == s[i + 3 + j];
    }
    if |c| >= 2 {
      assert !IsBoldAt(s, i, k - 1);
      assert c[|c| - 1] == s[k - 1];
    }
  }

  lemma NoLinkSubslice(s: string, a: nat, b: nat)
    requires a <= b <= |s| && NoLink(s)
    ensures NoLink(s[a..b])
  {
    forall i, j, m | IsLinkAt(s[a..b], i, j, m)
      ensures IsLinkAt(s, a + i, a + j, a + m)
    {
      LinkAtSlice(s, a, b, i, j, m);
    }
  }

  lemma BoldPiecesOkNone(s: string, last: nat)
    requires last <= |s| && NoLink(s) && FindBold(s, last).None?
    ensures forall p | p in BoldPieces(s, last) :: BoldPieceOk(p)
  {
    FindBoldCorrect(s, last);
    BoldPiecesNone(s, last);
    if last < |s| {
      NoBoldSlice(s, last, |s|);
      NoLinkSubslice(s, last, |s|);
      assert s[last..|s|] == s[last..];
    }
  }

  lemma BoldPiecesOkSome(s: string, last: nat, i: nat, k: nat)
    requires last <= |s| && NoLink(s) && FindBold(s, last) == Some(BoldMatch(i, k))
    requires forall p | p in BoldPieces(s, k + 2) :: BoldPieceOk(p)
    ensures forall p | p in BoldPieces(s, last) :: BoldPieceOk(p)
  {
    FindBoldCorrect(s, last);
    BoldPiecesStep(s, last, i, k);
    if i > last {
      NoBoldSlice(s, last, i);
      NoLinkSubslice(s, last, i);
    }
    LazyInnerOf(s, i, k);
    NoLinkSubslice(s, i + 2, k);
  }

  /**
   * The pieces of processBold are non-empty texts without any bold match left in them,
   * and shortest bold texts; in a text without links, none of them holds a link.
   */
  lemma {:induction false} BoldPiecesOk(s: string, last: nat)
    requires last <= |s| && NoLink(s)
    ensures forall p | p in BoldPieces(s, last) :: BoldPieceOk(p)
    decreases |s| - last
  {
    match FindBold(s, last)
    case None => BoldPiecesOkNone(s, last);
    case Some(BoldMatch(i, k)) =>
      BoldPiecesOk(s, k + 2);
      BoldPiecesOkSome(s, last, i, k);
  }

  lemma LinkPiecesOkNone(part: string, last: nat)
    requires last <= |part| && FindLink(part, last).None?
    ensures forall p | p in LinkPieces(part, last) :: LinkPieceOk(p)
  {
    FindLinkCorrect(part, last);
    LinkPiecesNone(part, last);
    NoLinkSlice(part, last, |part|);
    assert part[last..|part|] == part[last..];
    BoldPiecesOk(part[last..], 0);
  }

  lemma LinkPiecesOkSome(part: string, last: nat, i: nat, j: nat, m: nat)
    requires last <= |part| && FindLink(part, last) == Some(LinkMatch(i, j, m))
    requires forall p | p in LinkPieces(part, m + 1) :: LinkPieceOk(p)
    ensures forall p | p in LinkPieces(part, last) :: LinkPieceOk(p)
  {
    FindLinkCorrect(part, last);
    LinkPiecesStep(part, last, i, j, m);
    NoLinkSlice(part, last, i);
    BoldPiecesOk(part[last..i], 0);
    var text, href := part[i + 1..j], part[j + 2..m];
    assert forall x :: 0 <= x < |text| ==> text[x] == part[i + 1 + x];
    assert forall x :: 0 <= x < |href| ==> href[x] == part[j + 2 + x];
    assert LinkPieceOk(Anchor(href, text));
  }

  /**
   * The pieces of the link loop: non-empty texts with no bold or link match left in them,
   * shortest bold texts, and links whose label and target are non-empty and free of the
   * closing bracket.
   */
  lemma {:induction false} LinkPiecesOk(part: string, last: nat)
    requires last <= |part|
    ensures forall p | p in LinkPieces(part, last) :: LinkPieceOk(p)
    decreases |part| - last
  {
    match FindLink(part, last)
    case None => LinkPiecesOkNone(part, last);
    case Some(LinkMatch(i, j, m)) =>
      LinkPiecesOk(part, m + 1);
      LinkPiecesOkSome(part, last, i, j, m);
  }
}
