/**
 * What parseMarkdown (src/lib/utils.ts:69-109) produces as a whole: the caption split
 * alternates text parts and `%caption%` parts and loses nothing, a text part is never
 * taken for a caption, the output renders back to the input when captions are already
 * trimmed, and a few whole inputs with their exact output.
 */
module MarkdownParse {
  import opened JsStrings
  import opened Markdown
  import opened MarkdownFacts

  function Concat(parts: seq<string>): string {
    if parts == [] then "" else parts[0] + Concat(parts[1..])
  }

  /** A whole part that is one caption match: `%`, no `%` or line terminator, `%`. */
  ghost predicate IsCaptionPart(t: string) {
    |t| >= 2 && IsCaptionAt(t, 0, |t| - 1)
  }

  /** Text part, caption part, text part, …, text part: the parts of a split with one capture group. */
  ghost predicate Alternating(parts: seq<string>)
    decreases |parts|
  {
    |parts| >= 1 && NoCaption(parts[0])
    && (|parts| == 1 || (|parts| >= 3 && IsCaptionPart(parts[1]) && Alternating(parts[2..])))
  }

  // ---------------------------------------------------------------------------
  // The split

  lemma CaptionPartOf(s: string, q: nat, k: nat)
    requires IsCaptionAt(s, q, k)
    ensures IsCaptionPart(s[q..k + 1])
  {
    var t := s[q..k + 1];
    forall x | 0 < x < k - q
      ensures t[x] != '%' && !IsLineTerminator(t[x])
    {
      assert t[x] == s[q + x];
    }
    assert t[0] == s[q] && t[k - q] == s[k];
  }

  lemma SplitShapeEnd(s: string, p: nat)
    requires p <= |s|
    requires forall j, k :: p <= j < |s| ==> !IsCaptionAt(s, j, k)
    ensures Alternating(SplitFrom(s, p, |s|)) && Concat(SplitFrom(s, p, |s|)) == s[p..]
  {
    NoCaptionSlice(s, p, |s|);
    assert s[p..|s|] == s[p..];
    assert SplitFrom(s, p, |s|) == [s[p..]];
    assert Concat([s[p..]]) == s[p..] + Concat([]);
  }

  lemma SplitShapeSkip(s: string, p: nat, q: nat)
    requires p <= q < |s| && MatchCaptionAt(s, q).None?
    ensures SplitFrom(s, p, q) == SplitFrom(s, p, q + 1)
  {
  }

  lemma SplitShapeCaption(s: string, p: nat, q: nat, k: nat)
    requires p <= q < |s| && MatchCaptionAt(s, q) == Some(k)
    requires forall j, k' :: p <= j < q ==> !IsCaptionAt(s, j, k')
    requires Alternating(SplitFrom(s, k + 1, k + 1)) && Concat(SplitFrom(s, k + 1, k + 1)) == s[k + 1..]
    ensures Alternating(SplitFrom(s, p, q)) && Concat(SplitFrom(s, p, q)) == s[p..]
  {
    SplitFromCaption(s, p, q, k);
    NoCaptionSlice(s, p, q);
    MatchedCaptionPart(s, q, k);
    SliceThree(s, p, q, k + 1);
    CombineParts(s[p..q], s[q..k + 1], SplitFrom(s, k + 1, k + 1), s[p..], s[k + 1..]);
  }

  lemma SplitFromCaption(s: string, p: nat, q: nat, k: nat)
    requires p <= q < |s| && MatchCaptionAt(s, q) == Some(k)
    ensures SplitFrom(s, p, q) == [s[p..q], s[q..k + 1]] + SplitFrom(s, k + 1, k + 1)
  {
  }

  lemma MatchedCaptionPart(s: string, q: nat, k: nat)
    requires MatchCaptionAt(s, q) == Some(k)
    ensures k < |s| && IsCaptionPart(s[q..k + 1])
  {
    MatchCaptionAtCorrect(s, q);
    CaptionPartOf(s, q, k);
  }

  lemma CombineParts(a: string, b: string, rest: seq<string>, whole: string, tail: string)
    requires NoCaption(a) && IsCaptionPart(b) && Alternating(rest) && Concat(rest) == tail
    requires whole == a + b + tail
    ensures Alternating([a, b] + rest) && Concat([a, b] + rest) == whole
  {
    var parts := [a, b] + rest;
    assert parts[2..] == rest;
    assert parts[1..] == [b] + rest;
    assert parts[1..][1..] == rest;
  }

  lemma SliceThree(s: string, p: nat, q: nat, r: nat)
    requires p <= q <= r <= |s|
    ensures s[p..] == s[p..q] + s[q..r] + s[r..]
  {
  }

  /**
   * From `p` on, where no caption starts in `[p, q)`, the split alternates text and caption
   * parts and its parts put together give back the text.
   */
  lemma {:induction false} SplitFromShape(s: string, p: nat, q: nat)
    requires p <= q <= |s|
    requires forall j, k :: p <= j < q ==> !IsCaptionAt(s, j, k)
    ensures Alternating(SplitFrom(s, p, q)) && Concat(SplitFrom(s, p, q)) == s[p..]
    decreases |s| - q
  {
    if q == |s| {
      SplitShapeEnd(s, p);
    } else {
      MatchCaptionAtCorrect(s, q);
      match MatchCaptionAt(s, q)
      case None =>
        SplitFromShape(s, p, q + 1);
        SplitShapeSkip(s, p, q);
      case Some(k) =>
        SplitFromShape(s, k + 1, k + 1);
        SplitShapeCaption(s, p, q, k);
    }
  }

  /** `content.split(BREAK)` alternates text and caption parts and concatenates back to the content. */
  lemma SplitCaptionsShape(content: string)
    ensures Alternating(SplitCaptions(content))
    ensures Concat(SplitCaptions(content)) == content
  {
    SplitFromShape(content, 0, 0);
  }

  // ---------------------------------------------------------------------------
  // One part

  /** A part matches CODE only if a caption starts at its first character. */
  lemma CodeMatchHasCaption(t: string)
    ensures CodeMatch(t) ==> exists k :: IsCaptionAt(t, 0, k)
  {
    if CodeMatch(t) {
      var f := FirstFrom(t, '%', 1);
      assert t[|t| - 1] == '%';
      var k := f.value;
      assert IsCaptionAt(t, 0, k);
    }
  }

  lemma CaptionPartMatchesCode(t: string)
    requires IsCaptionPart(t)
    ensures CodeMatch(t)
  {
  }

  /** A text part of the split is never taken for a caption, and its pieces render back to it. */
  lemma ParseTextPart(t: string)
    requires NoCaption(t)
    ensures !CodeMatch(t)
    ensures Render(ParsePart(t)) == t
    ensures t == "" ==> ParsePart(t) == [Str("")]
    ensures t != "" ==> ParsePart(t) == LinkPieces(t, 0)
  {
    CodeMatchHasCaption(t);
    LinkRoundTrip(t, 0);
    assert t[0..] == t;
    if t == "" {
      RenderOne(Str(""));
    }
  }

  /** A caption part becomes one CodeCaption holding its trimmed interior. */
  lemma ParseCaptionPart(t: string)
    requires IsCaptionPart(t)
    ensures ParsePart(t) == [CodeCaption(Trim(t[1..|t| - 1]))]
  {
    CaptionPartMatchesCode(t);
  }

  // ---------------------------------------------------------------------------
  // All parts

  /** Every caption part holds an interior with no white space at either end. */
  ghost predicate CaptionsTrimmed(parts: seq<string>) {
    forall n :: 0 <= n < |parts| && IsCaptionPart(parts[n]) ==> Trimmed(parts[n][1..|parts[n]| - 1])
  }

  lemma RenderCaptionPart(c: string, x: string)
    requires |c| >= 2 && c[0] == '%' && c[|c| - 1] == '%' && x == c[1..|c| - 1]
    ensures Render([CodeCaption(x)]) == c
  {
    RenderOne(CodeCaption(x));
    assert c[..1] == "%" && c[|c| - 1..] == "%";
    assert c == c[..1] + x + c[|c| - 1..];
  }

  lemma CaptionsTrimmedDrop(parts: seq<string>)
    requires |parts| >= 2 && CaptionsTrimmed(parts)
    ensures CaptionsTrimmed(parts[2..])
  {
    forall n | 0 <= n < |parts[2..]| && IsCaptionPart(parts[2..][n])
      ensures Trimmed(parts[2..][n][1..|parts[2..][n]| - 1])
    {
      assert parts[2..][n] == parts[n + 2];
    }
  }

  lemma CaptionPartRenders(c: string)
    requires IsCaptionPart(c) && Trimmed(c[1..|c| - 1])
    ensures Render(ParsePart(c)) == c
  {
    var x := c[1..|c| - 1];
    TrimFixed(x);
    ParseCaptionPart(c);
    assert ParsePart(c) == [CodeCaption(x)];
    RenderCaptionPart(c, x);
  }

  lemma RenderThree(x: seq<Piece>, y: seq<Piece>, z: seq<Piece>, t: string, c: string, r: string)
    requires Render(x) == t && Render(y) == c && Render(z) == r
    ensures Render(x + (y + z)) == t + (c + r)
  {
    RenderAppend(x, y + z);
    RenderAppend(y, z);
  }

  lemma FlatMapTwo(f: string -> seq<Piece>, parts: seq<string>)
    requires |parts| >= 2
    ensures FlatMap(f, parts) == f(parts[0]) + (f(parts[1]) + FlatMap(f, parts[2..]))
    ensures Concat(parts) == parts[0] + (parts[1] + Concat(parts[2..]))
  {
    assert parts[1..][1..] == parts[2..];
  }

  lemma RenderFlatTriple(parts: seq<string>)
    requires Alternating(parts) && |parts| >= 3 && CaptionsTrimmed(parts)
    requires Render(FlatMap(ParsePart, parts[2..])) == Concat(parts[2..])
    ensures Render(FlatMap(ParsePart, parts)) == Concat(parts)
  {
    var t, c := parts[0], parts[1];
    assert Render(ParsePart(t)) == t by {
      ParseTextPart(t);
    }
    assert Render(ParsePart(c)) == c by {
      assert IsCaptionPart(parts[1]);
      CaptionPartRenders(c);
    }
    FlatMapTwo(ParsePart, parts);
    RenderThree(ParsePart(t), ParsePart(c), FlatMap(ParsePart, parts[2..]), t, c, Concat(parts[2..]));
  }

  lemma {:induction false} RenderFlat(parts: seq<string>)
    requires Alternating(parts) && CaptionsTrimmed(parts)
    ensures Render(FlatMap(ParsePart, parts)) == Concat(parts)
    decreases |parts|
  {
    if |parts| == 1 {
      ParseTextPart(parts[0]);
      assert ParsePart(parts[0]) + [] == ParsePart(parts[0]);
    } else {
      CaptionsTrimmedDrop(parts);
      RenderFlat(parts[2..]);
      RenderFlatTriple(parts);
    }
  }

  /**
   * parseMarkdown loses no text: when no caption's interior starts or ends with white
   * space, its output renders back to the input.
   */
  lemma ParseMarkdownRoundTrip(content: string)
    requires CaptionsTrimmed(SplitCaptions(content))
    ensures Render(ParseMarkdownSpec(content)) == content
  {
    SplitCaptionsShape(content);
    RenderFlat(SplitCaptions(content));
  }

  // ---------------------------------------------------------------------------
  // What the output is made of

  /** An output piece: an empty string, a caption, or a link or bold piece as the scanners make them. */
  ghost predicate OutputPieceOk(p: Piece) {
    p == Str("") || p.CodeCaption? || LinkPieceOk(p)
  }

  /** A part that is not a caption and yields no nodes is the empty string. */
  lemma ParsePartPieces(t: string)
    ensures forall p | p in ParsePart(t) :: OutputPieceOk(p)
  {
    if !CodeMatch(t) {
      LinkPiecesOk(t, 0);
      LinkRoundTrip(t, 0);
      assert t[0..] == t;
    }
  }

  lemma {:induction false} FlatMapPieces(parts: seq<string>)
    ensures forall p | p in FlatMap(ParsePart, parts) :: OutputPieceOk(p)
    decreases |parts|
  {
    if parts != [] {
      FlatMapPieces(parts[1..]);
      ParsePartPieces(parts[0]);
    }
  }

  /**
   * Every piece parseMarkdown returns is an empty string, a caption, a link with a
   * non-empty label and href, a lazily closed bold text, or a non-empty string holding
   * no bold and no link markup.
   */
  lemma ParseMarkdownPieces(content: string)
    ensures forall p | p in ParseMarkdownSpec(content) :: OutputPieceOk(p)
  {
    FlatMapPieces(SplitCaptions(content));
  }

  // ---------------------------------------------------------------------------
  // A few whole inputs and their exact output

  lemma FirstFromIs(s: string, c: char, from: nat, v: nat)
    requires from <= v < |s| && s[v] == c
    requires forall t :: from <= t < v ==> s[t] != c
    ensures FirstFrom(s, c, from) == Some(v)
  {
  }

  /** With no caption at or after `q`, the rest of the split is one part. */
  lemma {:induction false} SplitNoCaption(s: string, p: nat, q: nat)
    requires p <= q <= |s|
    requires forall j, k :: q <= j ==> !IsCaptionAt(s, j, k)
    ensures SplitFrom(s, p, q) == [s[p..]]
    decreases |s| - q
  {
    if q < |s| {
      MatchCaptionAtCorrect(s, q);
      SplitNoCaption(s, p, q + 1);
    }
  }

  lemma FlatMapOne(f: string -> seq<Piece>, t: string)
    ensures FlatMap(f, [t]) == f(t)
  {
    assert [t][1..] == [];
    assert f(t) + [] == f(t);
  }

  /** Text without a caption is parsed as one part. */
  lemma ParseOnePart(content: string)
    requires NoCaption(content)
    ensures ParseMarkdownSpec(content) == ParsePart(content)
  {
    SplitNoCaption(content, 0, 0);
    assert content[0..] == content;
    FlatMapOne(ParsePart, content);
  }

  /** Text without caption, link or bold markup comes back as a single string (an empty one too). */
  lemma NoMarkupParse(content: string)
    requires NoCaption(content) && NoLink(content) && NoBold(content)
    ensures ParseMarkdownSpec(content) == [Str(content)]
  {
    ParseOnePart(content);
    ParseTextPart(content);
    if content != "" {
      FindLinkCorrect(content, 0);
      LinkPiecesNone(content, 0);
      assert content[0..] == content;
      FindBoldCorrect(content, 0);
      BoldPiecesNone(content, 0);
    }
  }

  lemma ParseEmptyPart()
    ensures ParsePart("") == [Str("")]
  {
    assert FindLink("", 0).None?;
    assert ""[0..] == "";
    BoldPiecesEmpty();
  }

  /**
   * `%x%` alone splits into an empty part, the caption and an empty part, so the output
   * holds an empty string on either side of the trimmed caption.
   */
  lemma CaptionParse(x: string)
    requires forall t :: 0 <= t < |x| ==> x[t] != '%' && !IsLineTerminator(x[t])
    ensures ParseMarkdownSpec("%" + x + "%") == [Str(""), CodeCaption(Trim(x)), Str("")]
  {
    var s := "%" + x + "%";
    var k := |x| + 1;
    assert SplitCaptions(s) == ["", s, ""] by {
      FirstFromIs(s, '%', 1, k);
      assert NoLineTerminatorIn(s, 1, k);
      assert MatchCaptionAt(s, 0) == Some(k);
      assert |s| == k + 1 && s[k + 1..] == "";
      assert SplitFrom(s, k + 1, k + 1) == [""];
      assert s[0..0] == "" && s[0..k + 1] == s;
    }
    assert ParsePart(s) == [CodeCaption(Trim(x))] by {
      assert s[1..|s| - 1] == x;
    }
    ParseEmptyPart();
    FlatMapTwo(ParsePart, ["", s, ""]);
    assert ["", s, ""][2..] == [""];
    FlatMapOne(ParsePart, "");
  }

  /** Markup without '%' holds no caption. */
  lemma NoPercentNoCaption(s: string)
    requires forall t :: 0 <= t < |s| ==> s[t] != '%'
    ensures NoCaption(s)
  {
  }

  /** The markup of one link with a plain label and href. */
  ghost predicate PlainLink(l: string, h: string) {
    l != "" && h != ""
    && (forall t :: 0 <= t < |l| ==> l[t] != ']' && l[t] != '%')
    && (forall t :: 0 <= t < |h| ==> h[t] != ')' && h[t] != '%')
  }

  lemma LinkParseFind(l: string, h: string)
    requires PlainLink(l, h)
    ensures var s := "[" + l + "](" + h + ")";
      FindLink(s, 0) == Some(LinkMatch(0, |l| + 1, |s| - 1))
  {
    var s := "[" + l + "](" + h + ")";
    var j, m := |l| + 1, |s| - 1;
    FirstFromIs(s, ']', 1, j);
    FirstFromIs(s, ')', j + 2, m);
    assert MatchLinkAt(s, 0) == Some(LinkMatch(0, j, m));
  }

  lemma LinkPiecesAtEnd(s: string)
    ensures LinkPieces(s, |s|) == []
  {
    assert FindLink(s, |s|).None?;
    LinkPiecesNone(s, |s|);
    assert s[|s|..] == "";
    BoldPiecesEmpty();
  }

  /** `[l](h)` alone becomes one link whose children are the label and whose href is `h`. */
  lemma LinkParse(l: string, h: string)
    requires PlainLink(l, h)
    ensures ParseMarkdownSpec("[" + l + "](" + h + ")") == [Anchor(h, l)]
  {
    var s := "[" + l + "](" + h + ")";
    LinkNoPercent(l, h);
    NoPercentNoCaption(s);
    ParseOnePart(s);
    ParseTextPart(s);
    LinkPiecesOfLink(l, h);
  }

  lemma LinkNoPercent(l: string, h: string)
    requires PlainLink(l, h)
    ensures var s := "[" + l + "](" + h + ")";
      forall t :: 0 <= t < |s| ==> s[t] != '%'
  {
    var s := "[" + l + "](" + h + ")";
    forall t | 0 <= t < |s|
      ensures s[t] != '%'
    {
      if 1 <= t < |l| + 1 {
        assert s[t] == l[t - 1];
      } else if |l| + 3 <= t < |s| - 1 {
        assert s[t] == h[t - |l| - 3];
      }
    }
  }

  lemma LinkPiecesOfLink(l: string, h: string)
    requires PlainLink(l, h)
    ensures LinkPieces("[" + l + "](" + h + ")", 0) == [Anchor(h, l)]
  {
    var s := "[" + l + "](" + h + ")";
    LinkParseFind(l, h);
    LinkSlices(l, h);
    LinkPiecesSingle(s, |l| + 1, |s| - 1, l, h);
  }

  /** A link that spans the whole part is its only piece. */
  lemma LinkPiecesSingle(s: string, j: nat, m: nat, l: string, h: string)
    requires FindLink(s, 0) == Some(LinkMatch(0, j, m)) && m + 1 == |s|
    requires s[j + 2..m] == h && s[1..j] == l
    ensures LinkPieces(s, 0) == [Anchor(h, l)]
  {
    LinkPiecesAtEnd(s);
    LinkPiecesStep(s, 0, 0, j, m);
    assert s[0..0] == "";
    BoldPiecesEmpty();
    OnlyPiece(BoldPieces(s[0..0], 0), Anchor(h, l), LinkPieces(s, m + 1), LinkPieces(s, 0));
  }

  lemma LinkSlices(l: string, h: string)
    ensures var s, j := "[" + l + "](" + h + ")", |l| + 1;
      s[0..0] == "" && s[j + 2..|s| - 1] == h && s[1..j] == l
  {
  }

  lemma OnlyPiece(before: seq<Piece>, p: Piece, rest: seq<Piece>, whole: seq<Piece>)
    requires before == [] && rest == [] && whole == before + [p] + rest
    ensures whole == [p]
  {
  }

  /** Text with none of the characters that open markup: '*', '%', '['. */
  predicate Plain(t: string) {
    forall i :: 0 <= i < |t| ==> t[i] != '*' && t[i] != '%' && t[i] != '['
  }

  lemma {:induction false} CloseBoldAt(s: string, i: nat, k: nat, v: nat)
    requires i + 2 < k <= v && v + 2 <= |s| && s[v] == '*' && s[v + 1] == '*'
    requires forall t :: k - 1 <= t < v ==> !IsLineTerminator(s[t])
    requires forall t :: k <= t < v ==> s[t] != '*'
    ensures CloseBold(s, i, k) == Some(v)
    decreases v - k
  {
    if k < v {
      CloseBoldAt(s, i, k + 1, v);
    }
  }

  lemma {:induction false} FindBoldAt(s: string, from: nat, i: nat, k: nat)
    requires from <= i < |s| && MatchBoldAt(s, i) == Some(k)
    requires forall t :: from <= t < i ==> s[t] != '*'
    ensures FindBold(s, from) == Some(BoldMatch(i, k))
    decreases i - from
  {
    if from < i {
      FindBoldAt(s, from + 1, i, k);
    }
  }

  lemma {:induction false} FindBoldNoStar(s: string, from: nat)
    requires from <= |s|
    requires forall t :: from <= t < |s| ==> s[t] != '*'
    ensures FindBold(s, from).None?
    decreases |s| - from
  {
    if from < |s| {
      FindBoldNoStar(s, from + 1);
    }
  }

  lemma NoBracketNoLink(s: string)
    requires forall t :: 0 <= t < |s| ==> s[t] != '['
    ensures NoLink(s)
  {
  }

  lemma BoldParseFind(a: string, b: string, c: string)
    requires Plain(a) && Plain(b) && Plain(c) && b != "" && NoLineTerminator(b)
    ensures var s := a + "**" + b + "**" + c;
      FindBold(s, 0) == Some(BoldMatch(|a|, |a| + 2 + |b|))
  {
    var s := a + "**" + b + "**" + c;
    var i, v := |a|, |a| + 2 + |b|;
    forall t | i + 2 <= t < v
      ensures s[t] == b[t - i - 2]
    {
    }
    CloseBoldAt(s, i, i + 3, v);
    FindBoldAt(s, 0, i, v);
  }

  /** Text as the pieces of processBold: text before, the strong text, text after. */
  lemma BoldParseTail(a: string, b: string, c: string)
    requires Plain(c)
    ensures var s := a + "**" + b + "**" + c;
      BoldPieces(s, |a| + 2 + |b| + 2) == if c != "" then [Str(c)] else []
  {
    var s := a + "**" + b + "**" + c;
    var w := |a| + 2 + |b| + 2;
    assert s[w..] == c;
    FindBoldNoStar(s, w);
    BoldPiecesNone(s, w);
  }

  /** Non-empty text with no '%' and no '[' goes to processBold whole. */
  lemma BoldOnlyParse(s: string)
    requires s != ""
    requires forall t :: 0 <= t < |s| ==> s[t] != '%' && s[t] != '['
    ensures ParseMarkdownSpec(s) == BoldPieces(s, 0)
  {
    assert ParseMarkdownSpec(s) == LinkPieces(s, 0) by {
      NoPercentNoCaption(s);
      ParseOnePart(s);
      ParseTextPart(s);
    }
    NoBracketNoLink(s);
    FindLinkCorrect(s, 0);
    LinkPiecesNone(s, 0);
    assert s[0..] == s;
  }

  /**
   * `a**b**c`, with no other markup characters, becomes the text before, the strong
   * text and the text after, without empty strings around it.
   */
  lemma BoldParse(a: string, b: string, c: string)
    requires Plain(a) && Plain(b) && Plain(c) && b != "" && NoLineTerminator(b)
    ensures ParseMarkdownSpec(a + "**" + b + "**" + c)
      == (if a != "" then [Str(a)] else []) + [Strong(b)] + (if c != "" then [Str(c)] else [])
  {
    BoldParseIsBoldPieces(a, b, c);
    BoldParsePieces(a, b, c);
  }

  lemma BoldParseIsBoldPieces(a: string, b: string, c: string)
    requires Plain(a) && Plain(b) && Plain(c)
    ensures ParseMarkdownSpec(a + "**" + b + "**" + c) == BoldPieces(a + "**" + b + "**" + c, 0)
  {
    BoldParseChars(a, b, c);
    BoldOnlyParse(a + "**" + b + "**" + c);
  }

  lemma BoldParsePieces(a: string, b: string, c: string)
    requires Plain(a) && Plain(b) && Plain(c) && b != "" && NoLineTerminator(b)
    ensures BoldPieces(a + "**" + b + "**" + c, 0)
      == (if a != "" then [Str(a)] else []) + [Strong(b)] + (if c != "" then [Str(c)] else [])
  {
    var s := a + "**" + b + "**" + c;
    BoldParseFind(a, b, c);
    BoldPiecesFirst(s, |a|, |a| + 2 + |b|);
    BoldParseSlices(a, b, c);
    BoldParseTail(a, b, c);
    SamePieces(|a|, s[0..|a|], s[|a| + 2..|a| + 2 + |b|], BoldPieces(s, |a| + 2 + |b| + 2),
               a, b, if c != "" then [Str(c)] else []);
  }

  /** The first bold match, when processBold starts at the beginning of the text. */
  lemma BoldPiecesFirst(s: string, i: nat, k: nat)
    requires FindBold(s, 0) == Some(BoldMatch(i, k))
    ensures k + 2 <= |s|
    ensures BoldPieces(s, 0)
            == (if i > 0 then [Str(s[0..i])] else []) + [Strong(s[i + 2..k])] + BoldPieces(s, k + 2)
  {
    BoldPiecesStep(s, 0, i, k);
  }

  /** Pieces that agree part by part are equal. */
  lemma SamePieces(i: nat, x: string, y: string, r: seq<Piece>, a: string, b: string, r': seq<Piece>)
    requires i == |a| && x == a && y == b && r == r'
    ensures (if i > 0 then [Str(x)] else []) + [Strong(y)] + r
         == (if a != "" then [Str(a)] else []) + [Strong(b)] + r'
  {
  }

  lemma BoldParseChars(a: string, b: string, c: string)
    requires Plain(a) && Plain(b) && Plain(c)
    ensures var s := a + "**" + b + "**" + c;
      forall t :: 0 <= t < |s| ==> s[t] != '%' && s[t] != '['
  {
  }

  lemma BoldParseSlices(a: string, b: string, c: string)
    ensures var s := a + "**" + b + "**" + c;
      s[0..|a|] == a && s[|a| + 2..|a| + 2 + |b|] == b
  {
  }
}
