// The inline markup scanner of src/lib/utils.ts (processBold, parseMarkdown) with the
// regular expressions it drives, from src/lib/store.ts:
//   BREAK  /(%.*?%)/g                    split into text parts and %caption% parts
//   CODE   /^%(.*)%$/                    a whole part that is a caption
//   BOLD   /\*\*(.+?)\*\*/g              **strong** text
//   LINK   /\[([^\]]+)\]\(([^)]+)\)/g    [label](href)
// Each regular expression becomes an explicit leftmost-match scanner over the string,
// stated once as a predicate on positions (what a match is) and once as a function
// that finds it. The `while (true)` exec loops are methods proved equal to recursive
// specification functions, and the lemmas state what the scan produces.
module Markdown {
  import opened JsStrings

  /** One element of the scanner's output: a plain string or a `{comp: …}` record. */
  datatype Piece =
    | Str(text: string)                      // a plain string
    | Strong(children: string)               // {comp: 'strong', children}
    | Anchor(href: string, children: string) // {comp: 'A', class, href, rel, target, children}
    | CodeCaption(caption: string)           // {comp: 'CodeCaption', label: caption}

  /** A match of BOLD: `**` at `start`, inner text `[start + 2, innerEnd)`, closing `**` at `innerEnd`. */
  datatype BoldMatch = BoldMatch(start: nat, innerEnd: nat)

  /** A match of LINK: `[` at `start`, `]` at `close`, `(` after it, `)` at `end`. */
  datatype LinkMatch = LinkMatch(start: nat, close: nat, end: nat)

  const LinkClass := "font-semibold underline underline-offset-4"
  const LinkRel := "noopener noreferrer"
  const LinkTarget := "_blank"

  /** The record fields of a piece, as `comp[name]` reads them (None: undefined). */
  function Prop(p: Piece, name: string): Option<string> {
    match p
    case Str(_) => None
    case Strong(c) =>
      if name == "comp" then Some("strong") else if name == "children" then Some(c) else None
    case Anchor(h, c) =>
      if name == "comp" then Some("A")
      else if name == "class" then Some(LinkClass)
      else if name == "href" then Some(h)
      else if name == "rel" then Some(LinkRel)
      else if name == "target" then Some(LinkTarget)
      else if name == "children" then Some(c)
      else None
    case CodeCaption(l) =>
      if name == "comp" then Some("CodeCaption") else if name == "label" then Some(l) else None
  }

  /** The markup a piece stands for: the inverse direction of the scanner. */
  function Markup(p: Piece): string {
    match p
    case Str(t) => t
    case Strong(c) => "**" + c + "**"
    case Anchor(h, c) => "[" + c + "](" + h + ")"
    case CodeCaption(l) => "%" + l + "%"
  }

  function Render(ps: seq<Piece>): string {
    if ps == [] then "" else Markup(ps[0]) + Render(ps[1..])
  }

  lemma {:induction false} RenderAppend(a: seq<Piece>, b: seq<Piece>)
    ensures Render(a + b) == Render(a) + Render(b)
  {
    if a == [] {
      assert a + b == b;
    } else {
      assert (a + b)[1..] == a[1..] + b;
      RenderAppend(a[1..], b);
    }
  }

  predicate NoLineTerminatorIn(s: string, a: int, b: int)
    requires 0 <= a && b <= |s|
  {
    forall t :: a <= t < b ==> !IsLineTerminator(s[t])
  }

  /** The first index at or after `from` holding `c`. */
  function FirstFrom(s: string, c: char, from: nat): (r: Option<nat>)
    requires from <= |s|
    ensures r.Some? ==> from <= r.value < |s| && s[r.value] == c
    ensures r.Some? ==> forall t :: from <= t < r.value ==> s[t] != c
    ensures r.None? ==> forall t :: from <= t < |s| ==> s[t] != c
    decreases |s| - from
  {
    if from == |s| then None
    else if s[from] == c then Some(from)
    else FirstFrom(s, c, from + 1)
  }

  // ---------------------------------------------------------------------------
  // BOLD: /\*\*(.+?)\*\*/g

  /** `**inner**` at `i`, inner = s[i+2..k], non-empty and without line terminators. */
  predicate IsBoldAt(s: string, i: int, k: int) {
    0 <= i && i + 2 < k && k + 2 <= |s|
    && s[i] == '*' && s[i + 1] == '*' && s[k] == '*' && s[k + 1] == '*'
    && NoLineTerminatorIn(s, i + 2, k)
  }

  /** The lazy `.+?` picks the shortest inner text. */
  predicate IsLazyBoldAt(s: string, i: int, k: int) {
    IsBoldAt(s, i, k) && forall k' :: i + 2 < k' < k ==> !IsBoldAt(s, i, k')
  }

  ghost predicate NoBold(s: string) {
    forall j, k :: !IsBoldAt(s, j, k)
  }

  function CloseBold(s: string, i: nat, k: nat): (r: Option<nat>)
    requires i + 2 < k
    ensures r.Some? ==> k <= r.value && r.value + 2 <= |s|
    decreases |s| - k
  {
    if k + 2 > |s| then None
    else if IsLineTerminator(s[k - 1]) then None
    else if s[k] == '*' && s[k + 1] == '*' then Some(k)
    else CloseBold(s, i, k + 1)
  }

  /** What `BOLD.exec` finds when it tries position `i`: the end of the inner text. */
  function MatchBoldAt(s: string, i: nat): (r: Option<nat>)
    ensures r.Some? ==> i + 2 < r.value && r.value + 2 <= |s|
  {
    if i + 2 <= |s| && s[i] == '*' && s[i + 1] == '*' then CloseBold(s, i, i + 3) else None
  }

  /** `BOLD.exec(s)` with `lastIndex = from`: the leftmost match, as (index, end of inner text). */
  function FindBold(s: string, from: nat): (r: Option<BoldMatch>)
    requires from <= |s|
    ensures r.Some? ==> from <= r.value.start && r.value.start + 2 < r.value.innerEnd && r.value.innerEnd + 2 <= |s|
    decreases |s| - from
  {
    if from == |s| then None
    else match MatchBoldAt(s, from)
      case Some(k) => Some(BoldMatch(from, k))
      case None => FindBold(s, from + 1)
  }

  lemma {:induction false} CloseBoldCorrect(s: string, i: nat, k: nat)
    requires i + 2 < k && k <= |s| + 1
    requires s[i] == '*' && s[i + 1] == '*'
    requires NoLineTerminatorIn(s, i + 2, k - 1)
    requires forall k' :: i + 2 < k' < k ==> !IsBoldAt(s, i, k')
    ensures CloseBold(s, i, k).Some? ==> IsLazyBoldAt(s, i, CloseBold(s, i, k).value)
    ensures CloseBold(s, i, k).None? ==> forall k' :: !IsBoldAt(s, i, k')
    decreases |s| - k
  {
    if k + 2 <= |s| && !IsLineTerminator(s[k - 1]) && !(s[k] == '*' && s[k + 1] == '*') {
      CloseBoldCorrect(s, i, k + 1);
    }
  }

  /** The match at `i` is exactly the shortest `**inner**` there, and there is none when it fails. */
  lemma MatchBoldAtCorrect(s: string, i: nat)
    ensures MatchBoldAt(s, i).Some? ==> IsLazyBoldAt(s, i, MatchBoldAt(s, i).value)
    ensures MatchBoldAt(s, i).None? ==> forall k :: !IsBoldAt(s, i, k)
  {
    if i + 2 <= |s| && s[i] == '*' && s[i + 1] == '*' {
      CloseBoldCorrect(s, i, i + 3);
    }
  }

  /** FindBold returns the leftmost bold match from `from` on, and None only when there is none. */
  lemma {:induction false} FindBoldCorrect(s: string, from: nat)
    requires from <= |s|
    ensures var r := FindBold(s, from);
      r.Some? ==> (IsLazyBoldAt(s, r.value.start, r.value.innerEnd)
                   && forall j, k :: from <= j < r.value.start ==> !IsBoldAt(s, j, k))
    ensures FindBold(s, from).None? ==> forall j, k :: from <= j ==> !IsBoldAt(s, j, k)
    decreases |s| - from
  {
    if from < |s| {
      MatchBoldAtCorrect(s, from);
      if MatchBoldAt(s, from).None? {
        FindBoldCorrect(s, from + 1);
      }
    }
  }

  /** processBold's output from `lastIndex = last` on. */
  function BoldPieces(s: string, last: nat): seq<Piece>
    requires last <= |s|
    decreases |s| - last
  {
    match FindBold(s, last)
    case None => if last < |s| then [Str(s[last..])] else []
    case Some(BoldMatch(i, k)) =>
      (if i > last then [Str(s[last..i])] else []) + [Strong(s[i + 2..k])] + BoldPieces(s, k + 2)
  }

  /** processBold('') is empty, so the guards around its calls in parseMarkdown change nothing. */
  lemma BoldPiecesEmpty()
    ensures BoldPieces("", 0) == []
  {
  }

  lemma BoldPiecesStep(s: string, last: nat, i: nat, k: nat)
    requires last <= |s| && FindBold(s, last) == Some(BoldMatch(i, k))
    ensures k + 2 <= |s|
    ensures BoldPieces(s, last)
            == (if i > last then [Str(s[last..i])] else []) + [Strong(s[i + 2..k])] + BoldPieces(s, k + 2)
  {
  }

  lemma ProcessBoldStep(s: string, result: seq<Piece>, last: nat, i: nat, k: nat, before: seq<Piece>)
    requires last <= |s| && FindBold(s, last) == Some(BoldMatch(i, k))
    requires result + BoldPieces(s, last) == BoldPieces(s, 0)
    requires before == if i > last then [Str(s[last..i])] else []
    ensures k + 2 <= |s|
    ensures result + before + [Strong(s[i + 2..k])] + BoldPieces(s, k + 2) == BoldPieces(s, 0)
  {
    BoldPiecesStep(s, last, i, k);
  }

  lemma ProcessBoldDone(s: string, result: seq<Piece>, last: nat)
    requires last <= |s| && FindBold(s, last).None?
    requires result + BoldPieces(s, last) == BoldPieces(s, 0)
    ensures last < |s| ==> result + [Str(s[last..])] == BoldPieces(s, 0)
    ensures last == |s| ==> result == BoldPieces(s, 0)
  {
  }

  /** processBold (src/lib/utils.ts:39-62). */
  method ProcessBold(text: string) returns (result: seq<Piece>)
    ensures result == BoldPieces(text, 0)
  {
    result := [];
    var lastIndex := 0;
    while true
      invariant lastIndex <= |text|
      invariant result + BoldPieces(text, lastIndex) == BoldPieces(text, 0)
      decreases |text| - lastIndex
    {
      var match_ := FindBold(text, lastIndex);
      if match_.None? {
        break;
      }
      var index, innerEnd := match_.value.start, match_.value.innerEnd;
      var before: seq<Piece> := [];
      if index > lastIndex {
        before := [Str(text[lastIndex..index])];
      }
      ProcessBoldStep(text, result, lastIndex, index, innerEnd, before);
      result := result + before + [Strong(text[index + 2..innerEnd])];
      lastIndex := innerEnd + 2;
    }
    ProcessBoldDone(text, result, lastIndex);
    if lastIndex < |text| {
      result := result + [Str(text[lastIndex..])];
    }
  }

  // ---------------------------------------------------------------------------
  // LINK: /\[([^\]]+)\]\(([^)]+)\)/g

  /** `[label](href)` at `i`: label = s[i+1..j] without ']', href = s[j+2..m] without ')', both non-empty. */
  predicate IsLinkAt(s: string, i: int, j: int, m: int) {
    0 <= i && i + 1 < j && j + 2 < m < |s|
    && s[i] == '[' && s[j] == ']' && s[j + 1] == '(' && s[m] == ')'
    && (forall t :: i + 1 <= t < j ==> s[t] != ']')
    && (forall t :: j + 2 <= t < m ==> s[t] != ')')
  }

  ghost predicate NoLink(s: string) {
    forall i, j, m :: !IsLinkAt(s, i, j, m)
  }

  /** What `LINK.exec` finds when it tries position `i`: (index of ']', index of ')'). */
  function MatchLinkAt(s: string, i: nat): (r: Option<LinkMatch>)
    ensures r.Some? ==> r.value.start == i && i + 1 < r.value.close && r.value.close + 2 < r.value.end < |s|
  {
    if i < |s| && s[i] == '[' then
      match FirstFrom(s, ']', i + 1)
      case None => None
      case Some(j) =>
        if j > i + 1 && j + 1 < |s| && s[j + 1] == '(' then
          match FirstFrom(s, ')', j + 2)
          case None => None
          case Some(m) => if m > j + 2 then Some(LinkMatch(i, j, m)) else None
        else None
    else None
  }

  /** `LINK.exec(s)` with `lastIndex = from`: the leftmost match as (index, ']' index, ')' index). */
  function FindLink(s: string, from: nat): (r: Option<LinkMatch>)
    requires from <= |s|
    ensures r.Some? ==> from <= r.value.start && r.value.start + 1 < r.value.close && r.value.close + 2 < r.value.end < |s|
    decreases |s| - from
  {
    if from == |s| then None
    else match MatchLinkAt(s, from)
      case Some(found) => Some(found)
      case None => FindLink(s, from + 1)
  }

  /** The match at `i` is the only `[label](href)` there, and there is none when it fails. */
  lemma MatchLinkAtCorrect(s: string, i: nat)
    ensures MatchLinkAt(s, i).Some? ==> IsLinkAt(s, i, MatchLinkAt(s, i).value.close, MatchLinkAt(s, i).value.end)
    ensures MatchLinkAt(s, i).None? ==> forall j, m :: !IsLinkAt(s, i, j, m)
  {
  }

  /** A link at a position is unique: the label and the href are maximal runs. */
  lemma LinkAtUnique(s: string, i: int, j: int, m: int, j': int, m': int)
    requires IsLinkAt(s, i, j, m) && IsLinkAt(s, i, j', m')
    ensures j == j' && m == m'
  {
  }

  /** FindLink returns the leftmost link from `from` on, and None only when there is none. */
  lemma {:induction false} FindLinkCorrect(s: string, from: nat)
    requires from <= |s|
    ensures var r := FindLink(s, from);
      r.Some? ==> (IsLinkAt(s, r.value.start, r.value.close, r.value.end)
                   && forall i, j, m :: from <= i < r.value.start ==> !IsLinkAt(s, i, j, m))
    ensures FindLink(s, from).None? ==> forall i, j, m :: from <= i ==> !IsLinkAt(s, i, j, m)
    decreases |s| - from
  {
    if from < |s| {
      MatchLinkAtCorrect(s, from);
      if MatchLinkAt(s, from).None? {
        FindLinkCorrect(s, from + 1);
      }
    }
  }

  /** The nodes the link loop of parseMarkdown pushes from `lastIndex = last` on. */
  function LinkPieces(part: string, last: nat): seq<Piece>
    requires last <= |part|
    decreases |part| - last
  {
    match FindLink(part, last)
    case None => BoldPieces(part[last..], 0)
    case Some(LinkMatch(i, j, m)) =>
      BoldPieces(part[last..i], 0) + [Anchor(part[j + 2..m], part[i + 1..j])] + LinkPieces(part, m + 1)
  }

  // ---------------------------------------------------------------------------
  // BREAK: /(%.*?%)/g used by split, and CODE: /^%(.*)%$/

  /** `%interior%` at `q` ending at `k`: the first '%' after `q`, with no line terminator between. */
  predicate IsCaptionAt(s: string, q: int, k: int) {
    0 <= q < k < |s| && s[q] == '%' && s[k] == '%'
    && forall t :: q < t < k ==> s[t] != '%' && !IsLineTerminator(s[t])
  }

  ghost predicate NoCaption(s: string) {
    forall q, k :: !IsCaptionAt(s, q, k)
  }

  /** What `BREAK.exec` finds when it tries position `q`: the index of the closing '%'. */
  function MatchCaptionAt(s: string, q: nat): (r: Option<nat>)
    ensures r.Some? ==> q < r.value < |s|
  {
    if q < |s| && s[q] == '%' then
      match FirstFrom(s, '%', q + 1)
      case None => None
      case Some(k) => if NoLineTerminatorIn(s, q + 1, k) then Some(k) else None
    else None
  }

  /** The lazy `.*?` closes at the first '%', and only when no line terminator comes first. */
  lemma MatchCaptionAtCorrect(s: string, q: nat)
    ensures MatchCaptionAt(s, q).Some? ==> IsCaptionAt(s, q, MatchCaptionAt(s, q).value)
    ensures MatchCaptionAt(s, q).None? ==> forall k :: !IsCaptionAt(s, q, k)
  {
  }

  /** The split algorithm of `String.prototype.split` with a capturing regular expression. */
  function SplitFrom(s: string, p: nat, q: nat): (parts: seq<string>)
    requires p <= q <= |s|
    ensures |parts| >= 1
    decreases |s| - q
  {
    if q == |s| then [s[p..]]
    else match MatchCaptionAt(s, q)
      case Some(k) => [s[p..q], s[q..k + 1]] + SplitFrom(s, k + 1, k + 1)
      case None => SplitFrom(s, p, q + 1)
  }

  /** `content.split(REGEX.TEXT.CODE.BREAK)` */
  function SplitCaptions(content: string): seq<string> {
    SplitFrom(content, 0, 0)
  }

  /** `part.match(REGEX.TEXT.CODE.CODE)` succeeds. */
  predicate CodeMatch(part: string) {
    |part| >= 2 && part[0] == '%' && part[|part| - 1] == '%' && NoLineTerminatorIn(part, 1, |part| - 1)
  }

  /** The flatMap callback of parseMarkdown, applied to one part. */
  function ParsePart(part: string): seq<Piece> {
    if CodeMatch(part) then [CodeCaption(Trim(part[1..|part| - 1]))]
    else
      var nodes := LinkPieces(part, 0);
      if |nodes| > 0 then nodes else [Str(part)]
  }

  /** `parts.flatMap(f)` */
  function FlatMap(f: string -> seq<Piece>, parts: seq<string>): seq<Piece> {
    if parts == [] then [] else f(parts[0]) + FlatMap(f, parts[1..])
  }

  /** parseMarkdown, as a function of its input. */
  function ParseMarkdownSpec(content: string): seq<Piece> {
    FlatMap(ParsePart, SplitCaptions(content))
  }

  lemma LinkPiecesStep(part: string, last: nat, i: nat, j: nat, m: nat)
    requires last <= |part| && FindLink(part, last) == Some(LinkMatch(i, j, m))
    ensures m < |part|
    ensures LinkPieces(part, last)
      == BoldPieces(part[last..i], 0) + [Anchor(part[j + 2..m], part[i + 1..j])] + LinkPieces(part, m + 1)
  {
  }

  lemma ScanLinksStep(part: string, nodes: seq<Piece>, last: nat, i: nat, j: nat, m: nat, before: seq<Piece>)
    requires last <= |part| && FindLink(part, last) == Some(LinkMatch(i, j, m))
    requires nodes + LinkPieces(part, last) == LinkPieces(part, 0)
    requires before == if i > last then BoldPieces(part[last..i], 0) else []
    ensures m < |part|
    ensures nodes + before + [Anchor(part[j + 2..m], part[i + 1..j])] + LinkPieces(part, m + 1) == LinkPieces(part, 0)
  {
    LinkPiecesStep(part, last, i, j, m);
    if i == last {
      assert part[last..i] == "";
      BoldPiecesEmpty();
    }
    assert before == BoldPieces(part[last..i], 0);
    var link := [Anchor(part[j + 2..m], part[i + 1..j])];
    var rest := LinkPieces(part, m + 1);
    assert nodes + before + link + rest == nodes + (before + link + rest);
  }

  lemma ScanLinksDone(part: string, nodes: seq<Piece>, last: nat)
    requires last <= |part| && FindLink(part, last).None?
    requires nodes + LinkPieces(part, last) == LinkPieces(part, 0)
    ensures last < |part| ==> nodes + BoldPieces(part[last..], 0) == LinkPieces(part, 0)
    ensures last == |part| ==> nodes == LinkPieces(part, 0)
  {
    if last == |part| {
      BoldPiecesEmpty();
    }
  }

  /** The link loop of parseMarkdown with its trailing text (src/lib/utils.ts:76-105). */
  method ScanLinks(part: string) returns (nodes: seq<Piece>)
    ensures nodes == LinkPieces(part, 0)
  {
    nodes := [];
    var lastIndex := 0;
    while true
      invariant lastIndex <= |part|
      invariant nodes + LinkPieces(part, lastIndex) == LinkPieces(part, 0)
      decreases |part| - lastIndex
    {
      var match_ := FindLink(part, lastIndex);
      if match_.None? {
        break;
      }
      var index, close, end := match_.value.start, match_.value.close, match_.value.end;
      var before: seq<Piece> := [];
      if index > lastIndex {
        before := ProcessBold(part[lastIndex..index]);
      }
      var link := Anchor(part[close + 2..end], part[index + 1..close]);
      assert nodes + before + [link] + LinkPieces(part, end + 1) == LinkPieces(part, 0) by {
        ScanLinksStep(part, nodes, lastIndex, index, close, end, before);
      }
      nodes := nodes + before + [link];
      lastIndex := end + 1;
    }
    ScanLinksDone(part, nodes, lastIndex);
    if lastIndex < |part| {
      var bold := ProcessBold(part[lastIndex..]);
      nodes := nodes + bold;
    }
  }

  /** The callback of `flatMap` in parseMarkdown (src/lib/utils.ts:70-107). */
  method ParsePartScan(part: string) returns (nodes: seq<Piece>)
    ensures nodes == ParsePart(part)
  {
    if CodeMatch(part) {
      return [CodeCaption(Trim(part[1..|part| - 1]))];
    }
    nodes := ScanLinks(part);
    if |nodes| == 0 {
      nodes := [Str(part)];
    }
  }

  /** parseMarkdown (src/lib/utils.ts:69-109). */
  method ParseMarkdown(content: string) returns (result: seq<Piece>)
    ensures result == ParseMarkdownSpec(content)
  {
    var parts := SplitCaptions(content);
    result := [];
    for n := 0 to |parts|
      invariant result + FlatMap(ParsePart, parts[n..]) == FlatMap(ParsePart, parts)
    {
      var nodes := ParsePartScan(parts[n]);
      assert parts[n..][1..] == parts[n + 1..];
      result := result + nodes;
    }
  }
}
