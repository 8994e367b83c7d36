/**
 * The one-expression string helpers of src/lib/utils.ts: capitalize, createSlug,
 * sanitizeSlug and generateFaviconUrl. Case mapping is the ASCII one of JsStrings.
 */
module Utils {
  import opened JsStrings

  const FaviconUrlPrefix := "https://s2.googleusercontent.com/s2/favicons?domain="

  /** `str.charAt(0).toUpperCase() + str.slice(1)` */
  function Capitalize(s: string): (r: string)
    ensures |r| == |s|
    ensures s != [] ==> r[0] == Upper(s[0])
    ensures forall i :: 1 <= i < |s| ==> r[i] == s[i]
  {
    (if s == [] then "" else [Upper(s[0])]) + (if s == [] then "" else s[1..])
  }

  // ---------------------------------------------------------------------------
  // createSlug: text.toString().toLowerCase().replace(/\s+/g, '-')

  /** `replace(/\s+/g, '-')`: each maximal run of white space becomes one '-'. */
  function CollapseSpace(s: string): string
    decreases |s|
  {
    if s == [] then []
    else if IsSpace(s[0]) then "-" + CollapseSpace(TrimStart(s[1..]))
    else [s[0]] + CollapseSpace(s[1..])
  }

  function CreateSlug(text: string): string {
    CollapseSpace(LowerStr(text))
  }

  predicate EndsInNonSpace(a: string) {
    a == [] || !IsSpace(a[|a| - 1])
  }

  predicate StartsWithNonSpace(b: string) {
    b == [] || !IsSpace(b[0])
  }

  lemma {:induction false} TrimStartSpaces(w: string, b: string)
    requires AllSpace(w) && StartsWithNonSpace(b)
    ensures TrimStart(w + b) == b
    decreases |w|
  {
    if w == [] {
      assert w + b == b;
    } else {
      assert (w + b)[1..] == w[1..] + b;
      TrimStartSpaces(w[1..], b);
    }
  }

  lemma {:induction false} TrimStartAppend(x: string, b: string)
    requires x != [] && !IsSpace(x[|x| - 1])
    ensures TrimStart(x + b) == TrimStart(x) + b
    decreases |x|
  {
    if IsSpace(x[0]) {
      assert (x + b)[1..] == x[1..] + b;
      TrimStartAppend(x[1..], b);
    }
  }

  /** With no white space run across the seam, the seam changes nothing. */
  lemma {:induction false} CollapseAppend(a: string, b: string)
    requires EndsInNonSpace(a)
    ensures CollapseSpace(a + b) == CollapseSpace(a) + CollapseSpace(b)
    decreases |a|
  {
    if a == [] {
      assert a + b == b;
    } else if IsSpace(a[0]) {
      var t := TrimStart(a[1..]);
      TrimmedTail(a, b);
      CollapseAppend(t, b);
      CollapseSpaceStep(a, b, t);
    } else {
      CollapseAppend(a[1..], b);
      CollapseCharStep(a, b);
    }
  }

  /** After a leading space of `a`, trimming `a[1..] + b` stops inside `a`. */
  lemma TrimmedTail(a: string, b: string)
    requires a != [] && IsSpace(a[0]) && EndsInNonSpace(a)
    ensures |TrimStart(a[1..])| < |a| && EndsInNonSpace(TrimStart(a[1..]))
    ensures TrimStart(a[1..] + b) == TrimStart(a[1..]) + b
  {
    var x := a[1..];
    TrimStartShape(x);
    TrimStartAppend(x, b);
  }

  lemma CollapseSpaceStep(a: string, b: string, t: string)
    requires a != [] && IsSpace(a[0]) && t == TrimStart(a[1..])
    requires TrimStart(a[1..] + b) == t + b
    requires CollapseSpace(t + b) == CollapseSpace(t) + CollapseSpace(b)
    ensures CollapseSpace(a + b) == CollapseSpace(a) + CollapseSpace(b)
  {
    HeadTail(a, b);
    var ct, cb := CollapseSpace(t), CollapseSpace(b);
    assert CollapseSpace(a + b) == "-" + (ct + cb) by {
      CollapseAtSpace(a + b);
    }
    assert CollapseSpace(a) == "-" + ct by {
      CollapseAtSpace(a);
    }
    ConcatAssoc("-", ct, cb);
  }

  lemma HeadTail(a: string, b: string)
    requires a != []
    ensures (a + b)[0] == a[0] && (a + b)[1..] == a[1..] + b
  {
  }

  lemma CollapseAtSpace(s: string)
    requires s != [] && IsSpace(s[0])
    ensures CollapseSpace(s) == "-" + CollapseSpace(TrimStart(s[1..]))
  {
  }

  lemma ConcatAssoc(x: string, y: string, z: string)
    ensures x + (y + z) == (x + y) + z
  {
  }

  lemma CollapseCharStep(a: string, b: string)
    requires a != [] && !IsSpace(a[0])
    requires CollapseSpace(a[1..] + b) == CollapseSpace(a[1..]) + CollapseSpace(b)
    ensures CollapseSpace(a + b) == CollapseSpace(a) + CollapseSpace(b)
  {
    var ab := a + b;
    assert ab[0] == a[0];
    assert ab[1..] == a[1..] + b;
    var cr, cb := CollapseSpace(a[1..]), CollapseSpace(b);
    assert CollapseSpace(ab) == [a[0]] + (cr + cb);
    assert CollapseSpace(a) == [a[0]] + cr;
    ConcatAssoc([a[0]], cr, cb);
  }

  lemma {:induction false} CollapseNoSpace(s: string)
    requires NoSpace(s)
    ensures CollapseSpace(s) == s
    decreases |s|
  {
    if s != [] {
      CollapseNoSpace(s[1..]);
    }
  }

  lemma {:induction false} CollapseHasNoSpace(s: string)
    ensures NoSpace(CollapseSpace(s))
    decreases |s|
  {
    if s != [] {
      if IsSpace(s[0]) {
        TrimStartShape(s[1..]);
        CollapseHasNoSpace(TrimStart(s[1..]));
      } else {
        CollapseHasNoSpace(s[1..]);
      }
    }
  }

  /** A maximal run `w` of white space between `a` and `b` becomes exactly one '-'. */
  lemma SlugRun(a: string, w: string, b: string)
    requires w != [] && AllSpace(w) && EndsInNonSpace(a) && StartsWithNonSpace(b)
    ensures CreateSlug(a + w + b) == CreateSlug(a) + "-" + CreateSlug(b)
  {
    var la, lw, lb := LowerStr(a), LowerStr(w), LowerStr(b);
    LowerThree(a, w, b);
    LowerKeepsRun(a, w, b);
    CollapseAppend(la, lw + lb);
    CollapseRun(lw, lb);
    ConcatAssoc(CollapseSpace(la), "-", CollapseSpace(lb));
  }

  lemma LowerThree(a: string, w: string, b: string)
    ensures LowerStr(a + w + b) == LowerStr(a) + (LowerStr(w) + LowerStr(b))
  {
    LowerAppend(a + w, b);
    LowerAppend(a, w);
  }

  /** Lower-casing changes no character into or out of white space. */
  lemma LowerKeepsRun(a: string, w: string, b: string)
    requires w != [] && AllSpace(w) && EndsInNonSpace(a) && StartsWithNonSpace(b)
    ensures LowerStr(w) != [] && AllSpace(LowerStr(w))
    ensures EndsInNonSpace(LowerStr(a)) && StartsWithNonSpace(LowerStr(b))
  {
  }

  lemma LowerAppend(a: string, b: string)
    ensures LowerStr(a + b) == LowerStr(a) + LowerStr(b)
  {
  }

  lemma CollapseRun(w: string, b: string)
    requires w != [] && AllSpace(w) && StartsWithNonSpace(b)
    ensures CollapseSpace(w + b) == "-" + CollapseSpace(b)
  {
    assert (w + b)[1..] == w[1..] + b;
    TrimStartSpaces(w[1..], b);
  }

  /** Text without white space is only lower-cased. */
  lemma SlugNoSpace(text: string)
    requires NoSpace(text)
    ensures CreateSlug(text) == LowerStr(text)
  {
    CollapseNoSpace(LowerStr(text));
  }

  /** A slug holds no white space. */
  lemma SlugHasNoSpace(text: string)
    ensures NoSpace(CreateSlug(text))
  {
    CollapseHasNoSpace(LowerStr(text));
  }

  predicate IsLower(s: string) {
    forall i :: 0 <= i < |s| ==> Lower(s[i]) == s[i]
  }

  lemma {:induction false} CollapseKeepsLower(s: string)
    requires IsLower(s)
    ensures IsLower(CollapseSpace(s))
    decreases |s|
  {
    if s != [] {
      if IsSpace(s[0]) {
        TrimStartShape(s[1..]);
        var t := TrimStart(s[1..]);
        LowerSuffix(s, |s| - |t|, t);
        CollapseKeepsLower(t);
        LowerPrepend('-', CollapseSpace(t));
      } else {
        LowerSuffix(s, 1, s[1..]);
        CollapseKeepsLower(s[1..]);
        LowerPrepend(s[0], CollapseSpace(s[1..]));
      }
    }
  }

  lemma LowerSuffix(s: string, k: nat, t: string)
    requires IsLower(s) && k <= |s| && t == s[k..]
    ensures IsLower(t)
  {
    assert forall i :: 0 <= i < |t| ==> t[i] == s[k + i];
  }

  lemma LowerPrepend(c: char, t: string)
    requires Lower(c) == c && IsLower(t)
    ensures IsLower([c] + t)
  {
  }

  /** createSlug is idempotent: a slug is its own slug. */
  lemma SlugIdempotent(text: string)
    ensures CreateSlug(CreateSlug(text)) == CreateSlug(text)
  {
    var s := CreateSlug(text);
    CollapseKeepsLower(LowerStr(text));
    assert LowerStr(s) == s;
    SlugHasNoSpace(text);
    CollapseNoSpace(s);
  }

  // ---------------------------------------------------------------------------
  // sanitizeSlug: text.replace(/-/g, ' ').split(' ').map(capitalize).join(' ')

  function MapCapitalize(parts: seq<string>): (r: seq<string>)
    ensures |r| == |parts|
    ensures forall i :: 0 <= i < |parts| ==> r[i] == Capitalize(parts[i])
  {
    seq(|parts|, i requires 0 <= i < |parts| => Capitalize(parts[i]))
  }

  function SanitizeSlug(text: string): string {
    Join(MapCapitalize(Split(ReplaceAllChar(text, '-', ' '), ' ')), " ")
  }

  /** What capitalizing every word of `t` does at index `i`. */
  function CapitalAt(t: string, i: nat): char
    requires i < |t|
  {
    if i == 0 || t[i - 1] == ' ' then Upper(t[i]) else t[i]
  }

  lemma {:induction false} JoinCapitalize(parts: seq<string>)
    requires |parts| >= 1
    requires forall k :: 0 <= k < |parts| ==> ' ' !in parts[k]
    ensures var t, r := Join(parts, " "), Join(MapCapitalize(parts), " ");
      |r| == |t| && forall i :: 0 <= i < |t| ==> r[i] == CapitalAt(t, i)
    decreases |parts|
  {
    var p0 := parts[0];
    assert ' ' !in p0;
    if |parts| == 1 {
      CapitalizeWord(p0);
    } else {
      var rest := parts[1..];
      JoinCapitalize(rest);
      assert MapCapitalize(parts)[1..] == MapCapitalize(rest);
      CapitalizeSeam(p0, Join(rest, " "), Join(MapCapitalize(rest), " "));
    }
  }

  /** A single word without spaces is capitalized at index 0 only. */
  lemma CapitalizeWord(p: string)
    requires ' ' !in p
    ensures |Capitalize(p)| == |p| && forall i :: 0 <= i < |p| ==> Capitalize(p)[i] == CapitalAt(p, i)
  {
    forall i | 0 <= i < |p|
      ensures p[i] != ' '
    {
      assert p[i] in p;
    }
  }

  /** A capitalized word, a space, and an already capitalized tail. */
  lemma CapitalizeSeam(p0: string, t': string, r': string)
    requires ' ' !in p0
    requires |r'| == |t'| && forall j :: 0 <= j < |t'| ==> r'[j] == CapitalAt(t', j)
    ensures var t, r := p0 + " " + t', Capitalize(p0) + " " + r';
      |r| == |t| && forall i :: 0 <= i < |t| ==> r[i] == CapitalAt(t, i)
  {
    var t, r := p0 + " " + t', Capitalize(p0) + " " + r';
    CapitalizeWord(p0);
    forall i | 0 <= i < |t|
      ensures r[i] == CapitalAt(t, i)
    {
      if i < |p0| {
        assert r[i] == Capitalize(p0)[i] && t[i] == p0[i];
        if i > 0 {
          assert t[i - 1] == p0[i - 1];
        }
      } else if i > |p0| {
        var j := i - |p0| - 1;
        assert r[i] == r'[j] && t[i] == t'[j];
        if j > 0 {
          assert t[i - 1] == t'[j - 1];
        }
      }
    }
  }

  /**
   * sanitizeSlug keeps the length, turns every '-' into a space, and upper-cases exactly
   * the first character of each word: the character at index 0 or after a '-' or ' '.
   */
  lemma SanitizeSlugChars(text: string)
    ensures |SanitizeSlug(text)| == |text|
    ensures forall i {:trigger SanitizeSlug(text)[i]} :: 0 <= i < |text| ==>
      SanitizeSlug(text)[i] ==
        (if text[i] == '-' then ' '
         else if i == 0 || text[i - 1] == '-' || text[i - 1] == ' ' then Upper(text[i])
         else text[i])
  {
    var u := ReplaceAllChar(text, '-', ' ');
    var parts := Split(u, ' ');
    SplitJoin(u, ' ');
    JoinCapitalize(parts);
  }

  /** `FAVICON_URL.concat(domain)`: the service prefix followed by the domain, unchanged. */
  function FaviconUrl(domain: string): (r: string)
    ensures StartsWith(r, FaviconUrlPrefix)
    ensures r[|FaviconUrlPrefix|..] == domain
  {
    FaviconUrlPrefix + domain
  }
}
