/**
 * src/components/doc-footer.tsx: the pager under a document. Only the props holding a
 * page are rendered; with two of them their order is reversed; each link gets its label,
 * target, classes and arrow direction from its key.
 */
module DocFooter {
  import opened JsStrings
  import opened Content

  datatype FooterKey = NextKey | PreviousKey

  /** The props object: its keys in their own order, each with a page or `undefined`. */
  type FooterProps = seq<(FooterKey, Option<Doc>)>

  datatype FooterLink = FooterLink(key: FooterKey, classes: set<string>, href: string,
                                   labelText: string, title: string, rowReversed: bool,
                                   arrowRotated: bool)

  /** `Object.keys(props).filter((key) => props[key])`, each key with its page. */
  function ValidKeys(props: FooterProps): (r: seq<(FooterKey, Doc)>)
    ensures |r| <= |props|
    ensures forall e :: e in r ==> (e.0, Some(e.1)) in props
  {
    if props == [] then []
    else
      (if props[0].1.Some? then [(props[0].0, props[0].1.value)] else [])
      + ValidKeys(props[1..])
  }

  /** `xs.reverse()` */
  function Reverse<T>(xs: seq<T>): (r: seq<T>)
    ensures |r| == |xs| && forall i :: 0 <= i < |xs| ==> r[i] == xs[|xs| - 1 - i]
  {
    if xs == [] then [] else Reverse(xs[1..]) + [xs[0]]
  }

  const LinkBaseClass := "relative grid rounded-md border dark:border-border dark:hover:border-primary border-[#e2e2e3] bg-background px-4 py-3 transition-colors hover:border-primary hover:bg-primary/10"

  /** The link for one valid key, `count` being the number of valid keys. */
  function Link(key: FooterKey, page: Doc, count: nat): FooterLink {
    var classes :=
      (if key == NextKey then {"ml-2 text-right"} else {})
      + (if key == PreviousKey && count != 1 then {"mr-2"} else {})
      + (if key == NextKey && count == 1 then {"col-span-2 col-start-2"} else {})
      + {LinkBaseClass};
    FooterLink(key, classes, page.filePath,
               if key == NextKey then "Page suivante" else "Page précédente",
               page.title, key == NextKey, key == PreviousKey)
  }

  /** The links rendered, in order. */
  function Footer(props: FooterProps): seq<FooterLink> {
    var valid := ValidKeys(props);
    var order := if |valid| > 1 then Reverse(valid) else valid;
    seq(|order|, i requires 0 <= i < |order| => Link(order[i].0, order[i].1, |valid|))
  }

  /**
   * Per link: 'ml-2 text-right' exactly for next; 'mr-2' exactly for previous beside a
   * second link; 'col-span-2 col-start-2' exactly for a lone next; only the previous
   * arrow is rotated; the label follows the key and the target is the page's file path.
   */
  lemma LinkRules(key: FooterKey, page: Doc, count: nat)
    ensures var l := Link(key, page, count);
      && ("ml-2 text-right" in l.classes <==> key == NextKey)
      && ("mr-2" in l.classes <==> key == PreviousKey && count != 1)
      && ("col-span-2 col-start-2" in l.classes <==> key == NextKey && count == 1)
      && LinkBaseClass in l.classes
      && (l.arrowRotated <==> key == PreviousKey)
      && (l.rowReversed <==> key == NextKey)
      && l.labelText == (if key == NextKey then "Page suivante" else "Page précédente")
      && l.href == page.filePath && l.title == page.title
  {
    assert |LinkBaseClass| > 30;
  }

  /**
   * The layouts pass `next` then `previous`. Both present: previous is rendered first,
   * then next; one present: only that one; none: nothing.
   */
  lemma NextThenPrevious(next: Option<Doc>, previous: Option<Doc>)
    ensures var f := Footer([(NextKey, next), (PreviousKey, previous)]);
      && (next.Some? && previous.Some? ==>
            f == [Link(PreviousKey, previous.value, 2), Link(NextKey, next.value, 2)])
      && (next.Some? && previous.None? ==> f == [Link(NextKey, next.value, 1)])
      && (next.None? && previous.Some? ==> f == [Link(PreviousKey, previous.value, 1)])
      && (next.None? && previous.None? ==> f == [])
  {
    var props := [(NextKey, next), (PreviousKey, previous)];
    assert props[1..] == [(PreviousKey, previous)];
    assert props[1..][1..] == [];
    var v := ValidKeys(props);
    assert ValidKeys(props[1..]) ==
      (if previous.Some? then [(PreviousKey, previous.value)] else []);
    assert v == (if next.Some? then [(NextKey, next.value)] else []) + ValidKeys(props[1..]);
    var f := Footer(props);
    if next.Some? && previous.Some? {
      assert |f| == 2 && f[0] == Link(PreviousKey, previous.value, 2);
    }
  }
}
