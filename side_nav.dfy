/**
 * src/components/side-nav.tsx: the `sections` of the side navigation. Two static
 * sections come first, then one section per category of `allDocs`, built by a `reduce`
 * into a record of arrays, turned into entries, sorted with the default `sort()` and
 * mapped to a title and links.
 */
module SideNav {
  import opened JsStrings
  import opened Content
  import JsSort
  import Store

  datatype Link = Link(title: string, href: string)

  datatype Section = Section(title: Option<string>, links: seq<Link>)

  const DefaultSubSections: seq<Section> := [
    Section(Some("Overview"), [
      Link("Introduction", "/docs/"),
      Link("Comment ça marche ?", "/docs/how-this-works"),
      Link("FAQ", "/docs/faq")
    ])
  ]

  const Internships: seq<Section> := [
    Section(Some("Internships"), [
      Link("Manar Conseil", "/docs/manar-conseil"),
      Link("Nestlé Maroc", "/docs/nestle"),
      Link("DOOC", "/docs/dooc")
    ])
  ]

  /** `doc.category` used as a property key: a missing category is the key "undefined". */
  function CategoryKey(d: Doc): string {
    d.category.GetOr("undefined")
  }

  /** `{ title: doc.title, href: `/docs/${doc._meta.path}` }` */
  function DocLink(d: Doc): Link {
    Link(d.title, "/docs/" + d.path)
  }

  /** An `[category, links]` entry of the accumulated record. */
  type Entry = (string, seq<Link>)

  function EntryKeys(es: seq<Entry>): (r: seq<string>)
    ensures |r| == |es| && forall i :: 0 <= i < |es| ==> r[i] == es[i].0
  {
    seq(|es|, i requires 0 <= i < |es| => es[i].0)
  }

  /**
   * One step of the reduce: the doc's link is pushed onto the array of its category,
   * which is created first, last in key order, when the record has none.
   */
  function AddDoc(es: seq<Entry>, d: Doc): seq<Entry> {
    var k := CategoryKey(d);
    var j := IndexOf(EntryKeys(es), k);
    if j == -1 then es + [(k, [DocLink(d)])]
    else es[j := (k, es[j].1 + [DocLink(d)])]
  }

  /** `Object.entries(allDocs.reduce(..., {}))`, keys in insertion order. */
  function Group(docs: seq<Doc>): seq<Entry> {
    if docs == [] then []
    else AddDoc(Group(docs[..|docs| - 1]), docs[|docs| - 1])
  }

  /** The links of the docs of category `k`, in `allDocs` order. */
  function LinksOf(docs: seq<Doc>, k: string): seq<Link> {
    if docs == [] then []
    else LinksOf(docs[..|docs| - 1], k)
         + (if CategoryKey(docs[|docs| - 1]) == k then [DocLink(docs[|docs| - 1])] else [])
  }

  function DocKeys(docs: seq<Doc>): (r: seq<string>)
    ensures |r| == |docs| && forall i :: 0 <= i < |docs| ==> r[i] == CategoryKey(docs[i])
  {
    seq(|docs|, i requires 0 <= i < |docs| => CategoryKey(docs[i]))
  }

  predicate DistinctKeys(es: seq<Entry>) {
    forall i, j :: 0 <= i < j < |es| ==> es[i].0 != es[j].0
  }

  lemma GroupStep(docs: seq<Doc>)
    requires docs != []
    ensures Group(docs) == AddDoc(Group(docs[..|docs| - 1]), docs[|docs| - 1])
  {
  }

  /** No category gets two entries. */
  lemma {:induction false} GroupDistinct(docs: seq<Doc>)
    ensures DistinctKeys(Group(docs))
    decreases |docs|
  {
    if docs != [] {
      var init, d := docs[..|docs| - 1], docs[|docs| - 1];
      GroupDistinct(init);
      var es := Group(init);
      var j := IndexOf(EntryKeys(es), CategoryKey(d));
      if j == -1 {
        forall i | 0 <= i < |es|
          ensures es[i].0 != CategoryKey(d)
        {
          assert EntryKeys(es)[i] == es[i].0;
        }
      }
    }
  }

  /** A category has an entry exactly when some doc has that category. */
  lemma {:induction false} GroupKeys(docs: seq<Doc>)
    ensures forall k :: k in EntryKeys(Group(docs)) <==> k in DocKeys(docs)
    decreases |docs|
  {
    if docs != [] {
      var init, d := docs[..|docs| - 1], docs[|docs| - 1];
      GroupKeys(init);
      var es := Group(init);
      var j := IndexOf(EntryKeys(es), CategoryKey(d));
      assert DocKeys(docs) == DocKeys(init) + [CategoryKey(d)];
      if j == -1 {
        assert EntryKeys(Group(docs)) == EntryKeys(es) + [CategoryKey(d)];
      } else {
        assert EntryKeys(Group(docs)) == EntryKeys(es);
      }
    }
  }

  /** Each entry holds exactly the links of the docs of its category, in `allDocs` order. */
  lemma {:induction false} GroupLinks(docs: seq<Doc>)
    ensures forall i :: 0 <= i < |Group(docs)| ==>
      Group(docs)[i].1 == LinksOf(docs, Group(docs)[i].0)
    decreases |docs|
  {
    if docs != [] {
      var init, d := docs[..|docs| - 1], docs[|docs| - 1];
      var k := CategoryKey(d);
      GroupLinks(init);
      GroupDistinct(init);
      var es := Group(init);
      var j := IndexOf(EntryKeys(es), k);
      var g := Group(docs);
      forall i | 0 <= i < |g|
        ensures g[i].1 == LinksOf(docs, g[i].0)
      {
        if j == -1 {
          if i == |es| {
            GroupKeys(init);
            LinksOfAbsent(init, k);
          } else {
            assert EntryKeys(es)[i] == es[i].0;
          }
        } else if i != j {
          assert es[i].0 != es[j].0;
        }
      }
    }
  }

  lemma {:induction false} LinksOfAbsent(docs: seq<Doc>, k: string)
    requires k !in DocKeys(docs)
    ensures LinksOf(docs, k) == []
    decreases |docs|
  {
    if docs != [] {
      var init := docs[..|docs| - 1];
      assert DocKeys(docs) == DocKeys(init) + [CategoryKey(docs[|docs| - 1])];
      LinksOfAbsent(init, k);
    }
  }

  /** The record `acc`, with its keys in insertion order, holds the entries `es`. */
  ghost predicate Holds(acc: map<string, seq<Link>>, keys: seq<string>, es: seq<Entry>) {
    && keys == EntryKeys(es)
    && (forall k :: k in acc <==> k in keys)
    && forall j :: 0 <= j < |keys| ==> acc[keys[j]] == es[j].1
  }

  /** One push of the reduce keeps the record in step with `AddDoc`. */
  lemma PushHolds(acc: map<string, seq<Link>>, keys: seq<string>, es: seq<Entry>, d: Doc)
    requires Holds(acc, keys, es) && DistinctKeys(es)
    ensures var k := CategoryKey(d);
      var acc1 := if k in acc then acc else acc[k := []];
      var keys1 := if k in acc then keys else keys + [k];
      Holds(acc1[k := acc1[k] + [DocLink(d)]], keys1, AddDoc(es, d))
  {
    var k := CategoryKey(d);
    var j := IndexOf(EntryKeys(es), k);
    var acc1 := if k in acc then acc else acc[k := []];
    var keys1 := if k in acc then keys else keys + [k];
    var acc2 := acc1[k := acc1[k] + [DocLink(d)]];
    var es2 := AddDoc(es, d);
    assert keys1 == EntryKeys(es2);
    forall i | 0 <= i < |keys1|
      ensures acc2[keys1[i]] == es2[i].1
    {
      if j >= 0 && i != j {
        assert es[i].0 != es[j].0;
      }
    }
  }

  /** The reduce, pushing into the arrays of a record; the key order is insertion order. */
  method GroupByCategory(docs: seq<Doc>) returns (entries: seq<Entry>)
    ensures entries == Group(docs)
  {
    var acc: map<string, seq<Link>> := map[];
    var keys: seq<string> := [];
    for n := 0 to |docs|
      invariant Holds(acc, keys, Group(docs[..n]))
    {
      var d := docs[n];
      var k := CategoryKey(d);
      assert docs[..n + 1][..n] == docs[..n];
      GroupStep(docs[..n + 1]);
      GroupDistinct(docs[..n]);
      PushHolds(acc, keys, Group(docs[..n]), d);
      if k !in acc {
        acc := acc[k := []];
        keys := keys + [k];
      }
      acc := acc[k := acc[k] + [DocLink(d)]];
    }
    assert docs[..|docs|] == docs;
    entries := seq(|keys|, j requires 0 <= j < |keys| => (keys[j], acc[keys[j]]));
  }

  // ---------------------------------------------------------------------------
  // The default sort of the entries and of the links

  /** `[].join.call(Array(n).fill('[object Object]'), ',')` */
  function ObjectStrings(n: nat): string {
    Join(seq(n, _ => "[object Object]"), ",")
  }

  /** The string an `[key, links]` entry converts to: the key, a comma, each link as an object. */
  function EntryString(e: Entry): string {
    e.0 + ("," + ObjectStrings(|e.1|))
  }

  /** Every link object converts to the same string. */
  function LinkString(l: Link): string {
    "[object Object]"
  }

  /** `links.sort()` */
  function SortLinks(links: seq<Link>): seq<Link> {
    JsSort.SortBy(links, LinkString)
  }

  /** `links.sort()` leaves the links in `allDocs` order: they are not sorted by title. */
  lemma SortLinksKeepsOrder(links: seq<Link>)
    ensures SortLinks(links) == links
  {
    JsSort.SortByEqualKeys(links, LinkString);
  }

  /** `Object.entries(...).sort()` */
  function SortedEntries(docs: seq<Doc>): seq<Entry> {
    JsSort.SortBy(Group(docs), EntryString)
  }

  /** `sections` */
  function Sections(docs: seq<Doc>): seq<Section> {
    var es := SortedEntries(docs);
    DefaultSubSections + Internships
      + seq(|es|, i requires 0 <= i < |es| =>
              Section(Store.CategoryTitle(es[i].0), SortLinks(es[i].1)))
  }

  /**
   * Overview and Internships come first; then one section per category, in the order
   * of the entry strings, titled by the category map and holding that category's links
   * in `allDocs` order.
   */
  lemma SectionsShape(docs: seq<Doc>)
    ensures var es := SortedEntries(docs);
      && |Sections(docs)| == 2 + |Group(docs)|
      && Sections(docs)[..2] == DefaultSubSections + Internships
      && multiset(es) == multiset(Group(docs))
      && JsSort.SortedBy(es, EntryString)
      && forall i :: 0 <= i < |es| ==>
           Sections(docs)[2 + i] == Section(Store.CategoryTitle(es[i].0), LinksOf(docs, es[i].0))
  {
    var es := SortedEntries(docs);
    var g := Group(docs);
    SectionsLayout(docs);
    JsSort.SortByPermutes(g, EntryString);
    JsSort.SortBySorted(g, EntryString);
    assert |es| == |g| by {
      assert |multiset(es)| == |multiset(g)|;
    }
    SortedEntriesLinks(docs);
  }

  /** The two fixed sections, then one section per sorted entry. */
  lemma SectionsLayout(docs: seq<Doc>)
    ensures var es := SortedEntries(docs);
      && |Sections(docs)| == 2 + |es|
      && Sections(docs)[..2] == DefaultSubSections + Internships
      && forall i :: 0 <= i < |es| ==>
           Sections(docs)[2 + i] == Section(Store.CategoryTitle(es[i].0), SortLinks(es[i].1))
  {
    var es := SortedEntries(docs);
    var head := DefaultSubSections + Internships;
    assert |head| == 2;
    var tail := seq(|es|, i requires 0 <= i < |es| =>
                      Section(Store.CategoryTitle(es[i].0), SortLinks(es[i].1)));
    HeadAndTail(head, tail, Sections(docs));
  }

  lemma HeadAndTail<T>(head: seq<T>, tail: seq<T>, whole: seq<T>)
    requires whole == head + tail
    ensures |whole| == |head| + |tail| && whole[..|head|] == head
    ensures forall i :: 0 <= i < |tail| ==> whole[|head| + i] == tail[i]
  {
  }

  /** Each sorted entry holds the links of its category, and sorting them keeps their order. */
  lemma SortedEntriesLinks(docs: seq<Doc>)
    ensures var es := SortedEntries(docs);
      forall i :: 0 <= i < |es| ==> SortLinks(es[i].1) == LinksOf(docs, es[i].0)
  {
    var es := SortedEntries(docs);
    var g := Group(docs);
    JsSort.SortByPermutes(g, EntryString);
    GroupLinks(docs);
    forall i | 0 <= i < |es|
      ensures SortLinks(es[i].1) == LinksOf(docs, es[i].0)
    {
      assert es[i] in multiset(g);
      var m :| 0 <= m < |g| && g[m] == es[i];
      SortLinksKeepsOrder(es[i].1);
    }
  }

  /** The categories of the category map, and the key a doc without category gets. */
  predicate IsKnownKey(k: string) {
    k in Store.CategoriesKeys() || k == "undefined"
  }

  lemma DifferAt(a: string, b: string, i: nat)
    requires i < |a| && i < |b| && a[i] != b[i]
    ensures Incomparable(a, b)
  {
    if |b| <= |a| {
      assert a[..|b|][i] != b[i];
    }
    if |a| <= |b| {
      assert b[..|a|][i] != a[i];
    }
  }

  /** No known key is a prefix of another. */
  lemma KnownKeysIncomparable(a: string, b: string)
    requires IsKnownKey(a) && IsKnownKey(b) && a != b
    ensures Incomparable(a, b)
  {
    Store.CategoriesKeysInOrder();
    if a[0] != b[0] {
      DifferAt(a, b, 0);
    } else if a[0] == 'c' {
      DifferAt(a, b, 1);
    } else {
      DifferAt(a, b, 3);
    }
  }

  /**
   * When every category is a key of the category map (or missing), sorting the entry
   * strings orders the sections by category key.
   */
  lemma KnownKeysSortByKey(docs: seq<Doc>)
    requires forall i :: 0 <= i < |docs| ==> IsKnownKey(CategoryKey(docs[i]))
    ensures forall i, j :: 0 <= i < j < |SortedEntries(docs)| ==>
      StrLe(SortedEntries(docs)[i].0, SortedEntries(docs)[j].0)
  {
    var es := SortedEntries(docs);
    var g := Group(docs);
    JsSort.SortByPermutes(g, EntryString);
    JsSort.SortBySorted(g, EntryString);
    GroupKeys(docs);
    forall i | 0 <= i < |es|
      ensures IsKnownKey(es[i].0)
    {
      assert es[i] in multiset(g);
      var m :| 0 <= m < |g| && g[m] == es[i];
      assert EntryKeys(g)[m] == es[i].0;
      assert es[i].0 in DocKeys(docs);
    }
    forall i, j | 0 <= i < j < |es|
      ensures StrLe(es[i].0, es[j].0)
    {
      if es[i].0 == es[j].0 {
        StrLeRefl(es[i].0);
      } else {
        KnownKeysIncomparable(es[i].0, es[j].0);
        StrLeAppend(es[i].0, es[j].0, "," + ObjectStrings(|es[i].1|),
                    "," + ObjectStrings(|es[j].1|));
      }
    }
  }

  function AllLinks(docs: seq<Doc>): (r: seq<Link>)
    ensures |r| == |docs| && forall i :: 0 <= i < |docs| ==> r[i] == DocLink(docs[i])
  {
    seq(|docs|, i requires 0 <= i < |docs| => DocLink(docs[i]))
  }

  lemma {:induction false} GroupUncategorised(docs: seq<Doc>)
    requires docs != [] && forall i :: 0 <= i < |docs| ==> docs[i].category.None?
    ensures Group(docs) == [("undefined", AllLinks(docs))]
    decreases |docs|
  {
    var init, d := docs[..|docs| - 1], docs[|docs| - 1];
    GroupStep(docs);
    if init != [] {
      GroupUncategorised(init);
      assert EntryKeys(Group(init)) == ["undefined"];
      assert AllLinks(docs) == AllLinks(init) + [DocLink(d)];
    } else {
      assert AllLinks(docs) == [DocLink(d)];
    }
  }

  /**
   * Docs without a category (the docs collection declares only a title) all land in one
   * generated section, keyed "undefined", which the category map gives no title.
   */
  lemma UncategorisedDocs(docs: seq<Doc>)
    requires docs != [] && forall i :: 0 <= i < |docs| ==> docs[i].category.None?
    ensures Sections(docs) == DefaultSubSections + Internships + [Section(None, AllLinks(docs))]
  {
    GroupUncategorised(docs);
    var e := ("undefined", AllLinks(docs));
    SortSingle(e);
    assert SortedEntries(docs) == [e];
    SectionsLayout(docs);
    SortLinksKeepsOrder(AllLinks(docs));
    UndefinedHasNoTitle();
    OneMore(Sections(docs), DefaultSubSections + Internships, Section(None, AllLinks(docs)));
  }

  lemma UndefinedHasNoTitle()
    ensures Store.CategoryTitle("undefined") == None
  {
  }

  lemma SortSingle(e: Entry)
    ensures JsSort.SortBy([e], EntryString) == [e]
  {
    assert [e][..0] == [];
  }

  lemma OneMore<T>(whole: seq<T>, head: seq<T>, x: T)
    requires |whole| == |head| + 1 && whole[..|head|] == head && whole[|head|] == x
    ensures whole == head + [x]
  {
  }
}
