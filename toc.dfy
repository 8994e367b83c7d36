/**
 * src/components/toc.tsx: the table of contents of a page. An intersection observer
 * reports batches of entries; the callback keeps `activeItem`, the ids of the headings
 * on screen, and each list item is marked active when its slug is among them.
 */
module Toc {
  import opened JsStrings
  import opened Content

  /** An intersection entry: the target's `id` attribute, if any, and whether it intersects. */
  datatype Entry = Entry(id: Option<string>, isIntersecting: bool)

  predicate Distinct(xs: seq<string>) {
    forall i, j :: 0 <= i < j < |xs| ==> xs[i] != xs[j]
  }

  /** `xs.filter((h) => h !== id)` */
  function Remove(xs: seq<string>, id: string): (r: seq<string>)
    ensures |r| <= |xs|
    ensures forall x :: x in r <==> x in xs && x != id
  {
    if xs == [] then []
    else (if xs[0] != id then [xs[0]] else []) + Remove(xs[1..], id)
  }

  /**
   * The list after one callback: the first entry that has no id stops the batch; the
   * first one that would append or remove an id does so and stops it; the others pass.
   */
  function AfterBatch(active: seq<string>, entries: seq<Entry>): seq<string>
    decreases |entries|
  {
    if entries == [] then active
    else
      var e := entries[0];
      match e.id
      case None => active
      case Some(id) =>
        if e.isIntersecting && id !in active then active + [id]
        else if !e.isIntersecting && id in active then Remove(active, id)
        else AfterBatch(active, entries[1..])
  }

  /** The component's state: the `activeItem` signal. */
  class TocState {
    var activeItem: seq<string>

    constructor()
      ensures activeItem == []
    {
      activeItem := [];
    }

    /** The observer callback: a `for` loop over the batch with early returns. */
    method OnIntersect(entries: seq<Entry>)
      modifies this
      ensures activeItem == AfterBatch(old(activeItem), entries)
    {
      ghost var active0 := activeItem;
      var i := 0;
      while i < |entries|
        invariant 0 <= i <= |entries|
        invariant activeItem == active0
        invariant AfterBatch(active0, entries) == AfterBatch(active0, entries[i..])
      {
        var entry := entries[i];
        assert entries[i..][0] == entry && entries[i..][1..] == entries[i + 1..];
        if entry.id.None? {
          return;
        }
        var id := entry.id.value;
        if entry.isIntersecting && id !in activeItem {
          activeItem := activeItem + [id];
          return;
        }
        if !entry.isIntersecting && id in activeItem {
          activeItem := Remove(activeItem, id);
          return;
        }
        i := i + 1;
      }
    }
  }

  /** The attributes of one list item. */
  datatype TocItem = TocItem(active: bool, depth: nat, href: string, text: string)

  /** `data-active`, `data-depth`, and the anchor `#slug` of a heading. */
  function Item(h: Heading, active: seq<string>): (r: TocItem)
    ensures r.active <==> h.slug in active
    ensures r.depth == h.depth && r.text == h.text
    ensures |r.href| == |h.slug| + 1 && r.href[0] == '#' && r.href[1..] == h.slug
  {
    TocItem(h.slug in active, h.depth, "#" + h.slug, h.text)
  }

  /** `document.getElementById(item.slug)` for each heading, without the missing ones. */
  function Targets(data: seq<Heading>, idsInPage: set<string>): (r: seq<string>)
    ensures forall x :: x in r <==> x in idsInPage && exists h :: h in data && h.slug == x
  {
    if data == [] then []
    else
      var rest := Targets(data[1..], idsInPage);
      assert forall h :: h in data[1..] ==> h in data;
      assert forall h :: h in data ==> h == data[0] || h in data[1..];
      (if data[0].slug in idsInPage then [data[0].slug] else []) + rest
  }

  // ---------------------------------------------------------------------------
  // Properties

  /** Removing keeps the order of the others: it distributes over concatenation. */
  lemma {:induction false} RemoveAppend(a: seq<string>, b: seq<string>, id: string)
    ensures Remove(a + b, id) == Remove(a, id) + Remove(b, id)
    decreases |a|
  {
    if a == [] {
      assert a + b == b;
    } else {
      var head := if a[0] != id then [a[0]] else [];
      assert (a + b)[0] == a[0] && (a + b)[1..] == a[1..] + b;
      assert Remove(a + b, id) == head + Remove(a[1..] + b, id);
      RemoveAppend(a[1..], b, id);
      assert Remove(a, id) == head + Remove(a[1..], id);
    }
  }

  /** Removing leaves a list without duplicates so, and drops exactly the present id. */
  lemma {:induction false} RemoveDistinct(xs: seq<string>, id: string)
    requires Distinct(xs)
    ensures Distinct(Remove(xs, id))
    ensures id in xs ==> |Remove(xs, id)| == |xs| - 1
    ensures id !in xs ==> Remove(xs, id) == xs
  {
    if xs != [] {
      RemoveDistinct(xs[1..], id);
      var r := Remove(xs, id);
      var rest := Remove(xs[1..], id);
      assert xs == [xs[0]] + xs[1..];
      assert xs[0] !in xs[1..] by {
        forall k | 0 <= k < |xs[1..]|
          ensures xs[1..][k] != xs[0]
        {
          assert xs[1..][k] == xs[k + 1];
        }
      }
      if xs[0] != id {
        assert r == [xs[0]] + rest;
        forall i, j | 0 <= i < j < |r|
          ensures r[i] != r[j]
        {
          if i == 0 {
            assert r[j] == rest[j - 1] && rest[j - 1] in rest;
          } else {
            assert r[i] == rest[i - 1] && r[j] == rest[j - 1];
          }
        }
      } else {
        assert r == rest;
        assert id !in xs[1..];
      }
    }
  }

  /** `activeItem` never holds the same id twice. */
  lemma {:induction false} AfterBatchDistinct(active: seq<string>, entries: seq<Entry>)
    requires Distinct(active)
    ensures Distinct(AfterBatch(active, entries))
    decreases |entries|
  {
    if entries != [] && entries[0].id.Some? {
      var id := entries[0].id.value;
      if entries[0].isIntersecting && id !in active {
        var r := active + [id];
        forall i, j | 0 <= i < j < |r|
          ensures r[i] != r[j]
        {
          if j == |active| {
            assert r[i] == active[i] && active[i] in active;
          }
        }
      } else if !entries[0].isIntersecting && id in active {
        RemoveDistinct(active, id);
      } else {
        AfterBatchDistinct(active, entries[1..]);
      }
    }
  }

  /**
   * One callback changes the list by at most one id: it is unchanged, or one id that was
   * absent is appended at the end, or one id that was present is removed.
   */
  lemma {:induction false} AtMostOneChange(active: seq<string>, entries: seq<Entry>)
    ensures var r := AfterBatch(active, entries);
      || r == active
      || (exists id :: id !in active && r == active + [id])
      || (exists id :: id in active && r == Remove(active, id))
    decreases |entries|
  {
    if entries != [] && entries[0].id.Some? {
      var id := entries[0].id.value;
      if entries[0].isIntersecting && id !in active {
        assert AfterBatch(active, entries) == active + [id];
      } else if !entries[0].isIntersecting && id in active {
        assert AfterBatch(active, entries) == Remove(active, id);
      } else {
        AtMostOneChange(active, entries[1..]);
      }
    }
  }

  /**
   * The entry that decides: an intersecting entry with a new id appends it; a leaving
   * entry with an active id removes it; an entry without id stops with no change.
   */
  lemma FirstDecisiveEntry(active: seq<string>, entries: seq<Entry>, k: nat)
    requires k < |entries|
    requires forall j :: 0 <= j < k ==>
      entries[j].id.Some? && (entries[j].isIntersecting <==> entries[j].id.value in active)
    ensures entries[k].id.None? ==> AfterBatch(active, entries) == active
    ensures entries[k].id.Some? && entries[k].isIntersecting && entries[k].id.value !in active ==>
      AfterBatch(active, entries) == active + [entries[k].id.value]
    ensures entries[k].id.Some? && !entries[k].isIntersecting && entries[k].id.value in active ==>
      AfterBatch(active, entries) == Remove(active, entries[k].id.value)
    decreases k
  {
    if k > 0 {
      assert entries[1..][k - 1] == entries[k];
      FirstDecisiveEntry(active, entries[1..], k - 1);
    }
  }

  /** A batch in which every entry agrees with the list leaves it unchanged. */
  lemma {:induction false} QuietBatch(active: seq<string>, entries: seq<Entry>)
    requires forall j :: 0 <= j < |entries| ==>
      entries[j].id.Some? && (entries[j].isIntersecting <==> entries[j].id.value in active)
    ensures AfterBatch(active, entries) == active
    decreases |entries|
  {
    if entries != [] {
      QuietBatch(active, entries[1..]);
    }
  }
}
