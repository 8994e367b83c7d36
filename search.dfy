/**
 * src/components/search.tsx: the command palette. A keyboard shortcut toggles the dialog
 * unless the user is typing in a field; choosing an entry closes the dialog and then
 * navigates to the document. Entries are grouped by the categories of `categoryMap`.
 */
module Search {
  import opened JsStrings
  import opened Content
  import Store

  /** The kind of element an event targets, as far as the `instanceof` tests see it. */
  datatype Tag = InputTag | TextAreaTag | SelectTag | OtherTag

  datatype Target = HtmlElement(tag: Tag, isContentEditable: bool) | NonHtmlTarget

  datatype KeyEvent = KeyEvent(key: string, metaKey: bool, ctrlKey: bool, target: Target)

  /** `(e.key === 'k' && (e.metaKey || e.ctrlKey)) || e.key === '/'` */
  predicate IsShortcut(e: KeyEvent) {
    (e.key == "k" && (e.metaKey || e.ctrlKey)) || e.key == "/"
  }

  /** An editable element, or an input, textarea or select: typing there is not a shortcut. */
  predicate IsTypingTarget(t: Target) {
    match t
    case NonHtmlTarget => false
    case HtmlElement(tag, editable) => editable || tag != OtherTag
  }

  /** The key is handled: `preventDefault` is called and `open` flips. */
  predicate Toggles(e: KeyEvent) {
    IsShortcut(e) && !IsTypingTarget(e.target)
  }

  /** One palette entry: `/docs/${item._meta.path}` labelled with the title. */
  datatype Item = Item(title: string, href: string)

  datatype Group = Group(heading: string, items: seq<Item>)

  /** `allDocs.filter((d) => d.category === category)` */
  function InCategory(docs: seq<Doc>, category: string): (r: seq<Doc>)
    ensures |r| <= |docs|
  {
    if docs == [] then []
    else (if docs[0].category == Some(category) then [docs[0]] else []) + InCategory(docs[1..], category)
  }

  /** The filter keeps exactly the documents of the category. */
  lemma {:induction false} InCategoryMembers(docs: seq<Doc>, category: string)
    ensures forall d :: d in InCategory(docs, category) <==> d in docs && d.category == Some(category)
  {
    if docs != [] {
      InCategoryMembers(docs[1..], category);
      assert docs == [docs[0]] + docs[1..];
    }
  }

  function ItemOf(d: Doc): Item {
    Item(d.title, "/docs/" + d.path)
  }

  function Items(docs: seq<Doc>): (r: seq<Item>)
    ensures |r| == |docs| && forall i :: 0 <= i < |docs| ==> r[i] == ItemOf(docs[i])
  {
    seq(|docs|, i requires 0 <= i < |docs| => ItemOf(docs[i]))
  }

  /** `Object.entries(categoryMap)`, each with its filtered documents. */
  function Groups(docs: seq<Doc>): (r: seq<Group>)
    ensures |r| == |Store.CategoryMap|
  {
    var m := Store.CategoryMap;
    seq(|m|, i requires 0 <= i < |m| => Group(m[i].1, Items(InCategory(docs, m[i].0))))
  }

  /** The palette's state: whether the dialog is open, and the paths navigated to so far. */
  class CommandMenu {
    var open: bool
    var navigations: seq<string>

    /** `createSignal(false)` */
    constructor()
      ensures !open && navigations == []
    {
      open := false;
      navigations := [];
    }

    /** `handleKeyDown(e)`: returns whether `preventDefault` was called. */
    method HandleKeyDown(e: KeyEvent) returns (prevented: bool)
      modifies this
      ensures prevented == Toggles(e)
      ensures open == (if Toggles(e) then !old(open) else old(open))
      ensures navigations == old(navigations)
    {
      prevented := false;
      if IsShortcut(e) {
        if IsTypingTarget(e.target) {
          return;
        }
        prevented := true;
        open := !open;
      }
    }

    /** The dialog's `onOpenChange`. */
    method SetOpen(v: bool)
      modifies this
      ensures open == v && navigations == old(navigations)
    {
      open := v;
    }

    /**
     * `onSelect` of an entry: `runCommand(() => navigate(href))` closes the dialog and
     * then runs the command.
     */
    method Select(item: Item)
      modifies this
      ensures !open
      ensures navigations == old(navigations) + [item.href]
    {
      open := false;
      navigations := navigations + [item.href];
    }
  }

  /** The state transition of one key event on the `open` flag. */
  function NextOpen(open: bool, e: KeyEvent): bool {
    if Toggles(e) then !open else open
  }

  // ---------------------------------------------------------------------------
  // Properties

  /**
   * The toggle rule: 'k' with meta or control, or '/', anywhere but a typing target.
   * The test is case-sensitive, and a typing target ignores every key.
   */
  lemma ToggleRules(e: KeyEvent)
    ensures Toggles(e) <==>
      !IsTypingTarget(e.target) && (e.key == "/" || (e.key == "k" && (e.metaKey || e.ctrlKey)))
    ensures e.key == "K" ==> !Toggles(e)
    ensures e.key == "k" && !e.metaKey && !e.ctrlKey ==> !Toggles(e)
    ensures IsTypingTarget(e.target) ==> NextOpen(true, e) && !NextOpen(false, e)
    ensures e.target == NonHtmlTarget && e.key == "/" ==> Toggles(e)
  {
    if e.key == "K" {
      assert e.key[0] != "k"[0];
    }
  }

  /** Two presses of the shortcut leave the dialog as it was; one press flips it. */
  lemma TogglePairs(open: bool, e: KeyEvent)
    ensures NextOpen(NextOpen(open, e), e) == open
    ensures Toggles(e) ==> NextOpen(open, e) != open
    ensures !Toggles(e) ==> NextOpen(open, e) == open
  {
  }

  /** The state of `open` after the listener has received `events`, in order. */
  function FoldOpen(open: bool, events: seq<KeyEvent>): bool {
    if events == [] then open
    else NextOpen(FoldOpen(open, events[..|events| - 1]), events[|events| - 1])
  }

  function CountToggles(events: seq<KeyEvent>): (n: nat)
    ensures n <= |events|
  {
    if events == [] then 0
    else CountToggles(events[..|events| - 1]) + (if Toggles(events[|events| - 1]) then 1 else 0)
  }

  /** After a sequence of events the dialog has flipped once per toggling event. */
  lemma {:induction false} FoldOpenParity(open: bool, events: seq<KeyEvent>)
    ensures FoldOpen(open, events) == (if CountToggles(events) % 2 == 0 then open else !open)
  {
    if events != [] {
      FoldOpenParity(open, events[..|events| - 1]);
    }
  }

  /** The filter keeps `allDocs` order: it extends by the next document only if it matches. */
  lemma {:induction false} InCategoryAppend(docs: seq<Doc>, d: Doc, category: string)
    ensures InCategory(docs + [d], category)
      == InCategory(docs, category) + (if d.category == Some(category) then [d] else [])
  {
    if docs == [] {
      assert [d][1..] == [];
    } else {
      assert (docs + [d])[1..] == docs[1..] + [d];
      InCategoryAppend(docs[1..], d, category);
    }
  }

  /**
   * Groups follow `categoryMap` order, each headed by the category name and listing
   * exactly the documents of that category, each linking to `/docs/<path>`.
   */
  lemma GroupRules(docs: seq<Doc>)
    ensures var g := Groups(docs);
      forall i :: 0 <= i < |g| ==>
        && g[i].heading == Store.CategoryMap[i].1
        && (forall it :: it in g[i].items <==>
              exists d :: d in docs && d.category == Some(Store.CategoryMap[i].0) && it == ItemOf(d))
  {
    var g := Groups(docs);
    forall i, it | 0 <= i < |g|
      ensures it in g[i].items <==>
        exists d :: d in docs && d.category == Some(Store.CategoryMap[i].0) && it == ItemOf(d)
    {
      var f := InCategory(docs, Store.CategoryMap[i].0);
      InCategoryMembers(docs, Store.CategoryMap[i].0);
      if it in g[i].items {
        var j :| 0 <= j < |g[i].items| && g[i].items[j] == it;
        assert f[j] in f;
      }
      if exists d :: d in docs && d.category == Some(Store.CategoryMap[i].0) && it == ItemOf(d) {
        var d :| d in docs && d.category == Some(Store.CategoryMap[i].0) && it == ItemOf(d);
        var j :| 0 <= j < |f| && f[j] == d;
        assert g[i].items[j] == it;
      }
    }
  }

  /**
   * A document is listed in the group of its own category and in no other; a document
   * whose category is missing or not a key of `categoryMap` is listed nowhere.
   */
  lemma DocGroups(docs: seq<Doc>, d: Doc)
    requires d in docs
    ensures forall i :: 0 <= i < |Store.CategoryMap| ==>
      (d in InCategory(docs, Store.CategoryMap[i].0) <==> d.category == Some(Store.CategoryMap[i].0))
    ensures forall i, j ::
      (0 <= i < |Store.CategoryMap| && 0 <= j < |Store.CategoryMap|
       && d in InCategory(docs, Store.CategoryMap[i].0)
       && d in InCategory(docs, Store.CategoryMap[j].0)) ==> i == j
    ensures (d.category.None? || d.category.value !in Store.CategoriesKeys()) ==>
      forall i :: 0 <= i < |Store.CategoryMap| ==> d !in InCategory(docs, Store.CategoryMap[i].0)
  {
    Store.CategoriesKeysInOrder();
    forall i | 0 <= i < |Store.CategoryMap|
      ensures d in InCategory(docs, Store.CategoryMap[i].0) <==> d.category == Some(Store.CategoryMap[i].0)
    {
      InCategoryMembers(docs, Store.CategoryMap[i].0);
    }
  }
}
