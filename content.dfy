/**
 * The entries of the `allDocs` and `allPages` collections that the navigation components
 * read, and the array operations they apply to them (`find`, `indexOf`, indexing).
 */
module Content {
  import opened JsStrings

  datatype Heading = Heading(depth: nat, slug: string, text: string)

  /**
   * A document: its title, `_meta.path`, `_meta.filePath`, and the `category` and
   * `headings` fields the components read, which a document may lack.
   */
  datatype Doc = Doc(title: string, path: string, filePath: string,
                     category: Option<string>, headings: Option<seq<Heading>>)

  /** `xs[i]`: `undefined` outside the array. */
  function At<T>(xs: seq<T>, i: int): (r: Option<T>)
    ensures r.Some? <==> 0 <= i < |xs|
    ensures r.Some? ==> r.value == xs[i]
  {
    if 0 <= i < |xs| then Some(xs[i]) else None
  }

  /** The index that `find(p)` stops at: the first element satisfying `p`. */
  function FindIndex<T>(xs: seq<T>, p: T -> bool): (r: Option<nat>)
    ensures r.Some? ==> r.value < |xs| && p(xs[r.value])
    ensures r.Some? ==> forall j :: 0 <= j < r.value ==> !p(xs[j])
    ensures r.None? ==> forall j :: 0 <= j < |xs| ==> !p(xs[j])
  {
    if xs == [] then None
    else if p(xs[0]) then Some(0)
    else match FindIndex(xs[1..], p)
      case None => None
      case Some(i) => Some(i + 1)
  }

  /** `xs.find(p)` */
  function Find<T>(xs: seq<T>, p: T -> bool): Option<T> {
    match FindIndex(xs, p)
    case None => None
    case Some(i) => Some(xs[i])
  }

  /** `xs.indexOf(x)`: the first index holding `x`, or -1. */
  function IndexOf<T(==)>(xs: seq<T>, x: T): (r: int)
    ensures -1 <= r < |xs|
    ensures r >= 0 ==> xs[r] == x && forall j :: 0 <= j < r ==> xs[j] != x
    ensures r == -1 <==> x !in xs
  {
    if xs == [] then -1
    else if xs[0] == x then 0
    else
      var r := IndexOf(xs[1..], x);
      if r == -1 then -1 else r + 1
  }

  /**
   * `find` and then `indexOf` of the element found give back the index `find` stopped
   * at: an equal element earlier in the list would have satisfied `p` first.
   */
  lemma IndexOfFound<T>(xs: seq<T>, p: T -> bool)
    ensures Find(xs, p).Some? ==> IndexOf(xs, Find(xs, p).value) == FindIndex(xs, p).value
  {
    if FindIndex(xs, p).Some? {
      var i := FindIndex(xs, p).value;
      forall j | 0 <= j < i
        ensures xs[j] != xs[i]
      {
        assert !p(xs[j]) && p(xs[i]);
      }
      assert xs[i] in xs;
    }
  }
}
