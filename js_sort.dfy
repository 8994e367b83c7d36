/**
 * `Array.prototype.sort()` without a comparator: elements are compared by their string
 * conversion, and the sort is stable. It is modelled as a stable insertion sort by a
 * key function that gives each element's string conversion.
 */
module JsSort {
  import opened JsStrings

  /** Inserts `x` after every element whose key is at most `x`'s. */
  function Insert<T>(x: T, xs: seq<T>, key: T -> string): seq<T> {
    if xs == [] then [x]
    else if !StrLe(key(xs[0]), key(x)) then [x] + xs
    else [xs[0]] + Insert(x, xs[1..], key)
  }

  /** The elements taken left to right and inserted into the sorted prefix. */
  function SortBy<T>(xs: seq<T>, key: T -> string): seq<T> {
    if xs == [] then []
    else Insert(xs[|xs| - 1], SortBy(xs[..|xs| - 1], key), key)
  }

  ghost predicate SortedBy<T>(xs: seq<T>, key: T -> string) {
    forall i, j :: 0 <= i < j < |xs| ==> StrLe(key(xs[i]), key(xs[j]))
  }

  lemma {:induction false} InsertPermutes<T>(x: T, xs: seq<T>, key: T -> string)
    ensures multiset(Insert(x, xs, key)) == multiset(xs) + multiset{x}
    decreases |xs|
  {
    if xs != [] && StrLe(key(xs[0]), key(x)) {
      InsertPermutes(x, xs[1..], key);
      assert xs == [xs[0]] + xs[1..];
    }
  }

  lemma {:induction false} InsertSorted<T>(x: T, xs: seq<T>, key: T -> string)
    requires SortedBy(xs, key)
    ensures SortedBy(Insert(x, xs, key), key)
    decreases |xs|
  {
    if xs == [] {
    } else if !StrLe(key(xs[0]), key(x)) {
      StrLeTotal(key(xs[0]), key(x));
      forall j | 0 <= j < |xs|
        ensures StrLe(key(x), key(xs[j]))
      {
        if j > 0 {
          StrLeTrans(key(x), key(xs[0]), key(xs[j]));
        }
      }
      ConsSorted(x, xs, key);
    } else {
      SortedTail(xs, key);
      InsertSorted(x, xs[1..], key);
      HeadBelowInsert(x, xs, key);
      ConsSorted(xs[0], Insert(x, xs[1..], key), key);
    }
  }

  lemma SortedTail<T>(xs: seq<T>, key: T -> string)
    requires xs != [] && SortedBy(xs, key)
    ensures SortedBy(xs[1..], key)
  {
    forall i, j | 0 <= i < j < |xs| - 1
      ensures StrLe(key(xs[1..][i]), key(xs[1..][j]))
    {
      assert xs[1..][i] == xs[i + 1] && xs[1..][j] == xs[j + 1];
    }
  }

  /** A head at most every element of a sorted sequence keeps it sorted. */
  lemma ConsSorted<T>(a: T, rest: seq<T>, key: T -> string)
    requires SortedBy(rest, key)
    requires forall j :: 0 <= j < |rest| ==> StrLe(key(a), key(rest[j]))
    ensures SortedBy([a] + rest, key)
  {
    var r := [a] + rest;
    forall i, j | 0 <= i < j < |r|
      ensures StrLe(key(r[i]), key(r[j]))
    {
      assert r[j] == rest[j - 1];
      if i > 0 {
        assert r[i] == rest[i - 1];
      }
    }
  }

  /** Inserting `x`, itself above the head, into the tail keeps every element above the head. */
  lemma HeadBelowInsert<T>(x: T, xs: seq<T>, key: T -> string)
    requires xs != [] && SortedBy(xs, key) && StrLe(key(xs[0]), key(x))
    ensures forall j :: 0 <= j < |Insert(x, xs[1..], key)| ==>
      StrLe(key(xs[0]), key(Insert(x, xs[1..], key)[j]))
  {
    var rest := Insert(x, xs[1..], key);
    InsertPermutes(x, xs[1..], key);
    forall j | 0 <= j < |rest|
      ensures StrLe(key(xs[0]), key(rest[j]))
    {
      var y := rest[j];
      assert y in multiset(rest);
      if y != x {
        assert y in multiset(xs[1..]);
        var k :| 0 <= k < |xs[1..]| && xs[1..][k] == y;
        assert xs[k + 1] == y;
      }
    }
  }

  /** The result is ordered by key. */
  lemma {:induction false} SortBySorted<T>(xs: seq<T>, key: T -> string)
    ensures SortedBy(SortBy(xs, key), key)
    decreases |xs|
  {
    if xs != [] {
      SortBySorted(xs[..|xs| - 1], key);
      InsertSorted(xs[|xs| - 1], SortBy(xs[..|xs| - 1], key), key);
    }
  }

  /** The result holds the same elements, each as often. */
  lemma {:induction false} SortByPermutes<T>(xs: seq<T>, key: T -> string)
    ensures multiset(SortBy(xs, key)) == multiset(xs)
    decreases |xs|
  {
    if xs != [] {
      var init := xs[..|xs| - 1];
      SortByPermutes(init, key);
      InsertPermutes(xs[|xs| - 1], SortBy(init, key), key);
      assert xs == init + [xs[|xs| - 1]];
    }
  }

  lemma {:induction false} InsertEqualKeys<T>(x: T, xs: seq<T>, key: T -> string)
    requires forall j :: 0 <= j < |xs| ==> key(xs[j]) == key(x)
    ensures Insert(x, xs, key) == xs + [x]
    decreases |xs|
  {
    if xs != [] {
      StrLeRefl(key(x));
      InsertEqualKeys(x, xs[1..], key);
    }
  }

  /** When every element converts to the same string, a stable sort changes nothing. */
  lemma {:induction false} SortByEqualKeys<T>(xs: seq<T>, key: T -> string)
    requires forall i, j :: 0 <= i < |xs| && 0 <= j < |xs| ==> key(xs[i]) == key(xs[j])
    ensures SortBy(xs, key) == xs
    decreases |xs|
  {
    if xs != [] {
      var init := xs[..|xs| - 1];
      SortByEqualKeys(init, key);
      InsertEqualKeys(xs[|xs| - 1], init, key);
    }
  }
  /** The elements whose string conversion is `k`, in order. */
  function WithKey<T>(xs: seq<T>, key: T -> string, k: string): seq<T> {
    if xs == [] then []
    else (if key(xs[0]) == k then [xs[0]] else []) + WithKey(xs[1..], key, k)
  }

  lemma {:induction false} WithKeyAppend<T>(a: seq<T>, b: seq<T>, key: T -> string, k: string)
    ensures WithKey(a + b, key, k) == WithKey(a, key, k) + WithKey(b, key, k)
    decreases |a|
  {
    if a == [] {
      assert a + b == b;
    } else {
      var head := if key(a[0]) == k then [a[0]] else [];
      assert (a + b)[0] == a[0] && (a + b)[1..] == a[1..] + b;
      assert WithKey(a + b, key, k) == head + WithKey(a[1..] + b, key, k);
      WithKeyAppend(a[1..], b, key, k);
      assert WithKey(a, key, k) == head + WithKey(a[1..], key, k);
    }
  }

  lemma {:induction false} WithKeyNone<T>(xs: seq<T>, key: T -> string, k: string)
    requires forall j :: 0 <= j < |xs| ==> key(xs[j]) != k
    ensures WithKey(xs, key, k) == []
    decreases |xs|
  {
    if xs != [] {
      WithKeyNone(xs[1..], key, k);
    }
  }

  /** Inserting into a sorted sequence puts `x` after every element with its key. */
  lemma {:induction false} InsertWithKey<T>(x: T, xs: seq<T>, key: T -> string, k: string)
    requires SortedBy(xs, key)
    ensures WithKey(Insert(x, xs, key), key, k)
      == WithKey(xs, key, k) + (if key(x) == k then [x] else [])
    decreases |xs|
  {
    if xs == [] {
    } else if !StrLe(key(xs[0]), key(x)) {
      if key(x) == k {
        forall j | 0 <= j < |xs|
          ensures key(xs[j]) != k
        {
          if j == 0 {
            StrLeRefl(key(x));
          }
        }
        WithKeyNone(xs, key, k);
      }
      assert ([x] + xs)[1..] == xs;
    } else {
      SortedTail(xs, key);
      InsertWithKey(x, xs[1..], key, k);
      assert ([xs[0]] + Insert(x, xs[1..], key))[1..] == Insert(x, xs[1..], key);
    }
  }

  /**
   * The sort is stable: the elements with any one string conversion keep their relative
   * order.
   */
  lemma {:induction false} SortByStable<T>(xs: seq<T>, key: T -> string, k: string)
    ensures WithKey(SortBy(xs, key), key, k) == WithKey(xs, key, k)
    decreases |xs|
  {
    if xs != [] {
      var init := xs[..|xs| - 1];
      var last := xs[|xs| - 1];
      SortByStable(init, key, k);
      SortBySorted(init, key);
      InsertWithKey(last, SortBy(init, key), key, k);
      assert xs == init + [last];
      WithKeyAppend(init, [last], key, k);
      assert [last][1..] == [];
    }
  }
}
