/**
 * src/components/ui/text-field.tsx: the error message of a text field. `uniqueErrors`
 * keeps one error per message through a `Map` keyed by the message, and the message
 * area shows the children, nothing, the one message, or a list of all of them.
 */
module TextField {
  import opened JsStrings

  /** An error object: its `message`, and the rest of the object, which the map keeps with it. */
  datatype FieldError = FieldError(message: Option<string>, rest: string)

  /** `error?.message`: an `undefined` error and an error without a message share the key `undefined`. */
  function Key(e: Option<FieldError>): Option<string> {
    if e.Some? then e.value.message else None
  }

  /** A JS `Map` as its entries in insertion order. */
  type ErrorMap = seq<(Option<string>, Option<FieldError>)>

  function MapKeys(m: ErrorMap): (r: seq<Option<string>>)
    ensures |r| == |m| && forall i :: 0 <= i < |m| ==> r[i] == m[i].0
  {
    if m == [] then [] else MapKeys(m[..|m| - 1]) + [m[|m| - 1].0]
  }

  /** `map.set(k, v)`: an existing key keeps its place and takes the new value; a new key goes last. */
  function MapSet(m: ErrorMap, k: Option<string>, v: Option<FieldError>): (r: ErrorMap)
    ensures k in MapKeys(m) ==> |r| == |m|
    ensures k !in MapKeys(m) ==> r == m + [(k, v)]
    ensures k in MapKeys(m) ==> forall i :: 0 <= i < |m| ==>
      r[i] == if m[i].0 == k then (k, v) else m[i]
  {
    if k in MapKeys(m) then seq(|m|, i requires 0 <= i < |m| => if m[i].0 == k then (k, v) else m[i])
    else m + [(k, v)]
  }

  /** `new Map(errors.map((error) => [error?.message, error]))`, one `set` per error in order. */
  function BuildMap(errors: seq<Option<FieldError>>): ErrorMap {
    if errors == [] then []
    else MapSet(BuildMap(errors[..|errors| - 1]), Key(errors[|errors| - 1]), errors[|errors| - 1])
  }

  function MapValues(m: ErrorMap): (r: seq<Option<FieldError>>)
    ensures |r| == |m| && forall i :: 0 <= i < |m| ==> r[i] == m[i].1
  {
    if m == [] then [] else MapValues(m[..|m| - 1]) + [m[|m| - 1].1]
  }

  /** `uniqueErrors()`: the map's values; absent errors give an empty map. */
  function UniqueErrors(errors: Option<seq<Option<FieldError>>>): (r: seq<Option<FieldError>>)
    ensures errors.None? ==> r == []
    ensures errors.Some? ==> r == Unique(errors.value)
  {
    if errors.None? then []
    else
      BuildMapIsUnique(errors.value);
      MapValues(BuildMap(errors.value))
  }

  // ---------------------------------------------------------------------------
  // The reference definition: keys by first occurrence, each with its last error

  /** The distinct keys of `errors`, in the order of their first occurrence. */
  function KeysInOrder(errors: seq<Option<FieldError>>): seq<Option<string>> {
    if errors == [] then []
    else
      var ks := KeysInOrder(errors[..|errors| - 1]);
      var k := Key(errors[|errors| - 1]);
      if k in ks then ks else ks + [k]
  }

  /** The last error with key `k` (`None` as well when there is none). */
  function LastWith(errors: seq<Option<FieldError>>, k: Option<string>): Option<FieldError> {
    if errors == [] then None
    else if Key(errors[|errors| - 1]) == k then errors[|errors| - 1]
    else LastWith(errors[..|errors| - 1], k)
  }

  function Unique(errors: seq<Option<FieldError>>): (r: seq<Option<FieldError>>)
    ensures |r| == |KeysInOrder(errors)|
  {
    var ks := KeysInOrder(errors);
    seq(|ks|, i requires 0 <= i < |ks| => LastWith(errors, ks[i]))
  }

  /** The index of the first error with key `k`, or `|errors|`. */
  function FirstWith(errors: seq<Option<FieldError>>, k: Option<string>): (r: nat)
    ensures r <= |errors|
    ensures r < |errors| ==> Key(errors[r]) == k
    ensures forall j :: 0 <= j < r ==> Key(errors[j]) != k
  {
    if errors == [] then 0
    else if Key(errors[0]) == k then 0
    else 1 + FirstWith(errors[1..], k)
  }

  /** `m` holds the reference entries of `errors`: each key by first occurrence, with its last error. */
  ghost predicate Represents(m: ErrorMap, errors: seq<Option<FieldError>>) {
    var ks := KeysInOrder(errors);
    |m| == |ks| && forall i :: 0 <= i < |m| ==> m[i] == (ks[i], LastWith(errors, ks[i]))
  }

  /** One `set` of the last error keeps a map of the reference entries of the prefix in step. */
  lemma MapSetStep(errors: seq<Option<FieldError>>, m: ErrorMap)
    requires errors != [] && Represents(m, errors[..|errors| - 1])
    ensures Represents(MapSet(m, Key(errors[|errors| - 1]), errors[|errors| - 1]), errors)
  {
    var prefix, e := errors[..|errors| - 1], errors[|errors| - 1];
    var ks := KeysInOrder(prefix);
    assert MapKeys(m) == ks;
    forall i | 0 <= i < |ks|
      ensures LastWith(errors, ks[i]) == if ks[i] == Key(e) then e else LastWith(prefix, ks[i])
    {
    }
  }

  lemma ValuesOfRepresents(m: ErrorMap, errors: seq<Option<FieldError>>)
    requires Represents(m, errors)
    ensures MapValues(m) == Unique(errors)
  {
  }

  /** The map built by `set` holds exactly the reference entries, in the reference order. */
  lemma {:induction false} BuildMapIsUnique(errors: seq<Option<FieldError>>)
    ensures Represents(BuildMap(errors), errors)
    ensures MapValues(BuildMap(errors)) == Unique(errors)
  {
    if errors != [] {
      BuildMapIsUnique(errors[..|errors| - 1]);
      MapSetStep(errors, BuildMap(errors[..|errors| - 1]));
    }
    ValuesOfRepresents(BuildMap(errors), errors);
  }

  // ---------------------------------------------------------------------------
  // Properties

  /** Every key occurs once, and the keys are exactly the messages of the errors. */
  lemma {:induction false} KeysInOrderDistinct(errors: seq<Option<FieldError>>)
    ensures forall i, j :: 0 <= i < j < |KeysInOrder(errors)| ==>
      KeysInOrder(errors)[i] != KeysInOrder(errors)[j]
    ensures forall k :: k in KeysInOrder(errors) <==> exists e :: e in errors && Key(e) == k
  {
    if errors != [] {
      var prefix := errors[..|errors| - 1];
      KeysInOrderDistinct(prefix);
      assert errors == prefix + [errors[|errors| - 1]];
    }
  }

  /** Keys appear in the order of their first occurrence among the errors. */
  lemma {:induction false} KeysByFirstOccurrence(errors: seq<Option<FieldError>>)
    ensures forall i :: 0 <= i < |KeysInOrder(errors)| ==>
      FirstWith(errors, KeysInOrder(errors)[i]) < |errors|
    ensures forall i, j :: 0 <= i < j < |KeysInOrder(errors)| ==>
      FirstWith(errors, KeysInOrder(errors)[i]) < FirstWith(errors, KeysInOrder(errors)[j])
  {
    if errors != [] {
      var prefix, e := errors[..|errors| - 1], errors[|errors| - 1];
      KeysByFirstOccurrence(prefix);
      var ks, all := KeysInOrder(prefix), KeysInOrder(errors);
      assert errors == prefix + [e];
      forall i | 0 <= i < |ks|
        ensures FirstWith(errors, ks[i]) == FirstWith(prefix, ks[i])
      {
        FirstWithPrefix(prefix, e, ks[i]);
      }
      if Key(e) !in ks {
        KeysInOrderDistinct(prefix);
        forall x | x in prefix
          ensures Key(x) != Key(e)
        {
          assert Key(x) in ks;
        }
        FirstWithMissing(prefix, Key(e));
        FirstWithPrefix(prefix, e, Key(e));
        assert all == ks + [Key(e)];
        forall i | 0 <= i < |all|
          ensures FirstWith(errors, all[i]) < |errors|
          ensures i < |ks| ==> FirstWith(errors, all[i]) < |prefix|
          ensures i == |ks| ==> FirstWith(errors, all[i]) == |prefix|
        {
        }
      } else {
        assert all == ks;
      }
    }
  }

  lemma FirstWithMissing(errors: seq<Option<FieldError>>, k: Option<string>)
    requires forall x :: x in errors ==> Key(x) != k
    ensures FirstWith(errors, k) == |errors|
  {
  }

  lemma {:induction false} FirstWithPrefix(prefix: seq<Option<FieldError>>, e: Option<FieldError>,
                                           k: Option<string>)
    ensures FirstWith(prefix + [e], k)
      == if FirstWith(prefix, k) < |prefix| then FirstWith(prefix, k)
         else if Key(e) == k then |prefix| else |prefix| + 1
  {
    if prefix != [] {
      assert (prefix + [e])[1..] == prefix[1..] + [e];
      FirstWithPrefix(prefix[1..], e, k);
    }
  }

  /** The index of the last error with key `k`, or -1. */
  function LastIndex(errors: seq<Option<FieldError>>, k: Option<string>): (r: int)
    ensures -1 <= r < |errors|
    ensures r >= 0 ==> Key(errors[r]) == k
    ensures forall j :: r < j < |errors| ==> Key(errors[j]) != k
  {
    if errors == [] then -1
    else if Key(errors[|errors| - 1]) == k then |errors| - 1
    else LastIndex(errors[..|errors| - 1], k)
  }

  /** The error kept for a key is the last one with that key: no later error shares it. */
  lemma {:induction false} LastWins(errors: seq<Option<FieldError>>, k: Option<string>)
    requires exists e :: e in errors && Key(e) == k
    ensures 0 <= LastIndex(errors, k) && errors[LastIndex(errors, k)] == LastWith(errors, k)
    ensures Key(LastWith(errors, k)) == k
  {
    var prefix, e := errors[..|errors| - 1], errors[|errors| - 1];
    if Key(e) != k {
      assert exists x :: x in prefix && Key(x) == k by {
        var x :| x in errors && Key(x) == k;
        assert errors == prefix + [e];
      }
      LastWins(prefix, k);
    }
  }

  /** No two unique errors share a message, and every message of the input has its entry. */
  lemma UniqueByMessage(errors: seq<Option<FieldError>>)
    ensures forall i, j :: 0 <= i < j < |Unique(errors)| ==>
      Key(Unique(errors)[i]) != Key(Unique(errors)[j])
    ensures forall e :: e in errors ==> exists i :: 0 <= i < |Unique(errors)| && Key(Unique(errors)[i]) == Key(e)
    ensures 0 < |errors| <==> 0 < |Unique(errors)|
  {
    KeysInOrderDistinct(errors);
    var ks := KeysInOrder(errors);
    forall i | 0 <= i < |ks|
      ensures Key(Unique(errors)[i]) == ks[i]
    {
      assert ks[i] in ks;
      LastWins(errors, ks[i]);
    }
    forall e | e in errors
      ensures exists i :: 0 <= i < |Unique(errors)| && Key(Unique(errors)[i]) == Key(e)
    {
      assert Key(e) in ks;
      var i :| 0 <= i < |ks| && ks[i] == Key(e);
      assert Key(Unique(errors)[i]) == Key(e);
    }
    if 0 < |errors| {
      assert Key(errors[0]) in ks;
    }
  }

  // ---------------------------------------------------------------------------
  // The message area

  datatype ErrorView =
    | ShowChildren(children: string)
    | ShowNothing
    | ShowMessage(message: Option<string>)
    | ShowList(messages: seq<Option<string>>)

  function Messages(unique: seq<Option<FieldError>>): (r: seq<Option<string>>)
    ensures |r| == |unique| && forall i :: 0 <= i < |unique| ==> r[i] == Key(unique[i])
  {
    seq(|unique|, i requires 0 <= i < |unique| => Key(unique[i]))
  }

  /** The `Switch`: truthy children first, then no errors, then one unique error, else the list. */
  function Display(children: Option<string>, errors: Option<seq<Option<FieldError>>>): ErrorView {
    var unique := UniqueErrors(errors);
    if children.Some? && children.value != "" then ShowChildren(children.value)
    else if errors.None? || |errors.value| == 0 then ShowNothing
    else if |unique| == 1 then ShowMessage(Key(unique[0]))
    else ShowList(Messages(unique))
  }

  /**
   * Children win; without them, no errors show nothing, a single message shows alone,
   * and the list appears only for two or more distinct messages, each listed once.
   */
  lemma DisplayRules(children: Option<string>, errors: Option<seq<Option<FieldError>>>)
    ensures children.Some? && children.value != "" ==> Display(children, errors) == ShowChildren(children.value)
    ensures (children.None? || children.value == "") && (errors.None? || errors.value == []) ==>
      Display(children, errors) == ShowNothing
    ensures Display(children, errors).ShowMessage? ==>
      errors.Some? && |KeysInOrder(errors.value)| == 1
      && Display(children, errors).message == KeysInOrder(errors.value)[0]
    ensures Display(children, errors).ShowList? ==>
      errors.Some? && |Display(children, errors).messages| >= 2
      && Display(children, errors).messages == KeysInOrder(errors.value)
  {
    if errors.Some? {
      UniqueByMessage(errors.value);
      var ks := KeysInOrder(errors.value);
      KeysInOrderDistinct(errors.value);
      forall i | 0 <= i < |ks|
        ensures Key(Unique(errors.value)[i]) == ks[i]
      {
        assert ks[i] in ks;
        LastWins(errors.value, ks[i]);
      }
    }
  }

  /** Two errors with the same message show that message once; the later error is the one kept. */
  lemma SameMessageOnce(m: string, a: string, b: string)
    ensures var errors := [Some(FieldError(Some(m), a)), Some(FieldError(Some(m), b))];
      UniqueErrors(Some(errors)) == [Some(FieldError(Some(m), b))]
      && Display(None, Some(errors)) == ShowMessage(Some(m))
  {
    var errors := [Some(FieldError(Some(m), a)), Some(FieldError(Some(m), b))];
    assert errors[..1] == [errors[0]];
    assert errors[..1][..0] == [];
    assert KeysInOrder(errors[..1]) == [Some(m)];
    assert KeysInOrder(errors) == [Some(m)];
  }
}
