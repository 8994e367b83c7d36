/**
 * src/components/data-table.tsx: the body of the suppliers table. A cell whose text
 * contains 'No' is shown as a cross, else one containing 'Yes' as a check mark, else as
 * it is; a table without rows shows one fallback row across every column.
 */
module DataTable {
  import opened JsStrings

  const CrossMark := "❌"
  const CheckMark := "✅"
  const NoResults := "Aucun résultat à afficher."

  /**
   * What a cell shows, given `flexRender(...)?.toString()`: `None` stands for a render
   * that is `null` or `undefined`, where the optional chain gives `undefined` and the
   * value is shown as rendered.
   */
  function CellDisplay(rendered: Option<string>): (shown: Option<string>)
    ensures rendered.Some? && Contains(rendered.value, "No") ==> shown == Some(CrossMark)
    ensures rendered.Some? && !Contains(rendered.value, "No") && Contains(rendered.value, "Yes") ==>
      shown == Some(CheckMark)
    ensures rendered.None? || (!Contains(rendered.value, "No") && !Contains(rendered.value, "Yes")) ==>
      shown == rendered
  {
    if rendered.Some? && Contains(rendered.value, "No") then Some(CrossMark)
    else if rendered.Some? && Contains(rendered.value, "Yes") then Some(CheckMark)
    else rendered
  }

  datatype Body =
    | FallbackRow(colSpan: nat, text: string)
    | RowsView(rows: seq<seq<Option<string>>>)

  /**
   * The table body for the column count and `props.data()` (each row as its cells'
   * rendered text): `data() || []` turns a missing list into no rows. Sorting and the
   * supplier filter are left to the table library and not applied here.
   */
  function TableBody(columnCount: nat, data: Option<seq<seq<Option<string>>>>): (b: Body)
    ensures data.None? || data.value == [] ==> b == FallbackRow(columnCount, NoResults)
    ensures data.Some? && data.value != [] ==>
      b.RowsView? && |b.rows| == |data.value|
      && forall i :: 0 <= i < |data.value| ==>
        |b.rows[i]| == |data.value[i]|
        && forall j :: 0 <= j < |data.value[i]| ==> b.rows[i][j] == CellDisplay(data.value[i][j])
  {
    var rows := data.GetOr([]);
    if |rows| == 0 then FallbackRow(columnCount, NoResults)
    else RowsView(seq(|rows|, i requires 0 <= i < |rows| =>
                    seq(|rows[i]|, j requires 0 <= j < |rows[i]| => CellDisplay(rows[i][j]))))
  }

  // ---------------------------------------------------------------------------
  // Properties

  /**
   * The marks depend on case-sensitive substrings, not words: 'No' anywhere inside a text
   * (as in 'November') gives a cross, and a text without a capital 'N' or 'Y' (such as
   * 'no') is shown as it is.
   */
  lemma SubstringNotWord(a: string, b: string, t: string)
    ensures CellDisplay(Some(a + "No" + b)) == Some(CrossMark)
    ensures 'N' !in t && 'Y' !in t ==> CellDisplay(Some(t)) == Some(t)
  {
    var s := a + "No" + b;
    assert s[|a|..|a| + 2] == "No";
    assert OccursAt(s, "No", |a|);
    if 'N' !in t && 'Y' !in t {
      forall i: nat | i <= |t|
        ensures !OccursAt(t, "No", i) && !OccursAt(t, "Yes", i)
      {
        LetterAbsent(t, "No", i);
        LetterAbsent(t, "Yes", i);
      }
    }
  }

  /** A text without the first letter of `sub` has no occurrence of it. */
  lemma LetterAbsent(t: string, sub: string, i: nat)
    requires sub != [] && sub[0] !in t
    ensures !OccursAt(t, sub, i)
  {
    if i + |sub| <= |t| {
      assert t[i..i + |sub|][0] == t[i];
    }
  }

  /** 'No' is tested first: a text with both words is a cross. */
  lemma NoBeforeYes(a: string, b: string, c: string)
    ensures CellDisplay(Some(a + "No" + b + "Yes" + c)) == Some(CrossMark)
    ensures CellDisplay(Some(a + "Yes" + b + "No" + c)) == Some(CrossMark)
  {
    var s1, s2 := a + "No" + b + "Yes" + c, a + "Yes" + b + "No" + c;
    assert s1[|a|..|a| + 2] == "No";
    assert OccursAt(s1, "No", |a|);
    assert s2[|a| + 3 + |b|..|a| + 3 + |b| + 2] == "No";
    assert OccursAt(s2, "No", |a| + 3 + |b|);
  }

  /** A shown cell is one of the two marks or the rendered text itself. */
  lemma ShownIsMarkOrText(rendered: Option<string>)
    ensures CellDisplay(rendered) in {Some(CrossMark), Some(CheckMark), rendered}
  {
  }
}
