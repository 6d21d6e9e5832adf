/** Tables as the scripts see them through pandas: rows of cells, selection by column name, and row masks. */
module Frames {
  import opened Wrappers

  /** A CSV cell as pandas reads it: a string, or missing (`NaN`). */
  type Cell = Option<string>

  /** `.astype(str)` on one cell: a missing value becomes "nan". */
  function AsStr(c: Cell): (s: string)
    ensures c.Some? ==> s == c.value
    ensures c.None? ==> s == "nan"
  {
    match c
    case Some(v) => v
    case None => "nan"
  }

  /** The first position of `name` in `names`, or `|names|` when it is absent. */
  function IndexOf(names: seq<string>, name: string): (i: nat)
    ensures i <= |names|
    ensures i < |names| <==> name in names
    ensures i < |names| ==> names[i] == name
    ensures forall k :: 0 <= k < i ==> names[k] != name
  {
    if names == [] then 0
    else if names[0] == name then 0
    else 1 + IndexOf(names[1..], name)
  }

  /** The cell of `row` in column `j`; a missing one when the row is too short. */
  function CellAt(row: seq<Cell>, j: nat): Cell
  {
    if j < |row| then row[j] else None
  }

  /** `df[mask]`: the rows for which `keep` holds, in their original order. */
  function Filter<T>(rows: seq<T>, keep: T -> bool): (kept: seq<T>)
    ensures |kept| <= |rows|
    ensures forall k :: 0 <= k < |kept| ==> keep(kept[k])
  {
    if rows == [] then []
    else
      var last := rows[|rows| - 1];
      Filter(rows[..|rows| - 1], keep) + (if keep(last) then [last] else [])
  }

  /** Every kept row is a row of the input. */
  lemma {:induction false} FilterSound<T>(rows: seq<T>, keep: T -> bool, row: T)
    requires row in Filter(rows, keep)
    ensures row in rows
  {
    var init := rows[..|rows| - 1];
    if row != rows[|rows| - 1] {
      FilterSound(init, keep, row);
    }
  }

  /** Every row the mask selects is kept. */
  lemma {:induction false} FilterComplete<T>(rows: seq<T>, keep: T -> bool, row: T)
    requires row in rows && keep(row)
    ensures row in Filter(rows, keep)
  {
    var init := rows[..|rows| - 1];
    if row != rows[|rows| - 1] {
      assert row in init;
      FilterComplete(init, keep, row);
    }
  }

  /** Filtering one more row appends it exactly when the mask selects it. */
  lemma FilterStep<T>(rows: seq<T>, keep: T -> bool, i: nat)
    requires i < |rows|
    ensures Filter(rows[..i + 1], keep) == Filter(rows[..i], keep) + (if keep(rows[i]) then [rows[i]] else [])
  {
    assert rows[..i + 1][..i] == rows[..i];
  }
}
