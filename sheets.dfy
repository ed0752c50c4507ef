/**
 * One sheet of the uploaded workbook, read without a header: the course
 * code taken from the sheet name and the tracking IDs taken from a fixed
 * region of its cells.
 */
module Sheets {
  import opened Wrappers
  import opened Text

  /**
   * A cell as the reader delivers it. `Empty` holds no value (or an empty
   * string); the reader drops such cells at the end of a row, so on their own
   * they never make a column exist. `ReadAsNaN` is a cell the reader keeps
   * and pandas then reads as NaN: text such as `NA`, `N/A` or `null`, or an
   * error value such as `#N/A`. `Filled` is any other cell, as text.
   */
  datatype Cell = Empty | ReadAsNaN | Filled(value: string)

  datatype Sheet = Sheet(name: string, rows: seq<seq<Cell>>)

  /** Tracking IDs sit in column B (index 1) ... */
  const TrackingColumn: nat := 1
  /** ... from the fourth row (index 3) down. */
  const FirstTrackingRow: nat := 3

  /**
   * The course code of a sheet: `name.split("_")[-1]` when the name has an
   * underscore, otherwise the whole name.
   */
  function CourseFromSheetName(name: string): (code: string)
    ensures '_' !in name ==> code == name
    ensures '_' in name ==>
      && '_' !in code
      && |code| < |name|
      && name[|name| - |code|..] == code
      && name[|name| - |code| - 1] == '_'
  {
    if '_' in name then
      var parts := Split(name, '_');
      SplitLast(name, '_');
      SplitSpec(name, '_');
      parts[|parts| - 1]
    else name
  }

  /** The course code is exactly the text after the last underscore. */
  lemma CourseAfterLastUnderscore(name: string, k: nat)
    requires k < |name| && name[k] == '_' && '_' !in name[k + 1..]
    ensures CourseFromSheetName(name) == name[k + 1..]
  {
  }

  /** The cell at column `c` of a row; rows shorter than the frame are padded with empty cells. */
  function CellAt(row: seq<Cell>, c: nat): Cell {
    if c < |row| then row[c] else Empty
  }

  /** The frame read from the rows has a column with index `c` when some row has a non-empty cell there or further right. */
  predicate HasColumn(rows: seq<seq<Cell>>, c: nat) {
    exists k, j :: 0 <= k < |rows| && c <= j < |rows[k]| && !rows[k][j].Empty?
  }

  /** `iloc[from:, c]`: column `c` of the rows from index `from` on (nothing when there are fewer rows). */
  function ColumnFrom(rows: seq<seq<Cell>>, c: nat, from: nat): (col: seq<Cell>)
    ensures |col| == if |rows| <= from then 0 else |rows| - from
    ensures forall k :: 0 <= k < |col| ==> col[k] == CellAt(rows[from + k], c)
  {
    if |rows| <= from then []
    else seq(|rows| - from, k requires 0 <= k < |rows| - from => CellAt(rows[from + k], c))
  }

  /** `dropna()` on a column: the values of its filled cells, in order. */
  function Present(cells: seq<Cell>): (r: seq<string>)
    ensures |r| <= |cells|
    ensures forall v :: v in r <==> Filled(v) in cells
    decreases |cells|
  {
    if cells == [] then []
    else
      var front := Present(cells[..|cells| - 1]);
      assert cells == cells[..|cells| - 1] + [cells[|cells| - 1]];
      match cells[|cells| - 1]
      case Filled(v) => front + [v]
      case _ => front
  }

  /** The positions of the filled cells, in increasing order. */
  function PresentPositions(cells: seq<Cell>): (ps: seq<nat>)
    ensures forall k :: 0 <= k < |ps| ==> ps[k] < |cells| && cells[ps[k]].Filled?
    ensures forall i, j :: 0 <= i < j < |ps| ==> ps[i] < ps[j]
    ensures forall p :: 0 <= p < |cells| && cells[p].Filled? ==> p in ps
    decreases |cells|
  {
    if cells == [] then []
    else
      var front := PresentPositions(cells[..|cells| - 1]);
      if cells[|cells| - 1].Filled? then front + [|cells| - 1] else front
  }

  /**
   * `dropna()` keeps exactly the filled cells, in their order: the k-th
   * value is the cell at the k-th filled position.
   */
  lemma {:induction false} PresentInOrder(cells: seq<Cell>)
    ensures var r, ps := Present(cells), PresentPositions(cells);
      |r| == |ps| && forall k :: 0 <= k < |r| ==> cells[ps[k]] == Filled(r[k])
    decreases |cells|
  {
    if cells != [] {
      var front := cells[..|cells| - 1];
      PresentInOrder(front);
      InOrderStep(cells, Present(front), PresentPositions(front), Present(cells), PresentPositions(cells));
    }
  }

  /** The step of `PresentInOrder`: one more cell keeps values and positions in step. */
  lemma InOrderStep(cells: seq<Cell>, rf: seq<string>, pf: seq<nat>, r: seq<string>, ps: seq<nat>)
    requires cells != []
    requires |rf| == |pf| && forall k :: 0 <= k < |rf| ==> pf[k] < |cells| - 1 && cells[..|cells| - 1][pf[k]] == Filled(rf[k])
    requires var last := cells[|cells| - 1];
      && r == (if last.Filled? then rf + [last.value] else rf)
      && ps == (if last.Filled? then pf + [|cells| - 1] else pf)
    ensures |r| == |ps| && forall k :: 0 <= k < |r| ==> cells[ps[k]] == Filled(r[k])
  {
    forall k | 0 <= k < |r| ensures cells[ps[k]] == Filled(r[k]) {
      if k < |rf| {
        assert ps[k] == pf[k] && r[k] == rf[k];
      }
    }
  }

  /**
   * `extract_tracking_ids`: `iloc[3:, 1].dropna()`. The column index is out
   * of range, and pandas raises, when no row has a non-empty cell in column B
   * or further right; that case is `None`.
   */
  function ExtractTrackingIds(rows: seq<seq<Cell>>): (ids: Option<seq<string>>)
    ensures ids.None? <==> !HasColumn(rows, TrackingColumn)
  {
    if HasColumn(rows, TrackingColumn) then Some(Present(ColumnFrom(rows, TrackingColumn, FirstTrackingRow)))
    else None
  }

  /**
   * The extracted IDs are exactly the values of the filled cells of column B
   * from row index 3 on; a sheet of at most three rows yields none.
   */
  lemma ExtractionSpec(rows: seq<seq<Cell>>)
    requires HasColumn(rows, TrackingColumn)
    ensures forall id :: id in ExtractTrackingIds(rows).value <==>
      exists k :: FirstTrackingRow <= k < |rows| && CellAt(rows[k], TrackingColumn) == Filled(id)
    ensures |rows| <= FirstTrackingRow ==> ExtractTrackingIds(rows).value == []
  {
    var col := ColumnFrom(rows, TrackingColumn, FirstTrackingRow);
    forall id ensures Filled(id) in col ==>
      exists k :: FirstTrackingRow <= k < |rows| && CellAt(rows[k], TrackingColumn) == Filled(id) {
      if Filled(id) in col {
        var i :| 0 <= i < |col| && col[i] == Filled(id);
        assert CellAt(rows[FirstTrackingRow + i], TrackingColumn) == Filled(id);
      }
    }
    forall id, k | FirstTrackingRow <= k < |rows| && CellAt(rows[k], TrackingColumn) == Filled(id)
      ensures Filled(id) in col {
      assert col[k - FirstTrackingRow] == Filled(id);
    }
  }

  /**
   * The extracted IDs are the filled cells of column B from row index 3 on,
   * in row order: the k-th ID comes from row `3 + p` where `p` is the k-th
   * filled position of that column.
   */
  lemma ExtractionInRowOrder(rows: seq<seq<Cell>>)
    requires HasColumn(rows, TrackingColumn)
    ensures var col := ColumnFrom(rows, TrackingColumn, FirstTrackingRow);
      var ids, ps := ExtractTrackingIds(rows).value, PresentPositions(col);
      && |ids| == |ps|
      && (forall k :: 0 <= k < |ids| ==>
            FirstTrackingRow + ps[k] < |rows| && CellAt(rows[FirstTrackingRow + ps[k]], TrackingColumn) == Filled(ids[k]))
      && (forall i, j :: 0 <= i < j < |ps| ==> ps[i] < ps[j])
  {
    PresentInOrder(ColumnFrom(rows, TrackingColumn, FirstTrackingRow));
  }

  /**
   * A column B that holds only cells read as NaN still exists: extraction
   * succeeds and yields no IDs.
   */
  lemma NaNColumnKept(rows: seq<seq<Cell>>)
    requires rows == [[Filled("ROUTE"), ReadAsNaN]]
    ensures HasColumn(rows, TrackingColumn) && ExtractTrackingIds(rows) == Some([])
  {
    assert !rows[0][TrackingColumn].Empty?;
  }
}
