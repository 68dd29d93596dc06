/** The entities of the spreadsheet component: a cell holding one string, and a sheet holding an
    id, a display name and a grid of cells indexed by row, then column. */
module Grid {

  /** Rows and columns of every sheet the component creates. */
  const ROWS: nat := 50
  const COLS: nat := 80

  datatype Cell = Cell(value: string)

  datatype Sheet = Sheet(id: string, name: string, data: seq<seq<Cell>>)

  /** The fixed rectangular shape every sheet is created with. */
  predicate WellShaped(g: seq<seq<Cell>>) {
    |g| == ROWS && forall r :: 0 <= r < |g| ==> |g[r]| == COLS
  }

  /** Every cell of the grid holds the empty string. */
  predicate Blank(g: seq<seq<Cell>>) {
    forall r, c :: 0 <= r < |g| && 0 <= c < |g[r]| ==> g[r][c].value == ""
  }

  /** Row `row`, column `col` is a cell of the grid. */
  predicate InRange(g: seq<seq<Cell>>, row: int, col: int) {
    0 <= row < |g| && 0 <= col < |g[row]|
  }

  /** `after` is `before` with the one cell at (`row`, `col`) set to `v` when that cell exists:
      the same shape, the new value there, every other cell as it was. */
  predicate CellWritten(before: seq<seq<Cell>>, after: seq<seq<Cell>>, row: int, col: int, v: string) {
    && |after| == |before|
    && (forall r :: 0 <= r < |before| ==> |after[r]| == |before[r]|)
    && (forall r, c :: 0 <= r < |before| && 0 <= c < |before[r]| && (r != row || c != col) ==>
          after[r][c] == before[r][c])
    && (InRange(before, row, col) ==> after[row][col] == Cell(v))
  }

  /** A new sheet: the given id and name over a ROWS by COLS grid of empty cells. */
  function CreateEmptySheet(id: string, name: string): (s: Sheet)
    ensures s.id == id && s.name == name
    ensures WellShaped(s.data)
    ensures Blank(s.data)
  {
    Sheet(id, name, seq(ROWS, _ => seq(COLS, _ => Cell(""))))
  }

  /** The grid after an edit of one cell: the row whose index is `row` is rebuilt with the cell whose
      index is `col` replaced; every other row is kept. An index outside the grid matches nothing. */
  function SetCell(g: seq<seq<Cell>>, row: int, col: int, v: string): (g': seq<seq<Cell>>)
    ensures CellWritten(g, g', row, col, v)
  {
    seq(|g|, r requires 0 <= r < |g| =>
      if r == row then seq(|g[r]|, c requires 0 <= c < |g[r]| => if c == col then Cell(v) else g[r][c])
      else g[r])
  }

  /** An edit keeps the sheet's shape. */
  lemma SetCellWellShaped(g: seq<seq<Cell>>, row: int, col: int, v: string)
    requires WellShaped(g)
    ensures WellShaped(SetCell(g, row, col, v))
  {
  }

  /** An edit of a cell outside the grid changes nothing. */
  lemma SetCellOutOfRange(g: seq<seq<Cell>>, row: int, col: int, v: string)
    requires !InRange(g, row, col)
    ensures SetCell(g, row, col, v) == g
  {
    var g' := SetCell(g, row, col, v);
    forall r | 0 <= r < |g|
      ensures g'[r] == g[r]
    {
      assert |g'[r]| == |g[r]|;
    }
  }

  /** Writing the value a cell already holds changes nothing. */
  lemma SetCellSameValue(g: seq<seq<Cell>>, row: int, col: int)
    requires InRange(g, row, col)
    ensures SetCell(g, row, col, g[row][col].value) == g
  {
    var g' := SetCell(g, row, col, g[row][col].value);
    forall r | 0 <= r < |g|
      ensures g'[r] == g[r]
    {
      assert |g'[r]| == |g[r]|;
    }
  }

  /** A second edit of the same cell overrides the first. */
  lemma SetCellOverwrite(g: seq<seq<Cell>>, row: int, col: int, v: string, w: string)
    ensures SetCell(SetCell(g, row, col, v), row, col, w) == SetCell(g, row, col, w)
  {
    var a := SetCell(SetCell(g, row, col, v), row, col, w);
    var b := SetCell(g, row, col, w);
    forall r | 0 <= r < |g|
      ensures a[r] == b[r]
    {
      assert |a[r]| == |b[r]|;
    }
  }
}
