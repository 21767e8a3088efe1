/**
 * The two-dimensional cell grid shared by both copies of the grid slice:
 * positions, cells, the shape invariant, and the row and column resizing
 * that both copies perform identically.
 */
module Board {
  import opened Js

  /** A `{ row, col }` position. */
  datatype Tile = Tile(row: int, col: int)

  /** A `{ row, col, state }` cell, generic in the enum of states. */
  datatype Cell<S> = Cell(row: int, col: int, state: S)

  type Grid<S> = seq<seq<Cell<S>>>

  function At<S>(c: Cell<S>): Tile {
    Tile(c.row, c.col)
  }

  /** `grid[t.row][t.col]` is defined. */
  predicate InBounds<S>(grid: Grid<S>, t: Tile) {
    0 <= t.row < |grid| && 0 <= t.col < |grid[t.row]|
  }

  /**
   * The shape the stores keep: `rows` rows of `columns` cells each, and the
   * cell stored at `[i][j]` records row `i` and column `j`.
   */
  ghost predicate WellFormed<S>(cells: Grid<S>, rows: int, columns: int) {
    && |cells| == rows
    && 0 <= columns
    && (forall i :: 0 <= i < |cells| ==> |cells[i]| == columns)
    && (forall i, j :: 0 <= i < |cells| && 0 <= j < |cells[i]| ==> At(cells[i][j]) == Tile(i, j))
  }

  /** The same grid shape, row for row. */
  ghost predicate SameShape<S, T>(a: Grid<S>, b: Grid<T>) {
    |a| == |b| && forall i :: 0 <= i < |a| ==> |a[i]| == |b[i]|
  }

  /** `cells[t.row][t.col].state = st`: a TypeError when there is no such cell. */
  function Write<S>(cells: Grid<S>, t: Tile, st: S): (r: Result<Grid<S>>)
    ensures r.Ok? <==> InBounds(cells, t)
    ensures r.Ok? ==> SameShape(cells, r.value)
    ensures r.Ok? ==> r.value[t.row][t.col] == cells[t.row][t.col].(state := st)
    ensures r.Ok? ==> forall i, j :: 0 <= i < |cells| && 0 <= j < |cells[i]| && Tile(i, j) != t ==>
                        r.value[i][j] == cells[i][j]
  {
    if InBounds(cells, t) then Ok(cells[t.row := cells[t.row][t.col := cells[t.row][t.col].(state := st)]])
    else TypeError
  }

  /** `rows` x `columns` cells, all in state `empty`, each recording its own position. */
  function Blank<S>(rows: nat, columns: nat, empty: S): (cells: Grid<S>)
    ensures WellFormed(cells, rows, columns)
    ensures forall i, j :: 0 <= i < rows && 0 <= j < columns ==> cells[i][j].state == empty
  {
    seq(rows, i => Fresh(i, 0, columns, empty))
  }

  /** `Array.from({length: count}, (_, k) => ({ row, col: from + k, state: empty }))`. */
  function Fresh<S>(row: int, from: int, count: int, empty: S): (r: seq<Cell<S>>)
    ensures |r| == Length(count)
    ensures forall k :: 0 <= k < |r| ==> r[k] == Cell(row, from + k, empty)
  {
    seq(Length(count), k => Cell(row, from + k, empty))
  }

  /**
   * One row of `setNumberOfColumns`: growing appends cells labelled with the
   * row of the row's first cell, which throws when the row is empty; otherwise
   * the row is cut with `slice(0, n)`.
   */
  function ResizeRow<S>(row: seq<Cell<S>>, columns: int, n: int, empty: S): Result<seq<Cell<S>>> {
    if n > columns then
      if |row| == 0 then TypeError else Ok(row + Fresh(row[0].row, columns, n - columns, empty))
    else
      Ok(Slice(row, n))
  }

  /** Growing columns throws exactly when some row has no first cell to read the row index from. */
  predicate GrowThrows<S>(cells: Grid<S>, columns: int, n: int) {
    n > columns && exists i :: 0 <= i < |cells| && |cells[i]| == 0
  }

  /** `cells.map(row => ...)` for `setNumberOfColumns`; a throwing row aborts the whole map. */
  function ResizeColumns<S>(cells: Grid<S>, columns: int, n: int, empty: S): (r: Result<Grid<S>>)
    ensures r.TypeError? <==> GrowThrows(cells, columns, n)
    ensures r.Ok? ==> |r.value| == |cells|
    ensures r.Ok? ==> forall i :: 0 <= i < |cells| ==> Ok(r.value[i]) == ResizeRow(cells[i], columns, n, empty)
  {
    if GrowThrows(cells, columns, n) then TypeError
    else Ok(seq(|cells|, i requires 0 <= i < |cells| => ResizeRow(cells[i], columns, n, empty).value))
  }

  /**
   * `setNumberOfColumns` as evidently intended: appended cells take the row
   * index from the row's position, so an empty row can grow too.
   */
  function ResizeColumnsIntended<S>(cells: Grid<S>, columns: int, n: int, empty: S): (r: Grid<S>)
    ensures |r| == |cells|
  {
    seq(|cells|, i requires 0 <= i < |cells| =>
      if n > columns then cells[i] + Fresh(i, columns, n - columns, empty) else Slice(cells[i], n))
  }

  /** `setNumberOfRows`: append fresh rows `rows..n-1` of `columns` cells, or keep `slice(0, n)`. */
  function ResizeRows<S>(cells: Grid<S>, rows: int, columns: int, n: int, empty: S): Grid<S> {
    if n > rows then cells + seq(n - rows, k => Fresh(rows + k, 0, columns, empty))
    else Slice(cells, n)
  }

  /**
   * Resizing the columns of a well-formed grid to `n >= 0` keeps the common
   * cells, fills new columns with `empty`, and yields `rows x n`; it fails
   * only when growing a grid whose rows are empty.
   */
  lemma ResizeColumnsWellFormed<S>(cells: Grid<S>, rows: int, columns: int, n: int, empty: S)
    requires WellFormed(cells, rows, columns) && 0 <= n
    ensures ResizeColumns(cells, columns, n, empty).TypeError? <==> n > columns && columns == 0 && 0 < rows
    ensures ResizeColumns(cells, columns, n, empty).Ok? ==>
              var r := ResizeColumns(cells, columns, n, empty).value;
              && WellFormed(r, rows, n)
              && (forall i, j :: 0 <= i < rows && 0 <= j < Min(columns, n) ==> r[i][j] == cells[i][j])
              && (forall i, j :: 0 <= i < rows && columns <= j < n ==> r[i][j].state == empty)
  {
    if n > columns && columns == 0 && 0 < rows {
      assert |cells[0]| == 0;
    }
    if GrowThrows(cells, columns, n) {
      var i :| 0 <= i < |cells| && |cells[i]| == 0;
      assert columns == 0 && 0 < rows;
    } else {
      var r := ResizeColumns(cells, columns, n, empty).value;
      forall i | 0 <= i < rows
        ensures |r[i]| == n
        ensures forall j :: 0 <= j < n ==> At(r[i][j]) == Tile(i, j)
        ensures forall j :: 0 <= j < Min(columns, n) ==> r[i][j] == cells[i][j]
        ensures forall j :: columns <= j < n ==> r[i][j].state == empty
      {
        assert Ok(r[i]) == ResizeRow(cells[i], columns, n, empty);
        if n > columns {
          assert |cells[i]| > 0;
          assert cells[i][0].row == i;
        } else {
          SliceNonNegative(cells[i], n);
        }
      }
    }
  }

  /**
   * The intended column resize never fails on a well-formed grid, yields
   * `rows x n` with the common cells kept and Empty new columns, and agrees
   * with `ResizeColumns` whenever that one does not throw.
   */
  lemma ResizeColumnsIntendedWellFormed<S>(cells: Grid<S>, rows: int, columns: int, n: int, empty: S)
    requires WellFormed(cells, rows, columns) && 0 <= n
    ensures var r := ResizeColumnsIntended(cells, columns, n, empty);
            && WellFormed(r, rows, n)
            && (forall i, j :: 0 <= i < rows && 0 <= j < Min(columns, n) ==> r[i][j] == cells[i][j])
            && (forall i, j :: 0 <= i < rows && columns <= j < n ==> r[i][j].state == empty)
    ensures ResizeColumns(cells, columns, n, empty).Ok? ==>
              ResizeColumns(cells, columns, n, empty).value == ResizeColumnsIntended(cells, columns, n, empty)
  {
    var r := ResizeColumnsIntended(cells, columns, n, empty);
    forall i | 0 <= i < rows
      ensures |r[i]| == n
      ensures forall j :: 0 <= j < n ==> At(r[i][j]) == Tile(i, j)
      ensures forall j :: 0 <= j < Min(columns, n) ==> r[i][j] == cells[i][j]
      ensures forall j :: columns <= j < n ==> r[i][j].state == empty
    {
      if n <= columns {
        SliceNonNegative(cells[i], n);
      }
    }
    if ResizeColumns(cells, columns, n, empty).Ok? {
      var w := ResizeColumns(cells, columns, n, empty).value;
      forall i | 0 <= i < rows
        ensures w[i] == r[i]
      {
        assert Ok(w[i]) == ResizeRow(cells[i], columns, n, empty);
        if n > columns {
          assert |cells[i]| > 0 && cells[i][0].row == i;
        }
      }
    }
  }

  /** Resizing the rows of a well-formed grid to `n >= 0` yields `n x columns`, keeping the common rows. */
  lemma ResizeRowsWellFormed<S>(cells: Grid<S>, rows: int, columns: int, n: int, empty: S)
    requires WellFormed(cells, rows, columns) && 0 <= n
    ensures var r := ResizeRows(cells, rows, columns, n, empty);
            && WellFormed(r, n, columns)
            && (forall i :: 0 <= i < Min(rows, n) ==> r[i] == cells[i])
            && (forall i, j :: rows <= i < n && 0 <= j < columns ==> r[i][j].state == empty)
  {
    var r := ResizeRows(cells, rows, columns, n, empty);
    if n <= rows {
      SliceNonNegative(cells, n);
    } else {
      var added := seq(n - rows, k => Fresh(rows + k, 0, columns, empty));
      assert r == cells + added;
      forall i | rows <= i < n
        ensures r[i] == Fresh(i, 0, columns, empty)
      {
        assert r[i] == added[i - rows];
      }
    }
  }
}
