/**
 * The grid slice of `src/grid/grid-slice.ts`: a rectangular grid of cells
 * plus the tracked start, end and obstacle tiles and the last search
 * result. Each store action is a pure `State -> State` update; an action
 * whose callback throws yields `TypeError` (the store keeps its old state).
 */
module GridSlice {
  import opened Js
  import opened Board
  import opened Enums
  import opened AStarNodes

  datatype State = State(
    cells: Grid<CellState>,
    rows: int,
    columns: int,
    startTile: Option<Tile>,
    endTile: Option<Tile>,
    obstacleTiles: seq<Tile>,
    path: seq<Node>,
    visitedNodes: seq<Node>)

  /** Some cell of the grid is in state `st`. */
  ghost predicate HasState(cells: Grid<CellState>, st: CellState) {
    exists i, j :: 0 <= i < |cells| && 0 <= j < |cells[i]| && cells[i][j].state == st
  }

  /**
   * The bookkeeping the slice maintains: every Start cell is the start tile,
   * every End cell is the end tile, every Obstacle cell is listed, and the
   * obstacle list has no duplicates. Tiles may go stale (point at a cell
   * that has since been overwritten), but never the other way round.
   */
  ghost predicate Tracked(s: State) {
    && (forall i, j :: 0 <= i < |s.cells| && 0 <= j < |s.cells[i]| && s.cells[i][j].state == Start ==>
          s.startTile == Some(Tile(i, j)))
    && (forall i, j :: 0 <= i < |s.cells| && 0 <= j < |s.cells[i]| && s.cells[i][j].state == End ==>
          s.endTile == Some(Tile(i, j)))
    && (forall i, j :: 0 <= i < |s.cells| && 0 <= j < |s.cells[i]| && s.cells[i][j].state == Obstacle ==>
          Tile(i, j) in s.obstacleTiles)
    && NoDuplicates(s.obstacleTiles)
  }

  ghost predicate Valid(s: State) {
    WellFormed(s.cells, s.rows, s.columns) && Tracked(s)
  }

  /** The actions other than a search leave the tiles and the search result alone. */
  predicate SameMarks(s: State, t: State) {
    && s.startTile == t.startTile
    && s.endTile == t.endTile
    && s.obstacleTiles == t.obstacleTiles
    && s.path == t.path
    && s.visitedNodes == t.visitedNodes
  }

  /** The store's initial value: an 8 x 12 grid of empty cells and nothing placed. */
  function Initial(): (s: State)
    ensures Valid(s) && s.rows == 8 && s.columns == 12
    ensures !HasState(s.cells, Start) && !HasState(s.cells, End)
  {
    State(Blank(8, 12, Empty), 8, 12, None, None, [], [], [])
  }

  // ----- Resizing -----

  /** `setNumberOfColumns(n)`: grow or truncate every row; only `cells` and `columns` change. */
  function SetNumberOfColumns(s: State, n: int): (r: Result<State>)
    ensures r.TypeError? <==> GrowThrows(s.cells, s.columns, n)
    ensures r.Ok? ==> r.value.columns == n && r.value.rows == s.rows && SameMarks(s, r.value)
  {
    match ResizeColumns(s.cells, s.columns, n, Empty)
    case TypeError => TypeError
    case Ok(cells) => Ok(s.(cells := cells, columns := n))
  }

  /**
   * On a valid state and `n >= 0`, resizing the columns fails exactly when
   * growing a grid of empty rows; otherwise the state stays valid, the
   * common cells are kept and the new columns are Empty.
   */
  lemma SetNumberOfColumnsShape(s: State, n: int)
    requires Valid(s) && 0 <= n
    ensures SetNumberOfColumns(s, n).TypeError? <==> n > s.columns && s.columns == 0 && 0 < s.rows
    ensures SetNumberOfColumns(s, n).Ok? ==>
              var t := SetNumberOfColumns(s, n).value;
              && Valid(t)
              && (forall i, j :: 0 <= i < s.rows && 0 <= j < Min(s.columns, n) ==> t.cells[i][j] == s.cells[i][j])
              && (forall i, j :: 0 <= i < s.rows && s.columns <= j < n ==> t.cells[i][j].state == Empty)
  {
    ResizeColumnsWellFormed(s.cells, s.rows, s.columns, n, Empty);
    if SetNumberOfColumns(s, n).Ok? {
      var t := SetNumberOfColumns(s, n).value;
      forall i, j | 0 <= i < |t.cells| && 0 <= j < |t.cells[i]| && t.cells[i][j].state != Empty
        ensures t.cells[i][j] == s.cells[i][j]
      {
      }
    }
  }

  /** Growing the columns and then shrinking them back restores the state. */
  lemma ColumnsGrowThenShrink(s: State, n: int)
    requires Valid(s) && s.columns <= n && (0 < s.columns || s.rows == 0)
    ensures SetNumberOfColumns(s, n).Ok?
    ensures SetNumberOfColumns(SetNumberOfColumns(s, n).value, s.columns) == Ok(s)
  {
    SetNumberOfColumnsShape(s, n);
    var t := SetNumberOfColumns(s, n).value;
    SetNumberOfColumnsShape(t, s.columns);
    var u := SetNumberOfColumns(t, s.columns).value;
    forall i | 0 <= i < |s.cells|
      ensures u.cells[i] == s.cells[i]
    {
      assert Ok(u.cells[i]) == ResizeRow(t.cells[i], n, s.columns, Empty);
      SliceNonNegative(t.cells[i], s.columns);
      assert Min(s.columns, n) == s.columns;
      assert t.cells[i][..s.columns] == s.cells[i];
    }
    assert u.cells == s.cells;
  }

  /**
   * `setNumberOfColumns` as evidently intended: new cells take the row index
   * from the row's position instead of from the row's first cell.
   */
  function SetNumberOfColumnsIntended(s: State, n: int): (r: State)
    ensures r.columns == n && r.rows == s.rows && SameMarks(s, r)
    ensures |r.cells| == |s.cells|
  {
    s.(cells := ResizeColumnsIntended(s.cells, s.columns, n, Empty), columns := n)
  }

  /**
   * The intended resize keeps every valid state valid for any `n >= 0`,
   * including growing a grid that has no columns, and coincides with the
   * store's resize whenever that one does not throw.
   */
  lemma SetNumberOfColumnsIntendedShape(s: State, n: int)
    requires Valid(s) && 0 <= n
    ensures var t := SetNumberOfColumnsIntended(s, n);
            && Valid(t)
            && (forall i, j :: 0 <= i < s.rows && 0 <= j < Min(s.columns, n) ==> t.cells[i][j] == s.cells[i][j])
            && (forall i, j :: 0 <= i < s.rows && s.columns <= j < n ==> t.cells[i][j].state == Empty)
    ensures SetNumberOfColumns(s, n).Ok? ==> SetNumberOfColumns(s, n).value == SetNumberOfColumnsIntended(s, n)
  {
    ResizeColumnsIntendedWellFormed(s.cells, s.rows, s.columns, n, Empty);
    var t := SetNumberOfColumnsIntended(s, n);
    forall i, j | 0 <= i < |t.cells| && 0 <= j < |t.cells[i]| && t.cells[i][j].state != Empty
      ensures t.cells[i][j] == s.cells[i][j]
    {
    }
  }

  /**
   * Shrinking the initial grid to zero columns succeeds, but growing it
   * again throws: each row is empty and has no first cell to label the new
   * cells with.
   */
  lemma GrowFromZeroColumnsThrows()
    ensures SetNumberOfColumns(Initial(), 0).Ok?
    ensures SetNumberOfColumns(SetNumberOfColumns(Initial(), 0).value, 1).TypeError?
  {
    SetNumberOfColumnsShape(Initial(), 0);
    var t := SetNumberOfColumns(Initial(), 0).value;
    SetNumberOfColumnsShape(t, 1);
  }

  /** `setNumberOfRows(n)`: append Empty rows or keep the first `n`; only `cells` and `rows` change. */
  function SetNumberOfRows(s: State, n: int): (r: State)
    ensures r.rows == n && r.columns == s.columns && SameMarks(s, r)
    ensures n <= s.rows ==> r.cells == Slice(s.cells, n)
    ensures n > s.rows ==> |r.cells| == |s.cells| + n - s.rows && r.cells[..|s.cells|] == s.cells
  {
    s.(cells := ResizeRows(s.cells, s.rows, s.columns, n, Empty), rows := n)
  }

  /** On a valid state and `n >= 0`, resizing the rows keeps the state valid and adds only Empty cells. */
  lemma SetNumberOfRowsShape(s: State, n: int)
    requires Valid(s) && 0 <= n
    ensures var t := SetNumberOfRows(s, n);
            && Valid(t)
            && (forall i :: 0 <= i < Min(s.rows, n) ==> t.cells[i] == s.cells[i])
            && (forall i, j :: s.rows <= i < n && 0 <= j < s.columns ==> t.cells[i][j].state == Empty)
  {
    ResizeRowsWellFormed(s.cells, s.rows, s.columns, n, Empty);
  }

  /** Growing the rows and then shrinking them back restores the state. */
  lemma RowsGrowThenShrink(s: State, n: int)
    requires Valid(s) && s.rows <= n
    ensures SetNumberOfRows(SetNumberOfRows(s, n), s.rows) == s
  {
    SetNumberOfRowsShape(s, n);
    var t := SetNumberOfRows(s, n);
    SliceNonNegative(t.cells, s.rows);
    assert t.cells[..s.rows] == s.cells;
  }

  // ----- Editing one cell -----

  /**
   * `setCellState(row, col, state)`: placing a Start (End) first empties the
   * previous start (end) cell, then the cell takes the new state, and the
   * `switch` records the tile: a new start or end, an obstacle added once,
   * or an obstacle removed when the cell is emptied.
   */
  function SetCellState(s: State, row: int, col: int, st: CellState): (r: Result<State>)
    ensures r.TypeError? <==>
              || !InBounds(s.cells, Tile(row, col))
              || (st == Start && s.startTile.Some? && !InBounds(s.cells, s.startTile.value))
              || (st == End && s.endTile.Some? && !InBounds(s.cells, s.endTile.value))
    ensures r.Ok? ==> SameShape(s.cells, r.value.cells) && r.value.rows == s.rows && r.value.columns == s.columns
    ensures r.Ok? ==> r.value.cells[row][col] == s.cells[row][col].(state := st)
    ensures r.Ok? ==> r.value.path == s.path && r.value.visitedNodes == s.visitedNodes
    ensures r.Ok? ==> r.value.startTile == (if st == Start then Some(Tile(row, col)) else s.startTile)
    ensures r.Ok? ==> r.value.endTile == (if st == End then Some(Tile(row, col)) else s.endTile)
  {
    var clearStart := st == Start && s.startTile.Some?;
    var clearEnd := st == End && s.endTile.Some?;
    var c1 := if clearStart then Write(s.cells, s.startTile.value, Empty) else Ok(s.cells);
    if c1.TypeError? then TypeError
    else
      var c2 := if clearEnd then Write(c1.value, s.endTile.value, Empty) else Ok(c1.value);
      if c2.TypeError? then TypeError
      else
        var c3 := Write(c2.value, Tile(row, col), st);
        if c3.TypeError? then TypeError
        else
          var t := Tile(row, col);
          var startTile := if clearStart then None else s.startTile;
          var endTile := if clearEnd then None else s.endTile;
          Ok(match st
             case Start => s.(cells := c3.value, startTile := Some(t), endTile := endTile)
             case End => s.(cells := c3.value, startTile := startTile, endTile := Some(t))
             case Obstacle =>
               s.(cells := c3.value, startTile := startTile, endTile := endTile,
                  obstacleTiles := if t in s.obstacleTiles then s.obstacleTiles else s.obstacleTiles + [t])
             case Empty =>
               s.(cells := c3.value, startTile := startTile, endTile := endTile,
                  obstacleTiles := Remove(s.obstacleTiles, t))
             case _ => s.(cells := c3.value, startTile := startTile, endTile := endTile))
  }

  /**
   * Resizing does not touch the tiles, so a start tile outside the shrunken
   * grid makes the next placement of a Start throw: place Start at (7, 11),
   * cut the grid to five rows, and placing Start anywhere fails.
   */
  lemma StaleStartTileThrows()
    ensures SetCellState(Initial(), 7, 11, Start).Ok?
    ensures var placed := SetCellState(Initial(), 7, 11, Start).value;
            SetCellState(SetNumberOfRows(placed, 5), 0, 0, Start).TypeError?
  {
    var placed := SetCellState(Initial(), 7, 11, Start).value;
    SetCellStateKeepsValid(Initial(), 7, 11, Start);
    SetNumberOfRowsShape(placed, 5);
  }

  /** Only the target cell and, for Start/End, the previous start/end cell change; the latter becomes Empty. */
  lemma SetCellStateFrame(s: State, row: int, col: int, st: CellState)
    requires SetCellState(s, row, col, st).Ok?
    ensures CellStep(s, SetCellState(s, row, col, st).value, row, col, st)
  {
  }

  /**
   * Obstacle bookkeeping: an Obstacle is listed exactly once afterwards,
   * emptying a cell unlists it, and other states leave the list alone.
   */
  lemma SetCellStateObstacles(s: State, row: int, col: int, st: CellState)
    requires SetCellState(s, row, col, st).Ok?
    ensures var t := SetCellState(s, row, col, st).value;
            && (st == Obstacle ==> Tile(row, col) in t.obstacleTiles && s.obstacleTiles <= t.obstacleTiles
                                   && |t.obstacleTiles| <= |s.obstacleTiles| + 1)
            && (st == Obstacle && NoDuplicates(s.obstacleTiles) ==> Count(t.obstacleTiles, Tile(row, col)) == 1)
            && (st == Empty ==> Tile(row, col) !in t.obstacleTiles
                                && forall x :: x in s.obstacleTiles && x != Tile(row, col) ==> x in t.obstacleTiles)
            && (st != Obstacle && st != Empty ==> t.obstacleTiles == s.obstacleTiles)
  {
    var t := SetCellState(s, row, col, st).value;
    var x := Tile(row, col);
    if st == Obstacle && NoDuplicates(s.obstacleTiles) {
      if x in s.obstacleTiles {
        CountUnique(s.obstacleTiles, x);
      } else {
        CountZero(s.obstacleTiles, x);
        CountAppend(s.obstacleTiles, [x], x);
        assert Count([x], x) == 1 by {
          assert [x][1..] == [];
        }
      }
    }
    if st == Empty {
      forall y | y in s.obstacleTiles && y != x
        ensures y in t.obstacleTiles
      {
        var k :| 0 <= k < |s.obstacleTiles| && s.obstacleTiles[k] == y;
      }
    }
  }

  /** In a list without duplicates, a present element occurs exactly once. */
  lemma {:induction false} CountUnique<T>(xs: seq<T>, x: T)
    requires NoDuplicates(xs) && x in xs
    ensures Count(xs, x) == 1
  {
    assert NoDuplicates(xs[1..]);
    if xs[0] == x {
      CountZero(xs[1..], x);
    } else {
      CountUnique(xs[1..], x);
    }
  }

  /**
   * Placing a cell keeps the bookkeeping: there is never more than one
   * Start or End cell, and obstacles stay listed without duplicates.
   */
  lemma SetCellStateKeepsValid(s: State, row: int, col: int, st: CellState)
    requires Valid(s) && SetCellState(s, row, col, st).Ok?
    ensures Valid(SetCellState(s, row, col, st).value)
  {
    var t := SetCellState(s, row, col, st).value;
    SetCellStateFrame(s, row, col, st);
    KeepsWellFormed(s, t, row, col, st);
    KeepsStart(s, t, row, col, st);
    KeepsEnd(s, t, row, col, st);
    SetCellStateObstacles(s, row, col, st);
    if st == Empty {
      RemoveKeepsNoDuplicates(s.obstacleTiles, Tile(row, col));
    }
    if st == Obstacle && Tile(row, col) !in s.obstacleTiles {
      AppendFreshNoDuplicates(s.obstacleTiles, Tile(row, col));
    }
    KeepsObstacles(s, t, row, col, st);
  }

  /** The frame of `setCellState` as a relation between the old state `s` and the new state `t`. */
  ghost predicate CellStep(s: State, t: State, row: int, col: int, st: CellState) {
    && SameShape(s.cells, t.cells)
    && InBounds(s.cells, Tile(row, col))
    && t.cells[row][col] == s.cells[row][col].(state := st)
    && t.startTile == (if st == Start then Some(Tile(row, col)) else s.startTile)
    && t.endTile == (if st == End then Some(Tile(row, col)) else s.endTile)
    && forall i, j :: 0 <= i < |s.cells| && 0 <= j < |s.cells[i]| && Tile(i, j) != Tile(row, col) ==>
         if (st == Start && s.startTile == Some(Tile(i, j))) || (st == End && s.endTile == Some(Tile(i, j)))
         then t.cells[i][j] == s.cells[i][j].(state := Empty)
         else t.cells[i][j] == s.cells[i][j]
  }

  lemma KeepsWellFormed(s: State, t: State, row: int, col: int, st: CellState)
    requires WellFormed(s.cells, s.rows, s.columns) && CellStep(s, t, row, col, st)
    requires t.rows == s.rows && t.columns == s.columns
    ensures WellFormed(t.cells, t.rows, t.columns)
  {
    forall i, j | 0 <= i < |t.cells| && 0 <= j < |t.cells[i]|
      ensures At(t.cells[i][j]) == Tile(i, j)
    {
      assert At(t.cells[i][j]) == At(s.cells[i][j]);
    }
  }

  lemma KeepsStart(s: State, t: State, row: int, col: int, st: CellState)
    requires Tracked(s) && CellStep(s, t, row, col, st)
    ensures forall i, j :: 0 <= i < |t.cells| && 0 <= j < |t.cells[i]| && t.cells[i][j].state == Start ==>
              t.startTile == Some(Tile(i, j))
  {
    forall i, j | 0 <= i < |t.cells| && 0 <= j < |t.cells[i]| && t.cells[i][j].state == Start
      ensures t.startTile == Some(Tile(i, j))
    {
      if Tile(i, j) != Tile(row, col) {
        assert s.cells[i][j].state == Start;
      }
    }
  }

  lemma KeepsEnd(s: State, t: State, row: int, col: int, st: CellState)
    requires Tracked(s) && CellStep(s, t, row, col, st)
    ensures forall i, j :: 0 <= i < |t.cells| && 0 <= j < |t.cells[i]| && t.cells[i][j].state == End ==>
              t.endTile == Some(Tile(i, j))
  {
    forall i, j | 0 <= i < |t.cells| && 0 <= j < |t.cells[i]| && t.cells[i][j].state == End
      ensures t.endTile == Some(Tile(i, j))
    {
      if Tile(i, j) != Tile(row, col) {
        assert s.cells[i][j].state == End;
      }
    }
  }

  lemma KeepsObstacles(s: State, t: State, row: int, col: int, st: CellState)
    requires Tracked(s) && CellStep(s, t, row, col, st)
    requires st == Obstacle ==> Tile(row, col) in t.obstacleTiles
    requires forall x :: x in s.obstacleTiles && x != Tile(row, col) ==> x in t.obstacleTiles
    ensures forall i, j :: 0 <= i < |t.cells| && 0 <= j < |t.cells[i]| && t.cells[i][j].state == Obstacle ==>
              Tile(i, j) in t.obstacleTiles
  {
    forall i, j | 0 <= i < |t.cells| && 0 <= j < |t.cells[i]| && t.cells[i][j].state == Obstacle
      ensures Tile(i, j) in t.obstacleTiles
    {
      if Tile(i, j) != Tile(row, col) {
        assert s.cells[i][j].state == Obstacle;
      }
    }
  }

  lemma AppendFreshNoDuplicates<T>(xs: seq<T>, x: T)
    requires NoDuplicates(xs) && x !in xs
    ensures NoDuplicates(xs + [x])
  {
  }

  /** Under the bookkeeping, two Start cells (or two End cells) are the same cell. */
  lemma ValidHasUniqueStartAndEnd(s: State, i: int, j: int, k: int, l: int)
    requires Valid(s)
    requires 0 <= i < |s.cells| && 0 <= j < |s.cells[i]| && 0 <= k < |s.cells| && 0 <= l < |s.cells[k]|
    requires s.cells[i][j].state == s.cells[k][l].state
    requires s.cells[i][j].state == Start || s.cells[i][j].state == End
    ensures i == k && j == l
  {
    if s.cells[i][j].state == Start {
      assert s.startTile == Some(Tile(i, j)) == Some(Tile(k, l));
    } else {
      assert s.endTile == Some(Tile(i, j)) == Some(Tile(k, l));
    }
  }

  /** `resetCells()`: every cell Empty, nothing placed, no search result; dimensions kept. */
  function ResetCells(s: State): (r: State)
    ensures SameShape(s.cells, r.cells) && r.rows == s.rows && r.columns == s.columns
    ensures forall i, j :: 0 <= i < |s.cells| && 0 <= j < |s.cells[i]| ==>
              At(r.cells[i][j]) == At(s.cells[i][j]) && r.cells[i][j].state == Empty
    ensures r.startTile == None && r.endTile == None && r.obstacleTiles == []
    ensures r.path == [] && r.visitedNodes == []
    ensures !HasState(r.cells, Start) && !HasState(r.cells, End)
  {
    var cells := seq(|s.cells|, i requires 0 <= i < |s.cells| =>
      seq(|s.cells[i]|, j requires 0 <= j < |s.cells[i]| => s.cells[i][j].(state := Empty)));
    State(cells, s.rows, s.columns, None, None, [], [], [])
  }

  /** Resetting a well-formed state yields a valid one, and resetting twice is resetting once. */
  lemma ResetCellsValidIdempotent(s: State)
    requires WellFormed(s.cells, s.rows, s.columns)
    ensures Valid(ResetCells(s))
    ensures ResetCells(ResetCells(s)) == ResetCells(s)
  {
    var r := ResetCells(s);
    var rr := ResetCells(r);
    assert forall i :: 0 <= i < |r.cells| ==> rr.cells[i] == r.cells[i];
  }

  // ----- Showing a search result -----

  /** `path.some(p => p.row === cell.row && p.col === cell.col)`. */
  predicate Listed(nodes: seq<Node>, c: Cell<CellState>) {
    exists k :: 0 <= k < |nodes| && nodes[k].row == c.row && nodes[k].col == c.col
  }

  /** Every cell whose position is on the path becomes Path; the others keep their state. */
  function PaintPath(cells: Grid<CellState>, path: seq<Node>): (r: Grid<CellState>)
    ensures SameShape(cells, r)
    ensures forall i, j :: 0 <= i < |cells| && 0 <= j < |cells[i]| ==>
              At(r[i][j]) == At(cells[i][j])
              && (Listed(path, cells[i][j]) ==> r[i][j].state == Path)
              && (!Listed(path, cells[i][j]) ==> r[i][j] == cells[i][j])
  {
    seq(|cells|, i requires 0 <= i < |cells| =>
      seq(|cells[i]|, j requires 0 <= j < |cells[i]| =>
        cells[i][j].(state := if Listed(path, cells[i][j]) then Path else cells[i][j].state)))
  }

  /** A listed cell becomes Visited only if it is still Empty; nothing else changes. */
  function PaintVisited(cells: Grid<CellState>, visited: seq<Node>): (r: Grid<CellState>)
    ensures SameShape(cells, r)
    ensures forall i, j :: 0 <= i < |cells| && 0 <= j < |cells[i]| ==>
              At(r[i][j]) == At(cells[i][j])
              && (r[i][j].state != cells[i][j].state ==> cells[i][j].state == Empty && r[i][j].state == Visited)
              && (Listed(visited, cells[i][j]) && cells[i][j].state == Empty ==> r[i][j].state == Visited)
              && (!Listed(visited, cells[i][j]) ==> r[i][j] == cells[i][j])
  {
    seq(|cells|, i requires 0 <= i < |cells| =>
      seq(|cells[i]|, j requires 0 <= j < |cells[i]| =>
        cells[i][j].(state := if Listed(visited, cells[i][j]) && cells[i][j].state == Empty
                              then Visited else cells[i][j].state)))
  }

  /** Painting is idempotent: painting the same path or visited list twice changes nothing more. */
  lemma PaintIdempotent(cells: Grid<CellState>, path: seq<Node>, visited: seq<Node>)
    ensures PaintPath(PaintPath(cells, path), path) == PaintPath(cells, path)
    ensures PaintVisited(PaintVisited(cells, visited), visited) == PaintVisited(cells, visited)
  {
    var p := PaintPath(cells, path);
    var pp := PaintPath(p, path);
    forall i | 0 <= i < |cells|
      ensures pp[i] == p[i]
    {
      forall j | 0 <= j < |cells[i]|
        ensures pp[i][j] == p[i][j]
      {
        assert At(p[i][j]) == At(cells[i][j]);
        assert Listed(path, p[i][j]) <==> Listed(path, cells[i][j]);
      }
    }
    var v := PaintVisited(cells, visited);
    var vv := PaintVisited(v, visited);
    forall i | 0 <= i < |cells|
      ensures vv[i] == v[i]
    {
      forall j | 0 <= j < |cells[i]|
        ensures vv[i][j] == v[i][j]
      {
        assert At(v[i][j]) == At(cells[i][j]);
        assert Listed(visited, v[i][j]) <==> Listed(visited, cells[i][j]);
      }
    }
  }

  /** `setPath(path)`: paint the path onto the grid (the stored `path` is left as it was). */
  function SetPath(s: State, path: seq<Node>): (r: State)
    ensures r.rows == s.rows && r.columns == s.columns && SameMarks(s, r)
    ensures SameShape(s.cells, r.cells)
    ensures forall i, j :: 0 <= i < |s.cells| && 0 <= j < |s.cells[i]| ==>
              At(r.cells[i][j]) == At(s.cells[i][j])
              && (r.cells[i][j].state == (if Listed(path, s.cells[i][j]) then Path else s.cells[i][j].state))
  {
    s.(cells := PaintPath(s.cells, path))
  }

  /** `setVisitedNodes(nodes)`: mark listed Empty cells Visited (the stored list is left as it was). */
  function SetVisitedNodes(s: State, visited: seq<Node>): (r: State)
    ensures r.rows == s.rows && r.columns == s.columns && SameMarks(s, r)
    ensures SameShape(s.cells, r.cells)
    ensures forall i, j :: 0 <= i < |s.cells| && 0 <= j < |s.cells[i]| ==>
              At(r.cells[i][j]) == At(s.cells[i][j])
              && (s.cells[i][j].state != Empty ==> r.cells[i][j] == s.cells[i][j])
              && (s.cells[i][j].state == Empty ==>
                    r.cells[i][j].state == (if Listed(visited, s.cells[i][j]) then Visited else Empty))
  {
    s.(cells := PaintVisited(s.cells, visited))
  }

  /** Cell `j` of `row` is in state `st` and no earlier cell of the row is. */
  ghost predicate FirstInRow(row: seq<Cell<CellState>>, st: CellState, j: int) {
    0 <= j < |row| && row[j].state == st && forall j' :: 0 <= j' < j ==> row[j'].state != st
  }

  /** First cell in `row` in state `st`. */
  function FindInRow(row: seq<Cell<CellState>>, st: CellState): (r: Option<Cell<CellState>>)
    ensures r.None? <==> forall j :: 0 <= j < |row| ==> row[j].state != st
    ensures r.Some? ==> r.value in row && r.value.state == st
    ensures r.Some? ==> exists j :: FirstInRow(row, st, j) && row[j] == r.value
  {
    if |row| == 0 then None
    else if row[0].state == st then
      assert FirstInRow(row, st, 0);
      Some(row[0])
    else
      var rest := FindInRow(row[1..], st);
      assert forall j :: 1 <= j < |row| ==> row[j] == row[1..][j - 1];
      assert rest.Some? ==> exists j :: FirstInRow(row, st, j) && row[j] == rest.value by {
        if rest.Some? {
          var j :| FirstInRow(row[1..], st, j) && row[1..][j] == rest.value;
          assert FirstInRow(row, st, j + 1);
        }
      }
      rest
  }

  /**
   * Cell `(i, j)` is the first cell in state `st` in row-major order: no
   * earlier row has one, and it is the first in its row.
   */
  ghost predicate FirstInGrid(cells: Grid<CellState>, st: CellState, i: int, j: int) {
    && 0 <= i < |cells|
    && FirstInRow(cells[i], st, j)
    && forall i', j' :: 0 <= i' < i && 0 <= j' < |cells[i']| ==> cells[i'][j'].state != st
  }

  /** `cells.flat().find(cell => cell.state === st)`: the first such cell in row-major order. */
  function FindCell(cells: Grid<CellState>, st: CellState): (r: Option<Cell<CellState>>)
    ensures r.None? <==> !HasState(cells, st)
    ensures r.Some? ==> r.value.state == st && exists i :: 0 <= i < |cells| && r.value in cells[i]
    ensures r.Some? ==> exists i, j :: FirstInGrid(cells, st, i, j) && cells[i][j] == r.value
  {
    if |cells| == 0 then None
    else
      match FindInRow(cells[0], st)
      case Some(c) =>
        assert exists i, j :: FirstInGrid(cells, st, i, j) && cells[i][j] == c by {
          var j :| FirstInRow(cells[0], st, j) && cells[0][j] == c;
          assert FirstInGrid(cells, st, 0, j);
        }
        Some(c)
      case None =>
        FindCellSkipRow(cells, st);
        FindCell(cells[1..], st)
  }

  /** A first row without state `st` can be skipped: the search continues in the rows below. */
  lemma FindCellSkipRow(cells: Grid<CellState>, st: CellState)
    requires |cells| > 0 && forall j :: 0 <= j < |cells[0]| ==> cells[0][j].state != st
    ensures HasState(cells, st) ==> HasState(cells[1..], st)
    ensures forall i, j :: FirstInGrid(cells[1..], st, i, j) ==> FirstInGrid(cells, st, i + 1, j)
  {
  }

  /**
   * `handleFindPath(canTravelDiagonally)`: without a Start or an End cell the
   * state is unchanged; otherwise `search` (the A* routine) runs from the
   * first Start to the first End cell, its path is painted, then its visited
   * nodes are painted over the cells that are still Empty, and the result is
   * stored.
   */
  function HandleFindPath(s: State, canTravelDiagonally: bool,
                          search: (Grid<CellState>, Cell<CellState>, Cell<CellState>, bool) -> SearchResult): (r: State)
    ensures !HasState(s.cells, Start) || !HasState(s.cells, End) ==> r == s
    ensures HasState(s.cells, Start) && HasState(s.cells, End) ==>
              var start := FindCell(s.cells, Start).value;
              var end := FindCell(s.cells, End).value;
              var result := search(s.cells, start, end, canTravelDiagonally);
              && start.state == Start && end.state == End
              && r.path == result.path && r.visitedNodes == result.visitedNodes
              && r.rows == s.rows && r.columns == s.columns
              && r.startTile == s.startTile && r.endTile == s.endTile && r.obstacleTiles == s.obstacleTiles
              && SameShape(s.cells, r.cells)
              && forall i, j :: 0 <= i < |s.cells| && 0 <= j < |s.cells[i]| ==>
                   var c := s.cells[i][j];
                   && At(r.cells[i][j]) == At(c)
                   && (Listed(result.path, c) ==> r.cells[i][j].state == Path)
                   && (!Listed(result.path, c) && c.state == Empty && Listed(result.visitedNodes, c) ==>
                         r.cells[i][j].state == Visited)
                   && (!Listed(result.path, c) && (c.state != Empty || !Listed(result.visitedNodes, c)) ==>
                         r.cells[i][j] == c)
  {
    var start := FindCell(s.cells, Start);
    var end := FindCell(s.cells, End);
    if start.Some? && end.Some? then
      var result := search(s.cells, start.value, end.value, canTravelDiagonally);
      PaintBoth(s.cells, result);
      s.(cells := PaintVisited(PaintPath(s.cells, result.path), result.visitedNodes),
         path := result.path, visitedNodes := result.visitedNodes)
    else
      s
  }

  /** Painting a path and then the visited nodes, cell by cell. */
  lemma PaintBoth(cells: Grid<CellState>, result: SearchResult)
    ensures var r := PaintVisited(PaintPath(cells, result.path), result.visitedNodes);
            && SameShape(cells, r)
            && forall i, j :: 0 <= i < |cells| && 0 <= j < |cells[i]| ==>
                 var c := cells[i][j];
                 && At(r[i][j]) == At(c)
                 && (Listed(result.path, c) ==> r[i][j].state == Path)
                 && (!Listed(result.path, c) && c.state == Empty && Listed(result.visitedNodes, c) ==>
                       r[i][j].state == Visited)
                 && (!Listed(result.path, c) && (c.state != Empty || !Listed(result.visitedNodes, c)) ==>
                       r[i][j] == c)
  {
    var p := PaintPath(cells, result.path);
    var r := PaintVisited(p, result.visitedNodes);
    forall i, j | 0 <= i < |cells| && 0 <= j < |cells[i]|
      ensures At(r[i][j]) == At(cells[i][j])
    {
      assert At(p[i][j]) == At(cells[i][j]);
    }
  }

  /** On a valid state, the search is started from the tracked start tile towards the tracked end tile. */
  lemma HandleFindPathUsesTrackedTiles(s: State)
    requires Valid(s) && HasState(s.cells, Start) && HasState(s.cells, End)
    ensures s.startTile == Some(At(FindCell(s.cells, Start).value))
    ensures s.endTile == Some(At(FindCell(s.cells, End).value))
  {
    var start := FindCell(s.cells, Start).value;
    var i :| 0 <= i < |s.cells| && start in s.cells[i];
    var j :| 0 <= j < |s.cells[i]| && s.cells[i][j] == start;
    var end := FindCell(s.cells, End).value;
    var k :| 0 <= k < |s.cells| && end in s.cells[k];
    var l :| 0 <= l < |s.cells[k]| && s.cells[k][l] == end;
  }

  /** Painting a search result keeps the state valid: no Start, End or Obstacle cell is created. */
  lemma HandleFindPathKeepsValid(s: State, canTravelDiagonally: bool,
                                 search: (Grid<CellState>, Cell<CellState>, Cell<CellState>, bool) -> SearchResult)
    requires Valid(s)
    ensures Valid(HandleFindPath(s, canTravelDiagonally, search))
  {
    var r := HandleFindPath(s, canTravelDiagonally, search);
    if HasState(s.cells, Start) && HasState(s.cells, End) {
      var result := search(s.cells, FindCell(s.cells, Start).value, FindCell(s.cells, End).value, canTravelDiagonally);
      var p := PaintPath(s.cells, result.path);
      assert r.cells == PaintVisited(p, result.visitedNodes);
      forall i, j | 0 <= i < |s.cells| && 0 <= j < |s.cells[i]|
        ensures At(r.cells[i][j]) == At(s.cells[i][j])
        ensures r.cells[i][j].state == s.cells[i][j].state || r.cells[i][j].state in {Path, Visited}
      {
        assert At(p[i][j]) == At(s.cells[i][j]);
      }
      PaintKeepsValid(s, r);
    }
  }

  /** A repaint that only turns cells into Path or Visited keeps the state valid. */
  lemma PaintKeepsValid(s: State, r: State)
    requires Valid(s) && SameShape(s.cells, r.cells)
    requires r.rows == s.rows && r.columns == s.columns
    requires r.startTile == s.startTile && r.endTile == s.endTile && r.obstacleTiles == s.obstacleTiles
    requires forall i, j :: 0 <= i < |s.cells| && 0 <= j < |s.cells[i]| ==>
               At(r.cells[i][j]) == At(s.cells[i][j])
               && (r.cells[i][j].state == s.cells[i][j].state || r.cells[i][j].state in {Path, Visited})
    ensures Valid(r)
  {
    forall i, j | 0 <= i < |r.cells| && 0 <= j < |r.cells[i]|
      ensures r.cells[i][j].state in {Start, End, Obstacle} ==> r.cells[i][j].state == s.cells[i][j].state
      ensures At(r.cells[i][j]) == Tile(i, j)
    {
    }
  }
}
