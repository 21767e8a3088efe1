/**
 * The sparse grid store of `src/Grid/GridStore.ts`: the grid is a flat list
 * of `{ row, col, state }` entries plus the start and end cells, the list
 * of obstacles, a version counter bumped on every edit, the dimensions and
 * the last path. The store mutates entries in place; here every action
 * returns a new store value.
 */
module GridStore {
  import opened Js
  import opened Board

  /**
   * The states the store names. Its enum file is not part of this model;
   * `Other` stands for any further member, which `setCell` handles in its
   * `default` arm.
   */
  datatype TileState = Normal | Start | End | Obstacle | Path | Other(code: int)

  type GridCell = Cell<TileState>

  datatype Store = Store(
    cells: seq<GridCell>,
    start: Option<GridCell>,
    end: Option<GridCell>,
    obstacles: seq<GridCell>,
    version: int,
    rows: int,
    cols: int,
    path: seq<GridCell>)

  /** The store's initial value: no entries yet, an 8 x 12 grid, version 0. */
  function Initial(): (s: Store)
    ensures s.cells == [] && s.start == None && s.end == None && s.obstacles == []
    ensures s.version == 0 && s.rows == 8 && s.cols == 12
  {
    Store([], None, None, [], 0, 8, 12, [])
  }

  // ----- Positions in the list -----

  /** Number of entries at position `t`. */
  function CountAt(cells: seq<GridCell>, t: Tile): nat {
    if |cells| == 0 then 0
    else (if At(cells[0]) == t then 1 else 0) + CountAt(cells[1..], t)
  }

  lemma {:induction false} CountAtZero(cells: seq<GridCell>, t: Tile)
    ensures CountAt(cells, t) == 0 <==> forall k :: 0 <= k < |cells| ==> At(cells[k]) != t
  {
    if |cells| > 0 {
      CountAtZero(cells[1..], t);
      assert forall k :: 1 <= k < |cells| ==> cells[k] == cells[1..][k - 1];
    }
  }

  lemma {:induction false} CountAtAppend(a: seq<GridCell>, b: seq<GridCell>, t: Tile)
    ensures CountAt(a + b, t) == CountAt(a, t) + CountAt(b, t)
  {
    if |a| == 0 {
      assert a + b == b;
    } else {
      assert (a + b)[1..] == a[1..] + b;
      CountAtAppend(a[1..], b, t);
    }
  }

  lemma {:induction false} CountAtUpdate(cells: seq<GridCell>, k: nat, c: GridCell, t: Tile)
    requires k < |cells| && At(c) == At(cells[k])
    ensures CountAt(cells[k := c], t) == CountAt(cells, t)
  {
    if k > 0 {
      assert cells[k := c][1..] == cells[1..][k - 1 := c];
      CountAtUpdate(cells[1..], k - 1, c, t);
    }
  }

  /** No two entries share a position. */
  ghost predicate UniquePositions(cells: seq<GridCell>) {
    forall i, j :: 0 <= i < j < |cells| ==> At(cells[i]) != At(cells[j])
  }

  /** `cells.findIndex(cell => cell.row === t.row && cell.col === t.col)`, with `-1` as `None`. */
  function FindIndex(cells: seq<GridCell>, t: Tile): (r: Option<nat>)
    ensures r.None? <==> forall k :: 0 <= k < |cells| ==> At(cells[k]) != t
    ensures r.Some? ==> r.value < |cells| && At(cells[r.value]) == t
    ensures r.Some? ==> forall k :: 0 <= k < r.value ==> At(cells[k]) != t
  {
    if |cells| == 0 then None
    else if At(cells[0]) == t then Some(0)
    else
      var rest := FindIndex(cells[1..], t);
      assert forall k :: 1 <= k < |cells| ==> cells[k] == cells[1..][k - 1];
      match rest
      case None => None
      case Some(k) => Some(k + 1)
  }

  /** `cells.filter(cell => cell.row !== t.row || cell.col !== t.col)`. */
  function Without(cells: seq<GridCell>, t: Tile): (r: seq<GridCell>)
    ensures CountAt(r, t) == 0
    ensures forall u :: u != t ==> CountAt(r, u) == CountAt(cells, u)
  {
    if |cells| == 0 then []
    else
      assert cells == [cells[0]] + cells[1..];
      if At(cells[0]) == t then Without(cells[1..], t)
      else
        var rest := Without(cells[1..], t);
        assert ([cells[0]] + rest)[1..] == rest;
        [cells[0]] + rest
  }

  /**
   * The filter distributes over concatenation: the kept entries stay in
   * their original order (with `WithoutOne`, exactly the entries at other
   * positions are kept).
   */
  lemma {:induction false} WithoutAppend(a: seq<GridCell>, b: seq<GridCell>, t: Tile)
    ensures Without(a + b, t) == Without(a, t) + Without(b, t)
  {
    if |a| == 0 {
      assert a + b == b;
    } else {
      WithoutAppend(a[1..], b, t);
      assert a + b == [a[0]] + (a[1..] + b);
      WithoutCons(a[0], a[1..] + b, t);
      assert a == [a[0]] + a[1..];
      WithoutCons(a[0], a[1..], t);
      ShiftHead(if At(a[0]) == t then [] else [a[0]], Without(a[1..], t), Without(b, t),
                Without(a[1..] + b, t), Without(a + b, t), Without(a, t));
    }
  }

  /** Prefixing both sides of `z == x + y` with `h`. */
  lemma ShiftHead(h: seq<GridCell>, x: seq<GridCell>, y: seq<GridCell>, z: seq<GridCell>, u: seq<GridCell>, v: seq<GridCell>)
    requires z == x + y && u == h + z && v == h + x
    ensures u == v + y
  {
    assert h + (x + y) == (h + x) + y;
  }

  /**
   * Multiplicity: an entry at `t` is gone, every other entry is kept as
   * many times as it occurs.
   */
  lemma {:induction false} WithoutMultiset(cells: seq<GridCell>, t: Tile)
    ensures forall c: GridCell :: multiset(Without(cells, t))[c] == if At(c) == t then 0 else multiset(cells)[c]
  {
    if |cells| > 0 {
      WithoutMultiset(cells[1..], t);
      WithoutCons(cells[0], cells[1..], t);
      assert cells == [cells[0]] + cells[1..];
    }
  }

  /** Unfolds the filter one entry at the front. */
  lemma WithoutCons(c: GridCell, rest: seq<GridCell>, t: Tile)
    ensures Without([c] + rest, t) == (if At(c) == t then [] else [c]) + Without(rest, t)
  {
    assert ([c] + rest)[1..] == rest;
  }

  /** A single entry is dropped exactly when it sits at `t`. */
  lemma WithoutOne(c: GridCell, t: Tile)
    ensures Without([c], t) == (if At(c) == t then [] else [c])
  {
  }

  function Restate(cells: seq<GridCell>, t: Tile, st: TileState): (r: seq<GridCell>)
    ensures |r| == |cells|
    ensures forall u :: CountAt(r, u) == CountAt(cells, u)
    ensures forall k :: 0 <= k < |cells| ==>
              r[k] == (if FindIndex(cells, t) == Some(k) then cells[k].(state := st) else cells[k])
  {
    match FindIndex(cells, t)
    case None => cells
    case Some(k) =>
      assert forall u :: CountAt(cells[k := cells[k].(state := st)], u) == CountAt(cells, u) by {
        forall u {
          CountAtUpdate(cells, k, cells[k].(state := st), u);
        }
      }
      cells[k := cells[k].(state := st)]
  }

  // ----- The dense view -----

  /** `Array.from({length: rows}, () => Array.from({length: cols}, () => NORMAL))`. */
  function NormalMatrix(rows: int, cols: int): (m: seq<seq<TileState>>)
    ensures |m| == Length(rows)
    ensures forall i :: 0 <= i < |m| ==> |m[i]| == Length(cols) && forall j :: 0 <= j < |m[i]| ==> m[i][j] == Normal
  {
    seq(Length(rows), _ => seq(Length(cols), _ => Normal))
  }

  /**
   * One iteration of the `forEach` in `getGridState`: an entry inside the
   * bounds is written; `grid[row]` is undefined for a negative row, so
   * writing to it throws; a negative column only sets a non-index property.
   */
  function PaintOne(grid: seq<seq<TileState>>, c: GridCell, rows: int, cols: int): Result<seq<seq<TileState>>>
    requires |grid| == Length(rows) && forall i :: 0 <= i < |grid| ==> |grid[i]| == Length(cols)
  {
    if c.row < rows && c.col < cols then
      if c.row < 0 then TypeError
      else if c.col < 0 then Ok(grid)
      else
        assert |grid[c.row]| == Length(cols);
        Ok(grid[c.row := grid[c.row][c.col := c.state]])
    else Ok(grid)
  }

  /** An entry that makes `getGridState` throw: a negative row that passes the bounds test. */
  predicate Throws(c: GridCell, rows: int, cols: int) {
    c.row < rows && c.col < cols && c.row < 0
  }

  /** The `forEach` over all entries, first entry first. */
  function PaintAll(grid: seq<seq<TileState>>, cells: seq<GridCell>, rows: int, cols: int): (r: Result<seq<seq<TileState>>>)
    requires |grid| == Length(rows) && forall i :: 0 <= i < |grid| ==> |grid[i]| == Length(cols)
    ensures r.TypeError? <==> exists k :: 0 <= k < |cells| && Throws(cells[k], rows, cols)
    ensures r.Ok? ==> |r.value| == Length(rows) && forall i :: 0 <= i < |r.value| ==> |r.value[i]| == Length(cols)
    decreases |cells|
  {
    if |cells| == 0 then Ok(grid)
    else
      assert forall k :: 1 <= k < |cells| ==> cells[k] == cells[1..][k - 1];
      match PaintOne(grid, cells[0], rows, cols)
      case TypeError => TypeError
      case Ok(g) => PaintAll(g, cells[1..], rows, cols)
  }

  /** `getGridState()`: the `rows x cols` matrix of states, NORMAL where no entry says otherwise. */
  function GetGridState(s: Store): (r: Result<seq<seq<TileState>>>)
    ensures r.TypeError? <==> exists k :: 0 <= k < |s.cells| && Throws(s.cells[k], s.rows, s.cols)
    ensures r.Ok? ==> |r.value| == Length(s.rows) && forall i :: 0 <= i < |r.value| ==> |r.value[i]| == Length(s.cols)
  {
    PaintAll(NormalMatrix(s.rows, s.cols), s.cells, s.rows, s.cols)
  }

  /** The state of the LAST entry at `t`, if any: the entry `forEach` writes last. */
  function LastAt(cells: seq<GridCell>, t: Tile): (r: Option<TileState>)
    ensures r.None? <==> forall k :: 0 <= k < |cells| ==> At(cells[k]) != t
    ensures r.Some? ==> exists k :: 0 <= k < |cells| && At(cells[k]) == t && cells[k].state == r.value
                                    && forall m :: k < m < |cells| ==> At(cells[m]) != t
  {
    if |cells| == 0 then None
    else
      var last := cells[|cells| - 1];
      var init := cells[..|cells| - 1];
      assert forall k :: 0 <= k < |init| ==> init[k] == cells[k];
      if At(last) == t then Some(last.state) else LastAt(init, t)
  }

  lemma LastAtCons(c: GridCell, rest: seq<GridCell>, t: Tile)
    ensures LastAt([c] + rest, t) == (if LastAt(rest, t).Some? then LastAt(rest, t)
                                      else if At(c) == t then Some(c.state) else None)
  {
    var cells := [c] + rest;
    assert forall k :: 1 <= k < |cells| ==> cells[k] == rest[k - 1];
    if LastAt(rest, t).Some? {
      var k :| 0 <= k < |rest| && At(rest[k]) == t && rest[k].state == LastAt(rest, t).value
               && forall m :: k < m < |rest| ==> At(rest[m]) != t;
      LastAtIndex(cells, t, k + 1);
    } else if At(c) == t {
      LastAtIndex(cells, t, 0);
    }
  }

  /** The entry at `k` is the last one at `t`, so its state is what `LastAt` reports. */
  lemma LastAtIndex(cells: seq<GridCell>, t: Tile, k: nat)
    requires k < |cells| && At(cells[k]) == t
    requires forall m :: k < m < |cells| ==> At(cells[m]) != t
    ensures LastAt(cells, t) == Some(cells[k].state)
  {
  }

  /** Painting entries writes, into each slot inside the matrix, the state of the last entry there. */
  lemma {:induction false} PaintAllLastWins(grid: seq<seq<TileState>>, cells: seq<GridCell>, rows: int, cols: int, i: int, j: int)
    requires |grid| == Length(rows) && forall i :: 0 <= i < |grid| ==> |grid[i]| == Length(cols)
    requires PaintAll(grid, cells, rows, cols).Ok?
    requires 0 <= i < |grid| && 0 <= j < |grid[i]|
    ensures PaintAll(grid, cells, rows, cols).value[i][j] == LastAt(cells, Tile(i, j)).GetOr(grid[i][j])
    decreases |cells|
  {
    if |cells| > 0 {
      var g := PaintOne(grid, cells[0], rows, cols).value;
      PaintAllLastWins(g, cells[1..], rows, cols, i, j);
      assert cells == [cells[0]] + cells[1..];
      LastAtCons(cells[0], cells[1..], Tile(i, j));
    }
  }

  /**
   * The dense view holds, at every slot, the state of the last list entry
   * with that position, and NORMAL where there is none.
   */
  lemma GetGridStateReadsLastEntry(s: Store, i: int, j: int)
    requires GetGridState(s).Ok?
    requires 0 <= i < s.rows && 0 <= j < s.cols
    ensures GetGridState(s).value[i][j] == LastAt(s.cells, Tile(i, j)).GetOr(Normal)
  {
    PaintAllLastWins(NormalMatrix(s.rows, s.cols), s.cells, s.rows, s.cols, i, j);
  }

  /** With unique positions, the last entry at a position is the only one, wherever it sits. */
  lemma LastAtUnique(cells: seq<GridCell>, k: nat)
    requires UniquePositions(cells) && k < |cells|
    ensures LastAt(cells, At(cells[k])) == Some(cells[k].state)
  {
    var r := LastAt(cells, At(cells[k]));
    var m :| 0 <= m < |cells| && At(cells[m]) == At(cells[k]) && cells[m].state == r.value
             && forall m' :: m < m' < |cells| ==> At(cells[m']) != At(cells[k]);
    assert m == k;
  }

  // ----- Editing one cell -----

  /** A position recorded in `c`, if any, equals `t`. */
  predicate IsAt(c: Option<GridCell>, t: Tile) {
    c.Some? && At(c.value) == t
  }

  /** Give the first entry at `(row, col)` the new state, or append an entry when there is none. */
  function Upsert(cells: seq<GridCell>, row: int, col: int, state: TileState): (r: seq<GridCell>)
    ensures |r| == |cells| + (if FindIndex(cells, Tile(row, col)).Some? then 0 else 1)
    ensures FindIndex(cells, Tile(row, col)).Some? ==> r[FindIndex(cells, Tile(row, col)).value] == Cell(row, col, state)
    ensures FindIndex(cells, Tile(row, col)).None? ==> r[|cells|] == Cell(row, col, state)
    ensures forall k :: 0 <= k < |cells| ==> At(r[k]) == At(cells[k])
    ensures forall k :: 0 <= k < |cells| && FindIndex(cells, Tile(row, col)) != Some(k) ==> r[k] == cells[k]
    ensures forall k :: |cells| <= k < |r| ==> At(r[k]) == Tile(row, col)
  {
    match FindIndex(cells, Tile(row, col))
    case Some(k) => cells[k := cells[k].(state := state)]
    case None => cells + [Cell(row, col, state)]
  }

  /**
   * `setCell(row, col, state)`: update the first entry at the position or
   * append one; unlist the position from the obstacles and drop a start or
   * end recorded there; then, by state, reset the previous start (end)
   * entry to NORMAL and record the new one, or list the new obstacle; and
   * bump the version.
   */
  function SetCell(s: Store, row: int, col: int, state: TileState): (r: Store)
    ensures r.version == s.version + 1
    ensures r.rows == s.rows && r.cols == s.cols && r.path == s.path
    // START records the new start (END the new end); otherwise a start or
    // end recorded at the position is dropped and one elsewhere is kept
    ensures state == Start ==> r.start == Some(Cell(row, col, Start))
    ensures state != Start ==> r.start == (if IsAt(s.start, Tile(row, col)) then None else s.start)
    ensures state == End ==> r.end == Some(Cell(row, col, End))
    ensures state != End ==> r.end == (if IsAt(s.end, Tile(row, col)) then None else s.end)
  {
    var t := Tile(row, col);
    var cells1 := Upsert(s.cells, row, col, state);
    var obstacles1 := Without(s.obstacles, t);
    var start1 := if IsAt(s.start, t) then None else s.start;
    var end1 := if IsAt(s.end, t) then None else s.end;
    var s1 := s.(cells := cells1, start := start1, end := end1, obstacles := obstacles1, version := s.version + 1);
    match state
    case Start =>
      s1.(cells := if start1.Some? then Restate(cells1, At(start1.value), Normal) else cells1,
          start := Some(Cell(row, col, state)))
    case End =>
      s1.(cells := if end1.Some? then Restate(cells1, At(end1.value), Normal) else cells1,
          end := Some(Cell(row, col, state)))
    case Obstacle => s1.(obstacles := obstacles1 + [Cell(row, col, state)])
    case Path => s1
    case Normal => s1.(cells := Restate(cells1, t, Normal))
    case Other(_) => s1
  }

  /**
   * The list gains an entry exactly when the position had none; the first
   * entry at the position ends up with the new state; and every other entry,
   * including a later one at the same position, is unchanged, except that a
   * START (END) turns the first entry of the previous start (end) cell to
   * NORMAL.
   */
  lemma SetCellEntries(s: Store, row: int, col: int, state: TileState)
    ensures var r := SetCell(s, row, col, state);
            var t := Tile(row, col);
            && |r.cells| == |s.cells| + (if FindIndex(s.cells, t).Some? then 0 else 1)
            && (FindIndex(s.cells, t).Some? ==> r.cells[FindIndex(s.cells, t).value] == Cell(row, col, state))
            && (FindIndex(s.cells, t).None? ==> r.cells[|s.cells|] == Cell(row, col, state))
            && forall k :: 0 <= k < |s.cells| && FindIndex(s.cells, t) != Some(k) ==>
                 if (state == Start && s.start.Some? && FindIndex(s.cells, At(s.start.value)) == Some(k))
                    || (state == End && s.end.Some? && FindIndex(s.cells, At(s.end.value)) == Some(k))
                 then r.cells[k] == s.cells[k].(state := Normal)
                 else r.cells[k] == s.cells[k]
  {
    var t := Tile(row, col);
    var cells1 := Upsert(s.cells, row, col, state);
    var r := SetCell(s, row, col, state);
    if state == Start && s.start.Some? && !IsAt(s.start, t) {
      RestateOther(s.cells, cells1, At(s.start.value), t);
      assert r.cells == Restate(cells1, At(s.start.value), Normal);
    } else if state == End && s.end.Some? && !IsAt(s.end, t) {
      RestateOther(s.cells, cells1, At(s.end.value), t);
      assert r.cells == Restate(cells1, At(s.end.value), Normal);
    } else if state == Normal {
      assert r.cells == Restate(cells1, t, Normal);
    } else {
      assert r.cells == cells1;
    }
  }

  /**
   * Resetting the entry at `p` after the edit at `t != p` touches the same
   * entry it would have touched before the edit.
   */
  lemma RestateOther(cells: seq<GridCell>, cells1: seq<GridCell>, p: Tile, t: Tile)
    requires p != t
    requires |cells| <= |cells1| <= |cells| + 1
    requires forall k :: 0 <= k < |cells| && At(cells[k]) != t ==> cells1[k] == cells[k]
    requires forall k :: 0 <= k < |cells1| && At(cells1[k]) == p ==> k < |cells| && At(cells[k]) == p
    requires forall k :: 0 <= k < |cells| && At(cells[k]) == t ==> At(cells1[k]) == t
    ensures FindIndex(cells1, p) == FindIndex(cells, p)
    ensures var r := Restate(cells1, p, Normal);
            forall k :: 0 <= k < |cells| && At(cells[k]) != t ==>
              r[k] == (if FindIndex(cells, p) == Some(k) then cells[k].(state := Normal) else cells[k])
  {
    FindOther(cells, cells1, p, t);
    var r := Restate(cells1, p, Normal);
    match FindIndex(cells, p)
    case None =>
      assert r == cells1;
    case Some(k0) =>
      assert r == cells1[k0 := cells1[k0].(state := Normal)];
  }

  /** The edit at `t` does not move the first entry at another position `p`. */
  lemma FindOther(cells: seq<GridCell>, cells1: seq<GridCell>, p: Tile, t: Tile)
    requires p != t
    requires |cells| <= |cells1| <= |cells| + 1
    requires forall k :: 0 <= k < |cells| && At(cells[k]) != t ==> cells1[k] == cells[k]
    requires forall k :: 0 <= k < |cells1| && At(cells1[k]) == p ==> k < |cells| && At(cells[k]) == p
    requires forall k :: 0 <= k < |cells| && At(cells[k]) == t ==> At(cells1[k]) == t
    ensures FindIndex(cells1, p) == FindIndex(cells, p)
  {
    match FindIndex(cells1, p)
    case None =>
    case Some(k1) =>
      assert At(cells[k1]) == p;
      var k := FindIndex(cells, p).value;
      assert cells1[k] == cells[k];
      assert k == k1;
  }

  /**
   * Obstacle bookkeeping: after `setCell` the obstacles list the position
   * exactly once if the new state is OBSTACLE and not at all otherwise;
   * other positions keep their count.
   */
  lemma SetCellObstacles(s: Store, row: int, col: int, state: TileState)
    ensures var r := SetCell(s, row, col, state);
            && CountAt(r.obstacles, Tile(row, col)) == (if state == Obstacle then 1 else 0)
            && forall u :: u != Tile(row, col) ==> CountAt(r.obstacles, u) == CountAt(s.obstacles, u)
  {
    var t := Tile(row, col);
    var w := Without(s.obstacles, t);
    var c := Cell(row, col, state);
    CountAtAppend(w, [c], t);
    assert CountAt([c], t) == 1 by {
      assert [c][1..] == [];
    }
    forall u | u != t
      ensures CountAt(w + [c], u) == CountAt(w, u)
    {
      CountAtAppend(w, [c], u);
      assert [c][1..] == [];
    }
  }

  /** `setCell` keeps the list free of duplicate positions, and so does the obstacle list. */
  lemma SetCellKeepsUnique(s: Store, row: int, col: int, state: TileState)
    requires UniquePositions(s.cells)
    ensures UniquePositions(SetCell(s, row, col, state).cells)
  {
    var r := SetCell(s, row, col, state);
    var t := Tile(row, col);
    SetCellEntries(s, row, col, state);
    forall i, j | 0 <= i < j < |r.cells|
      ensures At(r.cells[i]) != At(r.cells[j])
    {
      if j == |s.cells| {
        assert FindIndex(s.cells, t).None?;
        assert At(s.cells[i]) != t;
      } else if At(s.cells[i]) == t {
        assert At(s.cells[j]) != t;
      }
    }
  }

  /**
   * Read back through the dense view, `setCell(row, col, state)` on a list
   * without duplicate positions shows `state` at `(row, col)`.
   */
  lemma SetCellThenRead(s: Store, row: int, col: int, state: TileState)
    requires UniquePositions(s.cells)
    requires 0 <= row < s.rows && 0 <= col < s.cols
    requires GetGridState(SetCell(s, row, col, state)).Ok?
    ensures GetGridState(SetCell(s, row, col, state)).value[row][col] == state
  {
    var r := SetCell(s, row, col, state);
    SetCellEntries(s, row, col, state);
    SetCellKeepsUnique(s, row, col, state);
    GetGridStateReadsLastEntry(r, row, col);
    var k := if FindIndex(s.cells, Tile(row, col)).Some? then FindIndex(s.cells, Tile(row, col)).value else |s.cells|;
    LastAtUnique(r.cells, k);
  }

  // ----- Regenerating the list -----

  /** The entries of row `row`: columns `0..cols-1`, all NORMAL. */
  function RowEntries(row: int, cols: int): (r: seq<GridCell>)
    ensures |r| == Length(cols)
    ensures forall k :: 0 <= k < |r| ==> r[k] == Cell(row, k, Normal)
  {
    seq(Length(cols), j => Cell(row, j, Normal))
  }

  /** The nested `for` loops: rows `0..rows-1`, each with columns `0..cols-1`, in row-major order. */
  function Generate(rows: int, cols: int): (r: seq<GridCell>)
    ensures |r| == Length(rows) * Length(cols)
    ensures forall k :: 0 <= k < |r| ==> 0 <= r[k].row < rows && 0 <= r[k].col < cols && r[k].state == Normal
    decreases rows
  {
    if rows <= 0 then []
    else Generate(rows - 1, cols) + RowEntries(rows - 1, cols)
  }

  /** Every position of the rectangle is generated, and none twice. */
  lemma {:induction false} GenerateCoversOnce(rows: int, cols: int)
    ensures UniquePositions(Generate(rows, cols))
    ensures forall i, j :: 0 <= i < rows && 0 <= j < cols ==> Cell(i, j, Normal) in Generate(rows, cols)
    decreases rows
  {
    if rows > 0 {
      GenerateCoversOnce(rows - 1, cols);
      var a := Generate(rows - 1, cols);
      var b := RowEntries(rows - 1, cols);
      assert Generate(rows, cols) == a + b;
      forall i, j | 0 <= i < rows && 0 <= j < cols
        ensures Cell(i, j, Normal) in a + b
      {
        if i == rows - 1 {
          assert b[j] == Cell(i, j, Normal);
        } else {
          assert Cell(i, j, Normal) in a;
        }
      }
    }
  }

  /** The generated list is in row-major order: entry `k` is at row `k / cols`, column `k % cols`. */
  lemma {:induction false} GenerateRowMajor(rows: int, cols: int)
    ensures forall k :: 0 <= k < |Generate(rows, cols)| ==> Generate(rows, cols)[k] == Cell(k / cols, k % cols, Normal)
    decreases rows
  {
    if rows > 0 {
      GenerateRowMajor(rows - 1, cols);
      var a := Generate(rows - 1, cols);
      var b := RowEntries(rows - 1, cols);
      forall k | 0 <= k < |a + b|
        ensures (a + b)[k] == Cell(k / cols, k % cols, Normal)
      {
        if k >= |a| {
          DivModRow(rows - 1, cols, k - |a|);
        }
      }
    }
  }

  lemma DivModRow(q: nat, c: int, j: int)
    requires 0 <= j < c
    ensures (q * c + j) / c == q && (q * c + j) % c == j
  {
    var m := q * c + j;
    var d := m / c - q;
    assert c * d == j - m % c by {
      assert m == c * (m / c) + m % c;
      assert c * d == c * (m / c) - c * q;
    }
  }

  /** Number of entries in column `col` / in row `row`. */
  function CountCol(cells: seq<GridCell>, col: int): nat {
    if |cells| == 0 then 0
    else (if cells[0].col == col then 1 else 0) + CountCol(cells[1..], col)
  }

  function CountRow(cells: seq<GridCell>, row: int): nat {
    if |cells| == 0 then 0
    else (if cells[0].row == row then 1 else 0) + CountRow(cells[1..], row)
  }

  lemma {:induction false} CountsAppend(a: seq<GridCell>, b: seq<GridCell>)
    ensures CountCol(a + b, 0) == CountCol(a, 0) + CountCol(b, 0)
    ensures CountRow(a + b, 0) == CountRow(a, 0) + CountRow(b, 0)
  {
    if |a| == 0 {
      assert a + b == b;
    } else {
      assert (a + b)[1..] == a[1..] + b;
      CountsAppend(a[1..], b);
    }
  }

  lemma {:induction false} RowEntriesCounts(row: int, cols: int)
    ensures CountCol(RowEntries(row, cols), 0) == (if cols > 0 then 1 else 0)
    ensures CountRow(RowEntries(row, cols), 0) == (if row == 0 then Length(cols) else 0)
    decreases Length(cols)
  {
    if cols > 0 {
      var r := RowEntries(row, cols);
      assert r == RowEntries(row, cols - 1) + [Cell(row, cols - 1, Normal)];
      CountsAppend(RowEntries(row, cols - 1), [Cell(row, cols - 1, Normal)]);
      RowEntriesCounts(row, cols - 1);
      assert [Cell(row, cols - 1, Normal)][1..] == [];
    }
  }

  /** A generated rectangle has one entry per row in column 0 and one per column in row 0 (when nonempty). */
  lemma {:induction false} GenerateCounts(rows: int, cols: int)
    ensures CountCol(Generate(rows, cols), 0) == (if cols > 0 then Length(rows) else 0)
    ensures CountRow(Generate(rows, cols), 0) == (if rows > 0 then Length(cols) else 0)
    decreases rows
  {
    if rows > 0 {
      GenerateCounts(rows - 1, cols);
      CountsAppend(Generate(rows - 1, cols), RowEntries(rows - 1, cols));
      RowEntriesCounts(rows - 1, cols);
    }
  }

  /**
   * `resetAllCells()`: infer the row count from the entries in column 0 and
   * the column count from the entries in row 0, regenerate an all-NORMAL
   * list, and clear start, end, obstacles and path. Version and dimensions
   * are not touched.
   */
  function ResetAllCells(s: Store): (r: Store)
    ensures r.start == None && r.end == None && r.obstacles == [] && r.path == []
    ensures r.version == s.version && r.rows == s.rows && r.cols == s.cols
    ensures |r.cells| == CountCol(s.cells, 0) * CountRow(s.cells, 0)
    ensures forall k :: 0 <= k < |r.cells| ==>
              0 <= r.cells[k].row < CountCol(s.cells, 0) && 0 <= r.cells[k].col < CountRow(s.cells, 0)
              && r.cells[k].state == Normal
    ensures UniquePositions(r.cells)
    ensures forall i, j :: 0 <= i < CountCol(s.cells, 0) && 0 <= j < CountRow(s.cells, 0) ==> Cell(i, j, Normal) in r.cells
  {
    GenerateCoversOnce(CountCol(s.cells, 0), CountRow(s.cells, 0));
    s.(cells := Generate(CountCol(s.cells, 0), CountRow(s.cells, 0)), start := None, end := None, obstacles := [], path := [])
  }

  /** `setRows(n)`: regenerate the list for `n` rows of the current width. */
  function SetRows(s: Store, n: int): (r: Store)
    ensures r == s.(cells := r.cells, rows := n)
    ensures UniquePositions(r.cells) && |r.cells| == Length(n) * Length(s.cols)
    ensures forall k :: 0 <= k < |r.cells| ==>
              0 <= r.cells[k].row < n && 0 <= r.cells[k].col < s.cols && r.cells[k].state == Normal
    ensures forall i, j :: 0 <= i < n && 0 <= j < s.cols ==> Cell(i, j, Normal) in r.cells
  {
    GenerateCoversOnce(n, s.cols);
    s.(cells := Generate(n, s.cols), rows := n)
  }

  /** `setCols(n)`: regenerate the list for `n` columns at the current height. */
  function SetCols(s: Store, n: int): (r: Store)
    ensures r == s.(cells := r.cells, cols := n)
    ensures UniquePositions(r.cells) && |r.cells| == Length(s.rows) * Length(n)
    ensures forall k :: 0 <= k < |r.cells| ==>
              0 <= r.cells[k].row < s.rows && 0 <= r.cells[k].col < n && r.cells[k].state == Normal
    ensures forall i, j :: 0 <= i < s.rows && 0 <= j < n ==> Cell(i, j, Normal) in r.cells
  {
    GenerateCoversOnce(s.rows, n);
    s.(cells := Generate(s.rows, n), cols := n)
  }

  /**
   * Resetting a store whose list is a full rectangle (as `setRows`/`setCols`
   * leave it) infers that rectangle back and regenerates it.
   */
  lemma ResetInfersRectangle(s: Store, rows: nat, cols: nat)
    requires s.cells == Generate(rows, cols)
    ensures ResetAllCells(s).cells == Generate(rows, cols)
  {
    GenerateCounts(rows, cols);
    if rows == 0 || cols == 0 {
      assert Generate(rows, cols) == [];
      assert CountCol(s.cells, 0) == 0 || CountRow(s.cells, 0) == 0;
      assert Generate(CountCol(s.cells, 0), CountRow(s.cells, 0)) == [] by {
        assert Length(CountCol(s.cells, 0)) * Length(CountRow(s.cells, 0)) == 0;
      }
    }
  }

  /** After `setRows`, the dense view is an all-NORMAL matrix of the new height. */
  lemma RegeneratedViewIsNormal(s: Store, n: int, i: int, j: int)
    requires 0 <= i < n && 0 <= j < s.cols
    ensures GetGridState(SetRows(s, n)).Ok?
    ensures GetGridState(SetRows(s, n)).value[i][j] == Normal
  {
    var r := SetRows(s, n);
    GetGridStateReadsLastEntry(r, i, j);
    GenerateCoversOnce(n, s.cols);
    var k :| 0 <= k < |r.cells| && r.cells[k] == Cell(i, j, Normal);
    LastAtUnique(r.cells, k);
  }

  /** After `setCols`, the dense view is an all-NORMAL matrix of the new width. */
  lemma RegeneratedColsViewIsNormal(s: Store, n: int, i: int, j: int)
    requires 0 <= i < s.rows && 0 <= j < n
    ensures GetGridState(SetCols(s, n)).Ok?
    ensures GetGridState(SetCols(s, n)).value[i][j] == Normal
  {
    var r := SetCols(s, n);
    GetGridStateReadsLastEntry(r, i, j);
    GenerateCoversOnce(s.rows, n);
    var k :| 0 <= k < |r.cells| && r.cells[k] == Cell(i, j, Normal);
    LastAtUnique(r.cells, k);
  }

  // ----- The placeholder path -----

  function Sign(from: int, to: int): int {
    if from <= to then 1 else -1
  }

  /**
   * The L-shaped path `generateRandomPath` is meant to trace: down or up
   * column `start.col` from `start.row` to `end.row`, then along row
   * `end.row` from `start.col` to `end.col`; the corner is listed twice.
   */
  function LPath(start: GridCell, end: GridCell): seq<GridCell> {
    var dr := Sign(start.row, end.row);
    var dc := Sign(start.col, end.col);
    seq(Abs(end.row - start.row) + 1, k => Cell(start.row + dr * k, start.col, Path))
    + seq(Abs(end.col - start.col) + 1, k => Cell(end.row, start.col + dc * k, Path))
  }

  /**
   * `generateRandomPath(cells, start, end)`: walk rows, then columns, one
   * step at a time; the entries (and so the obstacles) are ignored.
   */
  method GenerateRandomPath(cells: seq<GridCell>, start: GridCell, end: GridCell) returns (path: seq<GridCell>)
    ensures path == LPath(start, end)
  {
    var rowDir := if start.row <= end.row then 1 else -1;
    var colDir := if start.col <= end.col then 1 else -1;
    path := [];
    var row := start.row;
    while row != end.row + rowDir
      invariant row == start.row + rowDir * |path|
      invariant |path| <= Abs(end.row - start.row) + 1
      invariant forall k :: 0 <= k < |path| ==> path[k] == Cell(start.row + rowDir * k, start.col, Path)
      decreases Abs(end.row + rowDir - row)
    {
      path := path + [Cell(row, start.col, Path)];
      row := row + rowDir;
    }
    var legLength := |path|;
    var col := start.col;
    while col != end.col + colDir
      invariant col == start.col + colDir * (|path| - legLength)
      invariant legLength <= |path| <= legLength + Abs(end.col - start.col) + 1
      invariant forall k :: 0 <= k < legLength ==> path[k] == Cell(start.row + rowDir * k, start.col, Path)
      invariant forall k :: legLength <= k < |path| ==> path[k] == Cell(end.row, start.col + colDir * (k - legLength), Path)
      decreases Abs(end.col + colDir - col)
    {
      path := path + [Cell(end.row, col, Path)];
      col := col + colDir;
    }
  }

  /**
   * The placeholder path starts at the start, ends at the end, has
   * `|dRow| + |dCol| + 2` entries, lists the corner `(end.row, start.col)`
   * twice, and every step moves at most one cell orthogonally.
   */
  lemma LPathShape(start: GridCell, end: GridCell)
    ensures var p := LPath(start, end);
            var n := Abs(end.row - start.row);
            && |p| == n + Abs(end.col - start.col) + 2
            && At(p[0]) == At(start) && At(p[|p| - 1]) == At(end)
            && p[n] == p[n + 1] == Cell(end.row, start.col, Path)
            && (forall k :: 0 <= k < |p| ==> p[k].state == Path)
            && forall k :: 0 <= k < |p| - 1 ==>
                 Abs(p[k + 1].row - p[k].row) + Abs(p[k + 1].col - p[k].col) <= 1
  {
    var p := LPath(start, end);
    var n := Abs(end.row - start.row);
    var dr := Sign(start.row, end.row);
    var dc := Sign(start.col, end.col);
    assert p[n] == Cell(start.row + dr * n, start.col, Path);
    assert start.row + dr * n == end.row;
    assert p[|p| - 1] == Cell(end.row, start.col + dc * Abs(end.col - start.col), Path);
  }
}
