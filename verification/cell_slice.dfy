/**
 * The grid slice of `src/Cell/grid-slice.ts`, the copy the bound store
 * actually uses. It declares its own four-member numeric enum, and its
 * `setCellState` dispatches with `switch (CellState[state])`: the reverse
 * mapping of a numeric enum yields the member's NAME, a string, while every
 * `case` label is a number, so under `===` no arm is ever taken and the
 * start, end and obstacle tiles are never recorded.
 */
module CellSlice {
  import opened Js
  import opened Board

  /** `enum CellState { Empty, Start, End, Obstacle }`. */
  datatype CellState = Empty | Start | End | Obstacle

  /** The number TypeScript assigns to each member, in declaration order. */
  function Ordinal(st: CellState): int {
    match st
    case Empty => 0
    case Start => 1
    case End => 2
    case Obstacle => 3
  }

  /** `CellState[st]`: the reverse mapping of a numeric enum, from number to member name. */
  function Name(st: CellState): string {
    match st
    case Empty => "Empty"
    case Start => "Start"
    case End => "End"
    case Obstacle => "Obstacle"
  }

  /** The JavaScript values a `switch` here can compare: numbers and strings. */
  datatype JsValue = Num(n: int) | Str(s: string)

  /**
   * The arm that `switch (disc)` with the labels `CellState.Start`, `.End`,
   * `.Obstacle`, `.Empty` (in that order) selects under `===`: none when the
   * discriminant is a string.
   */
  function Dispatch(disc: JsValue): (arm: Option<CellState>)
    ensures arm.Some? ==> disc == Num(Ordinal(arm.value))
    ensures disc.Str? ==> arm == None
    ensures forall st :: disc == Num(Ordinal(st)) ==> arm == Some(st)
  {
    if disc == Num(Ordinal(Start)) then Some(Start)
    else if disc == Num(Ordinal(End)) then Some(End)
    else if disc == Num(Ordinal(Obstacle)) then Some(Obstacle)
    else if disc == Num(Ordinal(Empty)) then Some(Empty)
    else None
  }

  datatype State = State(
    cells: Grid<CellState>,
    rows: int,
    columns: int,
    startTile: Option<Tile>,
    endTile: Option<Tile>,
    obstacleTiles: seq<Tile>)

  /** The store's initial value: an 8 x 12 grid of empty cells and nothing placed. */
  function Initial(): (s: State)
    ensures WellFormed(s.cells, 8, 12) && s.rows == 8 && s.columns == 12
    ensures NoTiles(s)
  {
    State(Blank(8, 12, Empty), 8, 12, None, None, [])
  }

  /** No start, end or obstacle tile is recorded. */
  predicate NoTiles(s: State) {
    s.startTile == None && s.endTile == None && s.obstacleTiles == []
  }

  /** `setNumberOfColumns(n)`: grow or truncate every row; only `cells` and `columns` change. */
  function SetNumberOfColumns(s: State, n: int): (r: Result<State>)
    ensures r.TypeError? <==> GrowThrows(s.cells, s.columns, n)
    ensures r.Ok? ==> r.value == s.(cells := r.value.cells, columns := n)
    ensures r.Ok? && WellFormed(s.cells, s.rows, s.columns) && 0 <= n ==>
              && WellFormed(r.value.cells, s.rows, n)
              && (forall i, j :: 0 <= i < s.rows && 0 <= j < Min(s.columns, n) ==> r.value.cells[i][j] == s.cells[i][j])
              && (forall i, j :: 0 <= i < s.rows && s.columns <= j < n ==> r.value.cells[i][j].state == Empty)
  {
    match ResizeColumns(s.cells, s.columns, n, Empty)
    case TypeError => TypeError
    case Ok(cells) =>
      ResizeColumnsWellFormedWhenOk(s.cells, s.rows, s.columns, n);
      Ok(s.(cells := cells, columns := n))
  }

  /** Connects the generic resize lemma to this slice's enum; the implication keeps it callable from a function body. */
  lemma ResizeColumnsWellFormedWhenOk(cells: Grid<CellState>, rows: int, columns: int, n: int)
    ensures ResizeColumns(cells, columns, n, Empty).Ok? && WellFormed(cells, rows, columns) && 0 <= n ==>
              var r := ResizeColumns(cells, columns, n, Empty).value;
              && WellFormed(r, rows, n)
              && (forall i, j :: 0 <= i < rows && 0 <= j < Min(columns, n) ==> r[i][j] == cells[i][j])
              && (forall i, j :: 0 <= i < rows && columns <= j < n ==> r[i][j].state == Empty)
  {
    if WellFormed(cells, rows, columns) && 0 <= n {
      ResizeColumnsWellFormed(cells, rows, columns, n, Empty);
    }
  }

  /** `setNumberOfRows(n)`: append Empty rows or keep the first `n`; only `cells` and `rows` change. */
  function SetNumberOfRows(s: State, n: int): (r: State)
    ensures r == s.(cells := r.cells, rows := n)
    ensures WellFormed(s.cells, s.rows, s.columns) && 0 <= n ==>
              && WellFormed(r.cells, n, s.columns)
              && (forall i :: 0 <= i < Min(s.rows, n) ==> r.cells[i] == s.cells[i])
              && (forall i, j :: s.rows <= i < n && 0 <= j < s.columns ==> r.cells[i][j].state == Empty)
  {
    ResizeRowsWellFormedWhen(s.cells, s.rows, s.columns, n);
    s.(cells := ResizeRows(s.cells, s.rows, s.columns, n, Empty), rows := n)
  }

  lemma ResizeRowsWellFormedWhen(cells: Grid<CellState>, rows: int, columns: int, n: int)
    ensures WellFormed(cells, rows, columns) && 0 <= n ==>
              var r := ResizeRows(cells, rows, columns, n, Empty);
              && WellFormed(r, n, columns)
              && (forall i :: 0 <= i < Min(rows, n) ==> r[i] == cells[i])
              && (forall i, j :: rows <= i < n && 0 <= j < columns ==> r[i][j].state == Empty)
  {
    if WellFormed(cells, rows, columns) && 0 <= n {
      ResizeRowsWellFormed(cells, rows, columns, n, Empty);
    }
  }

  /**
   * When `setCellState` throws: the target cell is missing, or a Start (End)
   * placement finds the recorded start (end) tile outside the grid.
   */
  predicate Throws(s: State, row: int, col: int, st: CellState) {
    || !InBounds(s.cells, Tile(row, col))
    || (st == Start && s.startTile.Some? && !InBounds(s.cells, s.startTile.value))
    || (st == End && s.endTile.Some? && !InBounds(s.cells, s.endTile.value))
  }

  /**
   * `cells` is the grid after a placement of `st` at `(row, col)`: same shape,
   * the target takes `st`, the previous start (end) cell is emptied by a Start
   * (End) placement, and every other cell is unchanged.
   */
  ghost predicate Repainted(s: State, row: int, col: int, st: CellState, cells: Grid<CellState>) {
    && SameShape(s.cells, cells)
    && InBounds(s.cells, Tile(row, col))
    && cells[row][col] == s.cells[row][col].(state := st)
    && forall i, j :: 0 <= i < |s.cells| && 0 <= j < |s.cells[i]| && Tile(i, j) != Tile(row, col) ==>
         if (st == Start && s.startTile == Some(Tile(i, j))) || (st == End && s.endTile == Some(Tile(i, j)))
         then cells[i][j] == s.cells[i][j].(state := Empty)
         else cells[i][j] == s.cells[i][j]
  }

  /** The Obstacle arm: the tile is appended unless some listed tile already has its position. */
  function PushOnce(tiles: seq<Tile>, t: Tile): (r: seq<Tile>)
    ensures t in r && multiset(r)[t] == (if t in tiles then multiset(tiles)[t] else 1)
    ensures forall u :: u != t ==> multiset(r)[u] == multiset(tiles)[u]
    ensures tiles <= r
  {
    if t in tiles then tiles else tiles + [t]
  }

  /**
   * The cell writes of `setCellState`: placing a Start (End) first empties
   * the previous start (end) cell, then the cell takes its new state.
   */
  function Repaint(s: State, row: int, col: int, st: CellState): (r: Result<Grid<CellState>>)
    ensures r.TypeError? <==> Throws(s, row, col, st)
    ensures r.Ok? ==> Repainted(s, row, col, st, r.value)
  {
    var c1 := if st == Start && s.startTile.Some? then Write(s.cells, s.startTile.value, Empty) else Ok(s.cells);
    if c1.TypeError? then TypeError
    else
      var c2 := if st == End && s.endTile.Some? then Write(c1.value, s.endTile.value, Empty) else Ok(c1.value);
      if c2.TypeError? then TypeError
      else Write(c2.value, Tile(row, col), st)
  }

  /**
   * The body of `setCellState` with the `switch` discriminant `disc` as a
   * parameter: placing a Start (End) first empties the previous start (end)
   * cell and forgets that tile, then the cell takes its new state, then the
   * selected arm (if any) records the tile.
   */
  function Place(s: State, row: int, col: int, st: CellState, disc: JsValue): (r: Result<State>)
    ensures r.TypeError? <==> Throws(s, row, col, st)
    ensures r.Ok? ==> r.value.rows == s.rows && r.value.columns == s.columns && Repainted(s, row, col, st, r.value.cells)
    ensures r.Ok? && Dispatch(disc) == Some(Start) ==> r.value.startTile == Some(Tile(row, col))
    ensures r.Ok? && Dispatch(disc) != Some(Start) ==> r.value.startTile == (if st == Start then None else s.startTile)
    ensures r.Ok? && Dispatch(disc) == Some(End) ==> r.value.endTile == Some(Tile(row, col))
    ensures r.Ok? && Dispatch(disc) != Some(End) ==> r.value.endTile == (if st == End then None else s.endTile)
    ensures r.Ok? && Dispatch(disc) == Some(Obstacle) ==> r.value.obstacleTiles == PushOnce(s.obstacleTiles, Tile(row, col))
    ensures r.Ok? && Dispatch(disc) == Some(Empty) ==> r.value.obstacleTiles == Remove(s.obstacleTiles, Tile(row, col))
    ensures r.Ok? && Dispatch(disc) !in {Some(Obstacle), Some(Empty)} ==> r.value.obstacleTiles == s.obstacleTiles
  {
    var c := Repaint(s, row, col, st);
    if c.TypeError? then TypeError
    else
      var t := Tile(row, col);
      var cleared := s.(cells := c.value,
                        startTile := if st == Start && s.startTile.Some? then None else s.startTile,
                        endTile := if st == End && s.endTile.Some? then None else s.endTile);
      Ok(match Dispatch(disc)
         case Some(Start) => cleared.(startTile := Some(t))
         case Some(End) => cleared.(endTile := Some(t))
         case Some(Obstacle) =>
           cleared.(obstacleTiles := PushOnce(s.obstacleTiles, t))
         case Some(Empty) => cleared.(obstacleTiles := Remove(s.obstacleTiles, t))
         case None => cleared)
  }

  /**
   * `setCellState(row, col, state)` as written, switching on the member name
   * `CellState[state]`: the cell takes the new state, a Start or End placement
   * forgets the previous tile, and no tile is ever recorded.
   */
  function SetCellState(s: State, row: int, col: int, st: CellState): (r: Result<State>)
    ensures r.TypeError? <==> Throws(s, row, col, st)
    ensures r.Ok? ==> InBounds(s.cells, Tile(row, col)) && SameShape(s.cells, r.value.cells)
    ensures r.Ok? ==> r.value.rows == s.rows && r.value.columns == s.columns && Repainted(s, row, col, st, r.value.cells)
    ensures r.Ok? ==> r.value.cells[row][col] == s.cells[row][col].(state := st)
    ensures r.Ok? ==> r.value.obstacleTiles == s.obstacleTiles
    ensures r.Ok? ==> (r.value.startTile == None || r.value.startTile == s.startTile)
                      && (r.value.endTile == None || r.value.endTile == s.endTile)
    ensures r.Ok? ==> r.value.startTile == (if st == Start then None else s.startTile)
    ensures r.Ok? ==> r.value.endTile == (if st == End then None else s.endTile)
  {
    Place(s, row, col, st, Str(Name(st)))
  }

  /** `setCellState` as evidently intended: `switch (state)` on the enum number. */
  function SetCellStateIntended(s: State, row: int, col: int, st: CellState): (r: Result<State>)
    ensures r.TypeError? <==> Throws(s, row, col, st)
    ensures r.Ok? ==> InBounds(s.cells, Tile(row, col)) && SameShape(s.cells, r.value.cells)
    ensures r.Ok? ==> r.value.rows == s.rows && r.value.columns == s.columns && Repainted(s, row, col, st, r.value.cells)
    ensures r.Ok? ==> r.value.cells[row][col] == s.cells[row][col].(state := st)
    ensures r.Ok? && st == Start ==> r.value.startTile == Some(Tile(row, col))
    ensures r.Ok? && st != Start ==> r.value.startTile == s.startTile
    ensures r.Ok? && st == End ==> r.value.endTile == Some(Tile(row, col))
    ensures r.Ok? && st != End ==> r.value.endTile == s.endTile
    ensures r.Ok? && st == Obstacle ==> r.value.obstacleTiles == PushOnce(s.obstacleTiles, Tile(row, col))
    ensures r.Ok? && st == Empty ==> r.value.obstacleTiles == Remove(s.obstacleTiles, Tile(row, col))
    ensures r.Ok? && st in {Start, End} ==> r.value.obstacleTiles == s.obstacleTiles
  {
    Place(s, row, col, st, Num(Ordinal(st)))
  }

  /** `resetCells()`: every cell Empty, nothing placed; dimensions kept. */
  function ResetCells(s: State): (r: State)
    ensures SameShape(s.cells, r.cells) && r.rows == s.rows && r.columns == s.columns
    ensures forall i, j :: 0 <= i < |s.cells| && 0 <= j < |s.cells[i]| ==>
              At(r.cells[i][j]) == At(s.cells[i][j]) && r.cells[i][j].state == Empty
    ensures NoTiles(r)
  {
    var cells := seq(|s.cells|, i requires 0 <= i < |s.cells| =>
      seq(|s.cells[i]|, j requires 0 <= j < |s.cells[i]| => s.cells[i][j].(state := Empty)));
    State(cells, s.rows, s.columns, None, None, [])
  }

  /** The actions of the slice, as a caller issues them. */
  datatype Action =
    | SetColumns(n: int)
    | SetRows(n: int)
    | SetCell(row: int, col: int, st: CellState)
    | Reset

  /** One action; an action that throws leaves the store as it was. */
  function Step(s: State, a: Action): State {
    match a
    case SetColumns(n) => SetNumberOfColumns(s, n).GetOr(s)
    case SetRows(n) => SetNumberOfRows(s, n)
    case SetCell(row, col, st) => SetCellState(s, row, col, st).GetOr(s)
    case Reset => ResetCells(s)
  }

  /** The state after a sequence of actions, first action first. */
  function Run(s: State, actions: seq<Action>): State
    decreases |actions|
  {
    if |actions| == 0 then s else Run(Step(s, actions[0]), actions[1..])
  }

  /** Every action keeps the store free of recorded tiles. */
  lemma StepKeepsNoTiles(s: State, a: Action)
    requires NoTiles(s)
    ensures NoTiles(Step(s, a))
  {
  }

  /**
   * Whatever the user does from the initial state, `startTile`, `endTile`
   * and `obstacleTiles` stay empty.
   */
  lemma {:induction false} NoTilesEverRecorded(s: State, actions: seq<Action>)
    requires NoTiles(s)
    ensures NoTiles(Run(s, actions))
    decreases |actions|
  {
    if |actions| > 0 {
      StepKeepsNoTiles(s, actions[0]);
      NoTilesEverRecorded(Step(s, actions[0]), actions[1..]);
    }
  }

  /**
   * Consequently, in every reachable state the pre-clearing of a previous
   * start or end cell never runs: placing a cell changes that cell only.
   */
  lemma ReachablePlacementChangesOneCell(actions: seq<Action>, row: int, col: int, st: CellState)
    requires SetCellState(Run(Initial(), actions), row, col, st).Ok?
    ensures var s := Run(Initial(), actions);
            var t := SetCellState(s, row, col, st).value;
            && t.cells[row][col] == s.cells[row][col].(state := st)
            && forall i, j :: 0 <= i < |s.cells| && 0 <= j < |s.cells[i]| && Tile(i, j) != Tile(row, col) ==>
                 t.cells[i][j] == s.cells[i][j]
  {
    NoTilesEverRecorded(Initial(), actions);
  }

  /** Two Start placements in a row leave two Start cells on the grid. */
  lemma TwoStartsCoexist()
    ensures SetCellState(Initial(), 0, 0, Start).Ok?
    ensures var s1 := SetCellState(Initial(), 0, 0, Start).value;
            && SetCellState(s1, 1, 1, Start).Ok?
            && SetCellState(s1, 1, 1, Start).value.cells[0][0].state == Start
            && SetCellState(s1, 1, 1, Start).value.cells[1][1].state == Start
  {
    var s1 := SetCellState(Initial(), 0, 0, Start).value;
    assert s1.startTile == None;
    var s2 := SetCellState(s1, 1, 1, Start).value;
    assert s2.cells[0][0] == s1.cells[0][0];
  }

  /** Every Start cell is the recorded start tile: there is at most one. */
  ghost predicate SingleStart(s: State) {
    forall i, j :: 0 <= i < |s.cells| && 0 <= j < |s.cells[i]| && s.cells[i][j].state == Start ==>
      s.startTile == Some(Tile(i, j))
  }

  /** With the intended dispatch, any placement keeps at most one Start cell, and a Start placement is it. */
  lemma IntendedKeepsSingleStart(s: State, row: int, col: int, st: CellState)
    requires SingleStart(s) && SetCellStateIntended(s, row, col, st).Ok?
    ensures SingleStart(SetCellStateIntended(s, row, col, st).value)
    ensures st == Start ==> SetCellStateIntended(s, row, col, st).value.startTile == Some(Tile(row, col))
  {
    var t := SetCellStateIntended(s, row, col, st).value;
    assert Dispatch(Num(Ordinal(st))) == Some(st);
    forall i, j | 0 <= i < |t.cells| && 0 <= j < |t.cells[i]| && t.cells[i][j].state == Start
      ensures t.startTile == Some(Tile(i, j))
    {
      if Tile(i, j) != Tile(row, col) {
        assert s.cells[i][j].state == Start;
      }
    }
  }

  /** The as-written slice breaks that property: the two Start cells above are distinct. */
  lemma AsWrittenBreaksSingleStart()
    ensures SetCellState(Initial(), 0, 0, Start).Ok?
    ensures var s1 := SetCellState(Initial(), 0, 0, Start).value;
            SetCellState(s1, 1, 1, Start).Ok? && !SingleStart(SetCellState(s1, 1, 1, Start).value)
  {
    TwoStartsCoexist();
    var s1 := SetCellState(Initial(), 0, 0, Start).value;
    var s2 := SetCellState(s1, 1, 1, Start).value;
    assert |s2.cells| == 8 && |s2.cells[0]| == 12 && |s2.cells[1]| == 12;
  }
}
