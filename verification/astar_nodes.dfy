/**
 * The A* helpers exercised by `src/services/aStarHeuristic.test.ts`: the
 * heuristic, the start node, neighbour expansion, the cost update and path
 * reconstruction. Search nodes live in an arena (a sequence) and refer to
 * their parent by index, so a parent chain is a strictly decreasing chain
 * of indices.
 */
module AStarNodes {
  import opened Js
  import opened Board
  import opened Enums

  /** An A* search node: position, cost so far `g`, estimate `h`, total `f`, and its parent's arena index. */
  datatype Node = Node(row: int, col: int, g: int, h: int, f: int, parent: Option<nat>)

  /** What a search returns: the path, start first, and the nodes expanded, in expansion order. */
  datatype SearchResult = SearchResult(path: seq<Node>, visitedNodes: seq<Node>)

  function Pos(n: Node): Tile {
    Tile(n.row, n.col)
  }

  function Max(a: int, b: int): int {
    if a < b then b else a
  }

  /** Squared Euclidean distance between two positions. */
  function SqDist(a: Tile, b: Tile): nat {
    (a.row - b.row) * (a.row - b.row) + (a.col - b.col) * (a.col - b.col)
  }

  lemma SquareMonotone(a: nat, b: nat)
    requires a <= b
    ensures a * a <= b * b
  {
    assert a * a <= a * b <= b * b;
  }

  lemma SqDistZero(a: Tile, b: Tile)
    ensures SqDist(a, b) == 0 <==> a == b
  {
    if a.row != b.row {
      SquareMonotone(1, Abs(a.row - b.row));
    } else if a.col != b.col {
      SquareMonotone(1, Abs(a.col - b.col));
    }
  }

  /** Doubling a square root of `n / 4` brackets the square root of `n` within one. */
  lemma HalvingStep(n: nat, s: nat)
    requires s * s <= n / 4 < (s + 1) * (s + 1)
    ensures (2 * s) * (2 * s) <= n < (2 * s + 2) * (2 * s + 2)
  {
    var m := n / 4;
    assert 4 * m <= n < 4 * m + 4;
    assert (2 * s) * (2 * s) == 4 * (s * s);
    assert (2 * s + 2) * (2 * s + 2) == 4 * ((s + 1) * (s + 1));
    assert m + 1 <= (s + 1) * (s + 1);
  }

  /** Integer square root: the largest `r` with `r * r <= n`. */
  function Isqrt(n: nat): (r: nat)
    ensures r * r <= n < (r + 1) * (r + 1)
  {
    if n < 4 then (if n == 0 then 0 else 1)
    else
      var s := Isqrt(n / 4);
      HalvingStep(n, s);
      if (2 * s + 1) * (2 * s + 1) <= n then 2 * s + 1 else 2 * s
  }

  /** The integer square root is the only `r` with `r * r <= n < (r + 1) * (r + 1)`. */
  lemma IsqrtUnique(n: nat, r: nat)
    requires r * r <= n < (r + 1) * (r + 1)
    ensures Isqrt(n) == r
  {
    var s := Isqrt(n);
    if s < r {
      SquareMonotone(s + 1, r);
    } else if r < s {
      SquareMonotone(r + 1, s);
    }
  }

  /**
   * The heuristic pinned by the test vectors: ten times the Euclidean
   * distance, rounded down, computed without floating point.
   */
  function Heuristic(a: Tile, b: Tile): (h: nat)
    ensures h * h <= 100 * SqDist(a, b) < (h + 1) * (h + 1)
    ensures h == 0 <==> a == b
  {
    SqDistZero(a, b);
    Isqrt(100 * SqDist(a, b))
  }

  /** The heuristic does not depend on the direction of travel. */
  lemma HeuristicSymmetric(a: Tile, b: Tile)
    ensures Heuristic(a, b) == Heuristic(b, a)
  {
    assert SqDist(a, b) == SqDist(b, a) by {
      assert (a.row - b.row) * (a.row - b.row) == (b.row - a.row) * (b.row - a.row);
      assert (a.col - b.col) * (a.col - b.col) == (b.col - a.col) * (b.col - a.col);
    }
  }

  /**
   * The heuristic lies between ten times the Chebyshev distance and ten times
   * the Manhattan distance; in particular it is not the Manhattan distance.
   */
  lemma HeuristicBounds(a: Tile, b: Tile)
    ensures 10 * Max(Abs(a.row - b.row), Abs(a.col - b.col)) <= Heuristic(a, b)
    ensures Heuristic(a, b) <= 10 * (Abs(a.row - b.row) + Abs(a.col - b.col))
  {
    var dr, dc := Abs(a.row - b.row), Abs(a.col - b.col);
    SqDistAbs(a, b);
    SquareBetween(dr, dc);
    RootBetween(Heuristic(a, b), 100 * SqDist(a, b), 10 * Max(dr, dc), 10 * (dr + dc));
  }

  /** A root of `n` lies between any `lo` and `hi` whose squares bracket `n`. */
  lemma RootBetween(h: nat, n: nat, lo: nat, hi: nat)
    requires h * h <= n < (h + 1) * (h + 1)
    requires lo * lo <= n <= hi * hi
    ensures lo <= h <= hi
  {
    if h < lo {
      SquareMonotone(h + 1, lo);
    }
    if hi < h {
      SquareMonotone(hi + 1, h);
    }
  }

  lemma SqDistAbs(a: Tile, b: Tile)
    ensures SqDist(a, b) == Abs(a.row - b.row) * Abs(a.row - b.row) + Abs(a.col - b.col) * Abs(a.col - b.col)
  {
  }

  /** `(10 max(x, y))^2 <= 100 (x^2 + y^2) <= (10 (x + y))^2`. */
  lemma SquareBetween(x: nat, y: nat)
    ensures (10 * Max(x, y)) * (10 * Max(x, y)) <= 100 * (x * x + y * y)
    ensures 100 * (x * x + y * y) <= (10 * (x + y)) * (10 * (x + y))
  {
    var m := Max(x, y);
    assert (10 * m) * (10 * m) == 100 * (m * m);
    assert m * m <= x * x + y * y;
    assert (10 * (x + y)) * (10 * (x + y)) == 100 * ((x + y) * (x + y));
    assert (x + y) * (x + y) == x * x + y * y + 2 * (x * y);
    assert 0 <= x * y;
  }

  /** `initializeStartNode`: the root of the search, at the start, with no cost yet. */
  function InitializeStartNode(start: Cell<CellState>, end: Cell<CellState>): (n: Node)
    ensures Pos(n) == At(start)
    ensures n.g == 0 && n.f == n.h && n.parent == None
    ensures n.h == Heuristic(At(start), At(end))
  {
    var h := Heuristic(At(start), At(end));
    Node(start.row, start.col, 0, h, h, None)
  }

  /** The four orthogonal moves, then the four diagonal ones, in expansion order. */
  const Orthogonal: seq<Tile> := [Tile(-1, 0), Tile(1, 0), Tile(0, -1), Tile(0, 1)]
  const Diagonal: seq<Tile> := [Tile(-1, -1), Tile(-1, 1), Tile(1, -1), Tile(1, 1)]

  function Directions(allowDiagonal: bool): seq<Tile> {
    if allowDiagonal then Orthogonal + Diagonal else Orthogonal
  }

  /** `b` is one king move (or, without diagonals, one rook step) away from `a`. */
  predicate Adjacent(a: Tile, b: Tile, allowDiagonal: bool) {
    && a != b
    && Abs(a.row - b.row) <= 1
    && Abs(a.col - b.col) <= 1
    && (allowDiagonal || a.row == b.row || a.col == b.col)
  }

  function Shift(t: Tile, d: Tile): Tile {
    Tile(t.row + d.row, t.col + d.col)
  }

  /** The move table lists exactly the adjacent offsets. */
  lemma DirectionsAreAdjacent(from: Tile, to: Tile, allowDiagonal: bool)
    ensures Adjacent(from, to, allowDiagonal) <==>
            exists k :: 0 <= k < |Directions(allowDiagonal)| && Shift(from, Directions(allowDiagonal)[k]) == to
  {
    var ds := Directions(allowDiagonal);
    if Adjacent(from, to, allowDiagonal) {
      var d := Tile(to.row - from.row, to.col - from.col);
      assert Shift(from, d) == to;
      assert d in ds;
    }
  }

  /** A cell the search may enter: inside the grid and not an obstacle. */
  predicate Walkable(grid: Grid<CellState>, t: Tile) {
    InBounds(grid, t) && grid[t.row][t.col].state != Obstacle
  }

  /** Every cell records its own position. */
  ghost predicate Indexed(grid: Grid<CellState>) {
    forall r, c :: 0 <= r < |grid| && 0 <= c < |grid[r]| ==> At(grid[r][c]) == Tile(r, c)
  }

  /** The walkable cells reached from `from` by the moves `dirs`, in move order. */
  function Collect(grid: Grid<CellState>, from: Tile, dirs: seq<Tile>): (r: seq<Cell<CellState>>)
    ensures |r| <= |dirs|
  {
    if |dirs| == 0 then []
    else
      var t := Shift(from, dirs[0]);
      var rest := Collect(grid, from, dirs[1..]);
      if Walkable(grid, t) then [grid[t.row][t.col]] + rest else rest
  }

  /** `Collect` keeps exactly the cells of the moves that land on walkable cells. */
  lemma {:induction false} CollectMembers(grid: Grid<CellState>, from: Tile, dirs: seq<Tile>)
    ensures forall x :: x in Collect(grid, from, dirs) ==>
              exists k :: 0 <= k < |dirs| && Walkable(grid, Shift(from, dirs[k]))
                          && x == grid[Shift(from, dirs[k]).row][Shift(from, dirs[k]).col]
    ensures forall k :: 0 <= k < |dirs| && Walkable(grid, Shift(from, dirs[k])) ==>
              grid[Shift(from, dirs[k]).row][Shift(from, dirs[k]).col] in Collect(grid, from, dirs)
  {
    if |dirs| > 0 {
      CollectMembers(grid, from, dirs[1..]);
      assert forall k :: 1 <= k < |dirs| ==> dirs[k] == dirs[1..][k - 1];
    }
  }

  /**
   * `getNeighbors(node, grid, allowDiagonal = true)`: the walkable cells one
   * move away, orthogonal moves first; obstacles and cells outside the grid
   * are dropped.
   */
  function GetNeighbors(node: Node, grid: Grid<CellState>, allowDiagonal: bool := true): (r: seq<Cell<CellState>>)
    ensures |r| <= (if allowDiagonal then 8 else 4)
    ensures forall x :: x in r ==> x.state != Obstacle
    ensures forall x :: x in r ==> exists t :: Adjacent(Pos(node), t, allowDiagonal) && Walkable(grid, t) && x == grid[t.row][t.col]
    ensures forall t :: Adjacent(Pos(node), t, allowDiagonal) && Walkable(grid, t) ==> grid[t.row][t.col] in r
    ensures Indexed(grid) ==>
              forall x :: x in r ==> Adjacent(Pos(node), At(x), allowDiagonal) && Walkable(grid, At(x))
  {
    var ds := Directions(allowDiagonal);
    var r := Collect(grid, Pos(node), ds);
    CollectMembers(grid, Pos(node), ds);
    forall x | x in r
      ensures exists t :: Adjacent(Pos(node), t, allowDiagonal) && Walkable(grid, t) && x == grid[t.row][t.col]
    {
      var k :| 0 <= k < |ds| && Walkable(grid, Shift(Pos(node), ds[k]))
               && x == grid[Shift(Pos(node), ds[k]).row][Shift(Pos(node), ds[k]).col];
      DirectionsAreAdjacent(Pos(node), Shift(Pos(node), ds[k]), allowDiagonal);
    }
    forall t | Adjacent(Pos(node), t, allowDiagonal) && Walkable(grid, t)
      ensures grid[t.row][t.col] in r
    {
      DirectionsAreAdjacent(Pos(node), t, allowDiagonal);
    }
    r
  }

  /** Cost of one move: 10 for an orthogonal step, 14 for a diagonal one. */
  function StepCost(a: Tile, b: Tile): nat {
    if a.row == b.row || a.col == b.col then 10 else 14
  }

  /**
   * `calculateCosts(node, neighbor, end)`: the node for `neighbor` reached
   * through `node` (stored at arena index `index`).
   */
  function CalculateCosts(node: Node, index: nat, neighbor: Cell<CellState>, end: Cell<CellState>): (n: Node)
    ensures Pos(n) == At(neighbor) && n.parent == Some(index)
    ensures n.g == node.g + StepCost(Pos(node), At(neighbor))
    ensures n.h == Heuristic(At(neighbor), At(end)) && n.f == n.g + n.h
  {
    var g := node.g + StepCost(Pos(node), At(neighbor));
    var h := Heuristic(At(neighbor), At(end));
    Node(neighbor.row, neighbor.col, g, h, g + h, Some(index))
  }

  /** Every parent link points to an earlier arena entry. */
  ghost predicate ValidArena(arena: seq<Node>) {
    forall k :: 0 <= k < |arena| && arena[k].parent.Some? ==> arena[k].parent.value < k
  }

  /**
   * `reconstructPath(node)`: follow parent links from arena entry `i` back to
   * a root and list the nodes root first.
   */
  function ReconstructPath(arena: seq<Node>, i: nat): (path: seq<Node>)
    requires ValidArena(arena) && i < |arena|
    ensures |path| >= 1 && path[|path| - 1] == arena[i]
    ensures path[0].parent == None
    ensures forall k :: 0 <= k < |path| ==> path[k] in arena
    ensures forall k :: 0 < k < |path| ==>
              && path[k].parent.Some?
              && path[k].parent.value < |arena|
              && arena[path[k].parent.value] == path[k - 1]
    decreases i
  {
    match arena[i].parent
    case None => [arena[i]]
    case Some(p) => ReconstructPath(arena, p) + [arena[i]]
  }
}
