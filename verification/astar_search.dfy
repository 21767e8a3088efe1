/**
 * The A* search `aStar(grid, start, end, allowDiagonal = true)` whose behaviour
 * `src/services/aStarHeuristic.test.ts` pins. The open list holds arena
 * indices in insertion order; the closed list holds the expanded nodes in
 * expansion order and is returned as `visitedNodes`. A cost improvement
 * appends a new node to the arena and redirects the open entry to it, so a
 * parent index is always smaller than its child's.
 */
module AStarSearch {
  import opened Js
  import opened Board
  import opened Enums
  import opened AStarNodes

  datatype Frontier = Frontier(arena: seq<Node>, open: seq<nat>, closed: seq<Node>)

  /** The positions of a list of nodes. */
  function Positions(nodes: seq<Node>): (r: set<Tile>)
    ensures forall k :: 0 <= k < |nodes| ==> Pos(nodes[k]) in r
    ensures forall t :: t in r ==> exists k :: 0 <= k < |nodes| && Pos(nodes[k]) == t
  {
    if |nodes| == 0 then {}
    else
      var init := nodes[..|nodes| - 1];
      assert forall k :: 0 <= k < |init| ==> init[k] == nodes[k];
      Positions(init) + {Pos(nodes[|nodes| - 1])}
  }

  /** Every position a search node can take: the grid's cells and the start. */
  ghost function Universe(grid: Grid<CellState>, start: Tile): set<Tile> {
    (set r, c | 0 <= r < |grid| && 0 <= c < |grid[r]| :: Tile(r, c)) + {start}
  }

  /** Arena entry `k` was reached from its parent by one legal move, with the costs of `calculateCosts`. */
  ghost predicate Linked(grid: Grid<CellState>, end: Cell<CellState>, allowDiagonal: bool, arena: seq<Node>, k: nat)
    requires k < |arena|
  {
    && arena[k].parent.Some?
    && arena[k].parent.value < k
    && var p := arena[arena[k].parent.value];
       && Adjacent(Pos(p), Pos(arena[k]), allowDiagonal)
       && Walkable(grid, Pos(arena[k]))
       && arena[k].g == p.g + StepCost(Pos(p), Pos(arena[k]))
       && arena[k].h == Heuristic(Pos(arena[k]), At(end))
       && arena[k].f == arena[k].g + arena[k].h
  }

  /** The arena: the start node first, every other node linked to an earlier one. */
  ghost predicate ArenaInv(grid: Grid<CellState>, start: Cell<CellState>, end: Cell<CellState>, allowDiagonal: bool, arena: seq<Node>) {
    && |arena| >= 1
    && arena[0] == InitializeStartNode(start, end)
    && forall k :: 0 < k < |arena| ==> Linked(grid, end, allowDiagonal, arena, k)
  }

  /** Open entries point into the arena, at distinct positions of the universe that are not closed. */
  ghost predicate OpenInv(grid: Grid<CellState>, start: Cell<CellState>, arena: seq<Node>, open: seq<nat>, closed: set<Tile>) {
    && (forall i :: 0 <= i < |open| ==>
          && open[i] < |arena|
          && Pos(arena[open[i]]) in Universe(grid, At(start))
          && Pos(arena[open[i]]) !in closed)
    && forall i, j :: 0 <= i < j < |open| ==> Pos(arena[open[i]]) != Pos(arena[open[j]])
  }

  /** No position is expanded twice. */
  ghost predicate DistinctPositions(nodes: seq<Node>) {
    forall i, j :: 0 <= i < j < |nodes| ==> Pos(nodes[i]) != Pos(nodes[j])
  }

  /**
   * The search state between iterations: a sound arena and a sound
   * frontier, every walkable neighbour of a closed position already seen,
   * and every closed position reachable from the start.
   */
  ghost predicate Inv(grid: Grid<CellState>, start: Cell<CellState>, end: Cell<CellState>, allowDiagonal: bool, s: Frontier) {
    && ArenaInv(grid, start, end, allowDiagonal, s.arena)
    && FrontierInv(grid, start, end, s)
    && Closure(grid, allowDiagonal, s)
    && ClosedReachable(grid, start, allowDiagonal, s)
  }

  // ----- Reachability -----

  /** `w` is a walk of legal moves: each step goes one move onto a walkable cell. */
  ghost predicate Walk(grid: Grid<CellState>, allowDiagonal: bool, w: seq<Tile>) {
    && |w| >= 1
    && forall k :: 0 < k < |w| ==> Adjacent(w[k - 1], w[k], allowDiagonal) && Walkable(grid, w[k])
  }

  /** Some walk leads from `from` to `to`. */
  ghost predicate Reachable(grid: Grid<CellState>, allowDiagonal: bool, from: Tile, to: Tile) {
    exists w :: Walk(grid, allowDiagonal, w) && w[0] == from && w[|w| - 1] == to
  }

  /** The positions held by open entries. */
  ghost function OpenPositions(s: Frontier): set<Tile> {
    set i | 0 <= i < |s.open| && s.open[i] < |s.arena| :: Pos(s.arena[s.open[i]])
  }

  /** The positions the search has seen: closed, or held by an open entry. */
  ghost function Seen(s: Frontier): set<Tile> {
    Positions(s.closed) + OpenPositions(s)
  }

  /** Every walkable neighbour of a closed position has been seen. */
  ghost predicate Closure(grid: Grid<CellState>, allowDiagonal: bool, s: Frontier) {
    forall a, t :: a in Positions(s.closed) && Adjacent(a, t, allowDiagonal) && Walkable(grid, t) ==> t in Seen(s)
  }

  /** Every closed position is reachable from the start. */
  ghost predicate ClosedReachable(grid: Grid<CellState>, start: Cell<CellState>, allowDiagonal: bool, s: Frontier) {
    forall k :: 0 <= k < |s.closed| ==> Reachable(grid, allowDiagonal, At(start), Pos(s.closed[k]))
  }

  lemma ReachSelf(grid: Grid<CellState>, allowDiagonal: bool, from: Tile)
    ensures Reachable(grid, allowDiagonal, from, from)
  {
    assert Walk(grid, allowDiagonal, [from]);
  }

  /** A walk to `a` extends by one legal move to `b`. */
  lemma ReachExtend(grid: Grid<CellState>, allowDiagonal: bool, from: Tile, a: Tile, b: Tile)
    requires Reachable(grid, allowDiagonal, from, a) && Adjacent(a, b, allowDiagonal) && Walkable(grid, b)
    ensures Reachable(grid, allowDiagonal, from, b)
  {
    var w :| Walk(grid, allowDiagonal, w) && w[0] == from && w[|w| - 1] == a;
    var w' := w + [b];
    assert forall k :: 0 <= k < |w| ==> w'[k] == w[k];
    assert Walk(grid, allowDiagonal, w');
  }

  /** Every arena node sits at a position reachable from the start. */
  lemma {:induction false} ArenaReachable(grid: Grid<CellState>, start: Cell<CellState>, end: Cell<CellState>, allowDiagonal: bool,
                                          arena: seq<Node>, k: nat)
    requires ArenaInv(grid, start, end, allowDiagonal, arena) && k < |arena|
    ensures Reachable(grid, allowDiagonal, At(start), Pos(arena[k]))
    decreases k
  {
    if k == 0 {
      ReachSelf(grid, allowDiagonal, At(start));
    } else {
      assert Linked(grid, end, allowDiagonal, arena, k);
      var p := arena[k].parent.value;
      ArenaReachable(grid, start, end, allowDiagonal, arena, p);
      ReachExtend(grid, allowDiagonal, At(start), Pos(arena[p]), Pos(arena[k]));
    }
  }

  /** A walk that starts inside a set closed under legal moves never leaves it. */
  lemma {:induction false} WalkStaysIn(grid: Grid<CellState>, allowDiagonal: bool, c: set<Tile>, w: seq<Tile>)
    requires Walk(grid, allowDiagonal, w) && w[0] in c
    requires forall a, t :: a in c && Adjacent(a, t, allowDiagonal) && Walkable(grid, t) ==> t in c
    ensures w[|w| - 1] in c
    decreases |w|
  {
    if |w| > 1 {
      var init := w[..|w| - 1];
      assert forall k :: 0 <= k < |init| ==> init[k] == w[k];
      assert Walk(grid, allowDiagonal, init);
      WalkStaysIn(grid, allowDiagonal, c, init);
    }
  }

  /** Visiting a neighbour forgets no seen position, and sees the neighbour. */
  lemma VisitSeen(end: Cell<CellState>, s: Frontier, cur: nat, x: Cell<CellState>)
    requires Indices(s) && cur < |s.arena|
    ensures Seen(s) <= Seen(Visit(end, s, cur, x))
    ensures At(x) in Seen(Visit(end, s, cur, x))
  {
    var r := Visit(end, s, cur, x);
    if At(x) !in Positions(s.closed) {
      var n := CalculateCosts(s.arena[cur], cur, x, end);
      var found := FindOpen(s.arena, s.open, At(x));
      forall t | t in OpenPositions(s)
        ensures t in OpenPositions(r)
      {
        var i :| 0 <= i < |s.open| && s.open[i] < |s.arena| && Pos(s.arena[s.open[i]]) == t;
        if found == Some(i) && n.g < s.arena[s.open[i]].g {
          assert r.open[i] == |s.arena| && r.arena[|s.arena|] == n;
        } else {
          assert r.open[i] == s.open[i] && r.arena[s.open[i]] == s.arena[s.open[i]];
        }
        assert Pos(r.arena[r.open[i]]) in OpenPositions(r);
      }
      match found
      case None =>
        assert r.open[|s.open|] == |s.arena| && r.arena[|s.arena|] == n;
        assert Pos(r.arena[r.open[|s.open|]]) in OpenPositions(r);
      case Some(i) =>
        if n.g < s.arena[s.open[i]].g {
          assert r.open[i] == |s.arena| && r.arena[|s.arena|] == n;
        }
        assert Pos(r.arena[r.open[i]]) in OpenPositions(r);
    }
  }

  /** Expanding forgets no seen position, and sees every neighbour. */
  lemma {:induction false} ExpandSeen(end: Cell<CellState>, s: Frontier, cur: nat, neighbors: seq<Cell<CellState>>)
    requires Indices(s) && cur < |s.arena|
    ensures Seen(s) <= Seen(Expand(end, s, cur, neighbors))
    ensures forall x :: x in neighbors ==> At(x) in Seen(Expand(end, s, cur, neighbors))
    decreases |neighbors|
  {
    if |neighbors| > 0 {
      var next := Visit(end, s, cur, neighbors[0]);
      VisitSeen(end, s, cur, neighbors[0]);
      ExpandSeen(end, next, cur, neighbors[1..]);
      forall x | x in neighbors && x != neighbors[0]
        ensures x in neighbors[1..]
      {
      }
    }
  }

  /** Taking the selected entry off the open list and closing its node forgets no seen position. */
  lemma CloseSeen(s: Frontier, i: nat)
    requires Indices(s) && i < |s.open|
    ensures Seen(s) <= Seen(Frontier(s.arena, s.open[..i] + s.open[i + 1..], s.closed + [s.arena[s.open[i]]]))
  {
    var node := s.arena[s.open[i]];
    var m := Frontier(s.arena, s.open[..i] + s.open[i + 1..], s.closed + [node]);
    assert (s.closed + [node])[..|s.closed|] == s.closed;
    assert Positions(m.closed) == Positions(s.closed) + {Pos(node)};
    forall t | t in OpenPositions(s) && t != Pos(node)
      ensures t in OpenPositions(m)
    {
      var j :| 0 <= j < |s.open| && s.open[j] < |s.arena| && Pos(s.arena[s.open[j]]) == t;
      var j' := if j < i then j else j - 1;
      assert m.open[j'] == s.open[j];
      assert Pos(m.arena[m.open[j']]) in OpenPositions(m);
    }
  }

  /** Taking entry `i` off the open list leaves every other entry pointing into the arena. */
  lemma CloseIndices(s: Frontier, i: nat)
    requires Indices(s) && i < |s.open|
    ensures Indices(Frontier(s.arena, s.open[..i] + s.open[i + 1..], s.closed + [s.arena[s.open[i]]]))
  {
    var open := s.open[..i] + s.open[i + 1..];
    assert forall k :: 0 <= k < |open| ==> open[k] == s.open[if k < i then k else k + 1];
  }

  /** One iteration keeps every walkable neighbour of a closed position seen. */
  lemma AdvanceKeepsClosure(grid: Grid<CellState>, end: Cell<CellState>, allowDiagonal: bool, s: Frontier)
    requires Indexed(grid) && Indices(s) && |s.open| > 0 && Closure(grid, allowDiagonal, s)
    ensures Closure(grid, allowDiagonal, Advance(grid, end, allowDiagonal, s))
  {
    var i := SelectMin(s.arena, s.open);
    var idx := s.open[i];
    var node := s.arena[idx];
    var m := Frontier(s.arena, s.open[..i] + s.open[i + 1..], s.closed + [node]);
    var nb := GetNeighbors(node, grid, allowDiagonal);
    var r := Advance(grid, end, allowDiagonal, s);
    CloseIndices(s, i);
    assert r == Expand(end, m, idx, nb);
    CloseSeen(s, i);
    ExpandSeen(end, m, idx, nb);
    NeighborsSeen(grid, allowDiagonal, node, Seen(r));
    assert Positions(r.closed) == Positions(s.closed) + {Pos(node)} by {
      assert (s.closed + [node])[..|s.closed|] == s.closed;
    }
    ClosureGrows(grid, allowDiagonal, s, r, Pos(node));
  }

  /** When every neighbour cell `getNeighbors` lists is seen, so is every walkable position one move away. */
  lemma NeighborsSeen(grid: Grid<CellState>, allowDiagonal: bool, node: Node, seen: set<Tile>)
    requires Indexed(grid)
    requires forall x :: x in GetNeighbors(node, grid, allowDiagonal) ==> At(x) in seen
    ensures forall t :: Adjacent(Pos(node), t, allowDiagonal) && Walkable(grid, t) ==> t in seen
  {
    forall t | Adjacent(Pos(node), t, allowDiagonal) && Walkable(grid, t)
      ensures t in seen
    {
      assert grid[t.row][t.col] in GetNeighbors(node, grid, allowDiagonal);
      assert At(grid[t.row][t.col]) == t;
    }
  }

  /** Closing one more position whose neighbours are all seen keeps the closure. */
  lemma ClosureGrows(grid: Grid<CellState>, allowDiagonal: bool, s: Frontier, r: Frontier, p: Tile)
    requires Closure(grid, allowDiagonal, s) && Seen(s) <= Seen(r)
    requires Positions(r.closed) == Positions(s.closed) + {p}
    requires forall t :: Adjacent(p, t, allowDiagonal) && Walkable(grid, t) ==> t in Seen(r)
    ensures Closure(grid, allowDiagonal, r)
  {
  }

  /**
   * The open and closed lists: open entries as in `OpenInv`; closed nodes at
   * distinct positions, none of them the end; before the first iteration
   * only the start node is open, afterwards it is the first node closed.
   */
  ghost predicate FrontierInv(grid: Grid<CellState>, start: Cell<CellState>, end: Cell<CellState>, s: Frontier) {
    && |s.arena| >= 1
    && OpenInv(grid, start, s.arena, s.open, Positions(s.closed))
    && Positions(s.closed) <= Universe(grid, At(start))
    && DistinctPositions(s.closed)
    && (forall k :: 0 <= k < |s.closed| ==> Pos(s.closed[k]) != At(end))
    && (|s.closed| == 0 ==> s.open == [0])
    && (|s.closed| > 0 ==> s.closed[0] == s.arena[0])
  }

  /** The open entry with the least `f`, the earliest one among equals. */
  function SelectMin(arena: seq<Node>, open: seq<nat>): (i: nat)
    requires |open| > 0 && forall k :: 0 <= k < |open| ==> open[k] < |arena|
    ensures i < |open|
    ensures forall k :: 0 <= k < |open| ==> arena[open[i]].f <= arena[open[k]].f
    ensures forall k :: 0 <= k < i ==> arena[open[i]].f < arena[open[k]].f
  {
    if |open| == 1 then 0
    else
      var j := SelectMin(arena, open[..|open| - 1]);
      assert forall k :: 0 <= k < |open| - 1 ==> open[..|open| - 1][k] == open[k];
      if arena[open[|open| - 1]].f < arena[open[j]].f then |open| - 1 else j
  }

  /** The first open entry at position `t`. */
  function FindOpen(arena: seq<Node>, open: seq<nat>, t: Tile): (r: Option<nat>)
    requires forall k :: 0 <= k < |open| ==> open[k] < |arena|
    ensures r.Some? ==> r.value < |open| && Pos(arena[open[r.value]]) == t
    ensures r.None? ==> forall k :: 0 <= k < |open| ==> Pos(arena[open[k]]) != t
  {
    if |open| == 0 then None
    else if Pos(arena[open[0]]) == t then Some(0)
    else
      assert forall k :: 1 <= k < |open| ==> open[k] == open[1..][k - 1];
      match FindOpen(arena, open[1..], t)
      case None => None
      case Some(k) => Some(k + 1)
  }

  /** Every open entry points into the arena. */
  predicate Indices(s: Frontier) {
    forall k :: 0 <= k < |s.open| ==> s.open[k] < |s.arena|
  }

  /**
   * Visit neighbour `x` of arena node `cur`: a closed neighbour is skipped;
   * otherwise the node `calculateCosts` builds for it is relaxed.
   */
  function Visit(end: Cell<CellState>, s: Frontier, cur: nat, x: Cell<CellState>): (r: Frontier)
    requires Indices(s) && cur < |s.arena|
    ensures Indices(r) && r.closed == s.closed && s.arena <= r.arena
  {
    if At(x) in Positions(s.closed) then s
    else Relax(s, CalculateCosts(s.arena[cur], cur, x, end), FindOpen(s.arena, s.open, At(x)))
  }

  /** Relax the neighbours of arena node `cur`, in order. */
  function Expand(end: Cell<CellState>, s: Frontier, cur: nat, neighbors: seq<Cell<CellState>>): (r: Frontier)
    requires Indices(s) && cur < |s.arena|
    ensures Indices(r) && r.closed == s.closed && s.arena <= r.arena
    decreases |neighbors|
  {
    if |neighbors| == 0 then s
    else Expand(end, Visit(end, s, cur, neighbors[0]), cur, neighbors[1..])
  }

  /** Add the new node `n` for a position: open it if it is not open, or redirect its open entry when `n` is cheaper. */
  function Relax(s: Frontier, n: Node, found: Option<nat>): (r: Frontier)
    requires Indices(s)
    requires found.Some? ==> found.value < |s.open|
    ensures Indices(r) && r.closed == s.closed
    ensures r.arena == s.arena + [n] || r == s
    ensures found.None? ==> r.open == s.open + [|s.arena|]
    ensures found.Some? && n.g < s.arena[s.open[found.value]].g ==> r.open == s.open[found.value := |s.arena|]
    ensures found.Some? && n.g >= s.arena[s.open[found.value]].g ==> r == s
  {
    match found
    case None => Frontier(s.arena + [n], s.open + [|s.arena|], s.closed)
    case Some(i) =>
      if n.g < s.arena[s.open[i]].g then Frontier(s.arena + [n], s.open[i := |s.arena|], s.closed)
      else s
  }

  /** Relaxing a list of legal neighbours keeps the arena and the open list invariant. */
  lemma {:induction false} ExpandKeepsInv(grid: Grid<CellState>, start: Cell<CellState>, end: Cell<CellState>, allowDiagonal: bool,
                                          s: Frontier, cur: nat, neighbors: seq<Cell<CellState>>)
    requires ArenaInv(grid, start, end, allowDiagonal, s.arena) && cur < |s.arena|
    requires OpenInv(grid, start, s.arena, s.open, Positions(s.closed))
    requires forall x :: x in neighbors ==> Adjacent(Pos(s.arena[cur]), At(x), allowDiagonal) && Walkable(grid, At(x))
    ensures Indices(s)
    ensures var r := Expand(end, s, cur, neighbors);
            ArenaInv(grid, start, end, allowDiagonal, r.arena) && OpenInv(grid, start, r.arena, r.open, Positions(r.closed))
    decreases |neighbors|
  {
    if |neighbors| > 0 {
      var x := neighbors[0];
      var next := Visit(end, s, cur, x);
      if At(x) !in Positions(s.closed) {
        RelaxKeepsInv(grid, start, end, allowDiagonal, s, cur, x);
      }
      assert forall y :: y in neighbors[1..] ==> y in neighbors;
      assert next.arena[cur] == s.arena[cur];
      ExpandKeepsInv(grid, start, end, allowDiagonal, next, cur, neighbors[1..]);
    }
  }

  lemma AppendKeepsArenaInv(grid: Grid<CellState>, start: Cell<CellState>, end: Cell<CellState>, allowDiagonal: bool,
                            arena: seq<Node>, cur: nat, x: Cell<CellState>)
    requires ArenaInv(grid, start, end, allowDiagonal, arena) && cur < |arena|
    requires Adjacent(Pos(arena[cur]), At(x), allowDiagonal) && Walkable(grid, At(x))
    ensures ArenaInv(grid, start, end, allowDiagonal, arena + [CalculateCosts(arena[cur], cur, x, end)])
  {
    var a := arena + [CalculateCosts(arena[cur], cur, x, end)];
    assert Linked(grid, end, allowDiagonal, a, |arena|);
    forall k | 0 < k < |arena|
      ensures Linked(grid, end, allowDiagonal, a, k)
    {
      assert Linked(grid, end, allowDiagonal, arena, k);
      assert a[k] == arena[k] && a[arena[k].parent.value] == arena[arena[k].parent.value];
    }
  }

  /** Relaxing an unclosed neighbour keeps both the arena and the open list invariant. */
  lemma RelaxKeepsInv(grid: Grid<CellState>, start: Cell<CellState>, end: Cell<CellState>, allowDiagonal: bool,
                      s: Frontier, cur: nat, x: Cell<CellState>)
    requires ArenaInv(grid, start, end, allowDiagonal, s.arena) && cur < |s.arena|
    requires OpenInv(grid, start, s.arena, s.open, Positions(s.closed))
    requires Adjacent(Pos(s.arena[cur]), At(x), allowDiagonal) && Walkable(grid, At(x))
    requires At(x) !in Positions(s.closed)
    ensures var r := Relax(s, CalculateCosts(s.arena[cur], cur, x, end), FindOpen(s.arena, s.open, At(x)));
            && ArenaInv(grid, start, end, allowDiagonal, r.arena)
            && OpenInv(grid, start, r.arena, r.open, Positions(r.closed))
  {
    AppendKeepsArenaInv(grid, start, end, allowDiagonal, s.arena, cur, x);
    var n := CalculateCosts(s.arena[cur], cur, x, end);
    var r := Relax(s, n, FindOpen(s.arena, s.open, At(x)));
    assert At(x) in Universe(grid, At(start)) by {
      assert Tile(At(x).row, At(x).col) in (set r, c | 0 <= r < |grid| && 0 <= c < |grid[r]| :: Tile(r, c));
    }
    forall i | 0 <= i < |r.open|
      ensures r.open[i] < |r.arena|
      ensures Pos(r.arena[r.open[i]]) in Universe(grid, At(start))
      ensures Pos(r.arena[r.open[i]]) !in Positions(r.closed)
    {
      if r.open[i] < |s.arena| {
        assert r.open[i] in s.open;
        assert r.arena[r.open[i]] == s.arena[r.open[i]];
      }
    }
  }

  /** Every non-root arena node is one legal, correctly costed move from its parent; the root is the start node. */
  lemma ArenaNode(grid: Grid<CellState>, start: Cell<CellState>, end: Cell<CellState>, allowDiagonal: bool, arena: seq<Node>, j: nat)
    requires ArenaInv(grid, start, end, allowDiagonal, arena) && j < |arena|
    ensures arena[j].parent.None? ==> arena[j] == InitializeStartNode(start, end)
    ensures arena[j].parent.Some? ==> arena[j].parent.value < j
    ensures arena[j].parent.Some? ==> Step(grid, end, allowDiagonal, arena[arena[j].parent.value], arena[j])
  {
    if j > 0 {
      assert Linked(grid, end, allowDiagonal, arena, j);
    }
  }

  /** The path through arena entry `i` runs from the start node by legal, correctly costed moves. */
  lemma PathFromArena(grid: Grid<CellState>, start: Cell<CellState>, end: Cell<CellState>, allowDiagonal: bool, arena: seq<Node>, i: nat)
    requires ArenaInv(grid, start, end, allowDiagonal, arena) && i < |arena|
    ensures ValidArena(arena)
    ensures var path := ReconstructPath(arena, i);
            && path[0] == InitializeStartNode(start, end)
            && forall k :: 0 < k < |path| ==> Step(grid, end, allowDiagonal, path[k - 1], path[k])
  {
    forall j | 0 <= j < |arena|
      ensures arena[j].parent.Some? ==> arena[j].parent.value < j
    {
      ArenaNode(grid, start, end, allowDiagonal, arena, j);
    }
    var path := ReconstructPath(arena, i);
    var j0 :| 0 <= j0 < |arena| && arena[j0] == path[0];
    ArenaNode(grid, start, end, allowDiagonal, arena, j0);
    forall k | 0 < k < |path|
      ensures Step(grid, end, allowDiagonal, path[k - 1], path[k])
    {
      var j :| 0 <= j < |arena| && arena[j] == path[k];
      ArenaNode(grid, start, end, allowDiagonal, arena, j);
    }
  }

  /** One move of a returned path: adjacent, onto a walkable cell, with the costs of `calculateCosts`. */
  ghost predicate Step(grid: Grid<CellState>, end: Cell<CellState>, allowDiagonal: bool, a: Node, b: Node) {
    && Adjacent(Pos(a), Pos(b), allowDiagonal)
    && Walkable(grid, Pos(b))
    && b.g == a.g + StepCost(Pos(a), Pos(b))
    && b.h == Heuristic(Pos(b), At(end))
    && b.f == b.g + b.h
  }

  /** What a finished search guarantees about its result. */
  ghost predicate Sound(grid: Grid<CellState>, start: Cell<CellState>, end: Cell<CellState>, allowDiagonal: bool, r: SearchResult) {
    && |r.visitedNodes| >= 1
    && r.visitedNodes[0] == InitializeStartNode(start, end)
    && DistinctPositions(r.visitedNodes)
    && (r.path == [] ==> forall k :: 0 <= k < |r.visitedNodes| ==> Pos(r.visitedNodes[k]) != At(end))
    && (r.path != [] ==>
          && r.path[0] == InitializeStartNode(start, end)
          && r.path[|r.path| - 1] == r.visitedNodes[|r.visitedNodes| - 1]
          && Pos(r.path[|r.path| - 1]) == At(end)
          && forall k :: 0 <= k < |r.visitedNodes| - 1 ==> Pos(r.visitedNodes[k]) != At(end))
    && (forall k :: 0 < k < |r.path| ==> Step(grid, end, allowDiagonal, r.path[k - 1], r.path[k]))
    && (forall k :: 0 <= k < |r.visitedNodes| ==> Reachable(grid, allowDiagonal, At(start), Pos(r.visitedNodes[k])))
    && (r.path == [] ==> forall t :: Reachable(grid, allowDiagonal, At(start), t) ==> t in Positions(r.visitedNodes))
  }

  lemma FewerUnclosed(u: set<Tile>, closed: set<Tile>, t: Tile)
    requires t in u && t !in closed
    ensures |u - (closed + {t})| < |u - closed|
  {
    var a, b := u - closed, u - (closed + {t});
    assert a == b + {t} && t !in b;
  }

  /** The entry `SelectMin` picks is a position of the universe not yet closed; closing it keeps the closed list sound. */
  lemma CloseStep(grid: Grid<CellState>, start: Cell<CellState>, end: Cell<CellState>, s: Frontier)
    requires FrontierInv(grid, start, end, s) && |s.open| > 0
    ensures var node := s.arena[s.open[SelectMin(s.arena, s.open)]];
            var closed := s.closed + [node];
            && Pos(node) in Universe(grid, At(start)) && Pos(node) !in Positions(s.closed)
            && Positions(closed) == Positions(s.closed) + {Pos(node)}
            && DistinctPositions(closed)
            && closed[0] == s.arena[0]
  {
    var node := s.arena[s.open[SelectMin(s.arena, s.open)]];
    var closed := s.closed + [node];
    assert forall k :: 0 <= k < |s.closed| ==> closed[k] == s.closed[k];
  }

  /** Stopping at the end node yields a sound result. */
  lemma FoundSound(grid: Grid<CellState>, start: Cell<CellState>, end: Cell<CellState>, allowDiagonal: bool, s: Frontier)
    requires Inv(grid, start, end, allowDiagonal, s) && |s.open| > 0
    requires Pos(s.arena[s.open[SelectMin(s.arena, s.open)]]) == At(end)
    ensures ValidArena(s.arena)
    ensures var idx := s.open[SelectMin(s.arena, s.open)];
            Sound(grid, start, end, allowDiagonal, SearchResult(ReconstructPath(s.arena, idx), s.closed + [s.arena[idx]]))
  {
    var idx := s.open[SelectMin(s.arena, s.open)];
    CloseStep(grid, start, end, s);
    PathFromArena(grid, start, end, allowDiagonal, s.arena, idx);
    var visited := s.closed + [s.arena[idx]];
    forall k | 0 <= k < |visited|
      ensures Reachable(grid, allowDiagonal, At(start), Pos(visited[k]))
    {
      if k == |s.closed| {
        ArenaReachable(grid, start, end, allowDiagonal, s.arena, idx);
      } else {
        assert visited[k] == s.closed[k];
      }
    }
  }

  /** Taking entry `i` off the open list and closing its node keeps the open list invariant. */
  lemma CloseKeepsOpenInv(grid: Grid<CellState>, start: Cell<CellState>, arena: seq<Node>, open: seq<nat>, closed: seq<Node>, i: nat)
    requires OpenInv(grid, start, arena, open, Positions(closed)) && i < |open|
    ensures OpenInv(grid, start, arena, open[..i] + open[i + 1..], Positions(closed + [arena[open[i]]]))
  {
    var o := open[..i] + open[i + 1..];
    var node := arena[open[i]];
    assert (closed + [node])[..|closed|] == closed;
    assert Positions(closed + [node]) == Positions(closed) + {Pos(node)};
    assert forall k :: 0 <= k < |o| ==> o[k] == open[if k < i then k else k + 1];
  }

  /** Closing the selected node leaves one position fewer of the universe unclosed. */
  lemma CloseShrinks(grid: Grid<CellState>, start: Cell<CellState>, end: Cell<CellState>, s: Frontier, next: Frontier)
    requires FrontierInv(grid, start, end, s) && |s.open| > 0
    requires next.closed == s.closed + [s.arena[s.open[SelectMin(s.arena, s.open)]]]
    ensures |Universe(grid, At(start)) - Positions(next.closed)| < |Universe(grid, At(start)) - Positions(s.closed)|
  {
    CloseStep(grid, start, end, s);
    var node := s.arena[s.open[SelectMin(s.arena, s.open)]];
    assert Positions(next.closed) == Positions(s.closed) + {Pos(node)};
    FewerUnclosed(Universe(grid, At(start)), Positions(s.closed), Pos(node));
  }

  /** After closing a node other than the end and relaxing its neighbours, the frontier invariant holds again. */
  lemma ExpandedInv(grid: Grid<CellState>, start: Cell<CellState>, end: Cell<CellState>, s: Frontier, next: Frontier)
    requires FrontierInv(grid, start, end, s) && |s.open| > 0
    requires Pos(s.arena[s.open[SelectMin(s.arena, s.open)]]) != At(end)
    requires next.closed == s.closed + [s.arena[s.open[SelectMin(s.arena, s.open)]]] && s.arena <= next.arena
    requires OpenInv(grid, start, next.arena, next.open, Positions(next.closed))
    ensures FrontierInv(grid, start, end, next)
  {
    CloseStep(grid, start, end, s);
    assert forall k :: 0 <= k < |s.closed| ==> next.closed[k] == s.closed[k];
  }

  /**
   * Running out of open nodes yields a sound result: the start was expanded,
   * the end never was, and the closed positions are closed under legal
   * moves, so they hold every position reachable from the start.
   */
  lemma ExhaustedSound(grid: Grid<CellState>, start: Cell<CellState>, end: Cell<CellState>, allowDiagonal: bool, s: Frontier)
    requires Inv(grid, start, end, allowDiagonal, s) && |s.open| == 0
    ensures Sound(grid, start, end, allowDiagonal, SearchResult([], s.closed))
  {
    var c := Positions(s.closed);
    assert At(start) in c by {
      assert Pos(s.closed[0]) in c;
    }
    assert Seen(s) == c;
    forall t | Reachable(grid, allowDiagonal, At(start), t)
      ensures t in c
    {
      var w :| Walk(grid, allowDiagonal, w) && w[0] == At(start) && w[|w| - 1] == t;
      WalkStaysIn(grid, allowDiagonal, c, w);
    }
  }

  /**
   * One iteration on a non-empty open list: take the cheapest open node off
   * the open list, close it and relax its neighbours.
   */
  function Advance(grid: Grid<CellState>, end: Cell<CellState>, allowDiagonal: bool, s: Frontier): (r: Frontier)
    requires Indices(s) && |s.open| > 0
    ensures Indices(r) && s.arena <= r.arena
    ensures r.closed == s.closed + [s.arena[s.open[SelectMin(s.arena, s.open)]]]
  {
    var i := SelectMin(s.arena, s.open);
    var idx := s.open[i];
    var open := s.open[..i] + s.open[i + 1..];
    assert forall k :: 0 <= k < |open| ==> open[k] == s.open[if k < i then k else k + 1];
    Expand(end, Frontier(s.arena, open, s.closed + [s.arena[idx]]), idx, GetNeighbors(s.arena[idx], grid, allowDiagonal))
  }

  /** An iteration that does not stop at the end keeps the invariant and closes one more position of the universe. */
  lemma AdvanceKeepsInv(grid: Grid<CellState>, start: Cell<CellState>, end: Cell<CellState>, allowDiagonal: bool, s: Frontier)
    requires Indexed(grid) && Inv(grid, start, end, allowDiagonal, s) && |s.open| > 0
    requires Pos(s.arena[s.open[SelectMin(s.arena, s.open)]]) != At(end)
    ensures Inv(grid, start, end, allowDiagonal, Advance(grid, end, allowDiagonal, s))
    ensures |Universe(grid, At(start)) - Positions(Advance(grid, end, allowDiagonal, s).closed)|
            < |Universe(grid, At(start)) - Positions(s.closed)|
  {
    var i := SelectMin(s.arena, s.open);
    var idx := s.open[i];
    var node := s.arena[idx];
    CloseKeepsOpenInv(grid, start, s.arena, s.open, s.closed, i);
    ExpandKeepsInv(grid, start, end, allowDiagonal, Frontier(s.arena, s.open[..i] + s.open[i + 1..], s.closed + [node]),
                   idx, GetNeighbors(node, grid, allowDiagonal));
    var next := Advance(grid, end, allowDiagonal, s);
    ExpandedInv(grid, start, end, s, next);
    CloseShrinks(grid, start, end, s, next);
    AdvanceKeepsClosure(grid, end, allowDiagonal, s);
    AdvanceKeepsReachable(grid, start, end, allowDiagonal, s);
  }

  /** The position an iteration closes is reachable from the start, like every position closed before it. */
  lemma AdvanceKeepsReachable(grid: Grid<CellState>, start: Cell<CellState>, end: Cell<CellState>, allowDiagonal: bool, s: Frontier)
    requires ArenaInv(grid, start, end, allowDiagonal, s.arena) && Indices(s) && |s.open| > 0
    requires ClosedReachable(grid, start, allowDiagonal, s)
    ensures ClosedReachable(grid, start, allowDiagonal, Advance(grid, end, allowDiagonal, s))
  {
    var idx := s.open[SelectMin(s.arena, s.open)];
    var next := Advance(grid, end, allowDiagonal, s);
    forall k | 0 <= k < |next.closed|
      ensures Reachable(grid, allowDiagonal, At(start), Pos(next.closed[k]))
    {
      if k == |s.closed| {
        ArenaReachable(grid, start, end, allowDiagonal, s.arena, idx);
      } else {
        assert next.closed[k] == s.closed[k];
      }
    }
  }

  /**
   * The search loop: take the cheapest open node; stop with its path if it
   * is the end; otherwise close it, relax its neighbours and repeat; stop
   * with an empty path when nothing is open.
   */
  function Run(grid: Grid<CellState>, start: Cell<CellState>, end: Cell<CellState>, allowDiagonal: bool, s: Frontier): (r: SearchResult)
    requires Indexed(grid) && Inv(grid, start, end, allowDiagonal, s)
    ensures s.closed <= r.visitedNodes
    ensures Sound(grid, start, end, allowDiagonal, r)
    decreases |Universe(grid, At(start)) - Positions(s.closed)|
  {
    if |s.open| == 0 then
      ExhaustedSound(grid, start, end, allowDiagonal, s);
      SearchResult([], s.closed)
    else
      var idx := s.open[SelectMin(s.arena, s.open)];
      if Pos(s.arena[idx]) == At(end) then
        FoundSound(grid, start, end, allowDiagonal, s);
        SearchResult(ReconstructPath(s.arena, idx), s.closed + [s.arena[idx]])
      else
        var next := Advance(grid, end, allowDiagonal, s);
        AdvanceKeepsInv(grid, start, end, allowDiagonal, s);
        var r := Run(grid, start, end, allowDiagonal, next);
        assert s.closed <= next.closed <= r.visitedNodes;
        r
  }

  /** A search that has not reached the end continues from the advanced frontier. */
  lemma RunContinues(grid: Grid<CellState>, start: Cell<CellState>, end: Cell<CellState>, allowDiagonal: bool, s: Frontier)
    requires Indexed(grid) && Inv(grid, start, end, allowDiagonal, s) && |s.open| > 0
    requires Pos(s.arena[s.open[SelectMin(s.arena, s.open)]]) != At(end)
    ensures Inv(grid, start, end, allowDiagonal, Advance(grid, end, allowDiagonal, s))
    ensures Run(grid, start, end, allowDiagonal, s) == Run(grid, start, end, allowDiagonal, Advance(grid, end, allowDiagonal, s))
  {
    AdvanceKeepsInv(grid, start, end, allowDiagonal, s);
  }

  /**
   * `aStar(grid, start, end, allowDiagonal = true)`: search from a single open
   * start node. The path, when there is one, runs from the start node to
   * the end by legal, correctly costed moves, and its last node is the last
   * node expanded; no position is expanded twice; every visited position is
   * reachable from the start; an empty path means the end was never
   * expanded and every position reachable from the start was visited
   * (completeness: `AStarFindsPathIffReachable`).
   */
  function AStar(grid: Grid<CellState>, start: Cell<CellState>, end: Cell<CellState>, allowDiagonal: bool := true): (r: SearchResult)
    requires Indexed(grid)
    ensures Sound(grid, start, end, allowDiagonal, r)
  {
    var root := InitializeStartNode(start, end);
    Run(grid, start, end, allowDiagonal, Frontier([root], [0], []))
  }

  /**
   * The search is complete: it returns a path exactly when the end is
   * reachable from the start, and when it returns none, the visited nodes
   * are exactly the positions reachable from the start. It follows from
   * `Sound`, whose reachability clauses the loop invariant carries.
   */
  lemma AStarFindsPathIffReachable(grid: Grid<CellState>, start: Cell<CellState>, end: Cell<CellState>, allowDiagonal: bool)
    requires Indexed(grid)
    ensures AStar(grid, start, end, allowDiagonal).path != [] <==> Reachable(grid, allowDiagonal, At(start), At(end))
    ensures AStar(grid, start, end, allowDiagonal).path == [] ==>
              forall t :: t in Positions(AStar(grid, start, end, allowDiagonal).visitedNodes) <==> Reachable(grid, allowDiagonal, At(start), t)
  {
  }
}
