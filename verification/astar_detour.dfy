/**
 * The `aStar` case of `src/services/aStarHeuristic.test.ts`: a 3 x 3 grid
 * whose centre is an obstacle, searched from `{0,0}` to `{2,2}` with
 * diagonal moves, traced iteration by iteration.
 */
module AStarDetour {
  import opened Js
  import opened Board
  import opened Enums
  import opened AStarNodes
  import opened AStarSearch
  import opened AStarVectors

  /** The 3 x 3 grid of the `aStar` case: a single obstacle in the centre. */
  function DetourGrid(): Grid<CellState> {
    [[Cell(0, 0, Empty), Cell(0, 1, Empty), Cell(0, 2, Empty)],
     [Cell(1, 0, Empty), Cell(1, 1, Obstacle), Cell(1, 2, Empty)],
     [Cell(2, 0, Empty), Cell(2, 1, Empty), Cell(2, 2, Empty)]]
  }

  /** Every cell of `DetourGrid` records its own position. */
  lemma DetourIndexed()
    ensures Indexed(DetourGrid())
  {
  }

  const DetourStart := Cell(0, 0, Start)
  const DetourEnd := Cell(2, 2, End)

  /** The arena the search builds on `DetourGrid`, in creation order. */
  const A0 := Node(0, 0, 0, 28, 28, None)
  const A1 := Node(1, 0, 10, 22, 32, Some(0))
  const A2 := Node(0, 1, 10, 22, 32, Some(0))
  const A3 := Node(2, 0, 20, 20, 40, Some(1))
  const A4 := Node(2, 1, 24, 10, 34, Some(1))
  const A5 := Node(0, 2, 20, 20, 40, Some(2))
  const A6 := Node(1, 2, 24, 10, 34, Some(2))
  const A7 := Node(2, 2, 34, 0, 34, Some(4))

  lemma StartCost()
    ensures InitializeStartNode(DetourStart, DetourEnd) == A0
  {
    HeuristicIs(Tile(0, 0), Tile(2, 2), 28);
  }

  /** The heuristic is `h` when `h` is the integer square root of a hundred times the squared distance. */
  lemma HeuristicIs(a: Tile, b: Tile, h: nat)
    requires h * h <= 100 * SqDist(a, b) < (h + 1) * (h + 1)
    ensures Heuristic(a, b) == h
  {
    IsqrtUnique(100 * SqDist(a, b), h);
  }

  /** The nodes `calculateCosts` builds for the cells the search opens. */
  lemma CostA1()
    ensures CalculateCosts(A0, 0, Cell(1, 0, Empty), DetourEnd) == A1
  {
    HeuristicIs(Tile(1, 0), Tile(2, 2), 22);
  }

  lemma CostA2()
    ensures CalculateCosts(A0, 0, Cell(0, 1, Empty), DetourEnd) == A2
  {
    HeuristicIs(Tile(0, 1), Tile(2, 2), 22);
  }

  lemma CostA3()
    ensures CalculateCosts(A1, 1, Cell(2, 0, Empty), DetourEnd) == A3
  {
    HeuristicIs(Tile(2, 0), Tile(2, 2), 20);
  }

  lemma CostA4()
    ensures CalculateCosts(A1, 1, Cell(2, 1, Empty), DetourEnd) == A4
  {
    HeuristicIs(Tile(2, 1), Tile(2, 2), 10);
  }

  lemma CostA5()
    ensures CalculateCosts(A2, 2, Cell(0, 2, Empty), DetourEnd) == A5
  {
    HeuristicIs(Tile(0, 2), Tile(2, 2), 20);
  }

  lemma CostA6()
    ensures CalculateCosts(A2, 2, Cell(1, 2, Empty), DetourEnd) == A6
  {
    HeuristicIs(Tile(1, 2), Tile(2, 2), 10);
  }

  lemma CostA7()
    ensures CalculateCosts(A4, 4, Cell(2, 2, Empty), DetourEnd) == A7
  {
  }

  /** `getNeighbors` with diagonals is `Collect` over the eight moves. */
  lemma NeighborsAreCollect(node: Node, g: Grid<CellState>)
    ensures GetNeighbors(node, g) == Collect(g, Pos(node), [Tile(-1, 0), Tile(1, 0), Tile(0, -1), Tile(0, 1), Tile(-1, -1), Tile(-1, 1), Tile(1, -1), Tile(1, 1)])
  {
    assert Orthogonal + Diagonal == [Tile(-1, 0), Tile(1, 0), Tile(0, -1), Tile(0, 1), Tile(-1, -1), Tile(-1, 1), Tile(1, -1), Tile(1, 1)];
  }

  /** A move onto the walkable cell `x` contributes `x`. */
  lemma CollectHit(g: Grid<CellState>, c: Tile, d: Tile, rest: seq<Tile>, t: Tile, x: Cell<CellState>)
    requires t == Shift(c, d) && Walkable(g, t) && g[t.row][t.col] == x
    ensures Collect(g, c, [d] + rest) == [x] + Collect(g, c, rest)
  {
    CollectCons(g, c, d, rest);
  }

  /** A move off the grid or onto an obstacle contributes nothing. */
  lemma CollectMiss(g: Grid<CellState>, c: Tile, d: Tile, rest: seq<Tile>, t: Tile)
    requires t == Shift(c, d) && !Walkable(g, t)
    ensures Collect(g, c, [d] + rest) == Collect(g, c, rest)
  {
    CollectCons(g, c, d, rest);
  }

  /** The walkable neighbours of `{0,0}` on `DetourGrid`, one move at a time from the last. */
  lemma Moves0From7()
    ensures Collect(DetourGrid(), Tile(0, 0), [Tile(1, 1)]) == []
  {
    CollectMiss(DetourGrid(), Tile(0, 0), Tile(1, 1), [], Tile(1, 1));
    assert [Tile(1, 1)] == [Tile(1, 1)] + [];
  }

  lemma Moves0From6()
    ensures Collect(DetourGrid(), Tile(0, 0), [Tile(1, -1), Tile(1, 1)]) == []
  {
    CollectMiss(DetourGrid(), Tile(0, 0), Tile(1, -1), [Tile(1, 1)], Tile(1, -1));
    assert [Tile(1, -1), Tile(1, 1)] == [Tile(1, -1)] + [Tile(1, 1)];
    Moves0From7();
  }

  lemma Moves0From5()
    ensures Collect(DetourGrid(), Tile(0, 0), [Tile(-1, 1), Tile(1, -1), Tile(1, 1)]) == []
  {
    CollectMiss(DetourGrid(), Tile(0, 0), Tile(-1, 1), [Tile(1, -1), Tile(1, 1)], Tile(-1, 1));
    assert [Tile(-1, 1), Tile(1, -1), Tile(1, 1)] == [Tile(-1, 1)] + [Tile(1, -1), Tile(1, 1)];
    Moves0From6();
  }

  lemma Moves0From4()
    ensures Collect(DetourGrid(), Tile(0, 0), [Tile(-1, -1), Tile(-1, 1), Tile(1, -1), Tile(1, 1)]) == []
  {
    CollectMiss(DetourGrid(), Tile(0, 0), Tile(-1, -1), [Tile(-1, 1), Tile(1, -1), Tile(1, 1)], Tile(-1, -1));
    assert [Tile(-1, -1), Tile(-1, 1), Tile(1, -1), Tile(1, 1)] == [Tile(-1, -1)] + [Tile(-1, 1), Tile(1, -1), Tile(1, 1)];
    Moves0From5();
  }

  lemma Moves0From3()
    ensures Collect(DetourGrid(), Tile(0, 0), [Tile(0, 1), Tile(-1, -1), Tile(-1, 1), Tile(1, -1), Tile(1, 1)]) == [Cell(0, 1, Empty)]
  {
    CollectHit(DetourGrid(), Tile(0, 0), Tile(0, 1), [Tile(-1, -1), Tile(-1, 1), Tile(1, -1), Tile(1, 1)], Tile(0, 1), Cell(0, 1, Empty));
    assert [Tile(0, 1), Tile(-1, -1), Tile(-1, 1), Tile(1, -1), Tile(1, 1)] == [Tile(0, 1)] + [Tile(-1, -1), Tile(-1, 1), Tile(1, -1), Tile(1, 1)];
    Moves0From4();
  }

  lemma Moves0From2()
    ensures Collect(DetourGrid(), Tile(0, 0), [Tile(0, -1), Tile(0, 1), Tile(-1, -1), Tile(-1, 1), Tile(1, -1), Tile(1, 1)]) == [Cell(0, 1, Empty)]
  {
    CollectMiss(DetourGrid(), Tile(0, 0), Tile(0, -1), [Tile(0, 1), Tile(-1, -1), Tile(-1, 1), Tile(1, -1), Tile(1, 1)], Tile(0, -1));
    assert [Tile(0, -1), Tile(0, 1), Tile(-1, -1), Tile(-1, 1), Tile(1, -1), Tile(1, 1)] == [Tile(0, -1)] + [Tile(0, 1), Tile(-1, -1), Tile(-1, 1), Tile(1, -1), Tile(1, 1)];
    Moves0From3();
  }

  lemma Moves0From1()
    ensures Collect(DetourGrid(), Tile(0, 0), [Tile(1, 0), Tile(0, -1), Tile(0, 1), Tile(-1, -1), Tile(-1, 1), Tile(1, -1), Tile(1, 1)]) == [Cell(1, 0, Empty), Cell(0, 1, Empty)]
  {
    CollectHit(DetourGrid(), Tile(0, 0), Tile(1, 0), [Tile(0, -1), Tile(0, 1), Tile(-1, -1), Tile(-1, 1), Tile(1, -1), Tile(1, 1)], Tile(1, 0), Cell(1, 0, Empty));
    assert [Tile(1, 0), Tile(0, -1), Tile(0, 1), Tile(-1, -1), Tile(-1, 1), Tile(1, -1), Tile(1, 1)] == [Tile(1, 0)] + [Tile(0, -1), Tile(0, 1), Tile(-1, -1), Tile(-1, 1), Tile(1, -1), Tile(1, 1)];
    Moves0From2();
  }

  lemma Moves0From0()
    ensures Collect(DetourGrid(), Tile(0, 0), [Tile(-1, 0), Tile(1, 0), Tile(0, -1), Tile(0, 1), Tile(-1, -1), Tile(-1, 1), Tile(1, -1), Tile(1, 1)]) == [Cell(1, 0, Empty), Cell(0, 1, Empty)]
  {
    CollectMiss(DetourGrid(), Tile(0, 0), Tile(-1, 0), [Tile(1, 0), Tile(0, -1), Tile(0, 1), Tile(-1, -1), Tile(-1, 1), Tile(1, -1), Tile(1, 1)], Tile(-1, 0));
    assert [Tile(-1, 0), Tile(1, 0), Tile(0, -1), Tile(0, 1), Tile(-1, -1), Tile(-1, 1), Tile(1, -1), Tile(1, 1)] == [Tile(-1, 0)] + [Tile(1, 0), Tile(0, -1), Tile(0, 1), Tile(-1, -1), Tile(-1, 1), Tile(1, -1), Tile(1, 1)];
    Moves0From1();
  }

  lemma DetourNeighbors0()
    ensures GetNeighbors(A0, DetourGrid()) == [Cell(1, 0, Empty), Cell(0, 1, Empty)]
  {
    NeighborsAreCollect(A0, DetourGrid());
    Moves0From0();
  }

  /** The walkable neighbours of `{1,0}` on `DetourGrid`, one move at a time from the last. */
  lemma Moves1From7()
    ensures Collect(DetourGrid(), Tile(1, 0), [Tile(1, 1)]) == [Cell(2, 1, Empty)]
  {
    CollectHit(DetourGrid(), Tile(1, 0), Tile(1, 1), [], Tile(2, 1), Cell(2, 1, Empty));
    assert [Tile(1, 1)] == [Tile(1, 1)] + [];
  }

  lemma Moves1From6()
    ensures Collect(DetourGrid(), Tile(1, 0), [Tile(1, -1), Tile(1, 1)]) == [Cell(2, 1, Empty)]
  {
    CollectMiss(DetourGrid(), Tile(1, 0), Tile(1, -1), [Tile(1, 1)], Tile(2, -1));
    assert [Tile(1, -1), Tile(1, 1)] == [Tile(1, -1)] + [Tile(1, 1)];
    Moves1From7();
  }

  lemma Moves1From5()
    ensures Collect(DetourGrid(), Tile(1, 0), [Tile(-1, 1), Tile(1, -1), Tile(1, 1)]) == [Cell(0, 1, Empty), Cell(2, 1, Empty)]
  {
    CollectHit(DetourGrid(), Tile(1, 0), Tile(-1, 1), [Tile(1, -1), Tile(1, 1)], Tile(0, 1), Cell(0, 1, Empty));
    assert [Tile(-1, 1), Tile(1, -1), Tile(1, 1)] == [Tile(-1, 1)] + [Tile(1, -1), Tile(1, 1)];
    Moves1From6();
  }

  lemma Moves1From4()
    ensures Collect(DetourGrid(), Tile(1, 0), [Tile(-1, -1), Tile(-1, 1), Tile(1, -1), Tile(1, 1)]) == [Cell(0, 1, Empty), Cell(2, 1, Empty)]
  {
    CollectMiss(DetourGrid(), Tile(1, 0), Tile(-1, -1), [Tile(-1, 1), Tile(1, -1), Tile(1, 1)], Tile(0, -1));
    assert [Tile(-1, -1), Tile(-1, 1), Tile(1, -1), Tile(1, 1)] == [Tile(-1, -1)] + [Tile(-1, 1), Tile(1, -1), Tile(1, 1)];
    Moves1From5();
  }

  lemma Moves1From3()
    ensures Collect(DetourGrid(), Tile(1, 0), [Tile(0, 1), Tile(-1, -1), Tile(-1, 1), Tile(1, -1), Tile(1, 1)]) == [Cell(0, 1, Empty), Cell(2, 1, Empty)]
  {
    CollectMiss(DetourGrid(), Tile(1, 0), Tile(0, 1), [Tile(-1, -1), Tile(-1, 1), Tile(1, -1), Tile(1, 1)], Tile(1, 1));
    assert [Tile(0, 1), Tile(-1, -1), Tile(-1, 1), Tile(1, -1), Tile(1, 1)] == [Tile(0, 1)] + [Tile(-1, -1), Tile(-1, 1), Tile(1, -1), Tile(1, 1)];
    Moves1From4();
  }

  lemma Moves1From2()
    ensures Collect(DetourGrid(), Tile(1, 0), [Tile(0, -1), Tile(0, 1), Tile(-1, -1), Tile(-1, 1), Tile(1, -1), Tile(1, 1)]) == [Cell(0, 1, Empty), Cell(2, 1, Empty)]
  {
    CollectMiss(DetourGrid(), Tile(1, 0), Tile(0, -1), [Tile(0, 1), Tile(-1, -1), Tile(-1, 1), Tile(1, -1), Tile(1, 1)], Tile(1, -1));
    assert [Tile(0, -1), Tile(0, 1), Tile(-1, -1), Tile(-1, 1), Tile(1, -1), Tile(1, 1)] == [Tile(0, -1)] + [Tile(0, 1), Tile(-1, -1), Tile(-1, 1), Tile(1, -1), Tile(1, 1)];
    Moves1From3();
  }

  lemma Moves1From1()
    ensures Collect(DetourGrid(), Tile(1, 0), [Tile(1, 0), Tile(0, -1), Tile(0, 1), Tile(-1, -1), Tile(-1, 1), Tile(1, -1), Tile(1, 1)]) == [Cell(2, 0, Empty), Cell(0, 1, Empty), Cell(2, 1, Empty)]
  {
    CollectHit(DetourGrid(), Tile(1, 0), Tile(1, 0), [Tile(0, -1), Tile(0, 1), Tile(-1, -1), Tile(-1, 1), Tile(1, -1), Tile(1, 1)], Tile(2, 0), Cell(2, 0, Empty));
    assert [Tile(1, 0), Tile(0, -1), Tile(0, 1), Tile(-1, -1), Tile(-1, 1), Tile(1, -1), Tile(1, 1)] == [Tile(1, 0)] + [Tile(0, -1), Tile(0, 1), Tile(-1, -1), Tile(-1, 1), Tile(1, -1), Tile(1, 1)];
    Moves1From2();
  }

  lemma Moves1From0()
    ensures Collect(DetourGrid(), Tile(1, 0), [Tile(-1, 0), Tile(1, 0), Tile(0, -1), Tile(0, 1), Tile(-1, -1), Tile(-1, 1), Tile(1, -1), Tile(1, 1)]) == [Cell(0, 0, Empty), Cell(2, 0, Empty), Cell(0, 1, Empty), Cell(2, 1, Empty)]
  {
    CollectHit(DetourGrid(), Tile(1, 0), Tile(-1, 0), [Tile(1, 0), Tile(0, -1), Tile(0, 1), Tile(-1, -1), Tile(-1, 1), Tile(1, -1), Tile(1, 1)], Tile(0, 0), Cell(0, 0, Empty));
    assert [Tile(-1, 0), Tile(1, 0), Tile(0, -1), Tile(0, 1), Tile(-1, -1), Tile(-1, 1), Tile(1, -1), Tile(1, 1)] == [Tile(-1, 0)] + [Tile(1, 0), Tile(0, -1), Tile(0, 1), Tile(-1, -1), Tile(-1, 1), Tile(1, -1), Tile(1, 1)];
    Moves1From1();
  }

  lemma DetourNeighbors1()
    ensures GetNeighbors(A1, DetourGrid()) == [Cell(0, 0, Empty), Cell(2, 0, Empty), Cell(0, 1, Empty), Cell(2, 1, Empty)]
  {
    NeighborsAreCollect(A1, DetourGrid());
    Moves1From0();
  }

  /** The walkable neighbours of `{0,1}` on `DetourGrid`, one move at a time from the last. */
  lemma Moves2From7()
    ensures Collect(DetourGrid(), Tile(0, 1), [Tile(1, 1)]) == [Cell(1, 2, Empty)]
  {
    CollectHit(DetourGrid(), Tile(0, 1), Tile(1, 1), [], Tile(1, 2), Cell(1, 2, Empty));
    assert [Tile(1, 1)] == [Tile(1, 1)] + [];
  }

  lemma Moves2From6()
    ensures Collect(DetourGrid(), Tile(0, 1), [Tile(1, -1), Tile(1, 1)]) == [Cell(1, 0, Empty), Cell(1, 2, Empty)]
  {
    CollectHit(DetourGrid(), Tile(0, 1), Tile(1, -1), [Tile(1, 1)], Tile(1, 0), Cell(1, 0, Empty));
    assert [Tile(1, -1), Tile(1, 1)] == [Tile(1, -1)] + [Tile(1, 1)];
    Moves2From7();
  }

  lemma Moves2From5()
    ensures Collect(DetourGrid(), Tile(0, 1), [Tile(-1, 1), Tile(1, -1), Tile(1, 1)]) == [Cell(1, 0, Empty), Cell(1, 2, Empty)]
  {
    CollectMiss(DetourGrid(), Tile(0, 1), Tile(-1, 1), [Tile(1, -1), Tile(1, 1)], Tile(-1, 2));
    assert [Tile(-1, 1), Tile(1, -1), Tile(1, 1)] == [Tile(-1, 1)] + [Tile(1, -1), Tile(1, 1)];
    Moves2From6();
  }

  lemma Moves2From4()
    ensures Collect(DetourGrid(), Tile(0, 1), [Tile(-1, -1), Tile(-1, 1), Tile(1, -1), Tile(1, 1)]) == [Cell(1, 0, Empty), Cell(1, 2, Empty)]
  {
    CollectMiss(DetourGrid(), Tile(0, 1), Tile(-1, -1), [Tile(-1, 1), Tile(1, -1), Tile(1, 1)], Tile(-1, 0));
    assert [Tile(-1, -1), Tile(-1, 1), Tile(1, -1), Tile(1, 1)] == [Tile(-1, -1)] + [Tile(-1, 1), Tile(1, -1), Tile(1, 1)];
    Moves2From5();
  }

  lemma Moves2From3()
    ensures Collect(DetourGrid(), Tile(0, 1), [Tile(0, 1), Tile(-1, -1), Tile(-1, 1), Tile(1, -1), Tile(1, 1)]) == [Cell(0, 2, Empty), Cell(1, 0, Empty), Cell(1, 2, Empty)]
  {
    CollectHit(DetourGrid(), Tile(0, 1), Tile(0, 1), [Tile(-1, -1), Tile(-1, 1), Tile(1, -1), Tile(1, 1)], Tile(0, 2), Cell(0, 2, Empty));
    assert [Tile(0, 1), Tile(-1, -1), Tile(-1, 1), Tile(1, -1), Tile(1, 1)] == [Tile(0, 1)] + [Tile(-1, -1), Tile(-1, 1), Tile(1, -1), Tile(1, 1)];
    Moves2From4();
  }

  lemma Moves2From2()
    ensures Collect(DetourGrid(), Tile(0, 1), [Tile(0, -1), Tile(0, 1), Tile(-1, -1), Tile(-1, 1), Tile(1, -1), Tile(1, 1)]) == [Cell(0, 0, Empty), Cell(0, 2, Empty), Cell(1, 0, Empty), Cell(1, 2, Empty)]
  {
    CollectHit(DetourGrid(), Tile(0, 1), Tile(0, -1), [Tile(0, 1), Tile(-1, -1), Tile(-1, 1), Tile(1, -1), Tile(1, 1)], Tile(0, 0), Cell(0, 0, Empty));
    assert [Tile(0, -1), Tile(0, 1), Tile(-1, -1), Tile(-1, 1), Tile(1, -1), Tile(1, 1)] == [Tile(0, -1)] + [Tile(0, 1), Tile(-1, -1), Tile(-1, 1), Tile(1, -1), Tile(1, 1)];
    Moves2From3();
  }

  lemma Moves2From1()
    ensures Collect(DetourGrid(), Tile(0, 1), [Tile(1, 0), Tile(0, -1), Tile(0, 1), Tile(-1, -1), Tile(-1, 1), Tile(1, -1), Tile(1, 1)]) == [Cell(0, 0, Empty), Cell(0, 2, Empty), Cell(1, 0, Empty), Cell(1, 2, Empty)]
  {
    CollectMiss(DetourGrid(), Tile(0, 1), Tile(1, 0), [Tile(0, -1), Tile(0, 1), Tile(-1, -1), Tile(-1, 1), Tile(1, -1), Tile(1, 1)], Tile(1, 1));
    assert [Tile(1, 0), Tile(0, -1), Tile(0, 1), Tile(-1, -1), Tile(-1, 1), Tile(1, -1), Tile(1, 1)] == [Tile(1, 0)] + [Tile(0, -1), Tile(0, 1), Tile(-1, -1), Tile(-1, 1), Tile(1, -1), Tile(1, 1)];
    Moves2From2();
  }

  lemma Moves2From0()
    ensures Collect(DetourGrid(), Tile(0, 1), [Tile(-1, 0), Tile(1, 0), Tile(0, -1), Tile(0, 1), Tile(-1, -1), Tile(-1, 1), Tile(1, -1), Tile(1, 1)]) == [Cell(0, 0, Empty), Cell(0, 2, Empty), Cell(1, 0, Empty), Cell(1, 2, Empty)]
  {
    CollectMiss(DetourGrid(), Tile(0, 1), Tile(-1, 0), [Tile(1, 0), Tile(0, -1), Tile(0, 1), Tile(-1, -1), Tile(-1, 1), Tile(1, -1), Tile(1, 1)], Tile(-1, 1));
    assert [Tile(-1, 0), Tile(1, 0), Tile(0, -1), Tile(0, 1), Tile(-1, -1), Tile(-1, 1), Tile(1, -1), Tile(1, 1)] == [Tile(-1, 0)] + [Tile(1, 0), Tile(0, -1), Tile(0, 1), Tile(-1, -1), Tile(-1, 1), Tile(1, -1), Tile(1, 1)];
    Moves2From1();
  }

  lemma DetourNeighbors2()
    ensures GetNeighbors(A2, DetourGrid()) == [Cell(0, 0, Empty), Cell(0, 2, Empty), Cell(1, 0, Empty), Cell(1, 2, Empty)]
  {
    NeighborsAreCollect(A2, DetourGrid());
    Moves2From0();
  }

  /** The walkable neighbours of `{2,1}` on `DetourGrid`, one move at a time from the last. */
  lemma Moves4From7()
    ensures Collect(DetourGrid(), Tile(2, 1), [Tile(1, 1)]) == []
  {
    CollectMiss(DetourGrid(), Tile(2, 1), Tile(1, 1), [], Tile(3, 2));
    assert [Tile(1, 1)] == [Tile(1, 1)] + [];
  }

  lemma Moves4From6()
    ensures Collect(DetourGrid(), Tile(2, 1), [Tile(1, -1), Tile(1, 1)]) == []
  {
    CollectMiss(DetourGrid(), Tile(2, 1), Tile(1, -1), [Tile(1, 1)], Tile(3, 0));
    assert [Tile(1, -1), Tile(1, 1)] == [Tile(1, -1)] + [Tile(1, 1)];
    Moves4From7();
  }

  lemma Moves4From5()
    ensures Collect(DetourGrid(), Tile(2, 1), [Tile(-1, 1), Tile(1, -1), Tile(1, 1)]) == [Cell(1, 2, Empty)]
  {
    CollectHit(DetourGrid(), Tile(2, 1), Tile(-1, 1), [Tile(1, -1), Tile(1, 1)], Tile(1, 2), Cell(1, 2, Empty));
    assert [Tile(-1, 1), Tile(1, -1), Tile(1, 1)] == [Tile(-1, 1)] + [Tile(1, -1), Tile(1, 1)];
    Moves4From6();
  }

  lemma Moves4From4()
    ensures Collect(DetourGrid(), Tile(2, 1), [Tile(-1, -1), Tile(-1, 1), Tile(1, -1), Tile(1, 1)]) == [Cell(1, 0, Empty), Cell(1, 2, Empty)]
  {
    CollectHit(DetourGrid(), Tile(2, 1), Tile(-1, -1), [Tile(-1, 1), Tile(1, -1), Tile(1, 1)], Tile(1, 0), Cell(1, 0, Empty));
    assert [Tile(-1, -1), Tile(-1, 1), Tile(1, -1), Tile(1, 1)] == [Tile(-1, -1)] + [Tile(-1, 1), Tile(1, -1), Tile(1, 1)];
    Moves4From5();
  }

  lemma Moves4From3()
    ensures Collect(DetourGrid(), Tile(2, 1), [Tile(0, 1), Tile(-1, -1), Tile(-1, 1), Tile(1, -1), Tile(1, 1)]) == [Cell(2, 2, Empty), Cell(1, 0, Empty), Cell(1, 2, Empty)]
  {
    CollectHit(DetourGrid(), Tile(2, 1), Tile(0, 1), [Tile(-1, -1), Tile(-1, 1), Tile(1, -1), Tile(1, 1)], Tile(2, 2), Cell(2, 2, Empty));
    assert [Tile(0, 1), Tile(-1, -1), Tile(-1, 1), Tile(1, -1), Tile(1, 1)] == [Tile(0, 1)] + [Tile(-1, -1), Tile(-1, 1), Tile(1, -1), Tile(1, 1)];
    Moves4From4();
  }

  lemma Moves4From2()
    ensures Collect(DetourGrid(), Tile(2, 1), [Tile(0, -1), Tile(0, 1), Tile(-1, -1), Tile(-1, 1), Tile(1, -1), Tile(1, 1)]) == [Cell(2, 0, Empty), Cell(2, 2, Empty), Cell(1, 0, Empty), Cell(1, 2, Empty)]
  {
    CollectHit(DetourGrid(), Tile(2, 1), Tile(0, -1), [Tile(0, 1), Tile(-1, -1), Tile(-1, 1), Tile(1, -1), Tile(1, 1)], Tile(2, 0), Cell(2, 0, Empty));
    assert [Tile(0, -1), Tile(0, 1), Tile(-1, -1), Tile(-1, 1), Tile(1, -1), Tile(1, 1)] == [Tile(0, -1)] + [Tile(0, 1), Tile(-1, -1), Tile(-1, 1), Tile(1, -1), Tile(1, 1)];
    Moves4From3();
  }

  lemma Moves4From1()
    ensures Collect(DetourGrid(), Tile(2, 1), [Tile(1, 0), Tile(0, -1), Tile(0, 1), Tile(-1, -1), Tile(-1, 1), Tile(1, -1), Tile(1, 1)]) == [Cell(2, 0, Empty), Cell(2, 2, Empty), Cell(1, 0, Empty), Cell(1, 2, Empty)]
  {
    CollectMiss(DetourGrid(), Tile(2, 1), Tile(1, 0), [Tile(0, -1), Tile(0, 1), Tile(-1, -1), Tile(-1, 1), Tile(1, -1), Tile(1, 1)], Tile(3, 1));
    assert [Tile(1, 0), Tile(0, -1), Tile(0, 1), Tile(-1, -1), Tile(-1, 1), Tile(1, -1), Tile(1, 1)] == [Tile(1, 0)] + [Tile(0, -1), Tile(0, 1), Tile(-1, -1), Tile(-1, 1), Tile(1, -1), Tile(1, 1)];
    Moves4From2();
  }

  lemma Moves4From0()
    ensures Collect(DetourGrid(), Tile(2, 1), [Tile(-1, 0), Tile(1, 0), Tile(0, -1), Tile(0, 1), Tile(-1, -1), Tile(-1, 1), Tile(1, -1), Tile(1, 1)]) == [Cell(2, 0, Empty), Cell(2, 2, Empty), Cell(1, 0, Empty), Cell(1, 2, Empty)]
  {
    CollectMiss(DetourGrid(), Tile(2, 1), Tile(-1, 0), [Tile(1, 0), Tile(0, -1), Tile(0, 1), Tile(-1, -1), Tile(-1, 1), Tile(1, -1), Tile(1, 1)], Tile(1, 1));
    assert [Tile(-1, 0), Tile(1, 0), Tile(0, -1), Tile(0, 1), Tile(-1, -1), Tile(-1, 1), Tile(1, -1), Tile(1, 1)] == [Tile(-1, 0)] + [Tile(1, 0), Tile(0, -1), Tile(0, 1), Tile(-1, -1), Tile(-1, 1), Tile(1, -1), Tile(1, 1)];
    Moves4From1();
  }

  lemma DetourNeighbors4()
    ensures GetNeighbors(A4, DetourGrid()) == [Cell(2, 0, Empty), Cell(2, 2, Empty), Cell(1, 0, Empty), Cell(1, 2, Empty)]
  {
    NeighborsAreCollect(A4, DetourGrid());
    Moves4From0();
  }

  /** The walkable neighbours of `{1,2}` on `DetourGrid`, one move at a time from the last. */
  lemma Moves6From7()
    ensures Collect(DetourGrid(), Tile(1, 2), [Tile(1, 1)]) == []
  {
    CollectMiss(DetourGrid(), Tile(1, 2), Tile(1, 1), [], Tile(2, 3));
    assert [Tile(1, 1)] == [Tile(1, 1)] + [];
  }

  lemma Moves6From6()
    ensures Collect(DetourGrid(), Tile(1, 2), [Tile(1, -1), Tile(1, 1)]) == [Cell(2, 1, Empty)]
  {
    CollectHit(DetourGrid(), Tile(1, 2), Tile(1, -1), [Tile(1, 1)], Tile(2, 1), Cell(2, 1, Empty));
    assert [Tile(1, -1), Tile(1, 1)] == [Tile(1, -1)] + [Tile(1, 1)];
    Moves6From7();
  }

  lemma Moves6From5()
    ensures Collect(DetourGrid(), Tile(1, 2), [Tile(-1, 1), Tile(1, -1), Tile(1, 1)]) == [Cell(2, 1, Empty)]
  {
    CollectMiss(DetourGrid(), Tile(1, 2), Tile(-1, 1), [Tile(1, -1), Tile(1, 1)], Tile(0, 3));
    assert [Tile(-1, 1), Tile(1, -1), Tile(1, 1)] == [Tile(-1, 1)] + [Tile(1, -1), Tile(1, 1)];
    Moves6From6();
  }

  lemma Moves6From4()
    ensures Collect(DetourGrid(), Tile(1, 2), [Tile(-1, -1), Tile(-1, 1), Tile(1, -1), Tile(1, 1)]) == [Cell(0, 1, Empty), Cell(2, 1, Empty)]
  {
    CollectHit(DetourGrid(), Tile(1, 2), Tile(-1, -1), [Tile(-1, 1), Tile(1, -1), Tile(1, 1)], Tile(0, 1), Cell(0, 1, Empty));
    assert [Tile(-1, -1), Tile(-1, 1), Tile(1, -1), Tile(1, 1)] == [Tile(-1, -1)] + [Tile(-1, 1), Tile(1, -1), Tile(1, 1)];
    Moves6From5();
  }

  lemma Moves6From3()
    ensures Collect(DetourGrid(), Tile(1, 2), [Tile(0, 1), Tile(-1, -1), Tile(-1, 1), Tile(1, -1), Tile(1, 1)]) == [Cell(0, 1, Empty), Cell(2, 1, Empty)]
  {
    CollectMiss(DetourGrid(), Tile(1, 2), Tile(0, 1), [Tile(-1, -1), Tile(-1, 1), Tile(1, -1), Tile(1, 1)], Tile(1, 3));
    assert [Tile(0, 1), Tile(-1, -1), Tile(-1, 1), Tile(1, -1), Tile(1, 1)] == [Tile(0, 1)] + [Tile(-1, -1), Tile(-1, 1), Tile(1, -1), Tile(1, 1)];
    Moves6From4();
  }

  lemma Moves6From2()
    ensures Collect(DetourGrid(), Tile(1, 2), [Tile(0, -1), Tile(0, 1), Tile(-1, -1), Tile(-1, 1), Tile(1, -1), Tile(1, 1)]) == [Cell(0, 1, Empty), Cell(2, 1, Empty)]
  {
    CollectMiss(DetourGrid(), Tile(1, 2), Tile(0, -1), [Tile(0, 1), Tile(-1, -1), Tile(-1, 1), Tile(1, -1), Tile(1, 1)], Tile(1, 1));
    assert [Tile(0, -1), Tile(0, 1), Tile(-1, -1), Tile(-1, 1), Tile(1, -1), Tile(1, 1)] == [Tile(0, -1)] + [Tile(0, 1), Tile(-1, -1), Tile(-1, 1), Tile(1, -1), Tile(1, 1)];
    Moves6From3();
  }

  lemma Moves6From1()
    ensures Collect(DetourGrid(), Tile(1, 2), [Tile(1, 0), Tile(0, -1), Tile(0, 1), Tile(-1, -1), Tile(-1, 1), Tile(1, -1), Tile(1, 1)]) == [Cell(2, 2, Empty), Cell(0, 1, Empty), Cell(2, 1, Empty)]
  {
    CollectHit(DetourGrid(), Tile(1, 2), Tile(1, 0), [Tile(0, -1), Tile(0, 1), Tile(-1, -1), Tile(-1, 1), Tile(1, -1), Tile(1, 1)], Tile(2, 2), Cell(2, 2, Empty));
    assert [Tile(1, 0), Tile(0, -1), Tile(0, 1), Tile(-1, -1), Tile(-1, 1), Tile(1, -1), Tile(1, 1)] == [Tile(1, 0)] + [Tile(0, -1), Tile(0, 1), Tile(-1, -1), Tile(-1, 1), Tile(1, -1), Tile(1, 1)];
    Moves6From2();
  }

  lemma Moves6From0()
    ensures Collect(DetourGrid(), Tile(1, 2), [Tile(-1, 0), Tile(1, 0), Tile(0, -1), Tile(0, 1), Tile(-1, -1), Tile(-1, 1), Tile(1, -1), Tile(1, 1)]) == [Cell(0, 2, Empty), Cell(2, 2, Empty), Cell(0, 1, Empty), Cell(2, 1, Empty)]
  {
    CollectHit(DetourGrid(), Tile(1, 2), Tile(-1, 0), [Tile(1, 0), Tile(0, -1), Tile(0, 1), Tile(-1, -1), Tile(-1, 1), Tile(1, -1), Tile(1, 1)], Tile(0, 2), Cell(0, 2, Empty));
    assert [Tile(-1, 0), Tile(1, 0), Tile(0, -1), Tile(0, 1), Tile(-1, -1), Tile(-1, 1), Tile(1, -1), Tile(1, 1)] == [Tile(-1, 0)] + [Tile(1, 0), Tile(0, -1), Tile(0, 1), Tile(-1, -1), Tile(-1, 1), Tile(1, -1), Tile(1, 1)];
    Moves6From1();
  }

  lemma DetourNeighbors6()
    ensures GetNeighbors(A6, DetourGrid()) == [Cell(0, 2, Empty), Cell(2, 2, Empty), Cell(0, 1, Empty), Cell(2, 1, Empty)]
  {
    NeighborsAreCollect(A6, DetourGrid());
    Moves6From0();
  }

  /** The frontier after each iteration: arena, open list, closed list. */
  const F0 := Frontier([A0], [0], [])
  const F1 := Frontier([A0, A1, A2], [1, 2], [A0])
  const F2 := Frontier([A0, A1, A2, A3, A4], [2, 3, 4], [A0, A1])
  const F3 := Frontier([A0, A1, A2, A3, A4, A5, A6], [3, 4, 5, 6], [A0, A1, A2])
  const F4 := Frontier([A0, A1, A2, A3, A4, A5, A6, A7], [3, 5, 6, 7], [A0, A1, A2, A4])
  const F5 := Frontier([A0, A1, A2, A3, A4, A5, A6, A7], [3, 5, 7], [A0, A1, A2, A4, A6])

  /** Relaxing `[x] + rest` visits `x` first. */
  lemma ExpandStep(end: Cell<CellState>, s: Frontier, cur: nat, x: Cell<CellState>, rest: seq<Cell<CellState>>)
    requires Indices(s) && cur < |s.arena|
    ensures Expand(end, s, cur, [x] + rest) == Expand(end, Visit(end, s, cur, x), cur, rest)
  {
    assert ([x] + rest)[1..] == rest;
  }

  /** A closed neighbour is skipped. */
  lemma VisitClosed(end: Cell<CellState>, s: Frontier, cur: nat, x: Cell<CellState>)
    requires Indices(s) && cur < |s.arena| && At(x) in Positions(s.closed)
    ensures Visit(end, s, cur, x) == s
  {
  }

  /** A neighbour that is neither closed nor open gets the node `n` and an open entry. */
  lemma VisitNew(end: Cell<CellState>, s: Frontier, cur: nat, x: Cell<CellState>, n: Node)
    requires Indices(s) && cur < |s.arena| && At(x) !in Positions(s.closed)
    requires FindOpen(s.arena, s.open, At(x)) == None && CalculateCosts(s.arena[cur], cur, x, end) == n
    ensures Visit(end, s, cur, x) == Frontier(s.arena + [n], s.open + [|s.arena|], s.closed)
  {
  }

  /** An open neighbour that the move through `cur` does not make cheaper is left alone. */
  lemma VisitNoGain(end: Cell<CellState>, s: Frontier, cur: nat, x: Cell<CellState>, i: nat)
    requires Indices(s) && cur < |s.arena| && At(x) !in Positions(s.closed)
    requires FindOpen(s.arena, s.open, At(x)) == Some(i)
    requires i < |s.open| && CalculateCosts(s.arena[cur], cur, x, end).g >= s.arena[s.open[i]].g
    ensures Visit(end, s, cur, x) == s
  {
  }

  /** `FindOpen` finds an open list whose first entry is at `t` at index 0. */
  lemma FindHere(arena: seq<Node>, open: seq<nat>, t: Tile)
    requires forall k :: 0 <= k < |open| ==> open[k] < |arena|
    requires |open| > 0 && Pos(arena[open[0]]) == t
    ensures FindOpen(arena, open, t) == Some(0)
  {
  }

  /** `FindOpen` passes over a first entry not at `t` and searches the rest. */
  lemma FindSkip(arena: seq<Node>, open: seq<nat>, t: Tile, rest: seq<nat>, r: Option<nat>)
    requires forall k :: 0 <= k < |open| ==> open[k] < |arena|
    requires |open| > 0 && open[1..] == rest && Pos(arena[open[0]]) != t
    requires FindOpen(arena, rest, t) == r
    ensures r.None? ==> FindOpen(arena, open, t) == None
    ensures r.Some? ==> FindOpen(arena, open, t) == Some(r.value + 1)
  {
  }

  /** The positions of a list grown by one node. */
  lemma PositionsSnoc(nodes: seq<Node>, n: Node)
    ensures Positions(nodes + [n]) == Positions(nodes) + {Pos(n)}
  {
    assert (nodes + [n])[..|nodes|] == nodes;
  }

  /** The closed positions after each iteration. */
  lemma Closed1()
    ensures Positions([A0]) == {Tile(0, 0)}
  {
    PositionsSnoc([], A0);
  }

  lemma Closed2()
    ensures Positions([A0, A1]) == {Tile(0, 0), Tile(1, 0)}
  {
    Closed1();
    PositionsSnoc([A0], A1);
    assert [A0] + [A1] == [A0, A1];
  }

  lemma Closed3()
    ensures Positions([A0, A1, A2]) == {Tile(0, 0), Tile(1, 0), Tile(0, 1)}
  {
    Closed2();
    PositionsSnoc([A0, A1], A2);
    assert [A0, A1] + [A2] == [A0, A1, A2];
  }

  lemma Closed4()
    ensures Positions([A0, A1, A2, A4]) == {Tile(0, 0), Tile(1, 0), Tile(0, 1), Tile(2, 1)}
  {
    Closed3();
    PositionsSnoc([A0, A1, A2], A4);
    assert [A0, A1, A2] + [A4] == [A0, A1, A2, A4];
  }

  lemma Closed5()
    ensures Positions([A0, A1, A2, A4, A6]) == {Tile(0, 0), Tile(1, 0), Tile(0, 1), Tile(2, 1), Tile(1, 2)}
  {
    Closed4();
    PositionsSnoc([A0, A1, A2, A4], A6);
    assert [A0, A1, A2, A4] + [A6] == [A0, A1, A2, A4, A6];
  }

  lemma Find0x0()
    ensures FindOpen([A0], [], Tile(1, 0)) == None
  {
    assert FindOpen([A0], [], Tile(1, 0)) == None;
  }

  lemma Visit0x0()
    ensures Visit(DetourEnd, Frontier([A0], [], [A0]), 0, Cell(1, 0, Empty)) == Frontier([A0, A1], [1], [A0])
  {
    Closed1();
    CostA1();
    Find0x0();
    VisitNew(DetourEnd, Frontier([A0], [], [A0]), 0, Cell(1, 0, Empty), A1);
  }

  lemma Find0x1()
    ensures FindOpen([A0, A1], [1], Tile(0, 1)) == None
  {
    assert FindOpen([A0, A1], [], Tile(0, 1)) == None;
    FindSkip([A0, A1], [1], Tile(0, 1), [], None);
  }

  lemma Visit0x1()
    ensures Visit(DetourEnd, Frontier([A0, A1], [1], [A0]), 0, Cell(0, 1, Empty)) == Frontier([A0, A1, A2], [1, 2], [A0])
  {
    Closed1();
    CostA2();
    Find0x1();
    VisitNew(DetourEnd, Frontier([A0, A1], [1], [A0]), 0, Cell(0, 1, Empty), A2);
  }

  lemma Expand0()
    ensures Expand(DetourEnd, Frontier([A0], [], [A0]), 0, [Cell(1, 0, Empty), Cell(0, 1, Empty)]) == F1
  {
    Visit0x0();
    ExpandStep(DetourEnd, Frontier([A0], [], [A0]), 0, Cell(1, 0, Empty), [Cell(0, 1, Empty)]);
    Visit0x1();
    ExpandStep(DetourEnd, Frontier([A0, A1], [1], [A0]), 0, Cell(0, 1, Empty), []);
  }

  lemma Visit1x0()
    ensures Visit(DetourEnd, Frontier([A0, A1, A2], [2], [A0, A1]), 1, Cell(0, 0, Empty)) == Frontier([A0, A1, A2], [2], [A0, A1])
  {
    Closed2();
    VisitClosed(DetourEnd, Frontier([A0, A1, A2], [2], [A0, A1]), 1, Cell(0, 0, Empty));
  }

  lemma Find1x1()
    ensures FindOpen([A0, A1, A2], [2], Tile(2, 0)) == None
  {
    assert FindOpen([A0, A1, A2], [], Tile(2, 0)) == None;
    FindSkip([A0, A1, A2], [2], Tile(2, 0), [], None);
  }

  lemma Visit1x1()
    ensures Visit(DetourEnd, Frontier([A0, A1, A2], [2], [A0, A1]), 1, Cell(2, 0, Empty)) == Frontier([A0, A1, A2, A3], [2, 3], [A0, A1])
  {
    Closed2();
    CostA3();
    Find1x1();
    VisitNew(DetourEnd, Frontier([A0, A1, A2], [2], [A0, A1]), 1, Cell(2, 0, Empty), A3);
  }

  lemma Find1x2()
    ensures FindOpen([A0, A1, A2, A3], [2, 3], Tile(0, 1)) == Some(0)
  {
    FindHere([A0, A1, A2, A3], [2, 3], Tile(0, 1));
  }

  lemma Visit1x2()
    ensures Visit(DetourEnd, Frontier([A0, A1, A2, A3], [2, 3], [A0, A1]), 1, Cell(0, 1, Empty)) == Frontier([A0, A1, A2, A3], [2, 3], [A0, A1])
  {
    Closed2();
    Find1x2();
    VisitNoGain(DetourEnd, Frontier([A0, A1, A2, A3], [2, 3], [A0, A1]), 1, Cell(0, 1, Empty), 0);
  }

  lemma Find1x3()
    ensures FindOpen([A0, A1, A2, A3], [2, 3], Tile(2, 1)) == None
  {
    assert FindOpen([A0, A1, A2, A3], [], Tile(2, 1)) == None;
    FindSkip([A0, A1, A2, A3], [3], Tile(2, 1), [], None);
    FindSkip([A0, A1, A2, A3], [2, 3], Tile(2, 1), [3], None);
  }

  lemma Visit1x3()
    ensures Visit(DetourEnd, Frontier([A0, A1, A2, A3], [2, 3], [A0, A1]), 1, Cell(2, 1, Empty)) == Frontier([A0, A1, A2, A3, A4], [2, 3, 4], [A0, A1])
  {
    Closed2();
    CostA4();
    Find1x3();
    VisitNew(DetourEnd, Frontier([A0, A1, A2, A3], [2, 3], [A0, A1]), 1, Cell(2, 1, Empty), A4);
  }

  lemma Expand1()
    ensures Expand(DetourEnd, Frontier([A0, A1, A2], [2], [A0, A1]), 1, [Cell(0, 0, Empty), Cell(2, 0, Empty), Cell(0, 1, Empty), Cell(2, 1, Empty)]) == F2
  {
    Visit1x0();
    ExpandStep(DetourEnd, Frontier([A0, A1, A2], [2], [A0, A1]), 1, Cell(0, 0, Empty), [Cell(2, 0, Empty), Cell(0, 1, Empty), Cell(2, 1, Empty)]);
    Visit1x1();
    ExpandStep(DetourEnd, Frontier([A0, A1, A2], [2], [A0, A1]), 1, Cell(2, 0, Empty), [Cell(0, 1, Empty), Cell(2, 1, Empty)]);
    Visit1x2();
    ExpandStep(DetourEnd, Frontier([A0, A1, A2, A3], [2, 3], [A0, A1]), 1, Cell(0, 1, Empty), [Cell(2, 1, Empty)]);
    Visit1x3();
    ExpandStep(DetourEnd, Frontier([A0, A1, A2, A3], [2, 3], [A0, A1]), 1, Cell(2, 1, Empty), []);
  }

  lemma Visit2x0()
    ensures Visit(DetourEnd, Frontier([A0, A1, A2, A3, A4], [3, 4], [A0, A1, A2]), 2, Cell(0, 0, Empty)) == Frontier([A0, A1, A2, A3, A4], [3, 4], [A0, A1, A2])
  {
    Closed3();
    VisitClosed(DetourEnd, Frontier([A0, A1, A2, A3, A4], [3, 4], [A0, A1, A2]), 2, Cell(0, 0, Empty));
  }

  lemma Find2x1()
    ensures FindOpen([A0, A1, A2, A3, A4], [3, 4], Tile(0, 2)) == None
  {
    assert FindOpen([A0, A1, A2, A3, A4], [], Tile(0, 2)) == None;
    FindSkip([A0, A1, A2, A3, A4], [4], Tile(0, 2), [], None);
    FindSkip([A0, A1, A2, A3, A4], [3, 4], Tile(0, 2), [4], None);
  }

  lemma Visit2x1()
    ensures Visit(DetourEnd, Frontier([A0, A1, A2, A3, A4], [3, 4], [A0, A1, A2]), 2, Cell(0, 2, Empty)) == Frontier([A0, A1, A2, A3, A4, A5], [3, 4, 5], [A0, A1, A2])
  {
    Closed3();
    CostA5();
    Find2x1();
    VisitNew(DetourEnd, Frontier([A0, A1, A2, A3, A4], [3, 4], [A0, A1, A2]), 2, Cell(0, 2, Empty), A5);
  }

  lemma Visit2x2()
    ensures Visit(DetourEnd, Frontier([A0, A1, A2, A3, A4, A5], [3, 4, 5], [A0, A1, A2]), 2, Cell(1, 0, Empty)) == Frontier([A0, A1, A2, A3, A4, A5], [3, 4, 5], [A0, A1, A2])
  {
    Closed3();
    VisitClosed(DetourEnd, Frontier([A0, A1, A2, A3, A4, A5], [3, 4, 5], [A0, A1, A2]), 2, Cell(1, 0, Empty));
  }

  lemma Find2x3()
    ensures FindOpen([A0, A1, A2, A3, A4, A5], [3, 4, 5], Tile(1, 2)) == None
  {
    assert FindOpen([A0, A1, A2, A3, A4, A5], [], Tile(1, 2)) == None;
    FindSkip([A0, A1, A2, A3, A4, A5], [5], Tile(1, 2), [], None);
    FindSkip([A0, A1, A2, A3, A4, A5], [4, 5], Tile(1, 2), [5], None);
    FindSkip([A0, A1, A2, A3, A4, A5], [3, 4, 5], Tile(1, 2), [4, 5], None);
  }

  lemma Visit2x3()
    ensures Visit(DetourEnd, Frontier([A0, A1, A2, A3, A4, A5], [3, 4, 5], [A0, A1, A2]), 2, Cell(1, 2, Empty)) == Frontier([A0, A1, A2, A3, A4, A5, A6], [3, 4, 5, 6], [A0, A1, A2])
  {
    Closed3();
    CostA6();
    Find2x3();
    VisitNew(DetourEnd, Frontier([A0, A1, A2, A3, A4, A5], [3, 4, 5], [A0, A1, A2]), 2, Cell(1, 2, Empty), A6);
  }

  lemma Expand2()
    ensures Expand(DetourEnd, Frontier([A0, A1, A2, A3, A4], [3, 4], [A0, A1, A2]), 2, [Cell(0, 0, Empty), Cell(0, 2, Empty), Cell(1, 0, Empty), Cell(1, 2, Empty)]) == F3
  {
    Visit2x0();
    ExpandStep(DetourEnd, Frontier([A0, A1, A2, A3, A4], [3, 4], [A0, A1, A2]), 2, Cell(0, 0, Empty), [Cell(0, 2, Empty), Cell(1, 0, Empty), Cell(1, 2, Empty)]);
    Visit2x1();
    ExpandStep(DetourEnd, Frontier([A0, A1, A2, A3, A4], [3, 4], [A0, A1, A2]), 2, Cell(0, 2, Empty), [Cell(1, 0, Empty), Cell(1, 2, Empty)]);
    Visit2x2();
    ExpandStep(DetourEnd, Frontier([A0, A1, A2, A3, A4, A5], [3, 4, 5], [A0, A1, A2]), 2, Cell(1, 0, Empty), [Cell(1, 2, Empty)]);
    Visit2x3();
    ExpandStep(DetourEnd, Frontier([A0, A1, A2, A3, A4, A5], [3, 4, 5], [A0, A1, A2]), 2, Cell(1, 2, Empty), []);
  }

  lemma Find3x0()
    ensures FindOpen([A0, A1, A2, A3, A4, A5, A6], [3, 5, 6], Tile(2, 0)) == Some(0)
  {
    FindHere([A0, A1, A2, A3, A4, A5, A6], [3, 5, 6], Tile(2, 0));
  }

  lemma Visit3x0()
    ensures Visit(DetourEnd, Frontier([A0, A1, A2, A3, A4, A5, A6], [3, 5, 6], [A0, A1, A2, A4]), 4, Cell(2, 0, Empty)) == Frontier([A0, A1, A2, A3, A4, A5, A6], [3, 5, 6], [A0, A1, A2, A4])
  {
    Closed4();
    Find3x0();
    VisitNoGain(DetourEnd, Frontier([A0, A1, A2, A3, A4, A5, A6], [3, 5, 6], [A0, A1, A2, A4]), 4, Cell(2, 0, Empty), 0);
  }

  lemma Find3x1()
    ensures FindOpen([A0, A1, A2, A3, A4, A5, A6], [3, 5, 6], Tile(2, 2)) == None
  {
    assert FindOpen([A0, A1, A2, A3, A4, A5, A6], [], Tile(2, 2)) == None;
    FindSkip([A0, A1, A2, A3, A4, A5, A6], [6], Tile(2, 2), [], None);
    FindSkip([A0, A1, A2, A3, A4, A5, A6], [5, 6], Tile(2, 2), [6], None);
    FindSkip([A0, A1, A2, A3, A4, A5, A6], [3, 5, 6], Tile(2, 2), [5, 6], None);
  }

  lemma Visit3x1()
    ensures Visit(DetourEnd, Frontier([A0, A1, A2, A3, A4, A5, A6], [3, 5, 6], [A0, A1, A2, A4]), 4, Cell(2, 2, Empty)) == Frontier([A0, A1, A2, A3, A4, A5, A6, A7], [3, 5, 6, 7], [A0, A1, A2, A4])
  {
    Closed4();
    CostA7();
    Find3x1();
    VisitNew(DetourEnd, Frontier([A0, A1, A2, A3, A4, A5, A6], [3, 5, 6], [A0, A1, A2, A4]), 4, Cell(2, 2, Empty), A7);
  }

  lemma Visit3x2()
    ensures Visit(DetourEnd, Frontier([A0, A1, A2, A3, A4, A5, A6, A7], [3, 5, 6, 7], [A0, A1, A2, A4]), 4, Cell(1, 0, Empty)) == Frontier([A0, A1, A2, A3, A4, A5, A6, A7], [3, 5, 6, 7], [A0, A1, A2, A4])
  {
    Closed4();
    VisitClosed(DetourEnd, Frontier([A0, A1, A2, A3, A4, A5, A6, A7], [3, 5, 6, 7], [A0, A1, A2, A4]), 4, Cell(1, 0, Empty));
  }

  lemma Find3x3()
    ensures FindOpen([A0, A1, A2, A3, A4, A5, A6, A7], [3, 5, 6, 7], Tile(1, 2)) == Some(2)
  {
    FindHere([A0, A1, A2, A3, A4, A5, A6, A7], [6, 7], Tile(1, 2));
    FindSkip([A0, A1, A2, A3, A4, A5, A6, A7], [5, 6, 7], Tile(1, 2), [6, 7], Some(0));
    FindSkip([A0, A1, A2, A3, A4, A5, A6, A7], [3, 5, 6, 7], Tile(1, 2), [5, 6, 7], Some(1));
  }

  lemma Visit3x3()
    ensures Visit(DetourEnd, Frontier([A0, A1, A2, A3, A4, A5, A6, A7], [3, 5, 6, 7], [A0, A1, A2, A4]), 4, Cell(1, 2, Empty)) == Frontier([A0, A1, A2, A3, A4, A5, A6, A7], [3, 5, 6, 7], [A0, A1, A2, A4])
  {
    Closed4();
    Find3x3();
    VisitNoGain(DetourEnd, Frontier([A0, A1, A2, A3, A4, A5, A6, A7], [3, 5, 6, 7], [A0, A1, A2, A4]), 4, Cell(1, 2, Empty), 2);
  }

  lemma Expand3()
    ensures Expand(DetourEnd, Frontier([A0, A1, A2, A3, A4, A5, A6], [3, 5, 6], [A0, A1, A2, A4]), 4, [Cell(2, 0, Empty), Cell(2, 2, Empty), Cell(1, 0, Empty), Cell(1, 2, Empty)]) == F4
  {
    Visit3x0();
    ExpandStep(DetourEnd, Frontier([A0, A1, A2, A3, A4, A5, A6], [3, 5, 6], [A0, A1, A2, A4]), 4, Cell(2, 0, Empty), [Cell(2, 2, Empty), Cell(1, 0, Empty), Cell(1, 2, Empty)]);
    Visit3x1();
    ExpandStep(DetourEnd, Frontier([A0, A1, A2, A3, A4, A5, A6], [3, 5, 6], [A0, A1, A2, A4]), 4, Cell(2, 2, Empty), [Cell(1, 0, Empty), Cell(1, 2, Empty)]);
    Visit3x2();
    ExpandStep(DetourEnd, Frontier([A0, A1, A2, A3, A4, A5, A6, A7], [3, 5, 6, 7], [A0, A1, A2, A4]), 4, Cell(1, 0, Empty), [Cell(1, 2, Empty)]);
    Visit3x3();
    ExpandStep(DetourEnd, Frontier([A0, A1, A2, A3, A4, A5, A6, A7], [3, 5, 6, 7], [A0, A1, A2, A4]), 4, Cell(1, 2, Empty), []);
  }

  lemma Find4x0()
    ensures FindOpen([A0, A1, A2, A3, A4, A5, A6, A7], [3, 5, 7], Tile(0, 2)) == Some(1)
  {
    FindHere([A0, A1, A2, A3, A4, A5, A6, A7], [5, 7], Tile(0, 2));
    FindSkip([A0, A1, A2, A3, A4, A5, A6, A7], [3, 5, 7], Tile(0, 2), [5, 7], Some(0));
  }

  lemma Visit4x0()
    ensures Visit(DetourEnd, Frontier([A0, A1, A2, A3, A4, A5, A6, A7], [3, 5, 7], [A0, A1, A2, A4, A6]), 6, Cell(0, 2, Empty)) == Frontier([A0, A1, A2, A3, A4, A5, A6, A7], [3, 5, 7], [A0, A1, A2, A4, A6])
  {
    Closed5();
    Find4x0();
    VisitNoGain(DetourEnd, Frontier([A0, A1, A2, A3, A4, A5, A6, A7], [3, 5, 7], [A0, A1, A2, A4, A6]), 6, Cell(0, 2, Empty), 1);
  }

  lemma Find4x1()
    ensures FindOpen([A0, A1, A2, A3, A4, A5, A6, A7], [3, 5, 7], Tile(2, 2)) == Some(2)
  {
    FindHere([A0, A1, A2, A3, A4, A5, A6, A7], [7], Tile(2, 2));
    FindSkip([A0, A1, A2, A3, A4, A5, A6, A7], [5, 7], Tile(2, 2), [7], Some(0));
    FindSkip([A0, A1, A2, A3, A4, A5, A6, A7], [3, 5, 7], Tile(2, 2), [5, 7], Some(1));
  }

  lemma Visit4x1()
    ensures Visit(DetourEnd, Frontier([A0, A1, A2, A3, A4, A5, A6, A7], [3, 5, 7], [A0, A1, A2, A4, A6]), 6, Cell(2, 2, Empty)) == Frontier([A0, A1, A2, A3, A4, A5, A6, A7], [3, 5, 7], [A0, A1, A2, A4, A6])
  {
    Closed5();
    Find4x1();
    VisitNoGain(DetourEnd, Frontier([A0, A1, A2, A3, A4, A5, A6, A7], [3, 5, 7], [A0, A1, A2, A4, A6]), 6, Cell(2, 2, Empty), 2);
  }

  lemma Visit4x2()
    ensures Visit(DetourEnd, Frontier([A0, A1, A2, A3, A4, A5, A6, A7], [3, 5, 7], [A0, A1, A2, A4, A6]), 6, Cell(0, 1, Empty)) == Frontier([A0, A1, A2, A3, A4, A5, A6, A7], [3, 5, 7], [A0, A1, A2, A4, A6])
  {
    Closed5();
    VisitClosed(DetourEnd, Frontier([A0, A1, A2, A3, A4, A5, A6, A7], [3, 5, 7], [A0, A1, A2, A4, A6]), 6, Cell(0, 1, Empty));
  }

  lemma Visit4x3()
    ensures Visit(DetourEnd, Frontier([A0, A1, A2, A3, A4, A5, A6, A7], [3, 5, 7], [A0, A1, A2, A4, A6]), 6, Cell(2, 1, Empty)) == Frontier([A0, A1, A2, A3, A4, A5, A6, A7], [3, 5, 7], [A0, A1, A2, A4, A6])
  {
    Closed5();
    VisitClosed(DetourEnd, Frontier([A0, A1, A2, A3, A4, A5, A6, A7], [3, 5, 7], [A0, A1, A2, A4, A6]), 6, Cell(2, 1, Empty));
  }

  lemma Expand4()
    ensures Expand(DetourEnd, Frontier([A0, A1, A2, A3, A4, A5, A6, A7], [3, 5, 7], [A0, A1, A2, A4, A6]), 6, [Cell(0, 2, Empty), Cell(2, 2, Empty), Cell(0, 1, Empty), Cell(2, 1, Empty)]) == F5
  {
    Visit4x0();
    ExpandStep(DetourEnd, Frontier([A0, A1, A2, A3, A4, A5, A6, A7], [3, 5, 7], [A0, A1, A2, A4, A6]), 6, Cell(0, 2, Empty), [Cell(2, 2, Empty), Cell(0, 1, Empty), Cell(2, 1, Empty)]);
    Visit4x1();
    ExpandStep(DetourEnd, Frontier([A0, A1, A2, A3, A4, A5, A6, A7], [3, 5, 7], [A0, A1, A2, A4, A6]), 6, Cell(2, 2, Empty), [Cell(0, 1, Empty), Cell(2, 1, Empty)]);
    Visit4x2();
    ExpandStep(DetourEnd, Frontier([A0, A1, A2, A3, A4, A5, A6, A7], [3, 5, 7], [A0, A1, A2, A4, A6]), 6, Cell(0, 1, Empty), [Cell(2, 1, Empty)]);
    Visit4x3();
    ExpandStep(DetourEnd, Frontier([A0, A1, A2, A3, A4, A5, A6, A7], [3, 5, 7], [A0, A1, A2, A4, A6]), 6, Cell(2, 1, Empty), []);
  }

  /**
   * The cheapest open entry of `s` is arena entry `cur`, holding `node`, and
   * `t` is what is left once it is taken off the open list and closed.
   */
  predicate Closes(s: Frontier, t: Frontier, cur: nat, node: Node) {
    && Indices(s) && |s.open| > 0
    && var i := SelectMin(s.arena, s.open);
       && s.open[i] == cur && s.arena[cur] == node
       && t == Frontier(s.arena, s.open[..i] + s.open[i + 1..], s.closed + [node])
       && Indices(t)
  }

  /** One iteration, given what it closes and the neighbours it relaxes. */
  lemma AdvanceVia(grid: Grid<CellState>, end: Cell<CellState>, s: Frontier, t: Frontier, cur: nat, node: Node,
                   neighbors: seq<Cell<CellState>>, r: Frontier)
    requires Closes(s, t, cur, node) && cur < |t.arena|
    requires GetNeighbors(node, grid) == neighbors
    requires Expand(end, t, cur, neighbors) == r
    ensures Advance(grid, end, true, s) == r
  {
    AdvanceBy(grid, end, s, SelectMin(s.arena, s.open), t.open);
  }

  /** One iteration, given the entry it selects and the open list left behind. */
  lemma AdvanceBy(grid: Grid<CellState>, end: Cell<CellState>, s: Frontier, i: nat, open: seq<nat>)
    requires Indices(s) && |s.open| > 0 && i == SelectMin(s.arena, s.open)
    requires open == s.open[..i] + s.open[i + 1..]
    ensures Advance(grid, end, true, s)
            == Expand(end, Frontier(s.arena, open, s.closed + [s.arena[s.open[i]]]), s.open[i], GetNeighbors(s.arena[s.open[i]], grid))
  {
    assert forall k :: 0 <= k < |open| ==> open[k] == s.open[if k < i then k else k + 1];
  }

  /** The search has something open and its cheapest open node is not the end. */
  predicate Ongoing(s: Frontier, end: Cell<CellState>) {
    && Indices(s) && |s.open| > 0
    && Pos(s.arena[s.open[SelectMin(s.arena, s.open)]]) != At(end)
  }

  /** A search that goes on runs as from the frontier one iteration later. */
  lemma RunVia(grid: Grid<CellState>, start: Cell<CellState>, end: Cell<CellState>, s: Frontier, next: Frontier)
    requires Indexed(grid) && Inv(grid, start, end, true, s) && Ongoing(s, end)
    requires Advance(grid, end, true, s) == next
    ensures Inv(grid, start, end, true, next)
    ensures Run(grid, start, end, true, s) == Run(grid, start, end, true, next)
  {
    RunContinues(grid, start, end, true, s);
  }

  lemma Select0()
    ensures SelectMin(F0.arena, F0.open) == 0
  {
  }

  lemma Select1()
    ensures SelectMin(F1.arena, F1.open) == 0
  {
  }

  lemma Select2()
    ensures SelectMin(F2.arena, F2.open) == 0
  {
  }

  lemma Select3()
    ensures SelectMin(F3.arena, F3.open) == 1
  {
    assert F3.open[..3] == [3, 4, 5] && [3, 4, 5][..2] == [3, 4] && [3, 4][..1] == [3];
    assert SelectMin(F3.arena, [3, 4]) == 1;
    assert SelectMin(F3.arena, [3, 4, 5]) == 1;
  }

  lemma Select4()
    ensures SelectMin(F4.arena, F4.open) == 2
  {
  }

  lemma Select5()
    ensures SelectMin(F5.arena, F5.open) == 2
  {
  }

  /** Iteration 0 takes arena entry 0 off the open list and closes it. */
  lemma Closing0()
    ensures Closes(F0, Frontier([A0], [], [A0]), 0, A0)
    ensures Ongoing(F0, DetourEnd)
  {
    Select0();
  }

  /** Iteration 0: closing arena entry 0 and relaxing its neighbours gives `F1`. */
  lemma Advance0()
    ensures Advance(DetourGrid(), DetourEnd, true, F0) == F1
  {
    assert Closes(F0, Frontier([A0], [], [A0]), 0, A0) by { Closing0(); }
    assert GetNeighbors(A0, DetourGrid()) == [Cell(1, 0, Empty), Cell(0, 1, Empty)] by { DetourNeighbors0(); }
    assert Expand(DetourEnd, Frontier([A0], [], [A0]), 0, [Cell(1, 0, Empty), Cell(0, 1, Empty)]) == F1 by { Expand0(); }
    AdvanceVia(DetourGrid(), DetourEnd, F0, Frontier([A0], [], [A0]), 0, A0, [Cell(1, 0, Empty), Cell(0, 1, Empty)], F1);
  }

  /** Iteration 1 takes arena entry 1 off the open list and closes it. */
  lemma Closing1()
    ensures Closes(F1, Frontier([A0, A1, A2], [2], [A0, A1]), 1, A1)
    ensures Ongoing(F1, DetourEnd)
  {
    Select1();
  }

  /** Iteration 1: closing arena entry 1 and relaxing its neighbours gives `F2`. */
  lemma Advance1()
    ensures Advance(DetourGrid(), DetourEnd, true, F1) == F2
  {
    assert Closes(F1, Frontier([A0, A1, A2], [2], [A0, A1]), 1, A1) by { Closing1(); }
    assert GetNeighbors(A1, DetourGrid()) == [Cell(0, 0, Empty), Cell(2, 0, Empty), Cell(0, 1, Empty), Cell(2, 1, Empty)] by { DetourNeighbors1(); }
    assert Expand(DetourEnd, Frontier([A0, A1, A2], [2], [A0, A1]), 1, [Cell(0, 0, Empty), Cell(2, 0, Empty), Cell(0, 1, Empty), Cell(2, 1, Empty)]) == F2 by { Expand1(); }
    AdvanceVia(DetourGrid(), DetourEnd, F1, Frontier([A0, A1, A2], [2], [A0, A1]), 1, A1, [Cell(0, 0, Empty), Cell(2, 0, Empty), Cell(0, 1, Empty), Cell(2, 1, Empty)], F2);
  }

  /** Iteration 2 takes arena entry 2 off the open list and closes it. */
  lemma Closing2()
    ensures Closes(F2, Frontier([A0, A1, A2, A3, A4], [3, 4], [A0, A1, A2]), 2, A2)
    ensures Ongoing(F2, DetourEnd)
  {
    Select2();
  }

  /** Iteration 2: closing arena entry 2 and relaxing its neighbours gives `F3`. */
  lemma Advance2()
    ensures Advance(DetourGrid(), DetourEnd, true, F2) == F3
  {
    assert Closes(F2, Frontier([A0, A1, A2, A3, A4], [3, 4], [A0, A1, A2]), 2, A2) by { Closing2(); }
    assert GetNeighbors(A2, DetourGrid()) == [Cell(0, 0, Empty), Cell(0, 2, Empty), Cell(1, 0, Empty), Cell(1, 2, Empty)] by { DetourNeighbors2(); }
    assert Expand(DetourEnd, Frontier([A0, A1, A2, A3, A4], [3, 4], [A0, A1, A2]), 2, [Cell(0, 0, Empty), Cell(0, 2, Empty), Cell(1, 0, Empty), Cell(1, 2, Empty)]) == F3 by { Expand2(); }
    AdvanceVia(DetourGrid(), DetourEnd, F2, Frontier([A0, A1, A2, A3, A4], [3, 4], [A0, A1, A2]), 2, A2, [Cell(0, 0, Empty), Cell(0, 2, Empty), Cell(1, 0, Empty), Cell(1, 2, Empty)], F3);
  }

  /** Iteration 3 takes arena entry 4 off the open list and closes it. */
  lemma Closing3()
    ensures Closes(F3, Frontier([A0, A1, A2, A3, A4, A5, A6], [3, 5, 6], [A0, A1, A2, A4]), 4, A4)
    ensures Ongoing(F3, DetourEnd)
  {
    Select3();
  }

  /** Iteration 3: closing arena entry 4 and relaxing its neighbours gives `F4`. */
  lemma Advance3()
    ensures Advance(DetourGrid(), DetourEnd, true, F3) == F4
  {
    assert Closes(F3, Frontier([A0, A1, A2, A3, A4, A5, A6], [3, 5, 6], [A0, A1, A2, A4]), 4, A4) by { Closing3(); }
    assert GetNeighbors(A4, DetourGrid()) == [Cell(2, 0, Empty), Cell(2, 2, Empty), Cell(1, 0, Empty), Cell(1, 2, Empty)] by { DetourNeighbors4(); }
    assert Expand(DetourEnd, Frontier([A0, A1, A2, A3, A4, A5, A6], [3, 5, 6], [A0, A1, A2, A4]), 4, [Cell(2, 0, Empty), Cell(2, 2, Empty), Cell(1, 0, Empty), Cell(1, 2, Empty)]) == F4 by { Expand3(); }
    AdvanceVia(DetourGrid(), DetourEnd, F3, Frontier([A0, A1, A2, A3, A4, A5, A6], [3, 5, 6], [A0, A1, A2, A4]), 4, A4, [Cell(2, 0, Empty), Cell(2, 2, Empty), Cell(1, 0, Empty), Cell(1, 2, Empty)], F4);
  }

  /** Iteration 4 takes arena entry 6 off the open list and closes it. */
  lemma Closing4()
    ensures Closes(F4, Frontier([A0, A1, A2, A3, A4, A5, A6, A7], [3, 5, 7], [A0, A1, A2, A4, A6]), 6, A6)
    ensures Ongoing(F4, DetourEnd)
  {
    Select4();
  }

  /** Iteration 4: closing arena entry 6 and relaxing its neighbours gives `F5`. */
  lemma Advance4()
    ensures Advance(DetourGrid(), DetourEnd, true, F4) == F5
  {
    assert Closes(F4, Frontier([A0, A1, A2, A3, A4, A5, A6, A7], [3, 5, 7], [A0, A1, A2, A4, A6]), 6, A6) by { Closing4(); }
    assert GetNeighbors(A6, DetourGrid()) == [Cell(0, 2, Empty), Cell(2, 2, Empty), Cell(0, 1, Empty), Cell(2, 1, Empty)] by { DetourNeighbors6(); }
    assert Expand(DetourEnd, Frontier([A0, A1, A2, A3, A4, A5, A6, A7], [3, 5, 7], [A0, A1, A2, A4, A6]), 6, [Cell(0, 2, Empty), Cell(2, 2, Empty), Cell(0, 1, Empty), Cell(2, 1, Empty)]) == F5 by { Expand4(); }
    AdvanceVia(DetourGrid(), DetourEnd, F4, Frontier([A0, A1, A2, A3, A4, A5, A6, A7], [3, 5, 7], [A0, A1, A2, A4, A6]), 6, A6, [Cell(0, 2, Empty), Cell(2, 2, Empty), Cell(0, 1, Empty), Cell(2, 1, Empty)], F5);
  }

  /** One parent link followed back: the path to `i` is the path to its parent, then `i`. */
  lemma ReconstructStep(arena: seq<Node>, i: nat, j: nat, p: seq<Node>)
    requires ValidArena(arena) && i < |arena| && arena[i].parent == Some(j)
    requires ReconstructPath(arena, j) == p
    ensures ReconstructPath(arena, i) == p + [arena[i]]
  {
  }

  lemma DetourValid()
    ensures ValidArena(F5.arena)
  {
  }

  /** The path the search returns: start, `(1,0)`, `(2,1)`, end. */
  lemma DetourPath()
    ensures ValidArena(F5.arena)
    ensures ReconstructPath(F5.arena, 7) == [A0, A1, A4, A7]
  {
    DetourValid();
    assert ReconstructPath(F5.arena, 0) == [A0];
    ReconstructStep(F5.arena, 1, 0, [A0]);
    ReconstructStep(F5.arena, 4, 1, [A0, A1]);
    ReconstructStep(F5.arena, 7, 4, [A0, A1, A4]);
  }

  /** The search result once the end is the cheapest open node. */
  const Found := SearchResult([A0, A1, A4, A7], [A0, A1, A2, A4, A6, A7])

  /** In `F5` the end node is the cheapest open entry, so the search stops there. */
  lemma RunFrom5()
    requires Indexed(DetourGrid()) && Inv(DetourGrid(), DetourStart, DetourEnd, true, F5)
    ensures Run(DetourGrid(), DetourStart, DetourEnd, true, F5) == Found
  {
    Select5();
    DetourPath();
  }

  lemma RunFrom4()
    requires Indexed(DetourGrid()) && Inv(DetourGrid(), DetourStart, DetourEnd, true, F4)
    ensures Run(DetourGrid(), DetourStart, DetourEnd, true, F4) == Found
  {
    Closing4();
    Advance4();
    RunVia(DetourGrid(), DetourStart, DetourEnd, F4, F5);
    RunFrom5();
  }

  lemma RunFrom3()
    requires Indexed(DetourGrid()) && Inv(DetourGrid(), DetourStart, DetourEnd, true, F3)
    ensures Run(DetourGrid(), DetourStart, DetourEnd, true, F3) == Found
  {
    Closing3();
    Advance3();
    RunVia(DetourGrid(), DetourStart, DetourEnd, F3, F4);
    RunFrom4();
  }

  lemma RunFrom2()
    requires Indexed(DetourGrid()) && Inv(DetourGrid(), DetourStart, DetourEnd, true, F2)
    ensures Run(DetourGrid(), DetourStart, DetourEnd, true, F2) == Found
  {
    Closing2();
    Advance2();
    RunVia(DetourGrid(), DetourStart, DetourEnd, F2, F3);
    RunFrom3();
  }

  lemma RunFrom1()
    requires Indexed(DetourGrid()) && Inv(DetourGrid(), DetourStart, DetourEnd, true, F1)
    ensures Run(DetourGrid(), DetourStart, DetourEnd, true, F1) == Found
  {
    Closing1();
    Advance1();
    RunVia(DetourGrid(), DetourStart, DetourEnd, F1, F2);
    RunFrom2();
  }

  lemma RunFrom0()
    requires Indexed(DetourGrid()) && Inv(DetourGrid(), DetourStart, DetourEnd, true, F0)
    ensures Run(DetourGrid(), DetourStart, DetourEnd, true, F0) == Found
  {
    Closing0();
    Advance0();
    RunVia(DetourGrid(), DetourStart, DetourEnd, F0, F1);
    RunFrom1();
  }

  /**
   * The `aStar` case: on the 3 x 3 grid with an obstacle in the centre, from
   * `(0,0)` to `(2,2)` with diagonal moves allowed, the search returns the
   * four-node path start, `(1,0)`, `(2,1)`, end, having expanded six nodes:
   * four nodes, the first at the start, the last at the end, some visited.
   */
  lemma AStarDetourPath()
    ensures Indexed(DetourGrid())
    ensures AStar(DetourGrid(), DetourStart, DetourEnd) == Found
    ensures |Found.path| == 4 && Pos(Found.path[0]) == At(DetourStart) && Pos(Found.path[3]) == At(DetourEnd)
    ensures |Found.visitedNodes| > 0
  {
    DetourIndexed();
    StartCost();
    RunFrom0();
  }
}
