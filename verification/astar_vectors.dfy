/**
 * The concrete cases of `src/services/aStarHeuristic.test.ts`, proved
 * about the model.
 */
module AStarVectors {
  import opened Js
  import opened Board
  import opened Enums
  import opened AStarNodes
  import opened AStarSearch

  /** `heuristic({3,0}, {0,4})` is 50: ten times a Euclidean distance of exactly 5. */
  lemma HeuristicVector()
    ensures Heuristic(Tile(3, 0), Tile(0, 4)) == 50
  {
    assert SqDist(Tile(3, 0), Tile(0, 4)) == 25;
    IsqrtUnique(2500, 50);
  }

  /**
   * `calculateCosts` from `{2,3}` with `g = 5` to the neighbour `{3,3}`
   * towards `{5,5}`: `g = 15`, `h = 28`, `f = 43`.
   */
  lemma CalculateCostsVector()
    ensures var n := CalculateCosts(Node(2, 3, 5, 0, 5, None), 0, Cell(3, 3, Empty), Cell(5, 5, End));
            n.g == 15 && n.h == 28 && n.f == 43 && Pos(n) == Tile(3, 3)
  {
    assert SqDist(Tile(3, 3), Tile(5, 5)) == 8;
    IsqrtUnique(800, 28);
  }

  /** `initializeStartNode({0,0}, {5,5})`: at the start, `g = 0`, `f = h = 70`, no parent. */
  lemma InitializeStartNodeVector()
    ensures var n := InitializeStartNode(Cell(0, 0, Start), Cell(5, 5, Start));
            n == Node(0, 0, 0, 70, 70, None)
  {
    assert SqDist(Tile(0, 0), Tile(5, 5)) == 50;
    IsqrtUnique(5000, 70);
  }

  /** The 3 x 3 grid of the `getNeighbors` case: obstacles at `{0,1}` and `{2,1}`. */
  function NeighborGrid(): Grid<CellState> {
    [[Cell(0, 0, Empty), Cell(0, 1, Obstacle), Cell(0, 2, Empty)],
     [Cell(1, 0, Empty), Cell(1, 1, Empty), Cell(1, 2, Empty)],
     [Cell(2, 0, Empty), Cell(2, 1, Obstacle), Cell(2, 2, Empty)]]
  }

  /** One step of `Collect`: the first move contributes its cell when that cell is walkable. */
  lemma CollectCons(g: Grid<CellState>, c: Tile, d: Tile, rest: seq<Tile>)
    ensures Collect(g, c, [d] + rest)
            == (if Walkable(g, Shift(c, d)) then [g[Shift(c, d).row][Shift(c, d).col]] else []) + Collect(g, c, rest)
  {
    assert ([d] + rest)[1..] == rest;
  }

  /** The four diagonal moves from the centre all land on walkable cells. */
  lemma DiagonalNeighbors()
    ensures Collect(NeighborGrid(), Tile(1, 1), Diagonal)
            == [Cell(0, 0, Empty), Cell(0, 2, Empty), Cell(2, 0, Empty), Cell(2, 2, Empty)]
  {
    var g, c := NeighborGrid(), Tile(1, 1);
    CollectCons(g, c, Tile(1, 1), []);
    CollectCons(g, c, Tile(1, -1), [Tile(1, 1)]);
    CollectCons(g, c, Tile(-1, 1), [Tile(1, -1), Tile(1, 1)]);
    CollectCons(g, c, Tile(-1, -1), [Tile(-1, 1), Tile(1, -1), Tile(1, 1)]);
  }

  /** Of the orthogonal moves from the centre, up and down hit obstacles; left and right are kept. */
  lemma AllNeighbors()
    ensures Collect(NeighborGrid(), Tile(1, 1), Orthogonal + Diagonal)
            == [Cell(1, 0, Empty), Cell(1, 2, Empty)] + Collect(NeighborGrid(), Tile(1, 1), Diagonal)
  {
    var g, c := NeighborGrid(), Tile(1, 1);
    var d2 := [Tile(0, 1)] + Diagonal;
    var d1 := [Tile(0, -1)] + d2;
    var d0 := [Tile(1, 0)] + d1;
    CollectCons(g, c, Tile(0, 1), Diagonal);
    CollectCons(g, c, Tile(0, -1), d2);
    CollectCons(g, c, Tile(1, 0), d1);
    CollectCons(g, c, Tile(-1, 0), d0);
    assert Orthogonal + Diagonal == [Tile(-1, 0)] + d0;
  }

  lemma CentreNeighbors()
    ensures Collect(NeighborGrid(), Tile(1, 1), Orthogonal + Diagonal)
            == [Cell(1, 0, Empty), Cell(1, 2, Empty), Cell(0, 0, Empty), Cell(0, 2, Empty), Cell(2, 0, Empty), Cell(2, 2, Empty)]
  {
    DiagonalNeighbors();
    AllNeighbors();
  }

  lemma CentreExpansion()
    ensures GetNeighbors(Node(1, 1, 0, 0, 0, None), NeighborGrid()) == Collect(NeighborGrid(), Tile(1, 1), Orthogonal + Diagonal)
  {
  }

  /** From the centre, the walkable neighbours come orthogonal first, then diagonal, in the order the case expects. */
  lemma GetNeighborsVector()
    ensures GetNeighbors(Node(1, 1, 0, 0, 0, None), NeighborGrid())
            == [Cell(1, 0, Empty), Cell(1, 2, Empty), Cell(0, 0, Empty), Cell(0, 2, Empty), Cell(2, 0, Empty), Cell(2, 2, Empty)]
  {
    CentreExpansion();
    CentreNeighbors();
  }

  /** `reconstructPath` on the chain start, middle, end returns the three nodes root first. */
  lemma ReconstructPathVector()
    ensures var arena := [Node(0, 0, 0, 0, 0, None), Node(1, 1, 1, 0, 1, Some(0)), Node(2, 2, 2, 0, 2, Some(1))];
            ReconstructPath(arena, 2) == arena
  {
  }
}
