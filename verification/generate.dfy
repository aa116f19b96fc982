/**
 * The generation loop: repeat one step until every cell has been visited,
 * with the random draws left open so that every property holds for any
 * sequence of draws.
 */
module Generation {
  import opened Options
  import opened Cells
  import opened Mazes
  import opened GridSets
  import opened Invariants
  import opened Corridors

  /** How a run of the generation loop ends. */
  datatype Outcome =
    | Finished(maze: Maze)
      /** A dead end with an empty stack: the original unwraps an empty pop and panics here. */
    | Panicked(maze: Maze)

  /**
   * The finished shape: every cell visited and joined to the origin through
   * passages, with one open border fewer than cells.
   */
  ghost predicate SpanningTree(m: Maze)
    requires m.Shaped()
  {
    && (forall p: Pos :: m.InBounds(p) ==> At(m, p).visited && ReachableFromOrigin(m, p))
    && |OpenEdges(m)| == m.width * m.height - 1
  }

  /** A valid state whose count has reached the number of cells is a spanning tree of the grid. */
  lemma CompleteIsSpanningTree(m: Maze)
    requires Valid(m) && m.visitedCount == m.totalCellCount
    ensures SpanningTree(m)
  {
    FullCountMeansAllVisited(m);
  }

  /** A dead end with an empty stack before every cell has been visited. */
  predicate Stuck(m: Maze)
    requires m.Shaped() && m.InBounds(m.current)
  {
    && m.moves == []
    && AvailableMoves(m) == []
    && m.visitedCount < m.totalCellCount
  }

  /**
   * Runs the depth-first backtracker to completion. A finished maze has every
   * cell visited and joined to the origin through passages, with one open
   * border fewer than cells, so the passages form a spanning tree. A panic can
   * only come from a dead end with an empty stack.
   */
  method GenerateMaze(start: Maze) returns (out: Outcome)
    requires Valid(start)
    ensures Valid(out.maze)
    ensures Grows(start, out.maze)
    ensures start.visitedCount == start.totalCellCount ==> out == Finished(start)
    ensures out.Finished? ==>
              var m := out.maze;
              && m.visitedCount == m.totalCellCount
              && SpanningTree(m)
    ensures out.Panicked? ==> Stuck(out.maze)
    ensures Corridor(start) ==> out.Finished?
  {
    var m := start;
    var stuck := false;
    while !stuck && m.visitedCount < m.totalCellCount
      invariant Valid(m)
      invariant Grows(start, m)
      invariant stuck ==> Stuck(m)
      invariant start.visitedCount == start.totalCellCount ==> m == start && !stuck
      invariant Corridor(start) ==> Corridor(m) && !stuck
      decreases if stuck then 0 else 1 + Progress(m)
    {
      var next := Iterate(m);
      if next.None? {
        stuck := true;
      } else {
        GrowsTransitive(start, m, next.value);
        m := next.value;
      }
    }
    if stuck {
      return Panicked(m);
    }
    CompleteIsSpanningTree(m);
    return Finished(m);
  }

  /**
   * The body of the generation loop: list the candidates, draw one at random
   * (any index below their number) and step. `None` is the panic.
   */
  method Iterate(m: Maze) returns (next: Option<Maze>)
    requires Valid(m) && m.visitedCount < m.totalCellCount
    ensures next.None? ==> Stuck(m)
    ensures next.Some? ==> Valid(next.value) && Grows(m, next.value)
    ensures next.Some? ==> Progress(next.value) < Progress(m)
    ensures Corridor(m) ==>
              && next.Some? && Corridor(next.value)
              && next.value.moves == m.moves + [next.value.current]
              && next.value.visitedCount == m.visitedCount + 1
  {
    var available := AvailableMoves(m);
    var pick: nat :| |available| > 1 ==> pick < |available|;
    StepKeepsValid(m, pick);
    CorridorStep(m, pick);
    next := Step(m, pick);
  }

  /**
   * Builds a maze and runs the generator on it, as the program's entry point
   * does. Zero dimensions are refused; otherwise the run ends in a spanning
   * tree of the whole grid or in the dead-end panic, and a grid one cell high
   * or one cell wide always finishes.
   */
  method NewAndGenerate(width: nat, height: nat) returns (out: Option<Outcome>)
    requires IsU32(width) && IsU32(height) && IsU32(width * height)
    ensures out.None? <==> width < 1 || height < 1
    ensures out.Some? ==> Valid(out.value.maze)
    ensures out.Some? ==> out.value.maze.width == width && out.value.maze.height == height
    ensures out.Some? && out.value.Finished? ==> SpanningTree(out.value.maze)
    ensures out.Some? && out.value.Panicked? ==> Stuck(out.value.maze)
    ensures width >= 1 && height >= 1 && (width == 1 || height == 1) ==>
              out.Some? && out.value.Finished?
  {
    var built := New(width, height);
    if built.None? {
      return None;
    }
    NewIsValid(width, height);
    if width == 1 || height == 1 {
      NewIsCorridor(width, height);
    }
    var run := GenerateMaze(built.value);
    return Some(run);
  }

  /**
   * On a maze two cells wide and one cell high, a finished generation has
   * opened exactly the middle border, on both sides, and left every outer
   * border a wall.
   */
  lemma TwoByOneOpensMiddle(m: Maze)
    requires Valid(m) && m.width == 2 && m.height == 1
    requires m.visitedCount == m.totalCellCount
    ensures At(m, (0, 0)).right == Passage && At(m, (0, 1)).left == Passage
    ensures At(m, (0, 0)).left == Wall && At(m, (0, 0)).up == Wall && At(m, (0, 0)).down == Wall
    ensures At(m, (0, 1)).right == Wall && At(m, (0, 1)).up == Wall && At(m, (0, 1)).down == Wall
  {
    OneOpenBorderIsTheMiddle(m);
  }

  /** A two-by-one grid with one open shared border has it between its two cells. */
  lemma OneOpenBorderIsTheMiddle(m: Maze)
    requires m.Shaped() && m.width == 2 && m.height == 1
    requires BordersAgree(m) && OuterWallsIntact(m) && |OpenEdges(m)| == 1
    ensures At(m, (0, 0)).right == Passage && At(m, (0, 1)).left == Passage
    ensures At(m, (0, 0)).left == Wall && At(m, (0, 0)).up == Wall && At(m, (0, 0)).down == Wall
    ensures At(m, (0, 1)).right == Wall && At(m, (0, 1)).up == Wall && At(m, (0, 1)).down == Wall
  {
    var only := Edge(0, 0, true);
    forall e | e in OpenEdges(m) ensures e in {only} {
      OpenEdgesMembership(m, e);
    }
    SubsetCount(OpenEdges(m), {only});
    OpenEdgesMembership(m, only);
    assert At(m, (0, 0)).Side(Right) == At(m, Adjacent((0, 0), Right)).Side(Opposite(Right));
    assert At(m, (0, 0)).Side(Left) == Wall && At(m, (0, 0)).Side(Up) == Wall && At(m, (0, 0)).Side(Down) == Wall;
    assert At(m, (0, 1)).Side(Right) == Wall && At(m, (0, 1)).Side(Up) == Wall && At(m, (0, 1)).Side(Down) == Wall;
  }

}
