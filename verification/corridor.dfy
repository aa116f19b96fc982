/**
 * Mazes one cell high or one cell wide. On such a grid the generator walks
 * straight along the line and never reaches a dead end early, so the stack
 * is never popped and the generation loop cannot panic.
 */
module Corridors {
  import opened Options
  import opened Cells
  import opened Mazes
  import opened GridSets
  import opened Invariants

  /** The only direction that leads away from the origin on a one-row or one-column grid. */
  function Forward(m: Maze): Direction {
    if m.height == 1 then Right else Down
  }

  /**
   * A line-shaped grid walked straight from the origin: the visited cells are
   * exactly the first `visitedCount` cells of the line, and the cursor is on
   * the last of them.
   */
  ghost predicate Corridor(m: Maze)
    requires m.Shaped()
  {
    && (m.height == 1 || m.width == 1)
    && m.InBounds(m.current)
    && m.current.0 + m.current.1 + 1 == m.visitedCount
    && forall p: Pos :: m.InBounds(p) ==> (At(m, p).visited <==> p.0 + p.1 < m.visitedCount)
  }

  /** A freshly built one-row or one-column maze is a corridor. */
  lemma NewIsCorridor(width: nat, height: nat)
    requires IsU32(width) && IsU32(height) && IsU32(width * height)
    requires width >= 1 && height >= 1 && (width == 1 || height == 1)
    ensures New(width, height).Some? && Corridor(New(width, height).value)
  {
    var m := New(width, height).value;
    forall p: Pos | m.InBounds(p) ensures At(m, p).visited <==> p.0 + p.1 < 1 {
    }
  }

  /** In a corridor that is not yet full, the next cell of the line is the only unvisited neighbour. */
  lemma CorridorOnlyForward(m: Maze)
    requires m.Shaped() && m.CountFits() && Corridor(m) && m.visitedCount < m.totalCellCount
    ensures forall d: Direction :: CanMove(m, d) <==> d == Forward(m)
  {
    var c := m.current;
    if m.height == 1 {
      assert m.totalCellCount == m.width;
      assert m.InBounds((c.0, c.1 + 1));
      if c.1 > 0 {
        assert At(m, (c.0, c.1 - 1)).visited;
      }
    } else {
      assert m.totalCellCount == m.height;
      assert m.InBounds((c.0 + 1, c.1));
      if c.0 > 0 {
        assert At(m, (c.0 - 1, c.1)).visited;
      }
    }
  }

  /** In a corridor that is not yet full, the only candidate is the next cell of the line. */
  lemma CorridorCandidates(m: Maze)
    requires m.Shaped() && m.CountFits() && Corridor(m) && m.visitedCount < m.totalCellCount
    ensures AvailableMoves(m) == [Forward(m)]
  {
    CorridorOnlyForward(m);
    var f := Forward(m);
    var r := AvailableMoves(m);
    assert f in r;
    assert forall i :: 0 <= i < |r| ==> r[i] == f;
    assert |r| == 1 by {
      if |r| > 1 {
        assert false;
      }
    }
  }

  /** A forward move extends a corridor by the next cell of the line. */
  lemma ForwardExtendsCorridor(m: Maze)
    requires m.Shaped() && Corridor(m) && CanMove(m, Forward(m))
    ensures Corridor(MakeMove(m, Forward(m)))
  {
    var f := Forward(m);
    var m' := MakeMove(m, f);
    var n := NextIndex(m, f);
    assert n.0 + n.1 == m.visitedCount;
    forall p: Pos | m'.InBounds(p) ensures At(m', p).visited <==> p.0 + p.1 < m'.visitedCount {
      if p != n && p != m.current {
        assert At(m', p) == At(m, p);
      }
    }
  }

  /**
   * Every iteration on a corridor that is not yet full extends the corridor by
   * one cell: the generator never pops, so it never reaches the panic.
   */
  lemma CorridorStep(m: Maze, pick: nat)
    requires m.Shaped() && m.CountFits() && m.InBounds(m.current) && m.visitedCount < m.totalCellCount
    requires |AvailableMoves(m)| > 1 ==> pick < |AvailableMoves(m)|
    ensures Corridor(m) ==> CanMove(m, Forward(m))
    ensures Corridor(m) ==> Step(m, pick) == Some(MakeMove(m, Forward(m)))
    ensures Corridor(m) ==> Step(m, pick).Some? && Corridor(Step(m, pick).value)
  {
    if Corridor(m) {
      CorridorOnlyForward(m);
      CorridorCandidates(m);
      ForwardExtendsCorridor(m);
    }
  }

}
