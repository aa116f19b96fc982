/**
 * The invariants the generator keeps: border agreement between neighbours,
 * walls on the outside, walled unvisited cells, the visited count, the stack
 * and marker positions, and the tree shape of the passages.
 */
module Invariants {
  import opened Options
  import opened Cells
  import opened Mazes
  import opened GridSets

  /** Neighbouring cells agree on the border they share. */
  ghost predicate BordersAgree(m: Maze)
    requires m.Shaped()
  {
    forall p: Pos, d: Direction ::
      m.InBounds(p) && m.InGrid(Neighbor(p, d)) ==>
        At(m, p).Side(d) == At(m, Adjacent(p, d)).Side(Opposite(d))
  }

  /** Every border that faces out of the grid is a wall. */
  ghost predicate OuterWallsIntact(m: Maze)
    requires m.Shaped()
  {
    forall p: Pos, d: Direction ::
      m.InBounds(p) && !m.InGrid(Neighbor(p, d)) ==> At(m, p).Side(d) == Wall
  }

  /** A cell the generator has not reached is walled on all four sides. */
  ghost predicate UnvisitedWalled(m: Maze)
    requires m.Shaped()
  {
    forall p: Pos :: m.InBounds(p) && !At(m, p).visited ==> At(m, p).FullyWalled()
  }

  /** The cursor, the deepest-reach marker and every stacked position are visited cells of the grid. */
  ghost predicate PositionsVisited(m: Maze)
    requires m.Shaped()
  {
    && m.InBounds(m.current) && At(m, m.current).visited
    && m.InBounds(m.startPosition) && At(m, m.startPosition).visited
    && forall i :: 0 <= i < |m.moves| ==> m.InBounds(m.moves[i]) && At(m, m.moves[i]).visited
  }

  /**
   * `visitedCount` counts the visited cells and never exceeds the cell count;
   * the stack is never longer than the recorded maximum, which is never more
   * than the number of visited cells.
   */
  ghost predicate CountsAgree(m: Maze)
    requires m.Shaped()
  {
    && m.visitedCount == |VisitedCells(m)|
    && m.visitedCount <= m.totalCellCount
    && |m.moves| <= m.maxLen <= m.visitedCount
  }

  /** `q` is the neighbour of `p` across an open border of `p`. */
  ghost predicate Linked(m: Maze, p: Pos, q: Pos)
    requires m.Shaped()
  {
    && m.InBounds(p) && m.InBounds(q)
    && exists d: Direction ::
         && Neighbor(p, d).0 == q.0 && Neighbor(p, d).1 == q.1
         && At(m, p).Side(d) == Passage
  }

  /** A walk through the grid that crosses only open borders. */
  ghost predicate IsPassagePath(m: Maze, ps: seq<Pos>)
    requires m.Shaped()
  {
    && |ps| >= 1
    && (forall i :: 0 <= i < |ps| ==> m.InBounds(ps[i]))
    && forall i :: 0 <= i < |ps| - 1 ==> Linked(m, ps[i], ps[i + 1])
  }

  /** `v` can be reached from the origin through open borders. */
  ghost predicate ReachableFromOrigin(m: Maze, v: Pos)
    requires m.Shaped()
  {
    exists ps: seq<Pos> :: IsPassagePath(m, ps) && ps[0] == (0, 0) && ps[|ps| - 1] == v
  }

  /**
   * The passages form a tree over the visited cells: every visited cell is
   * joined to the origin, and there is one open border fewer than visited cells.
   */
  ghost predicate TreeShaped(m: Maze)
    requires m.Shaped()
  {
    && |OpenEdges(m)| + 1 == m.visitedCount
    && forall p: Pos :: m.InBounds(p) && At(m, p).visited ==> ReachableFromOrigin(m, p)
  }

  /** Everything the generator keeps true between iterations. */
  ghost predicate Valid(m: Maze) {
    && m.Shaped()
    && m.CountFits()
    && PositionsVisited(m)
    && BordersAgree(m)
    && OuterWallsIntact(m)
    && UnvisitedWalled(m)
    && CountsAgree(m)
    && TreeShaped(m)
  }

  /**
   * `m'` is a later state of `m`: same grid, no border closed again, no cell
   * unvisited again, the visited count and the recorded maximum not smaller.
   */
  ghost predicate Grows(m: Maze, m': Maze)
    requires m.Shaped() && m'.Shaped()
  {
    && m'.width == m.width && m'.height == m.height
    && (forall p: Pos, d: Direction ::
          m.InBounds(p) && At(m, p).Side(d) == Passage ==> At(m', p).Side(d) == Passage)
    && (forall p: Pos :: m.InBounds(p) && At(m, p).visited ==> At(m', p).visited)
    && m.visitedCount <= m'.visitedCount
    && m.maxLen <= m'.maxLen
  }

  lemma GrowsTransitive(m1: Maze, m2: Maze, m3: Maze)
    requires m1.Shaped() && m2.Shaped() && m3.Shaped()
    requires Grows(m1, m2) && Grows(m2, m3)
    ensures Grows(m1, m3)
  {
  }

  // ---------------------------------------------------------------- construction

  /** A freshly built maze satisfies every invariant. */
  lemma NewIsValid(width: nat, height: nat)
    requires IsU32(width) && IsU32(height) && IsU32(width * height)
    requires width >= 1 && height >= 1
    ensures New(width, height).Some? && Valid(New(width, height).value)
  {
    var m := New(width, height).value;
    forall p: Pos, d: Direction | m.InBounds(p) && m.InGrid(Neighbor(p, d))
      ensures At(m, p).Side(d) == At(m, Adjacent(p, d)).Side(Opposite(d))
    {
      assert At(m, p).FullyWalled() && At(m, Adjacent(p, d)).FullyWalled();
    }
    forall p: Pos, d: Direction | m.InBounds(p) && !m.InGrid(Neighbor(p, d))
      ensures At(m, p).Side(d) == Wall
    {
      assert At(m, p).FullyWalled();
    }
    assert VisitedCells(m) == {(0, 0)} by {
      forall p ensures p in VisitedCells(m) <==> p == (0, 0) {
        VisitedCellsMembership(m, p);
      }
    }
    assert OpenEdges(m) == {} by {
      forall e | e in OpenEdges(m) ensures false {
        OpenEdgesMembership(m, e);
      }
    }
    assert IsPassagePath(m, [(0, 0)]);
  }

  // ---------------------------------------------------------------- forward move

  /** Geometry of one step: where it lands, and that stepping back returns. */
  lemma AdjacentFacts(p: Pos, d: Direction)
    requires d == Left ==> p.1 > 0
    requires d == Up ==> p.0 > 0
    ensures Adjacent(p, d) != p
    ensures Neighbor(Adjacent(p, d), Opposite(d)).0 == p.0
    ensures Neighbor(Adjacent(p, d), Opposite(d)).1 == p.1
    ensures Adjacent(Adjacent(p, d), Opposite(d)) == p
  {
  }

  /** Opening the border from the cursor keeps neighbours in agreement. */
  lemma MakeMoveKeepsBordersAgree(m: Maze, d: Direction)
    requires m.Shaped() && m.InBounds(m.current) && CanMove(m, d)
    requires BordersAgree(m) && UnvisitedWalled(m)
    ensures BordersAgree(MakeMove(m, d))
  {
    var m' := MakeMove(m, d);
    var c := m.current;
    var n := NextIndex(m, d);
    AdjacentFacts(c, d);
    assert At(m, n).FullyWalled();
    forall p: Pos, e: Direction | m'.InBounds(p) && m'.InGrid(Neighbor(p, e))
      ensures At(m', p).Side(e) == At(m', Adjacent(p, e)).Side(Opposite(e))
    {
      var q := Adjacent(p, e);
      AdjacentFacts(p, e);
      if p == c && e == d {
      } else if p == n && e == Opposite(d) {
        OppositeInvolutive(d);
      } else if p == c {
        assert q != n;
      } else if p == n {
        assert q != c;
      } else if q == c {
        assert Opposite(e) != d;
      } else if q == n {
        assert Opposite(e) != Opposite(d);
      }
    }
  }

  lemma MakeMoveKeepsOuterWalls(m: Maze, d: Direction)
    requires m.Shaped() && m.InBounds(m.current) && CanMove(m, d)
    requires OuterWallsIntact(m)
    ensures OuterWallsIntact(MakeMove(m, d))
  {
    var m' := MakeMove(m, d);
    var c := m.current;
    var n := NextIndex(m, d);
    AdjacentFacts(c, d);
    forall p: Pos, e: Direction | m'.InBounds(p) && !m'.InGrid(Neighbor(p, e))
      ensures At(m', p).Side(e) == Wall
    {
      if p == n {
        assert e != Opposite(d);
      }
    }
  }

  lemma MakeMoveKeepsUnvisitedWalled(m: Maze, d: Direction)
    requires m.Shaped() && m.InBounds(m.current) && CanMove(m, d)
    requires UnvisitedWalled(m) && At(m, m.current).visited
    ensures UnvisitedWalled(MakeMove(m, d))
  {
    var m' := MakeMove(m, d);
    forall p: Pos | m'.InBounds(p) && !At(m', p).visited
      ensures At(m', p).FullyWalled()
    {
      assert At(m', p) == At(m, p);
    }
  }

  /** A forward move adds exactly its target to the visited cells. */
  lemma MakeMoveVisitedCells(m: Maze, d: Direction)
    requires m.Shaped() && m.InBounds(m.current) && CanMove(m, d)
    ensures VisitedCells(MakeMove(m, d)) == VisitedCells(m) + {NextIndex(m, d)}
    ensures NextIndex(m, d) !in VisitedCells(m)
  {
    var m' := MakeMove(m, d);
    var n := NextIndex(m, d);
    forall p ensures p in VisitedCells(m') <==> p in VisitedCells(m) + {n} {
      VisitedCellsMembership(m, p);
      VisitedCellsMembership(m', p);
    }
    VisitedCellsMembership(m, n);
  }

  /** A forward move opens exactly one shared border, one that was closed before. */
  lemma MakeMoveOpenEdges(m: Maze, d: Direction)
    requires m.Shaped() && m.InBounds(m.current) && CanMove(m, d)
    requires BordersAgree(m) && UnvisitedWalled(m)
    ensures OpenEdges(MakeMove(m, d)) == OpenEdges(m) + {EdgeOf(m.current, d)}
    ensures EdgeOf(m.current, d) !in OpenEdges(m)
  {
    var m' := MakeMove(m, d);
    var c := m.current;
    var n := NextIndex(m, d);
    var ne := EdgeOf(c, d);
    AdjacentFacts(c, d);
    assert At(m, n).FullyWalled();
    forall e: Edge ensures e in OpenEdges(m') <==> e in OpenEdges(m) || e == ne {
      OpenEdgesMembership(m, e);
      OpenEdgesMembership(m', e);
      var p: Pos := (e.row, e.col);
      if e.row < m.height && e.col < m.width && p != c && p != n {
        assert At(m', p) == At(m, p);
      }
    }
    OpenEdgesMembership(m, ne);
    if d == Right || d == Down {
      assert At(m, c).Side(d) == At(m, n).Side(Opposite(d));
    }
  }

  /** Open borders stay open under `m'` when they never close; so do passage walks. */
  lemma PathSurvives(m: Maze, m': Maze, ps: seq<Pos>)
    requires m.Shaped() && m'.Shaped() && Grows(m, m')
    requires IsPassagePath(m, ps)
    ensures IsPassagePath(m', ps)
  {
    forall i | 0 <= i < |ps| - 1 ensures Linked(m', ps[i], ps[i + 1]) {
      var d: Direction :| Neighbor(ps[i], d).0 == ps[i + 1].0 && Neighbor(ps[i], d).1 == ps[i + 1].1
                          && At(m, ps[i]).Side(d) == Passage;
      assert At(m', ps[i]).Side(d) == Passage;
    }
  }

  lemma ReachableSurvives(m: Maze, m': Maze, v: Pos)
    requires m.Shaped() && m'.Shaped() && Grows(m, m')
    requires ReachableFromOrigin(m, v)
    ensures ReachableFromOrigin(m', v)
  {
    var ps :| IsPassagePath(m, ps) && ps[0] == (0, 0) && ps[|ps| - 1] == v;
    PathSurvives(m, m', ps);
  }

  /** A forward move only opens borders and visits cells. */
  lemma MakeMoveGrows(m: Maze, d: Direction)
    requires m.Shaped() && m.InBounds(m.current) && CanMove(m, d)
    ensures Grows(m, MakeMove(m, d))
  {
  }

  /** The new cell hangs off the cursor by the border just opened; every other visited cell keeps its walk. */
  lemma MakeMoveKeepsReachable(m: Maze, d: Direction)
    requires m.Shaped() && m.InBounds(m.current) && CanMove(m, d)
    requires At(m, m.current).visited
    requires forall p: Pos :: m.InBounds(p) && At(m, p).visited ==> ReachableFromOrigin(m, p)
    ensures var m' := MakeMove(m, d);
            forall p: Pos :: m'.InBounds(p) && At(m', p).visited ==> ReachableFromOrigin(m', p)
  {
    var m' := MakeMove(m, d);
    var c := m.current;
    var n := NextIndex(m, d);
    MakeMoveGrows(m, d);
    forall p: Pos | m'.InBounds(p) && At(m', p).visited
      ensures ReachableFromOrigin(m', p)
    {
      if p == n {
        var ps :| IsPassagePath(m, ps) && ps[0] == (0, 0) && ps[|ps| - 1] == c;
        PathSurvives(m, m', ps);
        assert Linked(m', c, n) by {
          assert At(m', c).Side(d) == Passage;
        }
        var qs := ps + [n];
        assert IsPassagePath(m', qs) by {
          forall i | 0 <= i < |qs| - 1 ensures Linked(m', qs[i], qs[i + 1]) {
            if i < |ps| - 1 {
              assert qs[i] == ps[i] && qs[i + 1] == ps[i + 1];
            }
          }
        }
      } else {
        ReachableSurvives(m, m', p);
      }
    }
  }

  /** The cursor, the marker and the stack stay on visited cells after a forward move. */
  lemma MakeMoveKeepsPositions(m: Maze, d: Direction)
    requires m.Shaped() && m.InBounds(m.current) && CanMove(m, d)
    requires PositionsVisited(m)
    ensures PositionsVisited(MakeMove(m, d))
  {
    var m' := MakeMove(m, d);
    forall i | 0 <= i < |m'.moves| ensures m'.InBounds(m'.moves[i]) && At(m', m'.moves[i]).visited {
      if i < |m.moves| {
        assert m'.moves[i] == m.moves[i];
        assert At(m', m.moves[i]).visited;
      }
    }
  }

  /** The counts stay in step after a forward move: one more visited cell, never more than the grid holds. */
  lemma MakeMoveKeepsCounts(m: Maze, d: Direction)
    requires m.Shaped() && m.InBounds(m.current) && CanMove(m, d)
    requires m.CountFits() && CountsAgree(m)
    ensures CountsAgree(MakeMove(m, d))
  {
    var m' := MakeMove(m, d);
    MakeMoveVisitedCells(m, d);
    AllCellsCount(m.height, m.width);
    forall p | p in VisitedCells(m') ensures p in AllCells(m.height, m.width) {
      VisitedCellsMembership(m', p);
      AllCellsMembership(m.height, m.width, p);
    }
    SubsetCount(VisitedCells(m'), AllCells(m.height, m.width));
  }

  /** Every invariant survives a forward move to an unvisited neighbour. */
  lemma MakeMoveKeepsValid(m: Maze, d: Direction)
    requires Valid(m) && CanMove(m, d)
    ensures Valid(MakeMove(m, d))
    ensures Grows(m, MakeMove(m, d))
  {
    MakeMoveKeepsBordersAgree(m, d);
    MakeMoveKeepsOuterWalls(m, d);
    MakeMoveKeepsUnvisitedWalled(m, d);
    MakeMoveKeepsPositions(m, d);
    MakeMoveKeepsCounts(m, d);
    MakeMoveOpenEdges(m, d);
    MakeMoveKeepsReachable(m, d);
    MakeMoveGrows(m, d);
  }

  // ---------------------------------------------------------------- backtracking

  /** A state that differs only in the stack and the cursor has the same cells. */
  lemma SameGridSameCells(m: Maze, m': Maze)
    requires m.Shaped()
    requires m' == m.(moves := m'.moves, current := m'.current)
    ensures m'.Shaped()
    ensures forall p: Pos :: m.InBounds(p) ==> At(m', p) == At(m, p)
    ensures VisitedCells(m') == VisitedCells(m)
    ensures OpenEdges(m') == OpenEdges(m)
  {
    forall p ensures p in VisitedCells(m') <==> p in VisitedCells(m) {
      VisitedCellsMembership(m, p);
      VisitedCellsMembership(m', p);
    }
    forall e ensures e in OpenEdges(m') <==> e in OpenEdges(m) {
      OpenEdgesMembership(m, e);
      OpenEdgesMembership(m', e);
    }
  }

  /** A state that differs only in the stack and the cursor keeps every grid invariant. */
  lemma SameGridKeepsInvariants(m: Maze, m': Maze)
    requires m.Shaped()
    requires m' == m.(moves := m'.moves, current := m'.current)
    requires BordersAgree(m) && OuterWallsIntact(m) && UnvisitedWalled(m) && TreeShaped(m)
    ensures m'.Shaped()
    ensures BordersAgree(m') && OuterWallsIntact(m') && UnvisitedWalled(m') && TreeShaped(m')
    ensures VisitedCells(m') == VisitedCells(m)
    ensures Grows(m, m')
  {
    SameGridSameCells(m, m');
    forall p: Pos | m'.InBounds(p) && At(m', p).visited ensures ReachableFromOrigin(m', p) {
      ReachableSurvives(m, m', p);
    }
  }

  /** Popping the stack changes no cell and keeps every invariant. */
  lemma BacktrackKeepsValid(m: Maze)
    requires Valid(m) && |m.moves| > 0
    ensures Backtrack(m).Some?
    ensures Valid(Backtrack(m).value)
    ensures Grows(m, Backtrack(m).value)
  {
    var m' := Backtrack(m).value;
    SameGridKeepsInvariants(m, m');
    assert PositionsVisited(m') by {
      assert m'.current == m.moves[|m.moves| - 1];
      forall i | 0 <= i < |m'.moves| ensures m'.InBounds(m'.moves[i]) && At(m', m'.moves[i]).visited {
        assert m'.moves[i] == m.moves[i];
      }
    }
  }

  // ---------------------------------------------------------------- one iteration

  /**
   * The termination measure of the generation loop: a forward move visits one
   * more cell and pushes one position, a backtrack pops one position.
   */
  function Progress(m: Maze): nat
    requires m.visitedCount <= m.totalCellCount
  {
    2 * (m.totalCellCount - m.visitedCount) + |m.moves|
  }

  /**
   * One loop iteration from a valid state either panics (no candidate and an
   * empty stack) or yields a valid later state, lowering the termination
   * measure by exactly one.
   */
  lemma StepKeepsValid(m: Maze, pick: nat)
    requires Valid(m)
    requires |AvailableMoves(m)| > 1 ==> pick < |AvailableMoves(m)|
    requires m.visitedCount < m.totalCellCount
    ensures Step(m, pick).Some? ==> Valid(Step(m, pick).value)
    ensures Step(m, pick).Some? ==> Grows(m, Step(m, pick).value)
    ensures Step(m, pick).Some? ==> Progress(Step(m, pick).value) + 1 == Progress(m)
  {
    var choice := ChooseMove(AvailableMoves(m), pick);
    if choice.Some? {
      MakeMoveKeepsValid(m, choice.value);
    } else if |m.moves| > 0 {
      BacktrackKeepsValid(m);
    }
  }

  // ---------------------------------------------------------------- completion

  /** When the count reaches the number of cells, every cell has been visited. */
  lemma FullCountMeansAllVisited(m: Maze)
    requires Valid(m) && m.visitedCount == m.totalCellCount
    ensures forall p: Pos :: m.InBounds(p) ==> At(m, p).visited
  {
    AllCellsCount(m.height, m.width);
    forall p | p in VisitedCells(m) ensures p in AllCells(m.height, m.width) {
      VisitedCellsMembership(m, p);
      AllCellsMembership(m.height, m.width, p);
    }
    SubsetCount(VisitedCells(m), AllCells(m.height, m.width));
    forall p: Pos | m.InBounds(p) ensures At(m, p).visited {
      AllCellsMembership(m.height, m.width, p);
      VisitedCellsMembership(m, p);
    }
  }

}
