/**
 * The finite sets the invariants count: the cells of the grid, the visited
 * cells and the open shared borders.
 */
module GridSets {
  import opened Cells
  import opened Mazes

  /** Every address of a `height` by `width` grid. */
  function AllCells(height: nat, width: nat): set<Pos> {
    set r: nat, c: nat | r < height && c < width :: (r, c)
  }

  /** The addresses of one row. */
  function RowCells(row: nat, width: nat): set<Pos> {
    set c: nat | c < width :: (row, c)
  }

  lemma AllCellsMembership(height: nat, width: nat, p: Pos)
    ensures p in AllCells(height, width) <==> p.0 < height && p.1 < width
  {
    if p.0 < height && p.1 < width {
      assert p == (p.0, p.1);
    }
  }

  lemma {:induction false} RowCellsCount(row: nat, width: nat)
    ensures |RowCells(row, width)| == width
  {
    if width > 0 {
      RowCellsCount(row, width - 1);
      assert RowCells(row, width) == RowCells(row, width - 1) + {(row, width - 1)};
    } else {
      assert RowCells(row, width) == {};
    }
  }

  /** A grid one row taller is the smaller grid plus the new bottom row. */
  lemma AllCellsSplit(height: nat, width: nat)
    ensures AllCells(height + 1, width) == AllCells(height, width) + RowCells(height, width)
    ensures AllCells(height, width) !! RowCells(height, width)
  {
    var below := AllCells(height, width);
    var row := RowCells(height, width);
    forall p | p in AllCells(height + 1, width)
      ensures p in below + row
    {
      AllCellsMembership(height + 1, width, p);
      AllCellsMembership(height, width, p);
      if p.0 == height {
        assert p == (height, p.1);
      }
    }
    forall p | p in below + row
      ensures p in AllCells(height + 1, width)
    {
      AllCellsMembership(height + 1, width, p);
      AllCellsMembership(height, width, p);
    }
    forall p | p in row ensures p !in below {
      AllCellsMembership(height, width, p);
    }
  }

  /** A grid of `height` rows and `width` columns has `height * width` cells. */
  lemma {:induction false} AllCellsCount(height: nat, width: nat)
    ensures |AllCells(height, width)| == height * width
  {
    if height == 0 {
      assert AllCells(height, width) == {};
    } else {
      AllCellsCount(height - 1, width);
      RowCellsCount(height - 1, width);
      AllCellsSplit(height - 1, width);
      assert height * width == (height - 1) * width + width;
    }
  }

  /** A subset of a finite set is no larger, and equally large only when equal. */
  lemma SubsetCount<T>(a: set<T>, b: set<T>)
    requires a <= b
    ensures |a| <= |b|
    ensures |a| == |b| ==> a == b
  {
    assert b == a + (b - a);
    assert a !! (b - a);
    assert |b| == |a| + |b - a|;
  }

  /** The addresses of the visited cells. */
  ghost function VisitedCells(m: Maze): set<Pos>
    requires m.Shaped()
  {
    set r: nat, c: nat | r < m.height && c < m.width && At(m, (r, c)).visited :: (r, c)
  }

  lemma VisitedCellsMembership(m: Maze, p: Pos)
    requires m.Shaped()
    ensures p in VisitedCells(m) <==> m.InBounds(p) && At(m, p).visited
  {
    if m.InBounds(p) && At(m, p).visited {
      assert p == (p.0, p.1);
    }
  }

  /**
   * A shared border, named by the cell above or to the left of it: `horizontal`
   * is the border between (row, col) and (row, col + 1), otherwise the border
   * between (row, col) and (row + 1, col).
   */
  datatype Edge = Edge(row: nat, col: nat, horizontal: bool)

  /** The shared border `e` lies inside the grid and is open. */
  predicate EdgeOpen(m: Maze, e: Edge)
    requires m.Shaped()
  {
    && e.row < m.height && e.col < m.width
    && if e.horizontal then
         e.col + 1 < m.width && At(m, (e.row, e.col)).Side(Right) == Passage
       else
         e.row + 1 < m.height && At(m, (e.row, e.col)).Side(Down) == Passage
  }

  /** The open shared borders of the grid. */
  ghost function OpenEdges(m: Maze): set<Edge>
    requires m.Shaped()
  {
    set r: nat, c: nat, h: bool | r < m.height && c < m.width && EdgeOpen(m, Edge(r, c, h)) :: Edge(r, c, h)
  }

  lemma OpenEdgesMembership(m: Maze, e: Edge)
    requires m.Shaped()
    ensures e in OpenEdges(m) <==> EdgeOpen(m, e)
  {
    if EdgeOpen(m, e) {
      assert e == Edge(e.row, e.col, e.horizontal);
    }
  }

  /** The shared border crossed by a step from `p` in direction `d`. */
  function EdgeOf(p: Pos, d: Direction): Edge
    requires d == Left ==> p.1 > 0
    requires d == Up ==> p.0 > 0
  {
    match d
    case Left => Edge(p.0, p.1 - 1, true)
    case Right => Edge(p.0, p.1, true)
    case Up => Edge(p.0 - 1, p.1, false)
    case Down => Edge(p.0, p.1, false)
  }

}
