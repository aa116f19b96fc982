/**
 * The maze state and the operations of its randomized depth-first generator:
 * construction, candidate directions, the random choice, applying a move and
 * backtracking.
 */
module Mazes {
  import opened Options
  import opened Cells

  /** A (row, column) grid address, as the original's `(u32, u32)` pairs. */
  type Pos = (nat, nat)

  /** One past the largest value of the original's `u32` fields. */
  const U32_LIMIT: nat := 0x1_0000_0000

  predicate IsU32(n: int) {
    0 <= n < U32_LIMIT
  }

  /** A grid address in signed arithmetic, so that a step off the top or left edge can be stated. */
  type Offset = (int, int)

  /** The address one step from `p` in direction `d`, without any wrap-around. */
  function Neighbor(p: Pos, d: Direction): Offset {
    match d
    case Left => (p.0, p.1 - 1)
    case Up => (p.0 - 1, p.1)
    case Right => (p.0, p.1 + 1)
    case Down => (p.0 + 1, p.1)
  }

  /** The order in which candidate directions are examined: Left, Right, Up, Down. */
  function SearchRank(d: Direction): nat {
    match d
    case Left => 0
    case Right => 1
    case Up => 2
    case Down => 3
  }

  /**
   * The generator's whole state. `moves` is the backtracking stack, `startPosition`
   * the deepest-reach marker and `maxLen` the largest stack length seen so far.
   */
  datatype Maze = Maze(width: nat, height: nat, cells: seq<seq<Cell>>, current: Pos,
                       moves: seq<Pos>, visitedCount: nat, startPosition: Pos,
                       totalCellCount: nat, maxLen: nat)
  {
    predicate InBounds(p: Pos) {
      p.0 < height && p.1 < width
    }

    predicate InGrid(q: Offset) {
      0 <= q.0 < height && 0 <= q.1 < width
    }

    /** The recorded cell count is the product of the dimensions and fits a `u32`. */
    predicate CountFits() {
      totalCellCount == width * height && IsU32(totalCellCount)
    }

    /** A `height` by `width` rectangle of cells, each carrying its own address. */
    predicate Shaped() {
      && 1 <= width && 1 <= height
      && |cells| == height
      && (forall r :: 0 <= r < height ==> |cells[r]| == width)
      && (forall r, c :: 0 <= r < height && 0 <= c < width ==>
            cells[r][c].rowIndex == r && cells[r][c].colIndex == c)
    }
  }

  /** Reads the cell at `p`; the cell found there carries the address it was asked for. */
  function At(m: Maze, p: Pos): (x: Cell)
    requires m.Shaped() && m.InBounds(p)
    ensures x.rowIndex == p.0 && x.colIndex == p.1
  {
    m.cells[p.0][p.1]
  }

  /** Writes the cell at `p`, leaving every other cell and field as it was. */
  function WithCell(m: Maze, p: Pos, x: Cell): (m': Maze)
    requires m.Shaped() && m.InBounds(p)
    requires x.rowIndex == p.0 && x.colIndex == p.1
    ensures m'.Shaped()
    ensures m' == m.(cells := m'.cells)
    ensures At(m', p) == x
    ensures forall q: Pos :: m.InBounds(q) && q != p ==> At(m', q) == At(m, q)
  {
    m.(cells := m.cells[p.0 := m.cells[p.0][p.1 := x]])
  }

  /** The fully walled grid, before the origin is marked visited. */
  function NewGrid(width: nat, height: nat): (g: seq<seq<Cell>>)
    ensures |g| == height
    ensures forall r :: 0 <= r < height ==> |g[r]| == width
    ensures forall r, c :: 0 <= r < height && 0 <= c < width ==> g[r][c] == NewCell(r, c)
  {
    seq(height, r requires 0 <= r => seq(width, c requires 0 <= c => NewCell(r, c)))
  }

  /**
   * Builds a maze of the given size; `None` stands for the panic on a zero
   * dimension. The product of the dimensions must fit the `u32` cell count.
   */
  function New(width: nat, height: nat): (r: Option<Maze>)
    requires IsU32(width) && IsU32(height) && IsU32(width * height)
    ensures r.None? <==> width < 1 || height < 1
    ensures r.Some? ==>
              var m := r.value;
              && m.Shaped() && m.CountFits()
              && m.width == width && m.height == height
              && (forall p: Pos :: m.InBounds(p) ==> At(m, p).FullyWalled())
              && (forall p: Pos :: m.InBounds(p) ==> (At(m, p).visited <==> p == (0, 0)))
              && m.visitedCount == 1
              && m.moves == [(0, 0)]
              && m.current == (0, 0)
              && m.startPosition == (0, 0)
              && m.maxLen == 1
  {
    if width < 1 || height < 1 then
      None
    else
      var grid := NewGrid(width, height);
      var cells := grid[0 := grid[0][0 := grid[0][0].(visited := true)]];
      Some(Maze(width, height, cells, (0, 0), [(0, 0)], 1, (0, 0), width * height, 1))
  }

  /** A move in direction `d` leads to a cell inside the grid that has not been visited. */
  predicate CanMove(m: Maze, d: Direction)
    requires m.Shaped() && m.InBounds(m.current)
  {
    var q := Neighbor(m.current, d);
    m.InGrid(q) && !m.cells[q.0][q.1].visited
  }

  /** The directions of `s` come in strictly increasing search order. */
  predicate RankSorted(s: seq<Direction>) {
    forall i, j :: 0 <= i < j < |s| ==> SearchRank(s[i]) < SearchRank(s[j])
  }

  /** The order in which the original tests the four directions. */
  const SearchOrder: seq<Direction> := [Left, Right, Up, Down]

  /** `a` is `b` with some elements left out and the rest kept in their order. */
  predicate Subsequence<T(==)>(a: seq<T>, b: seq<T>)
    decreases |b|
  {
    if a == [] then true
    else if b == [] then false
    else if a[0] == b[0] then Subsequence(a[1..], b[1..])
    else Subsequence(a, b[1..])
  }

  /** The members of `ds` the cursor can move towards, in the order of `ds`. */
  function Candidates(m: Maze, ds: seq<Direction>): (r: seq<Direction>)
    requires m.Shaped() && m.InBounds(m.current)
    ensures forall d: Direction :: d in r <==> d in ds && CanMove(m, d)
    ensures Subsequence(r, ds)
    ensures RankSorted(ds) ==> RankSorted(r)
    decreases |ds|
  {
    if ds == [] then []
    else
      var rest := Candidates(m, ds[1..]);
      assert forall j :: 0 <= j < |rest| ==> exists k :: 1 <= k < |ds| && rest[j] == ds[k] by {
        forall j | 0 <= j < |rest| ensures exists k :: 1 <= k < |ds| && rest[j] == ds[k] {
          assert rest[j] in ds[1..];
        }
      }
      if CanMove(m, ds[0]) then [ds[0]] + rest else rest
  }

  /**
   * The candidate directions from the cursor: exactly those whose neighbour is
   * in the grid and unvisited, listed in the order Left, Right, Up, Down.
   */
  function AvailableMoves(m: Maze): (r: seq<Direction>)
    requires m.Shaped() && m.InBounds(m.current)
    ensures forall d: Direction :: d in r <==> CanMove(m, d)
    ensures RankSorted(r)
  {
    assert RankSorted(SearchOrder) by {
      assert forall i :: 0 <= i < 4 ==> SearchRank(SearchOrder[i]) == i;
    }
    assert forall d: Direction :: d in SearchOrder by {
      forall d: Direction ensures d in SearchOrder {
        assert SearchOrder[SearchRank(d)] == d;
      }
    }
    Candidates(m, SearchOrder)
  }

  /**
   * The unsigned address one step from `p` in direction `d`; defined only where
   * the step does not underflow. `Neighbor` says where a step lands even when it
   * leaves the grid; this twin yields a `Pos`, so the landing cell can be read
   * with `At` once the step is known to stay inside.
   */
  function Adjacent(p: Pos, d: Direction): (q: Pos)
    requires d == Left ==> p.1 > 0
    requires d == Up ==> p.0 > 0
    ensures q.0 == Neighbor(p, d).0 && q.1 == Neighbor(p, d).1
  {
    match d
    case Left => (p.0, p.1 - 1)
    case Up => (p.0 - 1, p.1)
    case Right => (p.0, p.1 + 1)
    case Down => (p.0 + 1, p.1)
  }

  /**
   * The address of the cursor's neighbour in direction `d` in unsigned
   * arithmetic; a step left from column 0 or up from row 0 would underflow,
   * so the caller must not ask for one.
   */
  function NextIndex(m: Maze, d: Direction): (q: Pos)
    requires d == Left ==> m.current.1 > 0
    requires d == Up ==> m.current.0 > 0
    ensures q.0 == Neighbor(m.current, d).0 && q.1 == Neighbor(m.current, d).1
  {
    Adjacent(m.current, d)
  }

  /**
   * Picks a candidate. `pick` is the draw of the random source, an index below
   * the number of candidates; it is consulted only when there are two or more.
   */
  function ChooseMove(moves: seq<Direction>, pick: nat): (r: Option<Direction>)
    requires |moves| > 1 ==> pick < |moves|
    ensures r.None? <==> |moves| == 0
    ensures r.Some? ==> r.value in moves
    ensures |moves| == 1 ==> r == Some(moves[0])
  {
    if |moves| == 1 then Some(moves[0])
    else if |moves| > 0 then Some(moves[pick])
    else None
  }

  /** Opens side `side` of the cell at `p`; nothing else in the maze changes. */
  function SetCellPassage(m: Maze, p: Pos, side: Direction): (m': Maze)
    requires m.Shaped() && m.InBounds(p)
    ensures m'.Shaped()
    ensures m' == m.(cells := m'.cells)
    ensures At(m', p).Side(side) == Passage
    ensures forall e: Direction :: e != side ==> At(m', p).Side(e) == At(m, p).Side(e)
    ensures At(m', p).visited == At(m, p).visited
    ensures forall q: Pos :: m.InBounds(q) && q != p ==> At(m', q) == At(m, q)
  {
    WithCell(m, p, At(m, p).OpenSide(side))
  }

  /**
   * Moves the deepest-reach marker to the cursor, and raises `maxLen` by one,
   * exactly when the stack has grown past `maxLen`.
   */
  function UpdateStartPosition(m: Maze): (m': Maze)
    ensures m'.maxLen > m.maxLen <==> |m.moves| > m.maxLen
    ensures m.maxLen <= m'.maxLen <= m.maxLen + 1
    ensures m'.maxLen > m.maxLen ==> m'.startPosition == m.current
    ensures m'.maxLen == m.maxLen ==> m' == m
    ensures m' == m.(startPosition := m'.startPosition, maxLen := m'.maxLen)
  {
    if m.maxLen < |m.moves| then
      m.(startPosition := m.current, maxLen := m.maxLen + 1)
    else
      m
  }

  /**
   * One forward step: opens the border between the cursor and its neighbour in
   * direction `d` on both sides, marks the neighbour visited, counts it, pushes
   * it, moves the cursor onto it and updates the deepest-reach marker. No other
   * cell changes.
   */
  function MakeMove(m: Maze, d: Direction): (m': Maze)
    requires m.Shaped() && m.InBounds(m.current)
    requires m.InGrid(Neighbor(m.current, d))
    ensures m'.Shaped()
    ensures m'.width == m.width && m'.height == m.height && m'.totalCellCount == m.totalCellCount
    ensures var n := NextIndex(m, d);
            && m.InBounds(n) && n != m.current
            && At(m', m.current) == At(m, m.current).OpenSide(d)
            && At(m', n) == At(m, n).OpenSide(Opposite(d)).(visited := true)
            && (forall q: Pos :: m.InBounds(q) && q != m.current && q != n ==> At(m', q) == At(m, q))
            && m'.visitedCount == m.visitedCount + 1
            && m'.moves == m.moves + [n]
            && m'.current == n
            && (m'.maxLen > m.maxLen <==> |m.moves| + 1 > m.maxLen)
            && m.maxLen <= m'.maxLen <= m.maxLen + 1
            && (m'.maxLen > m.maxLen ==> m'.startPosition == n)
            && (m'.maxLen == m.maxLen ==> m'.startPosition == m.startPosition)
  {
    var n := NextIndex(m, d);
    var m1 := SetCellPassage(m, m.current, d);
    var m2 := SetCellPassage(m1, n, Opposite(d));
    var m3 := WithCell(m2, n, At(m2, n).(visited := true));
    UpdateStartPosition(m3.(visitedCount := m.visitedCount + 1, moves := m.moves + [n], current := n))
  }

  /**
   * The dead-end branch: pops the stack and moves the cursor to the popped
   * position. `None` stands for the panic of unwrapping a pop from an empty stack.
   */
  function Backtrack(m: Maze): (r: Option<Maze>)
    ensures r.None? <==> |m.moves| == 0
    ensures r.Some? ==> r.value.moves + [r.value.current] == m.moves
    ensures r.Some? ==> r.value == m.(moves := r.value.moves, current := r.value.current)
  {
    if |m.moves| == 0 then None
    else Some(m.(current := m.moves[|m.moves| - 1], moves := m.moves[..|m.moves| - 1]))
  }

  /**
   * One iteration of the generation loop with random draw `pick`. `None` is the
   * panic: no candidate direction and an empty stack.
   */
  function Step(m: Maze, pick: nat): (r: Option<Maze>)
    requires m.Shaped() && m.InBounds(m.current)
    requires |AvailableMoves(m)| > 1 ==> pick < |AvailableMoves(m)|
    ensures r.None? <==> AvailableMoves(m) == [] && m.moves == []
    ensures AvailableMoves(m) != [] ==>
              r.Some? && exists d :: d in AvailableMoves(m) && r.value == MakeMove(m, d)
    ensures AvailableMoves(m) == [] && r.Some? ==>
              && r.value.moves + [r.value.current] == m.moves
              && r.value == m.(moves := r.value.moves, current := r.value.current)
  {
    match ChooseMove(AvailableMoves(m), pick)
    case Some(d) => Some(MakeMove(m, d))
    case None => Backtrack(m)
  }

}
