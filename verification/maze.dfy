/**
 The maze substrate of `src/wilson/maze.py`: a `width` x `height` grid of
 palette indices, the list of passage cells, their precomputed adjacency, and
 the change tracker (`num_changes`, `frame_box`) that every mutation updates.

 Passage cells sit on the lattice of coordinates congruent to `margin` modulo 2;
 the midpoint of two adjacent passages is an off-lattice cell recording whether
 the edge between them has been carved.
 */
module Grid {
  import opened Wrappers
  import opened Seqs

  /** A grid coordinate `(x, y)`; `x` indexes columns, `y` rows. */
  type Cell = (int, int)

  /** The four semantic states, as the palette indices the source uses. */
  const WALL: int := 0
  const TREE: int := 1
  const PATH: int := 2
  const FILL: int := 3

  /** An inclusive rectangle `(left, top, right, bottom)` of grid cells. */
  datatype Box = Box(left: int, top: int, right: int, bottom: int)

  predicate InBox(b: Box, c: Cell)
  {
    b.left <= c.0 <= b.right && b.top <= c.1 <= b.bottom
  }

  predicate BoxWithin(inner: Box, outer: Box)
  {
    outer.left <= inner.left && inner.right <= outer.right
    && outer.top <= inner.top && inner.bottom <= outer.bottom
  }

  /**
   The maze. `grid[x][y]` is the palette index of cell `(x, y)`; `cells` and
   `graph` are fixed at construction (only the random depth-first builder
   reorders a neighbour list in place); `numChanges` and `frameBox` are the
   change tracker.
   */
  datatype Maze = Maze(
    width: nat,
    height: nat,
    margin: nat,
    grid: seq<seq<int>>,
    numChanges: nat,
    frameBox: Option<Box>,
    cells: seq<Cell>,
    graph: map<Cell, seq<Cell>>)

  predicate Shaped(m: Maze)
  {
    |m.grid| == m.width && forall x :: 0 <= x < m.width ==> |m.grid[x]| == m.height
  }

  predicate InBounds(m: Maze, c: Cell)
  {
    0 <= c.0 < m.width && 0 <= c.1 < m.height
  }

  function Get(m: Maze, c: Cell): int
    requires Shaped(m) && InBounds(m, c)
  {
    m.grid[c.0][c.1]
  }

  /** Both coordinates have the parity of `margin`. */
  predicate Parity(margin: int, c: Cell)
  {
    (c.0 - margin) % 2 == 0 && (c.1 - margin) % 2 == 0
  }

  predicate OnLattice(m: Maze, c: Cell)
  {
    Parity(m.margin, c)
  }

  /** Inside the box `[margin, width-1-margin] x [margin, height-1-margin]`. */
  predicate InMargin(width: int, height: int, margin: int, c: Cell)
  {
    margin <= c.0 <= width - 1 - margin && margin <= c.1 <= height - 1 - margin
  }

  predicate IsPassage(m: Maze, c: Cell)
  {
    InMargin(m.width, m.height, m.margin, c) && OnLattice(m, c)
  }

  /** Two cells two apart in exactly one coordinate. */
  predicate Adjacent(a: Cell, b: Cell)
  {
    (a.1 == b.1 && (a.0 - b.0 == 2 || b.0 - a.0 == 2))
    || (a.0 == b.0 && (a.1 - b.1 == 2 || b.1 - a.1 == 2))
  }

  /** The coordinate-wise midpoint, with Python's floor division. */
  function Mid(a: Cell, b: Cell): Cell
  {
    ((a.0 + b.0) / 2, (a.1 + b.1) / 2)
  }

  /** The tracker's box lies in the grid, and it is absent exactly when nothing changed. */
  predicate TrackerOk(m: Maze)
  {
    && (m.frameBox.Some? ==>
          var b := m.frameBox.value;
          0 <= b.left <= b.right < m.width && 0 <= b.top <= b.bottom < m.height)
    && (m.numChanges == 0 <==> m.frameBox.None?)
  }

  /**
   The fixed part of the invariant: the keys of the neighbourhood map are the
   listed cells, all lattice passages inside the margin, and every listed
   neighbour is a key two steps away.
   */
  ghost predicate LayoutOk(width: nat, height: nat, margin: nat, cells: seq<Cell>, graph: map<Cell, seq<Cell>>)
  {
    && (forall c :: c in graph <==> c in cells)
    && (forall c :: c in graph ==> InMargin(width, height, margin, c) && Parity(margin, c))
    && (forall c, i :: c in graph && 0 <= i < |graph[c]| ==>
          graph[c][i] in graph && Adjacent(c, graph[c][i]))
  }

  /** The structural invariant every operation of the model keeps. */
  ghost predicate Valid(m: Maze)
  {
    Shaped(m) && TrackerOk(m) && LayoutOk(m.width, m.height, m.margin, m.cells, m.graph)
  }

  /** Same dimensions, margin, cells and adjacency. */
  predicate SameLayout(m: Maze, m': Maze)
  {
    m'.width == m.width && m'.height == m.height && m'.margin == m.margin
    && m'.cells == m.cells && m'.graph == m.graph
  }

  /** `b` is listed as a neighbour of the passage `a`. */
  predicate Linked(m: Maze, a: Cell, b: Cell)
  {
    a in m.graph && b in m.graph[a]
  }

  /** The set of passage cells. */
  function CellSet(m: Maze): set<Cell>
  {
    set c | c in m.graph
  }

  /**
   The midpoint of two adjacent passages is inside the grid, off the lattice,
   hence never a passage, and it does not depend on the order of the two.
   */
  lemma MidOfAdjacent(m: Maze, a: Cell, b: Cell)
    requires IsPassage(m, a) && IsPassage(m, b) && Adjacent(a, b)
    ensures InBounds(m, Mid(a, b)) && !OnLattice(m, Mid(a, b))
    ensures Mid(a, b) == Mid(b, a) && Mid(a, b) != a && Mid(a, b) != b
  {
    if a.1 == b.1 {
      var x := if a.0 < b.0 then a.0 else b.0;
      assert Mid(a, b).0 == x + 1;
      assert (x + 1 - m.margin) % 2 == 1;
    } else {
      var y := if a.1 < b.1 then a.1 else b.1;
      assert Mid(a, b).1 == y + 1;
      assert (y + 1 - m.margin) % 2 == 1;
    }
  }

  /**
   A wall belongs to one pair of passages only: two adjacent passage pairs
   with the same midpoint are the same pair, in one order or the other.
   */
  lemma MidDeterminesPair(m: Maze, a: Cell, b: Cell, c: Cell, e: Cell)
    requires IsPassage(m, a) && IsPassage(m, b) && Adjacent(a, b)
    requires IsPassage(m, c) && IsPassage(m, e) && Adjacent(c, e)
    requires Mid(a, b) == Mid(c, e)
    ensures (a == c && b == e) || (a == e && b == c)
  {
    MidOfAdjacent(m, a, b);
    MidOfAdjacent(m, c, e);
  }

  /** Every listed neighbour of a passage is a passage, and the wall between them lies off the lattice. */
  lemma LinkedWall(m: Maze, a: Cell, b: Cell)
    requires Valid(m) && Linked(m, a, b)
    ensures b in m.graph && Adjacent(a, b) && IsPassage(m, a) && IsPassage(m, b)
    ensures InBounds(m, Mid(a, b)) && Mid(a, b) !in m.graph && Mid(a, b) == Mid(b, a)
  {
    var i :| 0 <= i < |m.graph[a]| && m.graph[a][i] == b;
    MidOfAdjacent(m, a, b);
  }

  // ---------------------------------------------------------------------------
  // Construction
  // ---------------------------------------------------------------------------

  /** The passages `(x, y), (x+2, y), ...` of row `y` left of `width - margin` that the mask admits. */
  function RowCells(width: int, margin: int, mask: Cell -> bool, x: int, y: int): (r: seq<Cell>)
    ensures forall c :: c in r <==>
      (c.1 == y && x <= c.0 < width - margin && (c.0 - x) % 2 == 0 && mask(c))
    ensures forall i, j :: 0 <= i < j < |r| ==> r[i].1 == y && r[i].0 < r[j].0
    decreases width - margin - x
  {
    if x >= width - margin then []
    else
      var rest := RowCells(width, margin, mask, x + 2, y);
      if mask((x, y)) then [(x, y)] + rest else rest
  }

  /** Row-major order: by row, then by column. */
  predicate RowMajorBefore(a: Cell, b: Cell)
  {
    a.1 < b.1 || (a.1 == b.1 && a.0 < b.0)
  }

  /** The rows `y, y+2, ...` above `height - margin`, each scanned left to right from `margin`. */
  function LatticeCells(width: int, height: int, margin: int, mask: Cell -> bool, y: int): (r: seq<Cell>)
    ensures forall c :: c in r <==>
      (y <= c.1 < height - margin && (c.1 - y) % 2 == 0
       && margin <= c.0 < width - margin && (c.0 - margin) % 2 == 0 && mask(c))
    ensures forall i, j :: 0 <= i < j < |r| ==> RowMajorBefore(r[i], r[j])
    decreases height - margin - y
  {
    if y >= height - margin then []
    else
      var row := RowCells(width, margin, mask, margin, y);
      var rest := LatticeCells(width, height, margin, mask, y + 2);
      RowsConcatenate(row, rest, y);
      assert forall c :: c in rest ==> (c.1 - y) % 2 == 0 && c.1 > y;
      row + rest
  }

  /** A row at height `y` followed by rows strictly below it stays in row-major order. */
  lemma RowsConcatenate(row: seq<Cell>, rest: seq<Cell>, y: int)
    requires forall i, j :: 0 <= i < j < |row| ==> row[i].1 == y && row[i].0 < row[j].0
    requires forall c :: c in row ==> c.1 == y
    requires forall c :: c in rest ==> c.1 >= y + 2
    requires forall i, j :: 0 <= i < j < |rest| ==> RowMajorBefore(rest[i], rest[j])
    ensures forall i, j :: 0 <= i < j < |row + rest| ==> RowMajorBefore((row + rest)[i], (row + rest)[j])
  {
    var r := row + rest;
    forall i, j | 0 <= i < j < |r|
      ensures RowMajorBefore(r[i], r[j])
    {
      if j < |row| {
        assert r[i] == row[i] && r[j] == row[j];
      } else if i < |row| {
        assert r[i] == row[i] && r[i] in row;
        assert r[j] == rest[j - |row|] && r[j] in rest;
      } else {
        assert r[i] == rest[i - |row|] && r[j] == rest[j - |row|];
      }
    }
  }

  /** The position of `n` relative to `c`: 0 west, 1 north, 2 east, 3 south. */
  function Direction(c: Cell, n: Cell): int
  {
    if n.0 < c.0 then 0 else if n.1 < c.1 then 1 else if n.0 > c.0 then 2 else 3
  }

  /**
   The neighbourhood of a passage: the adjacent cells inside the margin box
   that the mask admits, listed west, north, east, south.
   */
  function Neighborhood(width: int, height: int, margin: int, mask: Cell -> bool, c: Cell): (ns: seq<Cell>)
    requires InMargin(width, height, margin, c)
    ensures forall i :: 0 <= i < |ns| ==>
      Adjacent(c, ns[i]) && InMargin(width, height, margin, ns[i]) && mask(ns[i])
    ensures forall i, j :: 0 <= i < j < |ns| ==> Direction(c, ns[i]) < Direction(c, ns[j])
  {
    var (x, y) := c;
    (if x >= 2 + margin && mask((x - 2, y)) then [(x - 2, y)] else [])
    + (if y >= 2 + margin && mask((x, y - 2)) then [(x, y - 2)] else [])
    + (if x <= width - 3 - margin && mask((x + 2, y)) then [(x + 2, y)] else [])
    + (if y <= height - 3 - margin && mask((x, y + 2)) then [(x, y + 2)] else [])
  }

  /** Conversely, every admitted adjacent cell inside the margin box is listed. */
  lemma NeighborhoodComplete(width: int, height: int, margin: int, mask: Cell -> bool, c: Cell, n: Cell)
    requires InMargin(width, height, margin, c)
    requires Adjacent(c, n) && InMargin(width, height, margin, n) && mask(n)
    ensures n in Neighborhood(width, height, margin, mask, c)
  {
  }

  /** The all-WALL grid `[[0]*height for _ in range(width)]`. */
  function BlankGrid(width: nat, height: nat): (g: seq<seq<int>>)
    ensures |g| == width && forall x :: 0 <= x < width ==> |g[x]| == height
    ensures forall x, y :: 0 <= x < width && 0 <= y < height ==> g[x][y] == WALL
  {
    seq(width, _ => seq(height, _ => WALL))
  }

  /** Moving two steps (or none) keeps the parity of a coordinate. */
  lemma ParityStep(a: int, b: int, margin: int)
    requires (a - margin) % 2 == 0
    requires b == a || b == a + 2 || b == a - 2
    ensures (b - margin) % 2 == 0
  {
    if b == a + 2 {
      assert b - margin == (a - margin) + 2;
    } else if b == a - 2 {
      assert b - margin == (a - margin) - 2;
    }
  }

  /** A listed neighbour of an admitted passage is an admitted passage two steps away. */
  lemma NeighborIsPassage(width: nat, height: nat, margin: nat, mask: Cell -> bool, c: Cell, i: int)
    requires InMargin(width, height, margin, c) && (c.0 - margin) % 2 == 0 && (c.1 - margin) % 2 == 0
    requires 0 <= i < |Neighborhood(width, height, margin, mask, c)|
    ensures var n := Neighborhood(width, height, margin, mask, c)[i];
      Adjacent(c, n) && InMargin(width, height, margin, n) && mask(n)
      && (n.0 - margin) % 2 == 0 && (n.1 - margin) % 2 == 0
  {
    var n := Neighborhood(width, height, margin, mask, c)[i];
    ParityStep(c.0, n.0, margin);
    ParityStep(c.1, n.1, margin);
  }

  /** The neighbourhood map of a cell list. */
  function NeighborGraph(width: nat, height: nat, margin: nat, mask: Cell -> bool, cells: seq<Cell>): (g: map<Cell, seq<Cell>>)
    requires forall c :: c in cells ==> InMargin(width, height, margin, c)
    ensures forall c :: c in g <==> c in cells
    ensures forall c :: c in g ==> g[c] == Neighborhood(width, height, margin, mask, c)
  {
    map c | c in cells :: Neighborhood(width, height, margin, mask, c)
  }

  /** The lattice scan yields exactly the admitted lattice passages. */
  lemma LatticeCellsExact(width: nat, height: nat, margin: nat, mask: Cell -> bool, c: Cell)
    ensures c in LatticeCells(width, height, margin, mask, margin) <==>
      InMargin(width, height, margin, c) && (c.0 - margin) % 2 == 0 && (c.1 - margin) % 2 == 0 && mask(c)
  {
  }

  /** Every listed neighbour of an admitted passage is itself a key of the neighbourhood map. */
  lemma NeighborGraphClosed(width: nat, height: nat, margin: nat, mask: Cell -> bool, g: map<Cell, seq<Cell>>)
    requires forall c :: c in g ==> InMargin(width, height, margin, c) && (c.0 - margin) % 2 == 0 && (c.1 - margin) % 2 == 0
    requires forall c :: c in g ==> g[c] == Neighborhood(width, height, margin, mask, c)
    requires forall c :: InMargin(width, height, margin, c) && (c.0 - margin) % 2 == 0 && (c.1 - margin) % 2 == 0 && mask(c) ==> c in g
    ensures forall c, i :: c in g && 0 <= i < |g[c]| ==> g[c][i] in g && Adjacent(c, g[c][i])
  {
    forall c, i | c in g && 0 <= i < |g[c]|
      ensures g[c][i] in g && Adjacent(c, g[c][i])
    {
      NeighborIsPassage(width, height, margin, mask, c, i);
    }
  }

  /** Assembling a maze from a well-shaped grid and a closed lattice neighbourhood map. */
  lemma ValidFromParts(width: nat, height: nat, margin: nat, cells: seq<Cell>,
                       g: map<Cell, seq<Cell>>, grid: seq<seq<int>>)
    requires |grid| == width && forall x :: 0 <= x < width ==> |grid[x]| == height
    requires forall c :: c in g <==> c in cells
    requires forall c :: c in g ==>
      InMargin(width, height, margin, c) && Parity(margin, c)
    requires forall c, i :: c in g && 0 <= i < |g[c]| ==> g[c][i] in g && Adjacent(c, g[c][i])
    ensures Valid(Maze(width, height, margin, grid, 0, None, cells, g))
  {
  }

  /**
   `Maze(width, height, margin, mask)`: an all-WALL grid, the passages the mask
   admits in row-major order, and their neighbourhoods; the tracker is empty.
   */
  function NewMaze(width: nat, height: nat, margin: nat, mask: Cell -> bool): (m: Maze)
    ensures Valid(m) && m.width == width && m.height == height && m.margin == margin
    ensures forall c :: InBounds(m, c) ==> Get(m, c) == WALL
    ensures m.numChanges == 0 && m.frameBox == None
    ensures forall c :: c in m.graph <==> IsPassage(m, c) && mask(c)
    ensures forall i, j :: 0 <= i < j < |m.cells| ==> RowMajorBefore(m.cells[i], m.cells[j])
    ensures forall c :: c in m.graph ==> m.graph[c] == Neighborhood(width, height, margin, mask, c)
  {
    var cells := LatticeCells(width, height, margin, mask, margin);
    forall c ensures c in cells <==>
      InMargin(width, height, margin, c) && (c.0 - margin) % 2 == 0 && (c.1 - margin) % 2 == 0 && mask(c)
    {
      LatticeCellsExact(width, height, margin, mask, c);
    }
    var graph := NeighborGraph(width, height, margin, mask, cells);
    NeighborGraphClosed(width, height, margin, mask, graph);
    var grid := BlankGrid(width, height);
    ValidFromParts(width, height, margin, cells, graph, grid);
    Maze(width, height, margin, grid, 0, None, cells, graph)
  }

  /** The maze without a mask: every lattice passage inside the margin. */
  function PlainMaze(width: nat, height: nat, margin: nat): (m: Maze)
    ensures Valid(m)
    ensures forall c :: c in m.graph <==> IsPassage(m, c)
  {
    NewMaze(width, height, margin, _ => true)
  }

  /** Adjacency is symmetric between admitted cells of the margin box, whatever the mask. */
  lemma NeighborsSymmetric(width: nat, height: nat, margin: nat, mask: Cell -> bool, a: Cell, b: Cell)
    requires InMargin(width, height, margin, a) && mask(a)
    requires InMargin(width, height, margin, b) && mask(b)
    ensures b in Neighborhood(width, height, margin, mask, a) <==> a in Neighborhood(width, height, margin, mask, b)
  {
    var na := Neighborhood(width, height, margin, mask, a);
    var nb := Neighborhood(width, height, margin, mask, b);
    if b in na {
      var i :| 0 <= i < |na| && na[i] == b;
      NeighborhoodComplete(width, height, margin, mask, b, a);
    }
    if a in nb {
      var i :| 0 <= i < |nb| && nb[i] == a;
      NeighborhoodComplete(width, height, margin, mask, a, b);
    }
  }

  // ---------------------------------------------------------------------------
  // Mutation primitives
  // ---------------------------------------------------------------------------

  /** The smallest box containing the old box (if any) and `c`. */
  function Grow(b: Option<Box>, c: Cell): Box
  {
    match b
    case None => Box(c.0, c.1, c.0, c.1)
    case Some(bx) =>
      Box(if c.0 < bx.left then c.0 else bx.left, if c.1 < bx.top then c.1 else bx.top,
          if c.0 > bx.right then c.0 else bx.right, if c.1 > bx.bottom then c.1 else bx.bottom)
  }

  /** `Grow` gives a box containing the cell and the old box, and contained in every box that does. */
  lemma GrowIsLeast(b: Option<Box>, c: Cell, other: Box)
    ensures InBox(Grow(b, c), c)
    ensures b.Some? ==> BoxWithin(b.value, Grow(b, c))
    ensures InBox(other, c) && (b.Some? ==> BoxWithin(b.value, other)) ==> BoxWithin(Grow(b, c), other)
  {
  }

  /** `mark_cell`: set one cell, grow the tracker's box around it, count one change. */
  function MarkCell(m: Maze, c: Cell, i: int): (m': Maze)
    requires Shaped(m) && InBounds(m, c)
    ensures Shaped(m') && SameLayout(m, m')
    ensures Get(m', c) == i
    ensures forall d :: InBounds(m, d) && d != c ==> Get(m', d) == Get(m, d)
    ensures m'.numChanges == m.numChanges + 1
    ensures m'.frameBox.Some? && InBox(m'.frameBox.value, c)
    ensures m.frameBox.Some? ==> BoxWithin(m.frameBox.value, m'.frameBox.value)
    ensures m'.frameBox == Some(Grow(m.frameBox, c))
    ensures TrackerOk(m) ==> TrackerOk(m')
    ensures Valid(m) ==> Valid(m')
  {
    m.(grid := m.grid[c.0 := m.grid[c.0][c.1 := i]],
       frameBox := Some(Grow(m.frameBox, c)),
       numChanges := m.numChanges + 1)
  }

  /**
   The box `mark_cell` leaves behind is the least one covering the old box
   and the marked cell: it lies inside every box that covers both.
   */
  lemma MarkCellBoxIsLeast(m: Maze, c: Cell, i: int, other: Box)
    requires Shaped(m) && InBounds(m, c)
    requires InBox(other, c) && (m.frameBox.Some? ==> BoxWithin(m.frameBox.value, other))
    ensures BoxWithin(MarkCell(m, c, i).frameBox.value, other)
  {
    GrowIsLeast(m.frameBox, c, other);
  }

  /** `mark_wall`: mark the midpoint of two cells. */
  function MarkWall(m: Maze, a: Cell, b: Cell, i: int): (m': Maze)
    requires Shaped(m) && InBounds(m, Mid(a, b))
    ensures m' == MarkCell(m, Mid(b, a), i)
  {
    MarkCell(m, Mid(a, b), i)
  }

  predicate AllInBounds(m: Maze, cs: seq<Cell>)
  {
    forall k :: 0 <= k < |cs| ==> InBounds(m, cs[k])
  }

  /** Mark a sequence of cells in order (the loop `for cell in path`). */
  function MarkCells(m: Maze, cs: seq<Cell>, i: int): (m': Maze)
    requires Shaped(m) && AllInBounds(m, cs)
    ensures Shaped(m') && SameLayout(m, m')
    ensures forall d :: InBounds(m, d) ==> Get(m', d) == if d in cs then i else Get(m, d)
    ensures m'.numChanges == m.numChanges + |cs|
    ensures forall k :: 0 <= k < |cs| ==> m'.frameBox.Some? && InBox(m'.frameBox.value, cs[k])
    ensures m.frameBox.Some? ==> m'.frameBox.Some? && BoxWithin(m.frameBox.value, m'.frameBox.value)
    ensures Valid(m) ==> Valid(m')
    decreases |cs|
  {
    if |cs| == 0 then m
    else
      var m1 := MarkCell(m, cs[0], i);
      var m' := MarkCells(m1, cs[1..], i);
      assert forall k :: 1 <= k < |cs| ==> cs[k] == cs[1..][k - 1];
      assert forall d :: d in cs <==> d == cs[0] || d in cs[1..];
      m'
  }

  /** The walls crossed by a path: the midpoints of `zip(path[1:], path[:-1])`. */
  function Walls(p: seq<Cell>): (ws: seq<Cell>)
    ensures |ws| == if |p| == 0 then 0 else |p| - 1
    decreases |p|
  {
    if |p| < 2 then [] else [Mid(p[1], p[0])] + Walls(p[1..])
  }

  /** The j-th wall lies between cells j and j+1. */
  lemma {:induction false} WallsAt(p: seq<Cell>, j: nat)
    requires j < |p| - 1
    ensures Walls(p)[j] == Mid(p[j + 1], p[j])
    decreases j
  {
    if j > 0 {
      WallsAt(p[1..], j - 1);
    }
  }

  /** The midpoints a path crosses are in bounds. */
  predicate PathFits(m: Maze, p: seq<Cell>)
  {
    AllInBounds(m, p) && forall j :: 0 <= j < |p| - 1 ==> InBounds(m, Mid(p[j + 1], p[j]))
  }

  /** `d` is a cell of the path or a wall between two consecutive cells of it. */
  predicate OnTrail(p: seq<Cell>, d: Cell)
    decreases |p|
  {
    |p| > 0 && (d == p[0] || (|p| > 1 && d == Mid(p[1], p[0])) || OnTrail(p[1..], d))
  }

  lemma {:induction false} OnTrailIff(p: seq<Cell>, d: Cell)
    ensures OnTrail(p, d) <==> d in p || d in Walls(p)
    decreases |p|
  {
    if |p| > 0 {
      OnTrailIff(p[1..], d);
      assert d in p <==> d == p[0] || d in p[1..] by {
        assert p == [p[0]] + p[1..];
      }
    }
  }

  /** Every cell of a path, and every wall between consecutive cells, is on its trail. */
  lemma {:induction false} OnTrailCells(p: seq<Cell>, j: nat)
    requires j < |p|
    ensures OnTrail(p, p[j])
    ensures j < |p| - 1 ==> OnTrail(p, Mid(p[j + 1], p[j]))
    decreases j
  {
    if j > 0 {
      OnTrailCells(p[1..], j - 1);
    }
  }

  /** The effect of the two marking passes of `mark_path` on one cell. */
  lemma MarkTrailCell(m: Maze, p: seq<Cell>, i: int, d: Cell)
    requires Shaped(m) && PathFits(m, p) && InBounds(m, d)
    requires AllInBounds(m, Walls(p))
    ensures Get(MarkCells(MarkCells(m, p, i), Walls(p), i), d) == if OnTrail(p, d) then i else Get(m, d)
  {
    OnTrailIff(p, d);
  }

  /**
   `mark_path`: every cell of the path, then every wall between consecutive
   cells, gets index `i`; a path of n >= 1 cells costs 2n-1 changes.
   */
  function MarkPath(m: Maze, p: seq<Cell>, i: int): (m': Maze)
    requires Shaped(m) && PathFits(m, p)
    ensures Shaped(m') && SameLayout(m, m')
    ensures forall d :: InBounds(m, d) ==> Get(m', d) == if OnTrail(p, d) then i else Get(m, d)
    ensures |p| > 0 ==> m'.numChanges == m.numChanges + 2 * |p| - 1
    ensures |p| == 0 ==> m' == m
    ensures forall k :: 0 <= k < |p| ==> m'.frameBox.Some? && InBox(m'.frameBox.value, p[k])
    ensures Valid(m) ==> Valid(m')
  {
    var ws := Walls(p);
    assert AllInBounds(m, ws) by {
      forall j | 0 <= j < |ws|
        ensures InBounds(m, ws[j])
      {
        WallsAt(p, j);
      }
    }
    var m1 := MarkCells(m, p, i);
    var m2 := MarkCells(m1, ws, i);
    forall d | InBounds(m, d)
      ensures Get(m2, d) == if OnTrail(p, d) then i else Get(m, d)
    {
      MarkTrailCell(m, p, i, d);
    }
    m2
  }

  // ---------------------------------------------------------------------------
  // State predicates
  // ---------------------------------------------------------------------------

  predicate IsWall(m: Maze, c: Cell)
    requires Shaped(m) && InBounds(m, c)
  {
    Get(m, c) == WALL
  }

  predicate InTree(m: Maze, c: Cell)
    requires Shaped(m) && InBounds(m, c)
  {
    Get(m, c) == TREE
  }

  predicate InPath(m: Maze, c: Cell)
    requires Shaped(m) && InBounds(m, c)
  {
    Get(m, c) == PATH
  }

  /**
   `connected`, literally: true when the wall between the two cells is still
   WALL, that is, when NO passage has been carved between them.
   */
  predicate Connected(m: Maze, a: Cell, b: Cell)
    requires Shaped(m) && InBounds(m, Mid(a, b))
  {
    IsWall(m, Mid(a, b))
  }

  /** On a fresh maze every adjacent pair answers `connected`, and marking the wall flips the answer. */
  lemma ConnectedMeansUncarved(width: nat, height: nat, margin: nat, mask: Cell -> bool, a: Cell, b: Cell, i: int)
    requires Linked(NewMaze(width, height, margin, mask), a, b)
    ensures Connected(NewMaze(width, height, margin, mask), a, b)
    ensures !Connected(MarkWall(NewMaze(width, height, margin, mask), a, b, i), a, b) <==> i != WALL
  {
    LinkedWall(NewMaze(width, height, margin, mask), a, b);
  }
}
