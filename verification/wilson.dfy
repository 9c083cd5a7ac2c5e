/**
 Wilson's uniform-spanning-tree algorithm of `src/wilson/wilson.py`: from each
 passage not yet in the tree, a loop-erased random walk runs until it hits the
 tree, and the surviving path is then added to the tree.

 `random.choice` is replaced by a sequence of choices: the k-th step of the run
 moves to neighbour number `choices[k] % (number of neighbours)`. Running out of
 choices stops the run; this is the fuel standing in for the walk's
 almost-sure termination.
 */
module Wilson {
  import opened Wrappers
  import opened Seqs
  import opened Grid
  import opened Frames
  import opened Walks

  /** Every cell of the path is a passage. */
  predicate OnPassages(m: Maze, p: seq<Cell>)
  {
    forall j :: 0 <= j < |p| ==> p[j] in m.graph
  }

  /** Consecutive cells of the path are listed neighbours. */
  predicate Chained(m: Maze, p: seq<Cell>)
  {
    forall j :: 0 <= j < |p| - 1 ==> Linked(m, p[j], p[j + 1])
  }

  /** A chain of passages fits in the grid. */
  lemma ChainFits(m: Maze, p: seq<Cell>)
    requires Valid(m) && OnPassages(m, p) && Chained(m, p)
    ensures PathFits(m, p)
  {
    forall j | 0 <= j < |p| - 1
      ensures InBounds(m, Mid(p[j + 1], p[j]))
    {
      LinkedWall(m, p[j], p[j + 1]);
    }
  }

  /** A suffix of a chain of passages is a chain of passages. */
  lemma ChainSuffix(m: Maze, p: seq<Cell>, k: nat)
    requires OnPassages(m, p) && Chained(m, p) && k <= |p|
    ensures OnPassages(m, p[k..]) && Chained(m, p[k..])
  {
    assert forall j :: 0 <= j < |p| - k ==> p[k..][j] == p[k + j];
  }

  /** A passage is on the trail of a chain exactly when it is one of the chain's cells. */
  lemma {:induction false} TrailPassage(m: Maze, p: seq<Cell>, c: Cell)
    requires Valid(m) && OnPassages(m, p) && Chained(m, p) && c in m.graph
    ensures OnTrail(p, c) <==> c in p
    decreases |p|
  {
    if |p| > 0 {
      ChainSuffix(m, p, 1);
      TrailPassage(m, p[1..], c);
      if |p| > 1 {
        LinkedWall(m, p[0], p[1]);
      }
      assert p == [p[0]] + p[1..];
    }
  }

  /** A trail cell that is not a cell of the path is the wall after some position `j`. */
  lemma TrailWall(p: seq<Cell>, d: Cell) returns (j: nat)
    requires OnTrail(p, d) && d !in p
    ensures j < |p| - 1 && d == Mid(p[j + 1], p[j])
  {
    OnTrailIff(p, d);
    var i :| 0 <= i < |Walls(p)| && Walls(p)[i] == d;
    WallsAt(p, i);
    j := i;
  }

  /** The trail of a path is the trails of its prefix up to position `k` and of its suffix from `k`. */
  lemma TrailSplit(p: seq<Cell>, k: nat, d: Cell)
    requires k < |p|
    ensures OnTrail(p, d) <==> OnTrail(p[..k + 1], d) || OnTrail(p[k..], d)
  {
    if OnTrail(p, d) {
      TrailInParts(p, k, d);
    }
    if OnTrail(p[..k + 1], d) {
      TrailOfPrefix(p, k, d);
    }
    if OnTrail(p[k..], d) {
      TrailOfSuffix(p, k, d);
    }
  }

  /** A cell of the trail of a path is on the trail of its prefix up to `k` or of its suffix from `k`. */
  lemma TrailInParts(p: seq<Cell>, k: nat, d: Cell)
    requires k < |p| && OnTrail(p, d)
    ensures OnTrail(p[..k + 1], d) || OnTrail(p[k..], d)
  {
    var a, b := p[..k + 1], p[k..];
    if d in p {
      var j :| 0 <= j < |p| && p[j] == d;
      if j <= k {
        assert a[j] == d;
        OnTrailCells(a, j);
      } else {
        assert b[j - k] == d;
        OnTrailCells(b, j - k);
      }
    } else {
      var j := TrailWall(p, d);
      if j < k {
        assert a[j] == p[j] && a[j + 1] == p[j + 1];
        OnTrailCells(a, j);
      } else {
        assert b[j - k] == p[j] && b[j - k + 1] == p[j + 1];
        OnTrailCells(b, j - k);
      }
    }
  }

  /** The trail of the prefix of a path up to `k` is part of the path's trail. */
  lemma TrailOfPrefix(p: seq<Cell>, k: nat, d: Cell)
    requires k < |p| && OnTrail(p[..k + 1], d)
    ensures OnTrail(p, d)
  {
    var a := p[..k + 1];
    if d in a {
      var j :| 0 <= j < |a| && a[j] == d;
      assert p[j] == d;
      OnTrailCells(p, j);
    } else {
      var j := TrailWall(a, d);
      assert p[j] == a[j] && p[j + 1] == a[j + 1];
      OnTrailCells(p, j);
    }
  }

  /** The trail of the suffix of a path from `k` is part of the path's trail. */
  lemma TrailOfSuffix(p: seq<Cell>, k: nat, d: Cell)
    requires k < |p| && OnTrail(p[k..], d)
    ensures OnTrail(p, d)
  {
    var b := p[k..];
    if d in b {
      var j :| 0 <= j < |b| && b[j] == d;
      assert p[j + k] == b[j];
      OnTrailCells(p, j + k);
    } else {
      var j := TrailWall(b, d);
      assert p[j + k] == b[j] && p[j + k + 1] == b[j + 1];
      OnTrailCells(p, j + k);
    }
  }

  /** The trail of `p + [x]` is the trail of `p`, the new cell `x` and the wall before it. */
  lemma TrailAppend(p: seq<Cell>, x: Cell, d: Cell)
    requires |p| > 0
    ensures OnTrail(p + [x], d) <==> OnTrail(p, d) || d == x || d == Mid(x, Last(p))
  {
    var q := p + [x];
    TrailSplit(q, |p| - 1, d);
    assert q[..|p|] == p;
    var t := [Last(p), x];
    assert q[|p| - 1..] == t;
    assert t[1..] == [x];
    assert OnTrail([x], d) <==> d == x;
    assert OnTrail(t, d) <==> d == Last(p) || d == Mid(x, Last(p)) || d == x;
    OnTrailCells(p, |p| - 1);
  }

  /**
   Two different walls of a duplicate-free chain of passages are different
   cells: a wall determines the pair of passages on either side of it.
   */
  lemma WallsApart(m: Maze, p: seq<Cell>, i: nat, j: nat)
    requires Valid(m) && NoDup(p) && OnPassages(m, p) && Chained(m, p)
    requires i < j < |p| - 1
    ensures Mid(p[i + 1], p[i]) != Mid(p[j + 1], p[j])
  {
    LinkedWall(m, p[i], p[i + 1]);
    LinkedWall(m, p[j], p[j + 1]);
    if Mid(p[i + 1], p[i]) == Mid(p[j + 1], p[j]) {
      MidDeterminesPair(m, p[i + 1], p[i], p[j + 1], p[j]);
      assert false;
    }
  }

  /**
   A maze a walk can start from, as every maze of a run is: each cell is
   WALL or TREE, and a TREE wall between two linked passages joins two TREE
   passages.
   */
  ghost predicate Settled(m: Maze)
  {
    && Shaped(m)
    && (forall d :: InBounds(m, d) ==> Get(m, d) == WALL || Get(m, d) == TREE)
    && (forall a, b :: Linked(m, a, b) && InBounds(m, Mid(a, b)) && Get(m, Mid(a, b)) == TREE ==>
          InBounds(m, a) && InBounds(m, b) && Get(m, a) == TREE && Get(m, b) == TREE)
  }

  /**
   The colour of one cell `c` during a walk, relative to the maze `m0` the
   walk started from. A passage is PATH exactly when it is on the path
   (except the head once the walk is `done`), TREE exactly when it was TREE in
   `m0`, and as in `m0` when it is off the path. Any other cell is PATH when
   it is a wall of the path and as in `m0` otherwise.
   */
  ghost predicate CellState(m0: Maze, m: Maze, path: seq<Cell>, done: bool, c: Cell)
  {
    && Shaped(m0) && Shaped(m) && InBounds(m0, c) && InBounds(m, c) && |path| > 0
    && (c in m.graph ==>
          && (Get(m, c) == PATH <==> c in path && !(done && c == Last(path)))
          && (Get(m, c) == TREE <==> Get(m0, c) == TREE)
          && (c !in path ==> Get(m, c) == Get(m0, c)))
    && (c !in m.graph ==> Get(m, c) == if OnTrail(path, c) then PATH else Get(m0, c))
  }

  /**
   The state of a walk in progress: it started from a settled maze, the path
   is a duplicate-free chain of passages, every cell is in its `CellState`,
   and once the walk is `done` its head is TREE.
   */
  ghost predicate WalkInv(m0: Maze, m: Maze, path: seq<Cell>, done: bool)
  {
    && Settled(m0) && Valid(m) && SameLayout(m0, m)
    && |path| >= 1 && NoDup(path) && OnPassages(m, path) && Chained(m, path)
    && (done ==> Get(m, Last(path)) == TREE)
    && (forall c :: InBounds(m, c) ==> CellState(m0, m, path, done, c))
  }

  /** A passage lies inside the grid. */
  lemma PassageInBounds(m: Maze, c: Cell)
    requires Valid(m) && c in m.graph
    ensures InBounds(m, c)
  {
  }

  /** No cell of a walk that is not done was TREE when the walk started. */
  lemma WalkOffTree(m0: Maze, m: Maze, path: seq<Cell>)
    requires WalkInv(m0, m, path, false)
    ensures forall j :: 0 <= j < |path| ==> InBounds(m0, path[j]) && Get(m0, path[j]) != TREE
  {
    forall j | 0 <= j < |path|
      ensures InBounds(m0, path[j]) && Get(m0, path[j]) != TREE
    {
      PassageInBounds(m, path[j]);
      assert CellState(m0, m, path, false, path[j]);
    }
  }

  /** A wall after a cell that was not TREE was WALL in a settled maze. */
  lemma ErasedWallWasWall(m0: Maze, m: Maze, p: seq<Cell>, j: nat)
    requires Settled(m0) && Valid(m) && SameLayout(m0, m) && OnPassages(m, p) && Chained(m, p)
    requires j < |p| - 1 && InBounds(m0, p[j]) && Get(m0, p[j]) != TREE
    ensures InBounds(m0, Mid(p[j + 1], p[j])) && Get(m0, Mid(p[j + 1], p[j])) == WALL
  {
    LinkedWall(m, p[j], p[j + 1]);
    assert Linked(m0, p[j], p[j + 1]);
  }

  /**
   `erase_loop`: `cell` was revisited at its first position k; the cells after
   it and the walls between path[k..] go back to WALL, `cell` stays PATH, and
   the path is cut back to end at `cell`.
   */
  function EraseLoop(m: Maze, path: seq<Cell>, cell: Cell): (r: (Maze, seq<Cell>))
    requires Shaped(m) && PathFits(m, path) && cell in path
    ensures r.1 == path[..FirstIndex(path, cell) + 1] && |r.1| > 0 && Last(r.1) == cell
    ensures Shaped(r.0) && SameLayout(m, r.0)
    ensures r.0.numChanges == m.numChanges + 2 * (|path| - FirstIndex(path, cell))
  {
    var k := FirstIndex(path, cell);
    var tail := path[k..];
    TailFits(m, path, k);
    var m1 := MarkPath(m, tail, WALL);
    var m2 := MarkCell(m1, cell, PATH);
    (m2, path[..k + 1])
  }

  /**
   What loop erasure does to the grid: `cell` is PATH, every other cell on
   the trail of `path[k..]` (its cells and the walls between them) is WALL,
   and every other cell is unchanged; the maze stays valid.
   */
  lemma EraseLoopRecolours(m: Maze, path: seq<Cell>, cell: Cell)
    requires Shaped(m) && PathFits(m, path) && cell in path
    ensures Valid(m) ==> Valid(EraseLoop(m, path, cell).0)
    ensures forall d :: InBounds(m, d) ==>
      Get(EraseLoop(m, path, cell).0, d) ==
        if d == cell then PATH
        else if OnTrail(path[FirstIndex(path, cell)..], d) then WALL
        else Get(m, d)
  {
    TailFits(m, path, FirstIndex(path, cell));
  }

  /** Every suffix of a path that fits the grid fits it too. */
  lemma TailFits(m: Maze, path: seq<Cell>, k: nat)
    requires Shaped(m) && PathFits(m, path) && k <= |path|
    ensures PathFits(m, path[k..])
  {
    var tail := path[k..];
    assert forall j :: 0 <= j < |tail| ==> tail[j] == path[k + j];
  }

  /**
   `add_to_path`: the cell and the wall between it and the old head become
   PATH and the cell is appended.
   */
  function AddToPath(m: Maze, path: seq<Cell>, cell: Cell): (r: (Maze, seq<Cell>))
    requires Shaped(m) && |path| > 0 && InBounds(m, cell) && InBounds(m, Mid(Last(path), cell))
    ensures r.1 == path + [cell]
    ensures Shaped(r.0) && SameLayout(m, r.0)
    ensures Valid(m) ==> Valid(r.0)
    ensures Get(r.0, cell) == PATH && Get(r.0, Mid(Last(path), cell)) == PATH
    ensures forall d :: InBounds(m, d) && d != cell && d != Mid(Last(path), cell) ==> Get(r.0, d) == Get(m, d)
    ensures r.0.numChanges == m.numChanges + 2
  {
    var m1 := MarkCell(m, cell, PATH);
    var m2 := MarkWall(m1, path[|path| - 1], cell, PATH);
    (m2, path + [cell])
  }

  /**
   `move_one_step`: move to the chosen neighbour `z` of the head. If `z` is on
   the path the loop is erased; if `z` is in the tree it is appended and
   turned back to TREE; otherwise it is appended as PATH. Returns the new
   maze, the new path and `z`.
   */
  function MoveOneStep(m: Maze, path: seq<Cell>, choice: nat): (r: (Maze, seq<Cell>, Cell))
    requires Valid(m) && |path| > 0 && OnPassages(m, path) && Chained(m, path)
    requires |m.graph[Last(path)]| > 0
    requires forall c :: c in m.graph && Get(m, c) == PATH ==> c in path
    ensures r.2 == Pick(m.graph[Last(path)], choice) && Linked(m, Last(path), r.2)
    ensures Valid(r.0) && SameLayout(m, r.0)
    ensures r.2 in m.graph && InBounds(m, r.2) && InBounds(m, Mid(Last(path), r.2))
    ensures Get(m, r.2) == PATH ==> r.2 in path && PathFits(m, path)
    ensures var was := Get(m, r.2);
      && (was == PATH ==> (r.0, r.1) == EraseLoop(m, path, r.2))
      && (was != PATH ==> r.1 == path + [r.2] && Get(r.0, Mid(Last(path), r.2)) == PATH
                          && Get(r.0, r.2) == if was == TREE then TREE else PATH)
  {
    var next := Pick(m.graph[Last(path)], choice);
    LinkedWall(m, Last(path), next);
    ChainFits(m, path);
    if InPath(m, next) then
      EraseLoopRecolours(m, path, next);
      var (m', p') := EraseLoop(m, path, next);
      (m', p', next)
    else if InTree(m, next) then
      var (m1, p') := AddToPath(m, path, next);
      (MarkCell(m1, next, TREE), p', next)
    else
      var (m', p') := AddToPath(m, path, next);
      (m', p', next)
  }

  /** How loop erasure recolours one passage `c`, given the erased maze `m'`. */
  lemma EraseCell(m0: Maze, m: Maze, m': Maze, path: seq<Cell>, cell: Cell, c: Cell)
    requires Settled(m0) && Valid(m) && Shaped(m') && SameLayout(m0, m) && SameLayout(m, m')
    requires NoDup(path) && OnPassages(m, path) && Chained(m, path) && cell in path
    requires c in m.graph && CellState(m0, m, path, false, c)
    requires Get(m', c) == if c == cell then PATH
                           else if OnTrail(path[FirstIndex(path, cell)..], c) then WALL
                           else Get(m, c)
    ensures CellState(m0, m', path[..FirstIndex(path, cell) + 1], false, c)
  {
    var k := FirstIndex(path, cell);
    var p' := path[..k + 1];
    var tail := path[k..];
    assert Get(m, c) == PATH <==> c in path;
    ChainSuffix(m, path, k);
    TrailPassage(m, tail, c);
    if c in path {
      var i :| 0 <= i < |path| && path[i] == c;
      if i < k {
        assert p'[i] == c;
        NoDupSliceExcludes(path, i, k);
      } else if i == k {
        assert p'[i] == c;
      } else {
        assert tail[i - k] == c;
        assert c != cell by { assert path[k] == cell; }
        assert c !in p' by { NoDupPrefix(path, k + 1); }
        assert Get(m, c) == PATH;
      }
    } else {
      assert c !in tail;
      assert c !in p';
    }
  }

  /** How loop erasure recolours one cell `c` that is not a passage, given the erased maze `m'`. */
  lemma EraseWall(m0: Maze, m: Maze, m': Maze, path: seq<Cell>, cell: Cell, c: Cell, k: nat)
    requires Settled(m0) && Valid(m) && Shaped(m') && SameLayout(m0, m) && SameLayout(m, m')
    requires NoDup(path) && OnPassages(m, path) && Chained(m, path) && cell in m.graph
    requires forall j :: 0 <= j < |path| ==> InBounds(m0, path[j]) && Get(m0, path[j]) != TREE
    requires c !in m.graph && CellState(m0, m, path, false, c)
    requires k < |path| && path[k] == cell
    requires Get(m', c) == if OnTrail(path[k..], c) then WALL else Get(m, c)
    ensures CellState(m0, m', path[..k + 1], false, c)
  {
    TrailSplit(path, k, c);
    if OnTrail(path[k..], c) {
      ErasedWall(m0, m, path, k, c);
    }
  }

  /**
   A wall on the erased part of a walk is not a wall of the kept part, and it
   was WALL when the walk started.
   */
  lemma ErasedWall(m0: Maze, m: Maze, path: seq<Cell>, k: nat, c: Cell)
    requires Settled(m0) && Valid(m) && SameLayout(m0, m)
    requires NoDup(path) && OnPassages(m, path) && Chained(m, path)
    requires forall j :: 0 <= j < |path| ==> InBounds(m0, path[j]) && Get(m0, path[j]) != TREE
    requires c !in m.graph && k < |path| && OnTrail(path[k..], c)
    ensures !OnTrail(path[..k + 1], c)
    ensures InBounds(m0, c) && Get(m0, c) == WALL
  {
    var p', tail := path[..k + 1], path[k..];
    assert c !in tail by {
      assert forall j :: 0 <= j < |tail| ==> tail[j] == path[k + j];
    }
    var j := TrailWall(tail, c);
    assert tail[j] == path[k + j] && tail[j + 1] == path[k + j + 1];
    ErasedWallWasWall(m0, m, path, k + j);
    if OnTrail(p', c) {
      assert c !in p' by {
        assert forall i :: 0 <= i < |p'| ==> p'[i] == path[i];
      }
      var i := TrailWall(p', c);
      assert p'[i] == path[i] && p'[i + 1] == path[i + 1];
      WallsApart(m, path, i, k + j);
      assert false;
    }
  }

  /** Loop erasure keeps the walk invariant: the path is cut back to the revisited cell. */
  lemma EraseStep(m0: Maze, m: Maze, m': Maze, path: seq<Cell>, cell: Cell)
    requires WalkInv(m0, m, path, false) && cell in path
    requires Valid(m') && SameLayout(m, m')
    requires forall d :: InBounds(m, d) ==>
      Get(m', d) == if d == cell then PATH
                    else if OnTrail(path[FirstIndex(path, cell)..], d) then WALL
                    else Get(m, d)
    ensures WalkInv(m0, m', path[..FirstIndex(path, cell) + 1], false)
  {
    var k := FirstIndex(path, cell);
    var p' := path[..k + 1];
    NoDupPrefix(path, k + 1);
    WalkOffTree(m0, m, path);
    assert OnPassages(m', p') && Chained(m', p');
    assert cell in m.graph;
    forall c | InBounds(m', c)
      ensures CellState(m0, m', p', false, c)
    {
      assert CellState(m0, m, path, false, c);
      if c in m.graph {
        EraseCell(m0, m, m', path, cell, c);
      } else {
        EraseWall(m0, m, m', path, cell, c, k);
      }
    }
  }

  /** How appending `next` recolours one cell `c`, given the extended maze `m'`. */
  lemma ExtendCell(m0: Maze, m: Maze, m': Maze, path: seq<Cell>, next: Cell, c: Cell)
    requires Shaped(m0) && Shaped(m) && Shaped(m') && SameLayout(m0, m) && SameLayout(m, m')
    requires |path| > 0 && next in m.graph && InBounds(m, next) && InBounds(m, c)
    requires InBounds(m, Mid(Last(path), next)) && Mid(Last(path), next) !in m.graph
    requires Mid(Last(path), next) == Mid(next, Last(path))
    requires CellState(m0, m, path, false, c) && CellState(m0, m, path, false, next)
    requires Get(m, next) != PATH
    requires Get(m', next) == if Get(m, next) == TREE then TREE else PATH
    requires Get(m', Mid(Last(path), next)) == PATH
    requires c != next && c != Mid(Last(path), next) ==> Get(m', c) == Get(m, c)
    ensures CellState(m0, m', path + [next], Get(m, next) == TREE, c)
  {
    assert c in path + [next] <==> c in path || c == next;
    assert next !in path;
    if c !in m.graph {
      TrailAppend(path, next, c);
    }
  }

  /** Appending a neighbour that is not on the path keeps the walk invariant; the walk is done when it was TREE. */
  lemma ExtendStep(m0: Maze, m: Maze, m': Maze, path: seq<Cell>, next: Cell)
    requires WalkInv(m0, m, path, false) && Linked(m, Last(path), next) && Get(m, next) != PATH
    requires Valid(m') && SameLayout(m, m')
    requires Get(m', next) == if Get(m, next) == TREE then TREE else PATH
    requires Get(m', Mid(Last(path), next)) == PATH
    requires forall d :: InBounds(m, d) && d != next && d != Mid(Last(path), next) ==> Get(m', d) == Get(m, d)
    ensures WalkInv(m0, m', path + [next], Get(m, next) == TREE)
  {
    LinkedWall(m, Last(path), next);
    var p' := path + [next];
    PassageInBounds(m, next);
    assert CellState(m0, m, path, false, next);
    forall i | 0 <= i < |path|
      ensures path[i] != next
    {
      PassageInBounds(m, path[i]);
      assert CellState(m0, m, path, false, path[i]);
    }
    NoDupAppend(path, next);
    assert OnPassages(m', p') && Chained(m', p');
    forall c | InBounds(m', c)
      ensures CellState(m0, m', p', Get(m, next) == TREE, c)
    {
      assert CellState(m0, m, path, false, c);
      ExtendCell(m0, m, m', path, next, c);
    }
  }

  /** A walk that is not done has every passage that is PATH on its path. */
  lemma PathCellsOnPath(m0: Maze, m: Maze, path: seq<Cell>)
    requires WalkInv(m0, m, path, false)
    ensures forall c :: c in m.graph && Get(m, c) == PATH ==> c in path
  {
    forall c | c in m.graph && Get(m, c) == PATH
      ensures c in path
    {
      assert CellState(m0, m, path, false, c);
    }
  }

  /** One step keeps the walk invariant, and the walk is done exactly when the step hit a tree cell. */
  lemma MoveOneStepKeepsWalk(m0: Maze, m: Maze, path: seq<Cell>, choice: nat)
    requires WalkInv(m0, m, path, false) && |m.graph[Last(path)]| > 0
    ensures forall c :: c in m.graph && Get(m, c) == PATH ==> c in path
    ensures var r := MoveOneStep(m, path, choice);
      WalkInv(m0, r.0, r.1, Get(m, r.2) == TREE) && r.1[0] == path[0] && Last(r.1) == r.2
  {
    PathCellsOnPath(m0, m, path);
    var r := MoveOneStep(m, path, choice);
    var next := r.2;
    LinkedWall(m, Last(path), next);
    if Get(m, next) == PATH {
      ChainFits(m, path);
      EraseLoopRecolours(m, path, next);
      EraseStep(m0, m, r.0, path, next);
    } else {
      ExtendStep(m0, m, r.0, path, next);
    }
  }

  /** Refreshing the tracker does not disturb a walk: the grid and layout are unchanged. */
  lemma RetrackKeepsWalk(m0: Maze, m: Maze, m': Maze, path: seq<Cell>, done: bool)
    requires WalkInv(m0, m, path, done) && Valid(m') && SameLayout(m, m') && m'.grid == m.grid
    ensures WalkInv(m0, m', path, done)
  {
    forall c | InBounds(m', c)
      ensures CellState(m0, m', path, done, c)
    {
      assert CellState(m0, m, path, done, c);
    }
  }

  /** The head of a walk is TREE exactly when the walk is done. */
  lemma WalkHead(m0: Maze, m: Maze, path: seq<Cell>, done: bool)
    requires WalkInv(m0, m, path, done)
    ensures Get(m, Last(path)) == TREE <==> done
  {
    PassageInBounds(m, Last(path));
    assert CellState(m0, m, path, done, Last(path));
  }

  /**
   The path of a finished walk from `cell`, read against the maze `m` the
   walk started in: a duplicate-free chain of passages from `cell` whose last
   cell was in the tree and whose other cells were not.
   */
  ghost predicate ErasedPath(m: Maze, cell: Cell, path: seq<Cell>)
  {
    && Valid(m)
    && |path| > 0 && path[0] == cell && NoDup(path)
    && OnPassages(m, path) && Chained(m, path) && PathFits(m, path)
    && Get(m, Last(path)) == TREE
    && (forall j :: 0 <= j < |path| - 1 ==> Get(m, path[j]) != TREE)
  }

  /**
   `m'` is `m` with the tree grown by exactly the cells of `path` and the
   walls between them: those are TREE, no passage is PATH, and every cell off
   the trail keeps its colour from `m`.
   */
  ghost predicate TreeGrown(m: Maze, m': Maze, path: seq<Cell>)
    requires |path| > 0 && ErasedPath(m, path[0], path)
  {
    && Valid(m') && SameLayout(m, m')
    && (forall j :: 0 <= j < |path| - 1 ==> Get(m', Mid(path[j + 1], path[j])) == TREE)
    && (forall c :: c in m.graph ==> (Get(m', c) == TREE <==> Get(m, c) == TREE || c in path))
    && (forall c :: c in m.graph ==> Get(m', c) != PATH)
    && (forall d :: InBounds(m, d) && !OnTrail(path, d) ==> Get(m', d) == Get(m, d))
  }

  /**
   What a finished walk from `cell` leaves behind: its loop-erased path, and
   the tree grown by it. Compared with `true`, so that it is one proof
   obligation: the verifier would otherwise split it into its conjuncts at
   every use and prove each one separately.
   */
  ghost predicate LoopErased(m: Maze, m': Maze, cell: Cell, path: seq<Cell>)
  {
    (ErasedPath(m, cell, path) && TreeGrown(m, m', path)) == true
  }

  /** A finished walk's path, read against the maze the walk started in. */
  lemma WalkPath(m0: Maze, m: Maze, path: seq<Cell>)
    requires Valid(m0) && WalkInv(m0, m, path, true)
    ensures ErasedPath(m0, path[0], path)
  {
    ChainFits(m, path);
    PassageInBounds(m, Last(path));
    assert CellState(m0, m, path, true, Last(path));
    forall j | 0 <= j < |path| - 1
      ensures Get(m0, path[j]) != TREE
    {
      assert path[j] in m.graph && path[j] != Last(path);
      PassageInBounds(m, path[j]);
      assert CellState(m0, m, path, true, path[j]);
    }
  }

  /** Marking a finished walk's path TREE makes a passage TREE exactly when it was TREE or is on the path. */
  lemma FinishPassage(m0: Maze, m: Maze, path: seq<Cell>, mt: Maze, c: Cell)
    requires Valid(m0) && WalkInv(m0, m, path, true) && PathFits(m, path)
    requires mt == MarkPath(m, path, TREE) && c in m0.graph
    ensures Get(mt, c) == TREE <==> Get(m0, c) == TREE || c in path
    ensures Get(mt, c) != PATH
  {
    TrailPassage(m, path, c);
    PassageInBounds(m, c);
    assert CellState(m0, m, path, true, c);
  }

  /** Marking a finished walk's path TREE leaves a cell off the trail as it was before the walk. */
  lemma FinishOffTrail(m0: Maze, m: Maze, path: seq<Cell>, mt: Maze, d: Cell)
    requires Valid(m0) && WalkInv(m0, m, path, true) && PathFits(m, path)
    requires mt == MarkPath(m, path, TREE) && InBounds(m0, d) && !OnTrail(path, d)
    ensures Get(mt, d) == Get(m0, d)
  {
    assert CellState(m0, m, path, true, d);
    if d in m0.graph {
      TrailPassage(m, path, d);
    }
  }

  /** Marking a finished walk's path TREE grows the tree by exactly the path and clears every PATH cell. */
  lemma FinishWalk(m0: Maze, m: Maze, path: seq<Cell>)
    requires Valid(m0) && WalkInv(m0, m, path, true)
    ensures PathFits(m, path)
    ensures ErasedPath(m0, path[0], path)
    ensures TreeGrown(m0, MarkPath(m, path, TREE), path)
  {
    WalkPath(m0, m, path);
    var mt := MarkPath(m, path, TREE);
    forall c | c in m0.graph
      ensures Get(mt, c) == TREE <==> Get(m0, c) == TREE || c in path
      ensures Get(mt, c) != PATH
    {
      FinishPassage(m0, m, path, mt, c);
    }
    forall d | InBounds(m0, d) && !OnTrail(path, d)
      ensures Get(mt, d) == Get(m0, d)
    {
      FinishOffTrail(m0, m, path, mt, d);
    }
    forall j | 0 <= j < |path| - 1
      ensures Get(mt, Mid(path[j + 1], path[j])) == TREE
    {
      OnTrailCells(path, j);
    }
  }

  /** The passages that are TREE in `m`: the tree a walk on `m` runs into. */
  ghost function TreeOf(m: Maze): set<Cell>
    requires Shaped(m)
  {
    set c | c in m.graph && InBounds(m, c) && Get(m, c) == TREE
  }

  /** During a walk the head is in the starting tree exactly when the walk is done. */
  lemma HeadInTree(m0: Maze, m: Maze, path: seq<Cell>, done: bool)
    requires WalkInv(m0, m, path, done)
    ensures Last(path) in TreeOf(m0) <==> done
  {
    PassageInBounds(m, Last(path));
    assert CellState(m0, m, path, done, Last(path));
  }

  /**
   One step of a walk that is not done follows the walk's course on the
   passage graph: the path becomes `Retrace` of the old path and the picked
   neighbour, and the course from there is the rest of the course.
   */
  lemma StepFollowsCourse(m0: Maze, m: Maze, path: seq<Cell>, choices: seq<nat>)
    requires WalkInv(m0, m, path, false) && |choices| > 0 && |m.graph[Last(path)]| > 0
    requires forall c :: c in m.graph && Get(m, c) == PATH ==> c in path
    ensures Closed(m0.graph)
    ensures MoveOneStep(m, path, choices[0]).1 == Retrace(path, MoveOneStep(m, path, choices[0]).2)
    ensures Wander(m0.graph, TreeOf(m0), path, choices)
      == Later(Wander(m0.graph, TreeOf(m0), MoveOneStep(m, path, choices[0]).1, choices[1..]), 1)
  {
    var next := MoveOneStep(m, path, choices[0]).2;
    HeadInTree(m0, m, path, false);
    PassageInBounds(m, next);
    assert CellState(m0, m, path, false, next);
  }

  /** A finished walk turns exactly the passages of its path into new tree passages. */
  lemma TreeOfGrown(m: Maze, m': Maze, path: seq<Cell>)
    requires |path| > 0 && ErasedPath(m, path[0], path) && TreeGrown(m, m', path)
    ensures TreeOf(m') == TreeOf(m) + Cells(path)
  {
    forall c | c in TreeOf(m) + Cells(path)
      ensures c in TreeOf(m')
    {
      PassageInBounds(m, c);
    }
  }

  /** The outcome of one loop-erased random walk, with the choices it left unused. */
  datatype WalkResult =
    | Reached(maze: Maze, path: seq<Cell>, frames: seq<Frame>, rest: seq<nat>)
    | WalkHalted(why: Halt, rest: seq<nat>)

  /**
   Why a halted walk or run stopped: on `OutOfChoices` every choice was used,
   and `Isolated(c)` names a passage with no neighbours.
   */
  ghost predicate HaltedFor(m: Maze, why: Halt, rest: seq<nat>)
  {
    && (why.OutOfChoices? ==> rest == [])
    && (why.Isolated? ==> why.at in m.graph && m.graph[why.at] == [])
  }

  /** `rest` is what is left of `choices` after some of them were used, in order. */
  predicate Unused(choices: seq<nat>, rest: seq<nat>)
  {
    |rest| <= |choices| && rest == choices[|choices| - |rest|..]
  }

  /**
   `loop_erased_random_walk`: walk from `cell` until the walk stands on a tree
   cell, flushing frames after each step, then mark the loop-erased path and
   the walls along it as TREE. The tree grows by exactly the path, which
   starts at `cell` and ends at a cell of the old tree.
   */
  method LoopErasedRandomWalk(cv: Canvas, m: Maze, cell: Cell, choices: seq<nat>) returns (r: WalkResult)
    requires Valid(m) && Settled(m) && cell in m.graph && Get(m, cell) != TREE
    ensures Unused(choices, r.rest)
    ensures r.Reached? ==> LoopErased(m, r.maze, cell, r.path)
    ensures r.WalkHalted? ==> HaltedFor(m, r.why, r.rest)
    ensures var o := Wander(m.graph, TreeOf(m), [cell], choices);
      && (r.Reached? <==> o.Lands?)
      && (r.Reached? ==> r.path == o.path)
      && (r.WalkHalted? ==> r.why == o.why)
      && r.rest == choices[o.used..]
  {
    var mw, path, frames, pos, halt := WalkToTree(cv, m, cell, choices);
    if halt.Some? {
      r := WalkHalted(halt.value, choices[pos..]);
    } else {
      WalkLands(m, cell, choices, mw, path, pos);
      r := Reached(MarkPath(mw, path, TREE), path, frames, choices[pos..]);
    }
  }

  /**
   A walk from `cell` in progress after `pos` choices: the walk invariant,
   with the path starting at `cell`, and the course of the whole walk is the
   course from the current path on the unused choices. Compared with `true`,
   so that it is one proof obligation: the verifier would otherwise split it
   into its conjuncts at every use and prove each one separately.
   */
  ghost predicate Walking(m: Maze, cell: Cell, choices: seq<nat>, mw: Maze, path: seq<Cell>, pos: nat, done: bool)
  {
    (&& Valid(m) && pos <= |choices| && WalkInv(m, mw, path, done) && path[0] == cell
     && Closed(m.graph) && cell in m.graph && Last(path) in m.graph
     && Wander(m.graph, TreeOf(m), [cell], choices)
        == Later(Wander(m.graph, TreeOf(m), path, choices[pos..]), pos)) == true
  }

  /** Marking `cell` as the one-cell path starts a walk from it. */
  lemma StartWalk(m: Maze, cell: Cell, choices: seq<nat>)
    requires Valid(m) && Settled(m) && cell in m.graph && Get(m, cell) != TREE
    ensures Walking(m, cell, choices, MarkCell(m, cell, PATH), [cell], 0, false)
    ensures Shaped(MarkCell(m, cell, PATH)) && InBounds(MarkCell(m, cell, PATH), cell)
    ensures !InTree(MarkCell(m, cell, PATH), cell)
  {
    var mw := MarkCell(m, cell, PATH);
    var path := [cell];
    forall c | InBounds(mw, c)
      ensures CellState(m, mw, path, false, c)
    {
      if c !in mw.graph {
        assert OnTrail(path, c) <==> c == cell;
      }
    }
    assert choices[0..] == choices;
  }

  /**
   Where a walk in progress stands: its head is on the tree exactly when it
   is done; a walk that is not done stops for want of choices when none are
   left and stops on an isolated head when it has no neighbours; and a walk
   that is done lands with its path after the choices used.
   */
  lemma WalkingAt(m: Maze, cell: Cell, choices: seq<nat>, mw: Maze, path: seq<Cell>, pos: nat, done: bool)
    requires Walking(m, cell, choices, mw, path, pos, done)
    ensures pos <= |choices| && path[0] == cell && |path| > 0
    ensures Shaped(mw) && InBounds(mw, Last(path)) && Last(path) in mw.graph
    ensures InTree(mw, Last(path)) <==> done
    ensures !done && pos == |choices| ==> Wander(m.graph, TreeOf(m), [cell], choices) == Stops(OutOfChoices, pos)
    ensures !done && pos < |choices| && |mw.graph[Last(path)]| == 0 ==>
      Wander(m.graph, TreeOf(m), [cell], choices) == Stops(Isolated(Last(path)), pos)
    ensures done ==> Wander(m.graph, TreeOf(m), [cell], choices) == Lands(path, pos)
  {
    HeadInTree(m, mw, path, done);
    WalkHead(m, mw, path, done);
    PassageInBounds(mw, Last(path));
  }

  /** A walk that is done marks its path TREE, which grows the tree by exactly that path. */
  lemma WalkLands(m: Maze, cell: Cell, choices: seq<nat>, mw: Maze, path: seq<Cell>, pos: nat)
    requires Walking(m, cell, choices, mw, path, pos, true)
    ensures pos <= |choices| && PathFits(mw, path)
    ensures LoopErased(m, MarkPath(mw, path, TREE), cell, path)
    ensures Wander(m.graph, TreeOf(m), [cell], choices) == Lands(path, pos)
  {
    WalkingAt(m, cell, choices, mw, path, pos, true);
    FinishWalk(m, mw, path);
  }

  /**
   The loop of `loop_erased_random_walk` (wilson.py:65-71): mark `cell` as
   the one-cell path and step until the head stands on the tree, flushing
   frames after each step. The walk follows its course: it stops where the
   course stops, having used the same choices, or it reaches the tree with
   the course's path.
   */
  method WalkToTree(cv: Canvas, m: Maze, cell: Cell, choices: seq<nat>)
    returns (mw: Maze, path: seq<Cell>, frames: seq<Frame>, pos: nat, halt: Option<Halt>)
    requires Valid(m) && Settled(m) && cell in m.graph && Get(m, cell) != TREE
    ensures pos <= |choices|
    ensures halt.Some? ==> Wander(m.graph, TreeOf(m), [cell], choices) == Stops(halt.value, pos)
    ensures halt.None? ==> Walking(m, cell, choices, mw, path, pos, true)
  {
    StartWalk(m, cell, choices);
    path := [cell];
    mw := MarkCell(m, cell, PATH);
    var current := cell;
    frames := [];
    pos := 0;
    ghost var done := false;
    while !InTree(mw, current)
      invariant Walking(m, cell, choices, mw, path, pos, done)
      invariant pos <= |choices| && current == Last(path)
      invariant Shaped(mw) && InBounds(mw, current) && (done <==> InTree(mw, current))
      decreases |choices| - pos
    {
      WalkingAt(m, cell, choices, mw, path, pos, done);
      if pos == |choices| {
        return mw, path, frames, pos, Some(OutOfChoices);
      }
      if |mw.graph[current]| == 0 {
        return mw, path, frames, pos, Some(Isolated(current));
      }
      var f;
      mw, path, current, f, done := WalkStep(cv, m, mw, cell, path, choices, pos);
      frames := Emit(frames, f);
      pos := pos + 1;
    }
    halt := None;
  }

  /**
   One round of the walk loop (wilson.py:69-71): move one step and let the
   canvas take a frame if enough changes are pending. The walk goes on from
   the new path, one choice further on its course.
   */
  method WalkStep(cv: Canvas, m: Maze, mw: Maze, cell: Cell, path: seq<Cell>, choices: seq<nat>, pos: nat)
    returns (mw': Maze, path': seq<Cell>, next: Cell, f: Option<Frame>, ghost done': bool)
    requires Walking(m, cell, choices, mw, path, pos, false) && pos < |choices| && |mw.graph[Last(path)]| > 0
    ensures Walking(m, cell, choices, mw', path', pos + 1, done') && next == Last(path')
    ensures Shaped(mw') && InBounds(mw', next) && (done' <==> InTree(mw', next))
  {
    MoveOneStepKeepsWalk(m, mw, path, choices[pos]);
    CourseAdvances(m, mw, cell, path, choices, pos);
    var (m1, p1, n) := MoveOneStep(mw, path, choices[pos]);
    done' := InTree(mw, n);
    var fr := RefreshFrame(cv, m1);
    RetrackKeepsWalk(m, m1, fr.1, p1, done');
    WalkingAt(m, cell, choices, fr.1, p1, pos + 1, done');
    mw', path', next, f := fr.1, p1, n, fr.0;
  }

  /** A step of a walk that is not done takes the walk's course one choice further. */
  lemma CourseAdvances(m0: Maze, m: Maze, cell: Cell, path: seq<Cell>, choices: seq<nat>, pos: nat)
    requires WalkInv(m0, m, path, false) && pos < |choices| && |m.graph[Last(path)]| > 0
    requires forall c :: c in m.graph && Get(m, c) == PATH ==> c in path
    requires Closed(m0.graph) && Last(path) in m0.graph && cell in m0.graph
    requires Wander(m0.graph, TreeOf(m0), [cell], choices) == Later(Wander(m0.graph, TreeOf(m0), path, choices[pos..]), pos)
    ensures Closed(m0.graph) && Last(MoveOneStep(m, path, choices[pos]).1) in m0.graph
    ensures Wander(m0.graph, TreeOf(m0), [cell], choices)
      == Later(Wander(m0.graph, TreeOf(m0), MoveOneStep(m, path, choices[pos]).1, choices[pos + 1..]), pos + 1)
  {
    StepFollowsCourse(m0, m, path, choices[pos..]);
    assert choices[pos..][0] == choices[pos] && choices[pos..][1..] == choices[pos + 1..];
    LaterLater(Wander(m0.graph, TreeOf(m0), MoveOneStep(m, path, choices[pos]).1, choices[pos + 1..]), 1, pos);
  }

  /** The outcome of a whole run. */
  datatype RunResult =
    | Spanned(maze: Maze, frames: seq<Frame>)
    | RunHalted(why: Halt, rest: seq<nat>)

  /**
   The state of a run after the first `i` entries of `cells` were handled:
   a valid, settled maze with the original layout, and every handled passage
   in the tree.
   */
  ghost predicate RunInv(m0: Maze, m: Maze, i: nat)
  {
    && Valid(m) && Settled(m) && SameLayout(m0, m) && i <= |m0.cells|
    && (forall j :: 0 <= j < i ==> m0.cells[j] in m.graph && Get(m, m0.cells[j]) == TREE)
  }

  /** After a walk, a cell of the walk's trail is TREE: a path cell or a wall between two of them. */
  lemma TrailIsTree(m: Maze, m': Maze, path: seq<Cell>, d: Cell)
    requires |path| > 0 && ErasedPath(m, path[0], path) && TreeGrown(m, m', path)
    requires OnTrail(path, d)
    ensures InBounds(m', d) && Get(m', d) == TREE
  {
    if d in path {
      var j :| 0 <= j < |path| && path[j] == d;
      PassageInBounds(m, d);
    } else {
      var j := TrailWall(path, d);
    }
  }

  /** After a walk, a TREE wall between two linked passages still joins two TREE passages. */
  lemma TreeWallAfterWalk(m: Maze, m': Maze, path: seq<Cell>, a: Cell, b: Cell)
    requires |path| > 0 && ErasedPath(m, path[0], path) && TreeGrown(m, m', path) && Settled(m)
    requires Linked(m', a, b) && InBounds(m', Mid(a, b)) && Get(m', Mid(a, b)) == TREE
    ensures InBounds(m', a) && InBounds(m', b) && Get(m', a) == TREE && Get(m', b) == TREE
  {
    LinkedWall(m, a, b);
    PassageInBounds(m, a);
    PassageInBounds(m, b);
    if OnTrail(path, Mid(a, b)) {
      assert Mid(a, b) !in path;
      var j := TrailWall(path, Mid(a, b));
      LinkedWall(m, path[j], path[j + 1]);
      MidDeterminesPair(m, a, b, path[j + 1], path[j]);
      assert path[j] in path && path[j + 1] in path;
    }
  }

  /** A walk leaves the maze settled: its trail becomes TREE and nothing else changes. */
  lemma SettledAfterWalk(m: Maze, m': Maze, path: seq<Cell>)
    requires |path| > 0 && ErasedPath(m, path[0], path) && TreeGrown(m, m', path) && Settled(m)
    ensures Settled(m')
  {
    forall d | InBounds(m', d)
      ensures Get(m', d) == WALL || Get(m', d) == TREE
    {
      if OnTrail(path, d) {
        TrailIsTree(m, m', path, d);
      }
    }
    forall a, b | Linked(m', a, b) && InBounds(m', Mid(a, b)) && Get(m', Mid(a, b)) == TREE
      ensures InBounds(m', a) && InBounds(m', b) && Get(m', a) == TREE && Get(m', b) == TREE
    {
      TreeWallAfterWalk(m, m', path, a, b);
    }
  }

  /** Marking a lattice cell TREE keeps a maze settled: it is never the wall between two passages. */
  lemma SettledAfterRoot(m: Maze, root: Cell)
    requires Valid(m) && Settled(m) && InBounds(m, root) && OnLattice(m, root)
    ensures Settled(MarkCell(m, root, TREE))
  {
    var m' := MarkCell(m, root, TREE);
    forall a, b | Linked(m', a, b) && InBounds(m', Mid(a, b)) && Get(m', Mid(a, b)) == TREE
      ensures InBounds(m', a) && InBounds(m', b) && Get(m', a) == TREE && Get(m', b) == TREE
    {
      LinkedWall(m, a, b);
      MidOfAdjacent(m, a, b);
      PassageInBounds(m, a);
      PassageInBounds(m, b);
    }
  }

  /** Marking the root TREE adds the root to the tree when it is a passage. */
  lemma RootTree(m: Maze, root: Cell)
    requires Valid(m) && InBounds(m, root)
    ensures TreeOf(MarkCell(m, root, TREE)) == TreeOf(m) + (if root in m.graph then {root} else {})
  {
  }

  /** Only the grid and the layout decide whether a maze is settled. */
  lemma SettledSameGrid(m: Maze, m': Maze)
    requires Settled(m) && SameLayout(m, m') && m'.grid == m.grid
    ensures Settled(m')
  {
    assert forall d :: InBounds(m', d) ==> Get(m', d) == Get(m, d);
  }

  /** A finished walk from the next cell keeps the run invariant one entry further. */
  lemma WalkKeepsRun(m0: Maze, m: Maze, m': Maze, i: nat, path: seq<Cell>)
    requires RunInv(m0, m, i) && i < |m0.cells|
    requires LoopErased(m, m', m0.cells[i], path)
    ensures RunInv(m0, m', i + 1)
  {
    SettledAfterWalk(m, m', path);
    forall j | 0 <= j < i + 1
      ensures m0.cells[j] in m'.graph && Get(m', m0.cells[j]) == TREE
    {
      assert m0.cells[j] in m.graph;
    }
  }

  /**
   The run's course `course` from the start is the course from position `i`
   with the tree of `m` and the choices `rest`, after `k` choices used.
   */
  ghost predicate OnCourse(m0: Maze, m: Maze, i: nat, rest: seq<nat>, course: Run, k: nat)
    requires RunInv(m0, m, i)
  {
    course == LaterRun(RunFrom(m0.graph, m0.cells, i, TreeOf(m), rest), k)
  }

  /**
   The run invariant and the course together. Compared with `true`, so that
   it is one proof obligation: the verifier would otherwise split it into its
   conjuncts at every use and prove each one separately.
   */
  ghost predicate RunState(m0: Maze, m: Maze, i: nat, rest: seq<nat>, course: Run, k: nat)
  {
    (RunInv(m0, m, i) && OnCourse(m0, m, i, rest, course, k)) == true
  }

  /** A walk that lands leaves the rest of the run's course to the grown tree and the unused choices. */
  lemma WalkKeepsCourse(m0: Maze, m: Maze, m': Maze, i: nat, rest: seq<nat>, path: seq<Cell>, n: nat, course: Run, k: nat)
    requires RunState(m0, m, i, rest, course, k) && i < |m0.cells| && m0.cells[i] !in TreeOf(m)
    requires LoopErased(m, m', m0.cells[i], path)
    requires Wander(m.graph, TreeOf(m), [m0.cells[i]], rest) == Lands(path, n)
    ensures RunState(m0, m', i + 1, rest[n..], course, k + n)
  {
    WalkKeepsRun(m0, m, m', i, path);
    TreeOfGrown(m, m', path);
    LaterRunLater(RunFrom(m0.graph, m0.cells, i + 1, TreeOf(m'), rest[n..]), n, k);
  }

  /** A cell already in the tree is skipped by the run's course too. */
  lemma SkipKeepsCourse(m0: Maze, m: Maze, i: nat, rest: seq<nat>, course: Run, k: nat)
    requires RunInv(m0, m, i) && i < |m0.cells|
    requires m0.cells[i] in m.graph && Get(m, m0.cells[i]) == TREE
    requires OnCourse(m0, m, i, rest, course, k)
    ensures RunState(m0, m, i + 1, rest, course, k)
  {
    PassageInBounds(m, m0.cells[i]);
  }

  /** A walk that stops ends the run's course with the same halt and the same unused choices. */
  lemma HaltEndsCourse(m0: Maze, m: Maze, i: nat, rest: seq<nat>, why: Halt, n: nat, course: Run, k: nat)
    requires RunState(m0, m, i, rest, course, k) && i < |m0.cells| && m0.cells[i] !in TreeOf(m)
    requires Wander(m.graph, TreeOf(m), [m0.cells[i]], rest) == Stops(why, n)
    ensures course == Halts(why, k + n)
  {
  }

  /** Skipping a cell already in the tree keeps the run invariant one entry further. */
  lemma SkipKeepsRun(m0: Maze, m: Maze, i: nat)
    requires RunInv(m0, m, i) && i < |m0.cells|
    requires m0.cells[i] in m.graph && Get(m, m0.cells[i]) == TREE
    ensures RunInv(m0, m, i + 1)
  {
  }

  /** Once every entry of `cells` was handled, every passage is in the tree. */
  lemma RunSpans(m0: Maze, m: Maze)
    requires RunInv(m0, m, |m0.cells|)
    ensures forall c :: c in m0.graph ==> Get(m, c) == TREE
  {
    forall c | c in m0.graph
      ensures Get(m, c) == TREE
    {
      var j :| 0 <= j < |m0.cells| && m0.cells[j] == c;
    }
  }

  /**
   One walk of the run (wilson.py:55-56) from the `i`-th listed passage,
   which is not in the tree: it halts where the run's course halts, or it
   lands and the run's course goes on from the next cell.
   */
  method WalkFromCell(cv: Canvas, m0: Maze, m: Maze, i: nat, choices: seq<nat>, rest: seq<nat>, ghost course: Run, ghost used: nat)
    returns (w: WalkResult, ghost used': nat)
    requires used <= |choices| && rest == choices[used..]
    requires RunState(m0, m, i, rest, course, used) && i < |m0.cells|
    requires m0.cells[i] in m.graph && !InTree(m, m0.cells[i])
    ensures RunStep(m0, i, choices, course, w, used')
  {
    var cell := m0.cells[i];
    RunAt(m0, m, i, rest, course, used);
    w := LoopErasedRandomWalk(cv, m, cell, rest);
    assert Walked(m, cell, rest, w);
    if w.WalkHalted? {
      WalkHaltsRun(m0, m, i, choices, rest, course, used, w);
      used' := used;
    } else {
      used' := WalkLandsRun(m0, m, i, choices, rest, course, used, w);
    }
  }

  /**
   Where one walk `w` of the run from the `i`-th listed passage leaves the
   run's course `course`: a walk that stops halts the course for the same
   reason with the same unused choices, and a walk that lands leaves the rest
   of the course to the next cell, the grown tree and the choices it left,
   `used'` choices after the start. Compared with `true`, so that it is one
   proof obligation: the verifier would otherwise split it into its conjuncts
   at every use and prove each one separately.
   */
  ghost predicate RunStep(m0: Maze, i: nat, choices: seq<nat>, course: Run, w: WalkResult, used': nat)
  {
    (&& (w.WalkHalted? ==>
           course.Halts? && w.why == course.why && course.used <= |choices| && w.rest == choices[course.used..])
     && (w.Reached? ==>
           used' <= |choices| && w.rest == choices[used'..] && RunState(m0, w.maze, i + 1, w.rest, course, used'))) == true
  }

  /** The maze of a run at a listed passage that is not in the tree is one a walk can start from. */
  lemma RunAt(m0: Maze, m: Maze, i: nat, rest: seq<nat>, course: Run, k: nat)
    requires RunState(m0, m, i, rest, course, k) && i < |m0.cells|
    requires m0.cells[i] in m.graph && !InTree(m, m0.cells[i])
    ensures Valid(m) && Settled(m) && Get(m, m0.cells[i]) != TREE && m0.cells[i] !in TreeOf(m)
  {
  }

  /**
   The outcome `r` of a walk from `cell` on `m` with `choices`, as
   `LoopErasedRandomWalk` promises it: it follows the walk's course and a
   walk that lands grows the tree by its path. Compared with `true`, so that
   it is one proof obligation: the verifier would otherwise split it into its
   conjuncts at every use and prove each one separately.
   */
  ghost predicate Walked(m: Maze, cell: Cell, choices: seq<nat>, r: WalkResult)
  {
    (&& Valid(m) && Closed(m.graph) && cell in m.graph
     && var o := Wander(m.graph, TreeOf(m), [cell], choices);
       && (r.Reached? ==> LoopErased(m, r.maze, cell, r.path))
       && (r.Reached? <==> o.Lands?)
       && (r.Reached? ==> r.path == o.path)
       && (r.WalkHalted? ==> r.why == o.why)
       && r.rest == choices[o.used..]) == true
  }

  /** A walk from the `i`-th listed passage that stops halts the run's course for the same reason after the same choices. */
  lemma WalkHaltsRun(m0: Maze, m: Maze, i: nat, choices: seq<nat>, rest: seq<nat>, course: Run, used: nat, w: WalkResult)
    requires used <= |choices| && rest == choices[used..]
    requires RunState(m0, m, i, rest, course, used) && i < |m0.cells| && m0.cells[i] !in TreeOf(m)
    requires Walked(m, m0.cells[i], rest, w) && w.WalkHalted?
    ensures course.Halts? && w.why == course.why && w.rest == choices[course.used..]
  {
    var walk := Wander(m.graph, TreeOf(m), [m0.cells[i]], rest);
    DropDrop(choices, used, walk.used);
    HaltEndsCourse(m0, m, i, rest, w.why, walk.used, course, used);
  }

  /**
   A walk from the `i`-th listed passage that lands leaves the rest of the
   run's course to the next cell, the grown tree and the choices the walk
   left, `used'` choices after the start.
   */
  lemma WalkLandsRun(m0: Maze, m: Maze, i: nat, choices: seq<nat>, rest: seq<nat>, course: Run, used: nat, w: WalkResult)
    returns (used': nat)
    requires used <= |choices| && rest == choices[used..]
    requires RunState(m0, m, i, rest, course, used) && i < |m0.cells| && m0.cells[i] !in TreeOf(m)
    requires Walked(m, m0.cells[i], rest, w) && w.Reached?
    ensures used' <= |choices| && w.rest == choices[used'..] && RunState(m0, w.maze, i + 1, w.rest, course, used')
  {
    var walk := Wander(m.graph, TreeOf(m), [m0.cells[i]], rest);
    DropDrop(choices, used, walk.used);
    used' := used + walk.used;
    WalkKeepsCourse(m0, m, w.maze, i, rest, w.path, walk.used, course, used);
  }

  /**
   The loop of `run_wilson_algorithm`: for every passage of `cells` in order
   that is not yet in the tree, a loop-erased random walk from it. The run
   follows its course on the passage graph: it halts where that course halts,
   with the same unused choices, and otherwise every passage ends in the tree.
   */
  method WalkFromEveryCell(cv: Canvas, m0: Maze, m: Maze, choices: seq<nat>) returns (r: RunResult)
    requires RunInv(m0, m, 0)
    ensures var o := RunFrom(m0.graph, m0.cells, 0, TreeOf(m), choices);
      && (r.Spanned? <==> o.Spans?)
      && (r.Spanned? ==> RunInv(m0, r.maze, |m0.cells|))
      && (r.RunHalted? ==> r.why == o.why && r.rest == choices[o.used..])
  {
    ghost var course := RunFrom(m0.graph, m0.cells, 0, TreeOf(m), choices);
    ghost var used: nat := 0;
    var mw := m;
    var rest := choices;
    var frames: seq<Frame> := [];
    var i := 0;
    while i < |m0.cells|
      invariant used <= |choices| && rest == choices[used..]
      invariant RunState(m0, mw, i, rest, course, used)
    {
      var cell := m0.cells[i];
      assert cell in mw.graph;
      if InTree(mw, cell) {
        SkipKeepsCourse(m0, mw, i, rest, course, used);
      } else {
        var w;
        ghost var used';
        w, used' := WalkFromCell(cv, m0, mw, i, choices, rest, course, used);
        if w.WalkHalted? {
          return RunHalted(w.why, w.rest);
        }
        mw, frames, rest, used := w.maze, frames + w.frames, w.rest, used';
      }
      i := i + 1;
    }
    r := Spanned(mw, frames);
  }

  /**
   `run_wilson_algorithm`: mark the root TREE, then start a walk from every
   passage, in `cells` order, that is not yet in the tree, and finally flush
   the remaining changes. The run follows its course on the passage graph
   from the tree holding the root; when it finishes every passage is TREE.
   */
  method RunWilsonAlgorithm(cv: Canvas, m: Maze, root: Cell, choices: seq<nat>) returns (r: RunResult)
    requires Valid(m) && Settled(m) && InBounds(m, root) && OnLattice(m, root)
    ensures r.Spanned? ==>
      && Valid(r.maze) && Settled(r.maze) && SameLayout(m, r.maze)
      && (forall c :: c in m.graph ==> Get(r.maze, c) == TREE)
      && r.maze.numChanges == 0 && r.maze.frameBox.None?
    ensures r.RunHalted? ==> HaltedFor(m, r.why, r.rest) && Unused(choices, r.rest)
    ensures var o := RunFrom(m.graph, m.cells, 0, TreeOf(m) + (if root in m.graph then {root} else {}), choices);
      && (r.Spanned? <==> o.Spans?)
      && (r.RunHalted? ==> r.why == o.why && r.rest == choices[o.used..])
  {
    var mw := MarkCell(m, root, TREE);
    SettledAfterRoot(m, root);
    RootTree(m, root);
    var w := WalkFromEveryCell(cv, m, mw, choices);
    if w.RunHalted? {
      return w;
    }
    RunSpans(m, w.maze);
    var (f, mf) := ClearRemainingChanges(cv, w.maze);
    SettledSameGrid(w.maze, mf);
    r := Spanned(mf, Emit(w.frames, f));
  }

  /**
   The command-line guard `width * height % 2 == 0` rejects exactly the
   sizes where some dimension is even.
   */
  lemma OddProductIffBothOdd(width: int, height: int)
    ensures (width * height) % 2 != 0 <==> width % 2 == 1 && height % 2 == 1
  {
    var a, b := width % 2, height % 2;
    var p, q := width / 2, height / 2;
    assert width == 2 * p + a && height == 2 * q + b;
    assert width * height == 2 * (2 * p * q + p * b + q * a) + a * b;
    DivUnique(width * height, 2, 2 * p * q + p * b + q * a, a * b);
  }
}
