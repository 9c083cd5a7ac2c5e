/**
 The two solvers of `src/wilson/search_algorithms.py` end to end: run the
 search from `start`, read the route back from `end` along the recorded
 parents, paint it with PATH and flush the remaining changes.

 The read-back raises `KeyError` when `end` was never reached; here that is
 the `Unreached` outcome, which keeps the frames emitted up to that point.
 */
module Solve {
  import opened Wrappers
  import opened Seqs
  import opened Grid
  import opened Frames
  import opened Search

  /** A walk along carved walls: each cell is a listed neighbour of the one before, with the wall between them carved. */
  ghost predicate Route(m0: Maze, p: seq<Cell>)
  {
    |p| > 0 && forall j :: 0 <= j < |p| - 1 ==> Carved(m0, p[j], p[j + 1])
  }

  /** `b` can be walked to from `a` across carved walls. */
  ghost predicate Reachable(m0: Maze, a: Cell, b: Cell)
  {
    exists p :: Route(m0, p) && p[0] == a && Last(p) == b
  }

  /** A set of cells closed under crossing carved walls holds the end of every walk that starts in it. */
  lemma {:induction false} ClosedBlocksRoutes(m0: Maze, s: set<Cell>, p: seq<Cell>)
    requires Route(m0, p) && p[0] in s
    requires forall c, n :: c in s && Carved(m0, c, n) ==> n in s
    ensures Last(p) in s
    decreases |p|
  {
    if |p| > 1 {
      var tail := p[1..];
      assert Carved(m0, p[0], p[1]);
      assert forall j :: 0 <= j < |tail| ==> tail[j] == p[j + 1];
      ClosedBlocksRoutes(m0, s, tail);
      assert Last(tail) == Last(p);
    }
  }

  /** `d` is the recorded parent of `c`, and `c` is not `start` (the loop test `parent != start`). */
  predicate ParentLink(fromTo: map<Cell, Cell>, start: Cell, c: Cell, d: Cell)
  {
    c in fromTo && c != start && d == fromTo[c]
  }

  /** Each cell of `p` after the first is the recorded parent of the one before it. */
  predicate Chain(fromTo: map<Cell, Cell>, start: Cell, p: seq<Cell>)
  {
    forall i :: 0 <= i < |p| - 1 ==> ParentLink(fromTo, start, p[i], p[i + 1])
  }

  /**
   A path read back from `end`: it starts at `end`, ends at `start`, and each
   cell after the first is the recorded parent of the one before it.
   */
  predicate TracesBack(fromTo: map<Cell, Cell>, start: Cell, end: Cell, p: seq<Cell>)
  {
    |p| > 0 && p[0] == end && Last(p) == start && Chain(fromTo, start, p)
  }

  /** Following the recorded parent of the last cell extends a chain. */
  lemma ChainExtends(fromTo: map<Cell, Cell>, start: Cell, p: seq<Cell>, x: Cell)
    requires Chain(fromTo, start, p) && |p| > 0
    requires Last(p) in fromTo && Last(p) != start && x == fromTo[Last(p)]
    ensures Chain(fromTo, start, p + [x])
  {
    var q := p + [x];
    forall i | 0 <= i < |q| - 1
      ensures ParentLink(fromTo, start, q[i], q[i + 1])
    {
      if i + 1 < |p| {
        assert q[i] == p[i] && q[i + 1] == p[i + 1];
      } else {
        assert q[i] == Last(p) && q[i + 1] == x;
      }
    }
  }

  /** Along `p` the distance drops by one per cell, from `top` at the first. */
  ghost predicate Descends(dist: map<Cell, int>, p: seq<Cell>, top: int)
  {
    forall j :: 0 <= j < |p| ==> p[j] in dist && dist[p[j]] + j == top
  }

  /** Appending a cell one closer than the last keeps the distance dropping by one per cell. */
  lemma DescendsExtends(dist: map<Cell, int>, p: seq<Cell>, top: int, x: Cell)
    requires Descends(dist, p, top) && |p| > 0
    requires x in dist && dist[Last(p)] == dist[x] + 1
    ensures Descends(dist, p + [x], top)
  {
    var q := p + [x];
    forall j | 0 <= j < |q|
      ensures q[j] in dist && dist[q[j]] + j == top
    {
      if j < |p| {
        assert q[j] == p[j];
      }
    }
  }

  /**
   The read-back loop `while parent != start: parent = from_to[parent]`. It
   fails (the `KeyError`) exactly when `end` is neither `start` nor recorded;
   otherwise it returns the path back to `start`, one cell per unit of
   distance and without repeats.
   */
  method RetrievePath(fromTo: map<Cell, Cell>, start: Cell, end: Cell, ghost dist: map<Cell, int>)
    returns (r: Option<seq<Cell>>)
    requires Rooted(start, fromTo, dist)
    ensures r.None? <==> end != start && end !in fromTo
    ensures r.Some? ==> TracesBack(fromTo, start, end, r.value) && NoDup(r.value)
    ensures r.Some? && end in fromTo ==> |r.value| == dist[end] + 1 && Descends(dist, r.value, dist[end])
  {
    if end != start && end !in fromTo {
      return None;
    }
    if end == start {
      return Some([end]);
    }
    var path := [end];
    var parent := end;
    while parent != start
      invariant |path| > 0 && path[0] == end && Last(path) == parent
      invariant parent == start || parent in fromTo
      invariant Chain(fromTo, start, path) && Descends(dist, path, dist[end])
      decreases dist[parent]
    {
      ChainExtends(fromTo, start, path, fromTo[parent]);
      assert fromTo[parent] in dist && dist[parent] == dist[fromTo[parent]] + 1;
      DescendsExtends(dist, path, dist[end], fromTo[parent]);
      parent := fromTo[parent];
      path := path + [parent];
    }
    DistancesSeparate(path, dist, dist[end]);
    r := Some(path);
  }

  /** One step of a read-back path. */
  lemma TraceStep(fromTo: map<Cell, Cell>, start: Cell, end: Cell, p: seq<Cell>, i: nat)
    requires TracesBack(fromTo, start, end, p) && i < |p| - 1
    ensures p[i] in fromTo && p[i] != start && p[i + 1] == fromTo[p[i]]
  {
    assert ParentLink(fromTo, start, p[i], p[i + 1]);
  }

  /** Cells at pairwise different distances are pairwise different. */
  lemma DistancesSeparate(p: seq<Cell>, dist: map<Cell, int>, top: int)
    requires Descends(dist, p, top)
    ensures NoDup(p)
  {
  }

  /** Reversed, a path read back along a carved record is a walk from `start` to `end`. */
  lemma RouteBack(m0: Maze, start: Cell, fromTo: map<Cell, Cell>, end: Cell, p: seq<Cell>)
    requires Carves(m0, start, fromTo) && TracesBack(fromTo, start, end, p)
    ensures Route(m0, Reverse(p)) && Reverse(p)[0] == start && Last(Reverse(p)) == end
  {
    var r := Reverse(p);
    var n := |p|;
    forall k | 0 <= k < n - 1
      ensures Carved(m0, r[k], r[k + 1])
    {
      var j := n - 2 - k;
      assert r[k] == p[j + 1] && r[k + 1] == p[j];
      TraceStep(fromTo, start, end, p, j);
    }
  }

  /** A closed record containing `start` holds every cell reachable from it. */
  lemma RecordHoldsReachable(m0: Maze, start: Cell, fromTo: map<Cell, Cell>, end: Cell)
    requires Expanded(m0, fromTo, fromTo.Keys) && start in fromTo
    requires Reachable(m0, start, end)
    ensures end in fromTo
  {
    var p :| Route(m0, p) && p[0] == start && Last(p) == end;
    ClosedBlocksRoutes(m0, fromTo.Keys, p);
  }

  /** The read-back path lies in the grid, and so do the walls between its consecutive cells. */
  lemma TraceFits(m0: Maze, m: Maze, start: Cell, fromTo: map<Cell, Cell>, end: Cell, p: seq<Cell>)
    requires Valid(m0) && Recoloured(m0, m) && start in m0.graph && fromTo.Keys <= m0.graph.Keys
    requires Carves(m0, start, fromTo) && TracesBack(fromTo, start, end, p)
    ensures PathFits(m, p)
  {
    forall k | 0 <= k < |p|
      ensures InBounds(m, p[k])
    {
      assert p[k] in m0.graph by {
        if k < |p| - 1 {
          TraceStep(fromTo, start, end, p, k);
        }
      }
      assert IsPassage(m0, p[k]);
    }
    forall j | 0 <= j < |p| - 1
      ensures InBounds(m, Mid(p[j + 1], p[j]))
    {
      TraceStep(fromTo, start, end, p, j);
      assert Open(m0, p[j + 1], p[j]);
    }
  }

  /**
   After `mark_path(path, PATH)` and flushing the changes, the path and the
   walls between its cells are PATH, and every other cell keeps the colour it
   had in `m0` or a search colour.
   */
  lemma PathPainted(m0: Maze, m: Maze, p: seq<Cell>, m2: Maze, m3: Maze)
    requires Recoloured(m0, m) && PathFits(m, p)
    requires m2 == MarkPath(m, p, PATH) && m3.grid == m2.grid && SameLayout(m2, m3)
    ensures forall d :: InBounds(m0, d) && OnTrail(p, d) ==> Get(m3, d) == PATH
    ensures forall d :: InBounds(m0, d) && !OnTrail(p, d) ==> Get(m3, d) == Get(m0, d) || Get(m3, d) >= FILL
  {
    forall d | InBounds(m0, d)
      ensures Get(m3, d) == Get(m2, d) == if OnTrail(p, d) then PATH else Get(m, d)
    {
    }
  }

  /** What a solver leaves: the painted route back from `end`, or the `KeyError` when `end` was not reached. */
  datatype Outcome =
    | Solved(maze: Maze, frames: seq<Frame>, path: seq<Cell>)
    | Unreached(maze: Maze, frames: seq<Frame>)

  /**
   `bfs(maze, start, end)` (with `Breadth(depth)`) and `dfs(maze, start, end)`
   (with `Depth`). A route is painted exactly when `end` can be walked to from
   `start`; it runs from `end` back to `start`, reversed it is such a walk, it
   visits no cell twice, and its cells and the walls between them end PATH.
   Everything else keeps the colour of the maze or a search colour.
   */
  method Solve(cv: Canvas, m0: Maze, start: Cell, end: Cell, pol: Policy) returns (out: Outcome)
    requires Valid(m0) && start in m0.graph
    ensures Valid(out.maze) && out.maze.numChanges == 0 && out.maze.frameBox.None? && SameLayout(m0, out.maze)
    ensures out.Solved? <==> Reachable(m0, start, end)
    ensures out.Solved? ==> |out.path| > 0 && out.path[0] == end && Last(out.path) == start
    ensures out.Solved? ==> Route(m0, Reverse(out.path)) && NoDup(out.path)
    ensures out.Solved? ==> forall d :: InBounds(m0, d) && OnTrail(out.path, d) ==> Get(out.maze, d) == PATH
    ensures forall d :: InBounds(m0, d) && !(out.Solved? && OnTrail(out.path, d)) ==>
      Get(out.maze, d) == Get(m0, d) || Get(out.maze, d) >= FILL
  {
    var m, frames, fromTo, dist, order := Explore(cv, m0, start, pol);
    var r := RetrievePath(fromTo, start, end, dist);
    if r.None? {
      if Reachable(m0, start, end) {
        RecordHoldsReachable(m0, start, fromTo, end);
      }
      return Unreached(m, frames);
    }
    var p := r.value;
    RouteBack(m0, start, fromTo, end, p);
    TraceFits(m0, m, start, fromTo, end, p);
    var m' := MarkPath(m, p, PATH);
    var cl := ClearRemainingChanges(cv, m');
    var m'' := cl.1;
    PathPainted(m0, m, p, m', m'');
    out := Solved(m'', Emit(frames, cl.0), p);
  }
}
