/**
 The main loop of `src/wilson/prim_algorithm.py`: Prim's algorithm that keeps
 the parent record `tree` as real data. The queue starts with the single
 entry `(0, start, start)`; the first round attaches `start` below itself,
 and every later round skips an entry whose child is already recorded, and
 otherwise records the child under its parent, marks the child and the wall
 between them TREE and queues one freshly weighted entry per neighbour of
 the child.
 */
module PrimTree {
  import opened Wrappers
  import opened Seqs
  import opened Grid
  import opened Frames
  import Search
  import opened Trees
  import opened Heap
  import Prim

  /** The loop state: the maze, the queue, how many weights have been drawn, and the parent record. */
  datatype State = State(maze: Maze, queue: seq<Item>, drawn: nat, tree: map<Cell, Cell>)

  /** The same state without the record, as the record-free script keeps it. */
  function Base(s: State): (b: Prim.State)
    ensures b.maze == s.maze && b.queue == s.queue && b.drawn == s.drawn
  {
    Prim.State(s.maze, s.queue, s.drawn)
  }

  /** The state before the first round (prim_algorithm.py:38-40): only the start passage is TREE, and its entry to itself is queued. */
  ghost predicate Fresh(m0: Maze, start: Cell, s: State)
  {
    && Untouched(m0) && start in m0.graph
    && Valid(s.maze) && SameLayout(m0, s.maze)
    && (forall d :: At(s.maze.grid, d) == if d == start then TREE else At(m0.grid, d))
    && s.queue == [Item(0, start, start)] && s.drawn == 0 && s.tree == map[]
  }

  /** The loop invariant: the fresh state while the record is empty, the invariant of the record-free loop afterwards. */
  ghost predicate TreeInv(m0: Maze, start: Cell, s: State, depth: map<Cell, int>)
  {
    if |s.tree| == 0 then Fresh(m0, start, s) else Prim.BuildInv(m0, start, Base(s), s.tree, depth)
  }

  /** The first entry taken is the start passage's entry to itself; the start passage lies in the grid and is its own midpoint. */
  lemma FirstQueued(m0: Maze, start: Cell, s: State, k: nat, parent: Cell, child: Cell)
    requires Fresh(m0, start, s) && k < |s.queue|
    requires s.queue[k].parent == parent && s.queue[k].child == child
    ensures k == 0 && parent == start && child == start && Mid(start, start) == start
    ensures Shaped(s.maze) && InBounds(s.maze, start) && start in m0.graph
    ensures Get(s.maze, start) == TREE
  {
    MidSelf(start);
    AtIsGet(s.maze, start);
  }

  /** The first round leaves the invariant of the record-free loop with the one-passage record. */
  lemma FirstKeeps(m0: Maze, start: Cell, draw: nat -> int, s: State, g2: seq<seq<int>>, s': State)
    requires Fresh(m0, start, s)
    requires Attached(s.maze.grid, start, start, g2)
    requires Valid(s'.maze) && SameLayout(m0, s'.maze) && s'.maze.grid == g2
    requires s'.queue == Pushes(start, m0.graph[start], draw, 0) && s'.tree == map[start := start]
    ensures Prim.BuildInv(m0, start, Base(s'), s'.tree, map[start := 0])
    ensures |m0.graph.Keys - s'.tree.Keys| < |m0.graph.Keys - s.tree.Keys|
  {
    MidSelf(start);
    Seeded(m0, start, g2);
    Prim.SeedPending(m0, start, draw, 0);
    Search.Shrinks(m0.graph.Keys, s.tree, s'.tree, start, start);
  }

  /** The first round carves as every carving round does. */
  lemma FirstCarves(m0: Maze, start: Cell, draw: nat -> int, s: State, e: Item, g2: seq<seq<int>>, s': State)
    requires Fresh(m0, start, s) && s.queue[0] == e
    requires Attached(s.maze.grid, start, start, g2)
    requires Shaped(s'.maze) && SameLayout(m0, s'.maze) && s'.maze.grid == g2
    requires s'.queue == Remove(s.queue, 0) + Pushes(start, m0.graph[start], draw, 0)
    ensures Prim.Carved(Base(s), e, draw, Base(s'))
  {
    MidSelf(start);
    AtIsGet(s.maze, start);
    AtIsGet(s'.maze, start);
  }

  /**
   The recording half of a round (prim_algorithm.py:47-54): record the child
   under its parent, mark the child and the wall between them TREE, queue
   one freshly weighted entry per neighbour of the child, and let the canvas
   take a frame if enough changes are pending.
   */
  method Take(cv: Canvas, m0: Maze, start: Cell, draw: nat -> int, s: State, k: nat, e: Item, parent: Cell, child: Cell,
              ghost depth: map<Cell, int>)
    returns (s': State, frame: Option<Frame>, ghost depth': map<Cell, int>)
    requires TreeInv(m0, start, s, depth) && k < |s.queue| && child !in s.tree
    requires s.queue[k] == e && e.parent == parent && e.child == child
    ensures TreeInv(m0, start, s', depth') && |s'.tree| > 0
    ensures |m0.graph.Keys - s'.tree.Keys| < |m0.graph.Keys - s.tree.Keys|
    ensures s'.tree == s.tree[child := parent] && (parent in s.tree || parent == child)
    ensures Prim.Carved(Base(s), e, draw, Base(s'))
  {
    if |s.tree| == 0 {
      FirstQueued(m0, start, s, k, parent, child);
    } else {
      Prim.Queued(m0, start, Base(s), s.tree, depth, k, parent, child);
    }
    var m2 := Attach(s.maze, parent, child);
    var pushed := Pushes(child, m2.graph[child], draw, s.drawn);
    var fr := RefreshFrame(cv, m2);
    s' := State(fr.1, Remove(s.queue, k) + pushed, s.drawn + |pushed|, s.tree[child := parent]);
    frame := fr.0;
    if |s.tree| == 0 {
      depth' := map[start := 0];
      assert Remove(s.queue, k) + pushed == pushed;
      FirstKeeps(m0, start, draw, s, m2.grid, s');
      FirstCarves(m0, start, draw, s, e, m2.grid, s');
    } else {
      depth' := depth[child := depth[parent] + 1];
      Prim.AttachRoundKeeps(m0, start, draw, Base(s), s.tree, depth, k, parent, child, m2.grid, Base(s'), s'.tree, depth');
      Prim.AttachRoundCarves(m0, start, draw, Base(s), s.tree, depth, k, e, parent, child, m2.grid, Base(s'));
    }
  }

  /**
   One round of the main loop (prim_algorithm.py:43-54): take the least
   entry; if its child is recorded do nothing more, otherwise record it.
   */
  method Round(cv: Canvas, m0: Maze, start: Cell, draw: nat -> int, s: State, ghost depth: map<Cell, int>)
    returns (s': State, e: Item, frame: Option<Frame>, ghost depth': map<Cell, int>)
    requires TreeInv(m0, start, s, depth) && |s.queue| > 0
    ensures TreeInv(m0, start, s', depth') && |s'.tree| > 0
    ensures Prim.Progress(m0.graph.Keys, s.tree, s.queue, s'.tree, s'.queue)
    ensures Prim.Least(s.queue, e)
    ensures e.child in s.tree ==> s'.tree == s.tree && Prim.Skipped(Base(s), e, Base(s'))
    ensures e.child !in s.tree ==> s'.tree == s.tree[e.child := e.parent] && (e.parent in s.tree || e.parent == e.child)
    ensures e.child !in s.tree ==> Prim.Carved(Base(s), e, draw, Base(s'))
  {
    var k := MinIndex(s.queue);
    e := s.queue[k];
    if e.child in s.tree {
      s' := s.(queue := Remove(s.queue, k));
      frame := None;
      depth' := depth;
      Prim.SkipKeeps(m0, start, Base(s), s.tree, depth, k, Base(s'));
    } else {
      s', frame, depth' := Take(cv, m0, start, draw, s, k, e, e.parent, e.child, depth);
    }
  }

  /**
   The whole script from the fresh maze up to the final flush. The
   background is the first frame. The returned record holds exactly the TREE passages, is rooted at `start` with every
   passage recorded under a listed neighbour (so following it from any
   passage leads back to `start`), every TREE wall is a record link, and the
   record spans every passage reachable from `start`.
   */
  method Build(cv: Canvas, m0: Maze, start: Cell, draw: nat -> int)
    returns (m: Maze, frames: seq<Frame>, tree: map<Cell, Cell>, ghost depth: map<Cell, int>)
    requires Untouched(m0) && start in m0.graph
    ensures |frames| > 0 && frames[0] == PaintBackground(cv, m0).0
    ensures Valid(m) && SameLayout(m0, m) && m.numChanges == 0 && m.frameBox.None?
    ensures Grown(m0, start, m.grid, tree, depth)
    ensures forall c :: c in m0.graph ==> (At(m.grid, c) == TREE <==> c in tree)
    ensures forall p :: Walk(m0, p) && p[0] == start ==> Last(p) in tree
  {
    var bg := PaintBackground(cv, m0);
    var m1 := MarkCell(bg.1, start, TREE);
    var s := State(m1, [Item(0, start, start)], 0, map[]);
    depth := map[];
    forall d ensures At(m1.grid, d) == if d == start then TREE else At(m0.grid, d)
    {
      if InBounds(m0, d) {
        AtIsGet(bg.1, d);
        AtIsGet(m1, d);
      }
    }
    frames := [];
    while |s.queue| > 0
      invariant TreeInv(m0, start, s, depth)
      decreases |m0.graph.Keys - s.tree.Keys|, |s.queue|
    {
      var e, frame;
      s, e, frame, depth := Round(cv, m0, start, draw, s, depth);
      frames := Emit(frames, frame);
    }
    var fr := ClearRemainingChanges(cv, s.maze);
    m := fr.1;
    tree := s.tree;
    frames := [bg.0] + Emit(frames, fr.0);
    forall p | Walk(m0, p) && p[0] == start
      ensures Last(p) in tree
    {
      EmptyFrontierSpans(m0, start, m.grid, tree, depth, p);
    }
  }
}
