/**
 The main loop of `src/wilson/prim.py`: randomized Prim with the
 skip-if-in-tree test on the grid. The start passage is marked TREE and one
 entry of weight 0 is queued for each of its neighbours; each round takes
 the least entry, skips it when its child is already TREE, and otherwise
 marks the child and the wall to its parent TREE and queues one freshly
 weighted entry per neighbour of the child.

 The record of which parent attached each passage is not kept by the script;
 here it is a ghost record, which is what the tree invariant is stated
 against. Weights come from `draw`, numbered in the order they are drawn.
 */
module Prim {
  import opened Wrappers
  import opened Seqs
  import opened Grid
  import opened Frames
  import Search
  import opened Trees
  import opened Heap

  /** The loop state: the maze, the queue, and how many weights have been drawn. */
  datatype State = State(maze: Maze, queue: seq<Item>, drawn: nat)

  /** The loop invariant: the grid is grown along the ghost record, and the queue covers every unexplored neighbour. */
  ghost predicate Spread(m0: Maze, start: Cell, s: State, tree: map<Cell, Cell>, depth: map<Cell, int>)
  {
    && Valid(m0) && Valid(s.maze) && SameLayout(m0, s.maze)
    && Grown(m0, start, s.maze.grid, tree, depth)
    && Pending(m0, tree, Links(s.queue)) && Hanging(m0, tree, Links(s.queue))
  }

  /** `Spread` compared with `true`, so that it is one proof obligation: the verifier would otherwise split it into its conjuncts at every use and prove each one separately. */
  ghost predicate BuildInv(m0: Maze, start: Cell, s: State, tree: map<Cell, Cell>, depth: map<Cell, int>)
  {
    Spread(m0, start, s, tree, depth) == true
  }

  /** One round either adds a passage to the record or keeps the record and shortens the queue. */
  ghost predicate Progress(keys: set<Cell>, tree: map<Cell, Cell>, q: seq<Item>, tree': map<Cell, Cell>, q': seq<Item>)
  {
    || |keys - tree'.Keys| < |keys - tree.Keys|
    || (|keys - tree'.Keys| == |keys - tree.Keys| && |q'| < |q|)
  }

  /** The pairs pushed for a new tree passage cover all its neighbours. */
  lemma PushesCover(m0: Maze, child: Cell, draw: nat -> int, n: nat)
    requires child in m0.graph
    ensures PushedAll(m0, child, Links(Pushes(child, m0.graph[child], draw, n)))
  {
    var ns := m0.graph[child];
    var links := Links(Pushes(child, ns, draw, n));
    forall v | Linked(m0, child, v)
      ensures (child, v) in links
    {
      var i :| 0 <= i < |ns| && ns[i] == v;
      assert links[i] == (child, v);
    }
  }

  /** The entries queued for the start passage alone keep every neighbour of the one-passage record queued. */
  lemma SeedPending(m0: Maze, start: Cell, draw: nat -> int, n: nat)
    requires start in m0.graph
    ensures Pending(m0, map[start := start], Links(Pushes(start, m0.graph[start], draw, n)))
    ensures Hanging(m0, map[start := start], Links(Pushes(start, m0.graph[start], draw, n)))
  {
    PushesCover(m0, start, draw, n);
  }

  /** The initial state (prim.py:38-39) satisfies the invariant with the one-passage record. */
  lemma StartKeeps(m0: Maze, mb: Maze, start: Cell, s: State)
    requires Untouched(m0) && start in m0.graph
    requires Valid(mb) && SameLayout(m0, mb) && mb.grid == m0.grid
    requires s == State(MarkCell(mb, start, TREE), Pushes(start, m0.graph[start], (i: nat) => 0, 0), 0)
    ensures BuildInv(m0, start, s, map[start := start], map[start := 0])
  {
    var m := s.maze;
    forall d ensures At(m.grid, d) == if d == start then TREE else At(m0.grid, d)
    {
      if InBounds(m0, d) {
        AtIsGet(mb, d);
        AtIsGet(m, d);
      }
    }
    Seeded(m0, start, m.grid);
    SeedPending(m0, start, (i: nat) => 0, 0);
  }

  /** The entry taken by `heappop`: one of the queue's entries, and at most every other. */
  ghost predicate Least(q: seq<Item>, e: Item)
  {
    e in q && forall x :: x in q ==> AtMost(e, x)
  }

  /** A round that skips leaves the maze as it was and removes just the taken entry. */
  ghost predicate Skipped(s: State, e: Item, s': State)
  {
    s'.maze == s.maze && multiset(s'.queue) + multiset{e} == multiset(s.queue)
  }

  /**
   A round that carves: the parent was TREE, the child and the wall between
   them are TREE now, and the taken entry is replaced by one entry per
   neighbour of the child. The conjunction is compared with `true`, so that
   it is one proof obligation: the verifier would otherwise split it into its conjuncts at every use and prove each one separately.
   */
  ghost predicate Carved(s: State, e: Item, draw: nat -> int, s': State)
  {
    (&& InBounds(s.maze, e.parent) && Shaped(s.maze) && Get(s.maze, e.parent) == TREE
     && InBounds(s'.maze, e.child) && Shaped(s'.maze) && Get(s'.maze, e.child) == TREE
     && InBounds(s'.maze, Mid(e.parent, e.child)) && Get(s'.maze, Mid(e.parent, e.child)) == TREE
     && e.child in s.maze.graph
     && multiset(s'.queue) + multiset{e} == multiset(s.queue) + multiset(Pushes(e.child, s.maze.graph[e.child], draw, s.drawn)))
    == true
  }

  /** The taken entry joins a recorded parent to a listed neighbour, whose wall lies inside the grid; the child is TREE exactly when it is recorded. */
  lemma Queued(m0: Maze, start: Cell, s: State, tree: map<Cell, Cell>, depth: map<Cell, int>, k: nat, parent: Cell, child: Cell)
    requires BuildInv(m0, start, s, tree, depth) && k < |s.queue|
    requires s.queue[k].parent == parent && s.queue[k].child == child
    ensures Shaped(s.maze) && parent in tree && Linked(m0, parent, child) && child in m0.graph
    ensures InBounds(s.maze, parent) && InBounds(s.maze, child) && InBounds(s.maze, Mid(parent, child))
    ensures Get(s.maze, parent) == TREE
    ensures Get(s.maze, child) == TREE <==> child in tree
  {
    assert Links(s.queue)[k] == (parent, child);
    LinkedWall(m0, parent, child);
    AtIsGet(s.maze, parent);
    AtIsGet(s.maze, child);
  }

  /** A round that finds its child already TREE keeps the invariant and shortens the queue. */
  lemma SkipKeeps(m0: Maze, start: Cell, s: State, tree: map<Cell, Cell>, depth: map<Cell, int>, k: nat, s': State)
    requires BuildInv(m0, start, s, tree, depth) && k < |s.queue|
    requires s.queue[k].child in tree
    requires s' == s.(queue := Remove(s.queue, k))
    ensures BuildInv(m0, start, s', tree, depth)
    ensures Progress(m0.graph.Keys, tree, s.queue, tree, s'.queue)
    ensures Skipped(s, s.queue[k], s')
  {
    LinksOfNext(s.queue, k, []);
    assert Remove(s.queue, k) + [] == Remove(s.queue, k);
    PendingKeeps(m0, tree, Links(s.queue), k, tree, [], Links(s'.queue));
  }

  /** Replacing the taken entry by the child's entries keeps every unexplored neighbour queued. */
  lemma AttachRoundPends(m0: Maze, start: Cell, draw: nat -> int, s: State, tree: map<Cell, Cell>, depth: map<Cell, int>,
                         k: nat, parent: Cell, child: Cell, tree': map<Cell, Cell>, q': seq<Item>)
    requires BuildInv(m0, start, s, tree, depth) && k < |s.queue| && child !in tree
    requires s.queue[k].parent == parent && s.queue[k].child == child && child in m0.graph
    requires q' == Remove(s.queue, k) + Pushes(child, m0.graph[child], draw, s.drawn)
    requires tree' == tree[child := parent]
    ensures Pending(m0, tree', Links(q')) && Hanging(m0, tree', Links(q'))
  {
    var links := Links(s.queue);
    var pushed := Pushes(child, m0.graph[child], draw, s.drawn);
    assert links[k] == (parent, child);
    PushesCover(m0, child, draw, s.drawn);
    LinksOfNext(s.queue, k, pushed);
    PendingKeeps(m0, tree, links, k, tree', Links(pushed), Links(q'));
  }

  /** A round that attaches its child keeps the invariant and adds the child to the record. */
  lemma AttachRoundKeeps(m0: Maze, start: Cell, draw: nat -> int, s: State,
                         tree: map<Cell, Cell>, depth: map<Cell, int>, k: nat, parent: Cell, child: Cell,
                         g2: seq<seq<int>>, s': State, tree': map<Cell, Cell>, depth': map<Cell, int>)
    requires BuildInv(m0, start, s, tree, depth) && k < |s.queue| && child !in tree
    requires s.queue[k].parent == parent && s.queue[k].child == child
    requires Attached(s.maze.grid, parent, child, g2)
    requires Valid(s'.maze) && SameLayout(m0, s'.maze) && s'.maze.grid == g2 && child in m0.graph
    requires s'.queue == Remove(s.queue, k) + Pushes(child, m0.graph[child], draw, s.drawn)
    requires tree' == tree[child := parent] && parent in depth && depth' == depth[child := depth[parent] + 1]
    ensures BuildInv(m0, start, s', tree', depth')
    ensures |m0.graph.Keys - tree'.Keys| < |m0.graph.Keys - tree.Keys|
  {
    Queued(m0, start, s, tree, depth, k, parent, child);
    AttachKeeps(m0, start, s.maze.grid, tree, depth, parent, child, g2, tree', depth');
    Search.Shrinks(m0.graph.Keys, tree, tree', child, parent);
    AttachRoundPends(m0, start, draw, s, tree, depth, k, parent, child, tree', s'.queue);
  }

  /** A carving round does what `Carved` says. */
  lemma AttachRoundCarves(m0: Maze, start: Cell, draw: nat -> int, s: State,
                          tree: map<Cell, Cell>, depth: map<Cell, int>, k: nat, e: Item, parent: Cell, child: Cell,
                          g2: seq<seq<int>>, s': State)
    requires BuildInv(m0, start, s, tree, depth) && k < |s.queue|
    requires s.queue[k] == e && e.parent == parent && e.child == child
    requires Attached(s.maze.grid, parent, child, g2)
    requires Shaped(s'.maze) && SameLayout(m0, s'.maze) && s'.maze.grid == g2 && child in m0.graph
    requires s'.queue == Remove(s.queue, k) + Pushes(child, m0.graph[child], draw, s.drawn)
    ensures Carved(s, e, draw, s')
  {
    Queued(m0, start, s, tree, depth, k, parent, child);
    AtIsGet(s'.maze, child);
    AtIsGet(s'.maze, Mid(parent, child));
    AtIsGet(s.maze, parent);
  }

  /**
   The carving half of a round (prim.py:47-50): mark the child and the wall
   to its parent TREE, queue one freshly weighted entry per neighbour of the
   child, and let the canvas take a frame if enough changes are pending.
   */
  method Carve(cv: Canvas, m0: Maze, start: Cell, draw: nat -> int, s: State, k: nat, e: Item, parent: Cell, child: Cell,
               ghost tree: map<Cell, Cell>, ghost depth: map<Cell, int>)
    returns (s': State, frame: Option<Frame>, ghost tree': map<Cell, Cell>, ghost depth': map<Cell, int>)
    requires BuildInv(m0, start, s, tree, depth) && k < |s.queue| && child !in tree
    requires s.queue[k] == e && e.parent == parent && e.child == child
    ensures BuildInv(m0, start, s', tree', depth')
    ensures |m0.graph.Keys - tree'.Keys| < |m0.graph.Keys - tree.Keys|
    ensures Carved(s, e, draw, s')
  {
    Queued(m0, start, s, tree, depth, k, parent, child);
    var m2 := Attach(s.maze, parent, child);
    var pushed := Pushes(child, m2.graph[child], draw, s.drawn);
    var fr := RefreshFrame(cv, m2);
    s' := State(fr.1, Remove(s.queue, k) + pushed, s.drawn + |pushed|);
    frame := fr.0;
    tree' := tree[child := parent];
    depth' := depth[child := depth[parent] + 1];
    AttachRoundKeeps(m0, start, draw, s, tree, depth, k, parent, child, m2.grid, s', tree', depth');
    AttachRoundCarves(m0, start, draw, s, tree, depth, k, e, parent, child, m2.grid, s');
  }

  /**
   One round of the main loop (prim.py:42-50): `heappop` an entry; if its
   child is TREE do nothing more, otherwise carve. The `first` round pops the
   head of the list built at prim.py:38, which is the least entry only when
   that list happens to be heap-ordered; every later round pops the least.
   */
  method Round(cv: Canvas, m0: Maze, start: Cell, draw: nat -> int, s: State, first: bool,
               ghost tree: map<Cell, Cell>, ghost depth: map<Cell, int>)
    returns (s': State, e: Item, frame: Option<Frame>, ghost tree': map<Cell, Cell>, ghost depth': map<Cell, int>)
    requires BuildInv(m0, start, s, tree, depth) && |s.queue| > 0
    ensures BuildInv(m0, start, s', tree', depth')
    ensures Progress(m0.graph.Keys, tree, s.queue, tree', s'.queue)
    ensures first ==> e == s.queue[0]
    ensures !first || HeapOrdered(s.queue) ==> Least(s.queue, e)
    ensures e.child in tree ==> Skipped(s, e, s')
    ensures e.child !in tree ==> Carved(s, e, draw, s')
  {
    var k := Pop(s.queue, first);
    e := s.queue[k];
    Queued(m0, start, s, tree, depth, k, e.parent, e.child);
    if InTree(s.maze, e.child) {
      s' := s.(queue := Remove(s.queue, k));
      frame := None;
      tree', depth' := tree, depth;
      SkipKeeps(m0, start, s, tree, depth, k, s');
    } else {
      s', frame, tree', depth' := Carve(cv, m0, start, draw, s, k, e, e.parent, e.child, tree, depth);
    }
  }

  /**
   The whole script from the fresh maze up to the final flush: the
   background is the first frame, and the TREE passages and walls form a
   tree rooted at `start` (every passage recorded with a parent that is a
   listed neighbour, every TREE wall a parent link) that spans every passage
   reachable from `start`.
   */
  method Build(cv: Canvas, m0: Maze, start: Cell, draw: nat -> int)
    returns (m: Maze, frames: seq<Frame>, ghost tree: map<Cell, Cell>, ghost depth: map<Cell, int>)
    requires Untouched(m0) && start in m0.graph
    ensures |frames| > 0 && frames[0] == PaintBackground(cv, m0).0
    ensures Valid(m) && SameLayout(m0, m) && m.numChanges == 0 && m.frameBox.None?
    ensures Grown(m0, start, m.grid, tree, depth)
    ensures forall c :: c in m0.graph ==> (At(m.grid, c) == TREE <==> c in tree)
    ensures forall p :: Walk(m0, p) && p[0] == start ==> At(m.grid, Last(p)) == TREE
  {
    var bg := PaintBackground(cv, m0);
    var s := State(MarkCell(bg.1, start, TREE), Pushes(start, m0.graph[start], (i: nat) => 0, 0), 0);
    tree, depth := map[start := start], map[start := 0];
    StartKeeps(m0, bg.1, start, s);
    frames := [];
    var first := true;
    while |s.queue| > 0
      invariant BuildInv(m0, start, s, tree, depth)
      decreases |m0.graph.Keys - tree.Keys|, |s.queue|
    {
      var e, frame;
      s, e, frame, tree, depth := Round(cv, m0, start, draw, s, first, tree, depth);
      frames := Emit(frames, frame);
      first := false;
    }
    var fr := ClearRemainingChanges(cv, s.maze);
    m := fr.1;
    frames := [bg.0] + Emit(frames, fr.0);
    forall p | Walk(m0, p) && p[0] == start
      ensures At(m.grid, Last(p)) == TREE
    {
      EmptyFrontierSpans(m0, start, m.grid, tree, depth, p);
    }
  }
}
