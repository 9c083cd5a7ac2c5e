/**
 The main loop of `src/wilson/random_dfs_algorithm.py`: a randomized
 depth-first search driven by a stack of `(parent, child)` pairs. The start
 passage is marked TREE and one pair is pushed per neighbour; each round pops
 the last pair, skips it when the child is TREE already, and otherwise marks
 the child and the wall to its parent TREE, shuffles the child's own
 neighbour list in place and pushes one pair per neighbour in the shuffled
 order.

 `random.shuffle` is CPython's Fisher-Yates pass, with the random index of
 each swap taken from `draw`, numbered in the order the indices are drawn.
 As in the other frontier builders, the record of which parent attached each
 passage is a ghost record that the tree invariant is stated against.
 */
module RandomDfs {
  import opened Wrappers
  import opened Seqs
  import opened Grid
  import opened Frames
  import Search
  import opened Trees

  /** The loop state: the maze, the stack, and how many swap indices have been drawn. */
  datatype State = State(maze: Maze, stack: seq<(Cell, Cell)>, drawn: nat)

  /** The pairs `(c, v)` for the neighbours `v` in `ns`, in order. */
  function Fan(c: Cell, ns: seq<Cell>): (r: seq<(Cell, Cell)>)
    ensures |r| == |ns| && forall i :: 0 <= i < |ns| ==> r[i] == (c, ns[i])
  {
    seq(|ns|, i requires 0 <= i < |ns| => (c, ns[i]))
  }

  /** `s` with its elements at `i` and `j` exchanged. */
  function Swap<T>(s: seq<T>, i: nat, j: nat): (r: seq<T>)
    requires i < |s| && j < |s|
    ensures |r| == |s| && r[i] == s[j] && r[j] == s[i]
    ensures forall k :: 0 <= k < |s| && k != i && k != j ==> r[k] == s[k]
  {
    s[i := s[j]][j := s[i]]
  }

  /** Exchanging two elements keeps the elements and how often each occurs. */
  lemma SwapPermutes<T>(s: seq<T>, i: nat, j: nat)
    requires i < |s| && j < |s|
    ensures multiset(Swap(s, i, j)) == multiset(s)
  {
    if i != j {
      var t := s[i := s[j]];
      assert multiset(t) == multiset(s) - multiset{s[i]} + multiset{s[j]};
      assert t[j] == s[j];
      assert multiset(t[j := s[i]]) == multiset(t) - multiset{s[j]} + multiset{s[i]};
    }
  }

  /**
   `random.shuffle` (random_dfs_algorithm.py:42): for `i` from the last
   position down to 1, exchange position `i` with position `draw(n) % (i + 1)`.
   The result holds the same elements, each as often as before, and one index
   is drawn per position but the first.
   */
  method Shuffle(ns: seq<Cell>, draw: nat -> int, n: nat) returns (r: seq<Cell>, n': nat)
    ensures |r| == |ns| && multiset(r) == multiset(ns)
    ensures n' == n + (if |ns| == 0 then 0 else |ns| - 1)
  {
    r := ns;
    n' := n;
    var i := |ns| - 1;
    while i >= 1
      invariant |r| == |ns| && multiset(r) == multiset(ns)
      invariant -1 <= i < |ns| && (|ns| > 0 ==> i >= 0)
      invariant n' == n + (|ns| - 1 - i)
      decreases i
    {
      var j := draw(n') % (i + 1);
      SwapPermutes(r, i, j);
      r := Swap(r, i, j);
      n' := n' + 1;
      i := i - 1;
    }
  }

  /** The maze after `c`'s neighbour list is replaced by a reordering `ns` of it. */
  function Relink(m: Maze, c: Cell, ns: seq<Cell>): (m': Maze)
    requires c in m.graph && multiset(ns) == multiset(m.graph[c])
    ensures m'.grid == m.grid && m'.numChanges == m.numChanges && m'.frameBox == m.frameBox
    ensures Relinked(m, m') && m'.graph[c] == ns
  {
    m.(graph := m.graph[c := ns])
  }

  /** Reordering one neighbour list keeps a consistent maze consistent. */
  lemma RelinkKeepsValid(m: Maze, c: Cell, ns: seq<Cell>)
    requires Valid(m) && c in m.graph && multiset(ns) == multiset(m.graph[c])
    ensures Valid(Relink(m, c, ns))
  {
    var m' := Relink(m, c, ns);
    forall d, i | d in m'.graph && 0 <= i < |m'.graph[d]|
      ensures m'.graph[d][i] in m'.graph && Adjacent(d, m'.graph[d][i])
    {
      if d == c {
        assert ns[i] in multiset(m.graph[c]);
        var j :| 0 <= j < |m.graph[c]| && m.graph[c][j] == ns[i];
      }
    }
  }

  /** Relinking composes. */
  lemma RelinkedThen(m0: Maze, m1: Maze, m2: Maze)
    requires Relinked(m0, m1) && Relinked(m1, m2)
    ensures Relinked(m0, m2)
  {
  }

  /** The pairs pushed for a passage with its neighbours in any order cover all its neighbours. */
  lemma FanCovers(m0: Maze, c: Cell, ns: seq<Cell>)
    requires c in m0.graph && multiset(ns) == multiset(m0.graph[c])
    ensures PushedAll(m0, c, Fan(c, ns))
  {
    var r := Fan(c, ns);
    forall v | Linked(m0, c, v)
      ensures (c, v) in r
    {
      assert v in multiset(ns);
      var i :| 0 <= i < |ns| && ns[i] == v;
      assert r[i] == (c, v);
    }
    forall k | 0 <= k < |r|
      ensures r[k].0 == c && Linked(m0, c, r[k].1)
    {
      assert ns[k] in multiset(m0.graph[c]);
    }
  }

  /** Popping the last pair of a stack takes off the entry at the last position. */
  lemma PopIsRemove<T>(s: seq<T>)
    requires |s| > 0
    ensures s[..|s| - 1] == Remove(s, |s| - 1)
  {
  }

  /** The loop invariant: the grid is grown along the ghost record, and the stack covers every unexplored neighbour. */
  ghost predicate Spread(m0: Maze, start: Cell, s: State, tree: map<Cell, Cell>, depth: map<Cell, int>)
  {
    && Valid(m0) && Valid(s.maze) && Relinked(m0, s.maze)
    && Grown(m0, start, s.maze.grid, tree, depth)
    && Pending(m0, tree, s.stack) && Hanging(m0, tree, s.stack)
  }

  /** `Spread` compared with `true`, so that it is one proof obligation: the verifier would otherwise split it into its conjuncts at every use and prove each one separately. */
  ghost predicate DfsInv(m0: Maze, start: Cell, s: State, tree: map<Cell, Cell>, depth: map<Cell, int>)
  {
    Spread(m0, start, s, tree, depth) == true
  }

  /** The initial state (random_dfs_algorithm.py:31-32) satisfies the invariant with the one-passage record. */
  lemma StartKeeps(m0: Maze, mb: Maze, start: Cell, s: State)
    requires Untouched(m0) && start in m0.graph
    requires Valid(mb) && SameLayout(m0, mb) && mb.grid == m0.grid
    requires s == State(MarkCell(mb, start, TREE), Fan(start, m0.graph[start]), 0)
    ensures DfsInv(m0, start, s, map[start := start], map[start := 0])
  {
    var m := s.maze;
    forall d ensures At(m.grid, d) == if d == start then TREE else At(m0.grid, d)
    {
      if InBounds(m0, d) {
        AtIsGet(mb, d);
        AtIsGet(m, d);
      }
    }
    Seeded(m0, start, m.grid);
    FanCovers(m0, start, m0.graph[start]);
  }

  /** The popped pair joins a recorded parent to a listed neighbour, whose wall lies inside the grid; the child is TREE exactly when it is recorded. */
  lemma Popped(m0: Maze, start: Cell, s: State, tree: map<Cell, Cell>, depth: map<Cell, int>, parent: Cell, child: Cell)
    requires DfsInv(m0, start, s, tree, depth) && |s.stack| > 0
    requires Last(s.stack).0 == parent && Last(s.stack).1 == child
    ensures Shaped(s.maze) && parent in tree && Linked(m0, parent, child) && child in m0.graph
    ensures InBounds(s.maze, parent) && InBounds(s.maze, child) && InBounds(s.maze, Mid(parent, child))
    ensures Get(s.maze, parent) == TREE
    ensures Get(s.maze, child) == TREE <==> child in tree
    ensures child in s.maze.graph && multiset(s.maze.graph[child]) == multiset(m0.graph[child])
  {
    LinkedWall(m0, parent, child);
    AtIsGet(s.maze, parent);
    AtIsGet(s.maze, child);
  }

  /** A round that finds its child already TREE keeps the invariant and shortens the stack. */
  lemma SkipKeeps(m0: Maze, start: Cell, s: State, tree: map<Cell, Cell>, depth: map<Cell, int>, s': State)
    requires DfsInv(m0, start, s, tree, depth) && |s.stack| > 0
    requires Last(s.stack).1 in tree
    requires s' == s.(stack := s.stack[..|s.stack| - 1])
    ensures DfsInv(m0, start, s', tree, depth)
  {
    var k := |s.stack| - 1;
    PopIsRemove(s.stack);
    assert Remove(s.stack, k) + [] == Remove(s.stack, k);
    PendingKeeps(m0, tree, s.stack, k, tree, [], s'.stack);
  }

  /** Replacing the popped pair by the child's pairs keeps every unexplored neighbour waiting on the stack. */
  lemma CarvePends(m0: Maze, tree: map<Cell, Cell>, stack: seq<(Cell, Cell)>,
                   parent: Cell, child: Cell, ns: seq<Cell>, tree': map<Cell, Cell>, stack': seq<(Cell, Cell)>)
    requires Pending(m0, tree, stack) && Hanging(m0, tree, stack) && |stack| > 0 && child !in tree
    requires stack[|stack| - 1] == (parent, child)
    requires child in m0.graph && multiset(ns) == multiset(m0.graph[child])
    requires stack' == stack[..|stack| - 1] + Fan(child, ns)
    requires tree' == tree[child := parent]
    ensures Pending(m0, tree', stack') && Hanging(m0, tree', stack')
  {
    FanCovers(m0, child, ns);
    PopIsRemove(stack);
    PendingKeeps(m0, tree, stack, |stack| - 1, tree', Fan(child, ns), stack');
  }

  /** A round that attaches its child keeps the invariant and adds the child to the record. */
  lemma CarveKeeps(m0: Maze, start: Cell, s: State, tree: map<Cell, Cell>, depth: map<Cell, int>,
                   parent: Cell, child: Cell, g2: seq<seq<int>>, ns: seq<Cell>,
                   s': State, tree': map<Cell, Cell>, depth': map<Cell, int>)
    requires DfsInv(m0, start, s, tree, depth) && |s.stack| > 0 && child !in tree
    requires Last(s.stack).0 == parent && Last(s.stack).1 == child
    requires Attached(s.maze.grid, parent, child, g2)
    requires Valid(s'.maze) && Relinked(m0, s'.maze) && s'.maze.grid == g2
    requires child in m0.graph && multiset(ns) == multiset(m0.graph[child])
    requires s'.stack == s.stack[..|s.stack| - 1] + Fan(child, ns)
    requires tree' == tree[child := parent] && parent in depth && depth' == depth[child := depth[parent] + 1]
    ensures DfsInv(m0, start, s', tree', depth')
    ensures |m0.graph.Keys - tree'.Keys| < |m0.graph.Keys - tree.Keys|
  {
    Popped(m0, start, s, tree, depth, parent, child);
    AttachKeeps(m0, start, s.maze.grid, tree, depth, parent, child, g2, tree', depth');
    Search.Shrinks(m0.graph.Keys, tree, tree', child, parent);
    CarvePends(m0, tree, s.stack, parent, child, ns, tree', s'.stack);
  }

  /**
   A round that carves: the parent was TREE, the child and the wall between
   them are TREE now, the child's neighbour list is a reordering of what it
   was, and the popped pair is replaced by one pair per neighbour in the
   reordered list. The conjunction is compared with `true`, so that it is
   one proof obligation: the verifier would otherwise split it into its conjuncts at every use and prove each one separately.
   */
  ghost predicate Carved(s: State, parent: Cell, child: Cell, s': State)
  {
    (&& |s.stack| > 0 && Shaped(s.maze) && Shaped(s'.maze)
     && InBounds(s.maze, parent) && Get(s.maze, parent) == TREE
     && InBounds(s'.maze, child) && Get(s'.maze, child) == TREE
     && InBounds(s'.maze, Mid(parent, child)) && Get(s'.maze, Mid(parent, child)) == TREE
     && child in s.maze.graph && child in s'.maze.graph
     && multiset(s'.maze.graph[child]) == multiset(s.maze.graph[child])
     && s'.stack == s.stack[..|s.stack| - 1] + Fan(child, s'.maze.graph[child]))
    == true
  }

  /** A carving round does what `Carved` says. */
  lemma CarveCarves(m0: Maze, start: Cell, s: State, tree: map<Cell, Cell>, depth: map<Cell, int>,
                    parent: Cell, child: Cell, g2: seq<seq<int>>, ns: seq<Cell>, s': State)
    requires DfsInv(m0, start, s, tree, depth) && |s.stack| > 0
    requires Last(s.stack).0 == parent && Last(s.stack).1 == child
    requires Attached(s.maze.grid, parent, child, g2)
    requires Shaped(s'.maze) && s'.maze.width == s.maze.width && s'.maze.height == s.maze.height && s'.maze.grid == g2
    requires child in s'.maze.graph && s'.maze.graph[child] == ns
    requires multiset(ns) == multiset(m0.graph[child])
    requires s'.stack == s.stack[..|s.stack| - 1] + Fan(child, ns)
    ensures Carved(s, parent, child, s')
  {
    Popped(m0, start, s, tree, depth, parent, child);
    AtIsGet(s'.maze, child);
    AtIsGet(s'.maze, Mid(parent, child));
    AtIsGet(s.maze, parent);
  }

  /**
   The carving half of a round (random_dfs_algorithm.py:39-46): mark the
   child and the wall to its parent TREE, shuffle the child's neighbour list
   in place, push one pair per neighbour in the shuffled order, and let the
   canvas take a frame if enough changes are pending.
   */
  method Carve(cv: Canvas, m0: Maze, start: Cell, draw: nat -> int, s: State, parent: Cell, child: Cell,
               ghost tree: map<Cell, Cell>, ghost depth: map<Cell, int>)
    returns (s': State, frame: Option<Frame>, ghost tree': map<Cell, Cell>, ghost depth': map<Cell, int>)
    requires DfsInv(m0, start, s, tree, depth) && |s.stack| > 0 && child !in tree
    requires Last(s.stack).0 == parent && Last(s.stack).1 == child
    ensures DfsInv(m0, start, s', tree', depth')
    ensures |m0.graph.Keys - tree'.Keys| < |m0.graph.Keys - tree.Keys|
    ensures Carved(s, parent, child, s')
  {
    Popped(m0, start, s, tree, depth, parent, child);
    var m2 := Attach(s.maze, parent, child);
    var ns, n' := Shuffle(m2.graph[child], draw, s.drawn);
    var m3 := Relink(m2, child, ns);
    RelinkKeepsValid(m2, child, ns);
    var fr := RefreshFrame(cv, m3);
    s' := State(fr.1, s.stack[..|s.stack| - 1] + Fan(child, ns), n');
    frame := fr.0;
    tree' := tree[child := parent];
    depth' := depth[child := depth[parent] + 1];
    RelinkedThen(m0, m2, m3);
    RelinkedThen(m0, m3, fr.1);
    CarveKeeps(m0, start, s, tree, depth, parent, child, m2.grid, ns, s', tree', depth');
    CarveCarves(m0, start, s, tree, depth, parent, child, m2.grid, ns, s');
  }

  /**
   One round of the main loop (random_dfs_algorithm.py:35-46): pop the last
   pair; if its child is TREE do nothing more, otherwise carve.
   */
  method Round(cv: Canvas, m0: Maze, start: Cell, draw: nat -> int, s: State,
               ghost tree: map<Cell, Cell>, ghost depth: map<Cell, int>)
    returns (s': State, parent: Cell, child: Cell, frame: Option<Frame>, ghost tree': map<Cell, Cell>, ghost depth': map<Cell, int>)
    requires DfsInv(m0, start, s, tree, depth) && |s.stack| > 0
    ensures DfsInv(m0, start, s', tree', depth')
    ensures (parent, child) == Last(s.stack)
    ensures || |m0.graph.Keys - tree'.Keys| < |m0.graph.Keys - tree.Keys|
            || (tree' == tree && |s'.stack| < |s.stack|)
    ensures child in tree ==> s'.maze == s.maze && s'.stack == s.stack[..|s.stack| - 1]
    ensures child !in tree ==> Carved(s, parent, child, s')
  {
    parent, child := Last(s.stack).0, Last(s.stack).1;
    Popped(m0, start, s, tree, depth, parent, child);
    if InTree(s.maze, child) {
      s' := s.(stack := s.stack[..|s.stack| - 1]);
      frame := None;
      tree', depth' := tree, depth;
      SkipKeeps(m0, start, s, tree, depth, s');
    } else {
      s', frame, tree', depth' := Carve(cv, m0, start, draw, s, parent, child, tree, depth);
    }
  }

  /**
   The whole script from the fresh maze up to the final flush: the
   background is the first frame, the layout is the original one up to the
   order of neighbour lists, and the TREE passages and walls form a tree
   rooted at `start` that spans every passage reachable from `start`.
   */
  method Build(cv: Canvas, m0: Maze, start: Cell, draw: nat -> int)
    returns (m: Maze, frames: seq<Frame>, ghost tree: map<Cell, Cell>, ghost depth: map<Cell, int>)
    requires Untouched(m0) && start in m0.graph
    ensures |frames| > 0 && frames[0] == PaintBackground(cv, m0).0
    ensures Valid(m) && Relinked(m0, m) && m.numChanges == 0 && m.frameBox.None?
    ensures Grown(m0, start, m.grid, tree, depth)
    ensures forall c :: c in m0.graph ==> (At(m.grid, c) == TREE <==> c in tree)
    ensures forall p :: Walk(m0, p) && p[0] == start ==> At(m.grid, Last(p)) == TREE
  {
    var bg := PaintBackground(cv, m0);
    var s := State(MarkCell(bg.1, start, TREE), Fan(start, m0.graph[start]), 0);
    tree, depth := map[start := start], map[start := 0];
    StartKeeps(m0, bg.1, start, s);
    frames := [];
    while |s.stack| > 0
      invariant DfsInv(m0, start, s, tree, depth)
      decreases |m0.graph.Keys - tree.Keys|, |s.stack|
    {
      var parent, child, frame;
      s, parent, child, frame, tree, depth := Round(cv, m0, start, draw, s, tree, depth);
      frames := Emit(frames, frame);
    }
    var fr := ClearRemainingChanges(cv, s.maze);
    m := fr.1;
    frames := [bg.0] + Emit(frames, fr.0);
    RelinkedThen(m0, s.maze, m);
    forall p | Walk(m0, p) && p[0] == start
      ensures At(m.grid, Last(p)) == TREE
    {
      EmptyFrontierSpans(m0, start, m.grid, tree, depth, p);
    }
  }
}
