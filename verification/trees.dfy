/**
 The growth step shared by the three frontier-driven builders of
 `src/wilson` (the two randomized Prim scripts and the randomized depth-first
 search): a passage not yet in the tree and the wall between it and a tree
 passage both become TREE.

 The invariant `Grown` ties the grid to a parent record rooted at the start
 passage: a passage is TREE exactly when it is recorded, and the wall between
 two listed neighbours is TREE exactly when one of them is the recorded
 parent of the other. `Pending` says that every listed neighbour of a tree
 passage is in the tree or still waits in the frontier, so an empty frontier
 means the tree is closed under adjacency.
 */
module Trees {
  import opened Wrappers
  import opened Seqs
  import opened Grid
  import opened Frames
  import opened Search
  import opened Solve

  /** The value of cell `d` of a grid indexed `g[x][y]`, or -1 (no palette index) off the grid. */
  function At(g: seq<seq<int>>, d: Cell): int
  {
    if 0 <= d.0 < |g| && 0 <= d.1 < |g[d.0]| then g[d.0][d.1] else -1
  }

  /** On a well-shaped maze `At` reads what `Get` reads. */
  lemma AtIsGet(m: Maze, d: Cell)
    requires Shaped(m) && InBounds(m, d)
    ensures At(m.grid, d) == Get(m, d)
  {
  }

  /**
   Same dimensions, margin, passages and neighbour lists up to order: the
   depth-first builder reorders a neighbour list in place, nothing else
   touches the layout.
   */
  predicate Relinked(m0: Maze, m: Maze)
  {
    && m.width == m0.width && m.height == m0.height && m.margin == m0.margin && m.cells == m0.cells
    && m.graph.Keys == m0.graph.Keys
    && forall c :: c in m.graph ==> multiset(m.graph[c]) == multiset(m0.graph[c])
  }

  /** Reordering neighbour lists changes no neighbour relation. */
  lemma RelinkedLinks(m0: Maze, m: Maze, a: Cell, b: Cell)
    requires Relinked(m0, m)
    ensures Linked(m, a, b) <==> Linked(m0, a, b)
  {
    if a in m.graph {
      assert b in m.graph[a] <==> b in multiset(m.graph[a]);
      assert b in m0.graph[a] <==> b in multiset(m0.graph[a]);
    }
  }

  /** The wall between `a` and `b` belongs to the tree: one of them is the recorded parent of the other. */
  predicate TreeEdge(tree: map<Cell, Cell>, start: Cell, a: Cell, b: Cell)
  {
    (a in tree && a != start && tree[a] == b) || (b in tree && b != start && tree[b] == a)
  }

  /** What the builders need of the maze they start from: no passage and no wall between neighbours is TREE. */
  ghost predicate Untouched(m: Maze)
  {
    && Valid(m)
    && (forall c :: c in m.graph ==> At(m.grid, c) != TREE)
    && (forall a, b :: Linked(m, a, b) ==> At(m.grid, Mid(a, b)) != TREE)
  }

  /** A freshly built maze is all WALL, so it is untouched. */
  lemma FreshIsUntouched(width: nat, height: nat, margin: nat, mask: Cell -> bool)
    ensures Untouched(NewMaze(width, height, margin, mask))
  {
    var m := NewMaze(width, height, margin, mask);
    forall c | c in m.graph
      ensures At(m.grid, c) != TREE
    {
      AtIsGet(m, c);
    }
    forall a, b | Linked(m, a, b)
      ensures At(m.grid, Mid(a, b)) != TREE
    {
      LinkedWall(m, a, b);
      AtIsGet(m, Mid(a, b));
    }
  }

  /**
   One growth step: `mark_cell(child, TREE)` followed by
   `mark_wall(parent, child, TREE)`. Exactly the child and the wall become
   TREE, two changes are counted, and the layout is untouched.
   */
  function Attach(m: Maze, parent: Cell, child: Cell): (m': Maze)
    requires Shaped(m) && InBounds(m, child) && InBounds(m, Mid(parent, child))
    ensures Shaped(m') && SameLayout(m, m') && m'.numChanges == m.numChanges + 2
    ensures forall d :: At(m'.grid, d) == if d == child || d == Mid(parent, child) then TREE else At(m.grid, d)
    ensures m'.frameBox.Some? && InBox(m'.frameBox.value, child) && InBox(m'.frameBox.value, Mid(parent, child))
    ensures TrackerOk(m) ==> TrackerOk(m')
    ensures Valid(m) ==> Valid(m')
  {
    var m1 := MarkCell(m, child, TREE);
    var m2 := MarkWall(m1, parent, child, TREE);
    assert MarkCell(m1, Mid(child, parent), TREE) == m2;
    assert Mid(child, parent) == Mid(parent, child);
    forall d ensures At(m2.grid, d) == if d == child || d == Mid(parent, child) then TREE else At(m.grid, d)
    {
      if InBounds(m, d) {
        AtIsGet(m, d);
        AtIsGet(m1, d);
        AtIsGet(m2, d);
      }
    }
    m2
  }

  /**
   The grid `g` against the parent record `tree` (with distances `depth` from
   `start`) over the layout of `m0`: the record is rooted at `start` and links
   listed neighbours, a passage is TREE exactly when it is recorded, a wall
   between listed neighbours is TREE exactly when it is a tree edge, and
   every cell that differs from the starting grid is TREE.
   */
  ghost predicate GrownParts(m0: Maze, start: Cell, g: seq<seq<int>>, tree: map<Cell, Cell>, depth: map<Cell, int>)
  {
    && Valid(m0) && start in tree && Rooted(start, tree, depth)
    && (forall c {:trigger tree[c]} :: c in tree ==> c in m0.graph && (c != start ==> Linked(m0, tree[c], c)))
    && (forall c :: c in m0.graph ==> (At(g, c) == TREE <==> c in tree))
    && (forall a, b :: Linked(m0, a, b) ==> (At(g, Mid(a, b)) == TREE <==> TreeEdge(tree, start, a, b)))
    && (forall d :: At(g, d) != At(m0.grid, d) ==> At(g, d) == TREE)
  }

  /** `GrownParts` compared with `true`, so that it is one proof obligation: the verifier would otherwise split it into its conjuncts at every use and prove each one separately. */
  ghost predicate Grown(m0: Maze, start: Cell, g: seq<seq<int>>, tree: map<Cell, Cell>, depth: map<Cell, int>)
  {
    GrownParts(m0, start, g, tree, depth) == true
  }

  /** A grid whose only change from an untouched maze is the TREE start passage is grown with the one-cell record. */
  lemma Seeded(m0: Maze, start: Cell, g: seq<seq<int>>)
    requires Untouched(m0) && start in m0.graph
    requires forall d :: At(g, d) == if d == start then TREE else At(m0.grid, d)
    ensures Grown(m0, start, g, map[start := start], map[start := 0])
  {
    var tree := map[start := start];
    forall a, b | Linked(m0, a, b)
      ensures At(g, Mid(a, b)) == TREE <==> TreeEdge(tree, start, a, b)
    {
      LinkedWall(m0, a, b);
      MidOfAdjacent(m0, a, b);
    }
    assert GrownParts(m0, start, g, tree, map[start := 0]);
  }

  /** The record after attaching `child` below `parent` is still rooted and still links listed neighbours. */
  lemma AttachRecords(m0: Maze, start: Cell, tree: map<Cell, Cell>, depth: map<Cell, int>,
                      parent: Cell, child: Cell, tree': map<Cell, Cell>, depth': map<Cell, int>)
    requires start in tree && Rooted(start, tree, depth)
    requires forall c {:trigger tree[c]} :: c in tree ==> c in m0.graph && (c != start ==> Linked(m0, tree[c], c))
    requires parent in tree && Linked(m0, parent, child) && child !in tree && child in m0.graph
    requires tree' == tree[child := parent] && depth' == depth[child := depth[parent] + 1]
    ensures start in tree' && Rooted(start, tree', depth')
    ensures forall c {:trigger tree'[c]} :: c in tree' ==> c in m0.graph && (c != start ==> Linked(m0, tree'[c], c))
  {
    RecordKeeps(start, tree, depth, Entry(parent, child, depth[parent] + 1), tree', depth');
  }

  /** A passage attached below itself: its wall to itself is the passage. */
  lemma MidSelf(c: Cell)
    ensures Mid(c, c) == c
  {
  }

  /** The new grid after attaching `child` below `parent`. */
  ghost predicate Attached(g: seq<seq<int>>, parent: Cell, child: Cell, g': seq<seq<int>>)
  {
    forall d :: At(g', d) == if d == child || d == Mid(parent, child) then TREE else At(g, d)
  }

  /** After attaching, the wall between the listed neighbours `a` and `b` is TREE exactly when it is a tree edge. */
  lemma AttachWall(m0: Maze, start: Cell, g: seq<seq<int>>, tree: map<Cell, Cell>, depth: map<Cell, int>,
                   parent: Cell, child: Cell, g': seq<seq<int>>, tree': map<Cell, Cell>, a: Cell, b: Cell)
    requires Valid(m0) && start in tree && Rooted(start, tree, depth)
    requires parent in tree && Linked(m0, parent, child) && child !in tree
    requires Linked(m0, a, b) && (At(g, Mid(a, b)) == TREE <==> TreeEdge(tree, start, a, b))
    requires Attached(g, parent, child, g') && tree' == tree[child := parent]
    ensures At(g', Mid(a, b)) == TREE <==> TreeEdge(tree', start, a, b)
  {
    LinkedWall(m0, parent, child);
    LinkedWall(m0, a, b);
    MidOfAdjacent(m0, a, b);
    if Mid(a, b) == Mid(parent, child) {
      MidDeterminesPair(m0, a, b, parent, child);
    } else {
      assert Mid(a, b) != child;
      assert At(g', Mid(a, b)) == At(g, Mid(a, b));
      if a == child {
        assert b != parent && b != child;
        assert !(b in tree && b != start && tree[b] == child);
      } else if b == child {
        assert a != parent && a != child;
        assert !(a in tree && a != start && tree[a] == child);
      }
    }
  }

  /** After attaching, a passage is TREE exactly when it is recorded, and every changed cell is TREE. */
  lemma AttachCells(m0: Maze, start: Cell, g: seq<seq<int>>, tree: map<Cell, Cell>, depth: map<Cell, int>,
                    parent: Cell, child: Cell, g': seq<seq<int>>, tree': map<Cell, Cell>)
    requires Valid(m0) && Linked(m0, parent, child)
    requires forall c :: c in m0.graph ==> (At(g, c) == TREE <==> c in tree)
    requires forall d :: At(g, d) != At(m0.grid, d) ==> At(g, d) == TREE
    requires Attached(g, parent, child, g') && tree' == tree[child := parent]
    ensures forall c :: c in m0.graph ==> (At(g', c) == TREE <==> c in tree')
    ensures forall d :: At(g', d) != At(m0.grid, d) ==> At(g', d) == TREE
  {
    LinkedWall(m0, parent, child);
  }

  /** Attaching a new passage below a tree passage keeps the grid grown. */
  lemma AttachKeeps(m0: Maze, start: Cell, g: seq<seq<int>>, tree: map<Cell, Cell>, depth: map<Cell, int>,
                    parent: Cell, child: Cell, g': seq<seq<int>>, tree': map<Cell, Cell>, depth': map<Cell, int>)
    requires Grown(m0, start, g, tree, depth)
    requires parent in tree && Linked(m0, parent, child) && child !in tree
    requires Attached(g, parent, child, g')
    requires tree' == tree[child := parent] && depth' == depth[child := depth[parent] + 1]
    ensures Grown(m0, start, g', tree', depth')
  {
    LinkedWall(m0, parent, child);
    AttachRecords(m0, start, tree, depth, parent, child, tree', depth');
    AttachCells(m0, start, g, tree, depth, parent, child, g', tree');
    forall a, b | Linked(m0, a, b)
      ensures At(g', Mid(a, b)) == TREE <==> TreeEdge(tree', start, a, b)
    {
      AttachWall(m0, start, g, tree, depth, parent, child, g', tree', a, b);
    }
    assert GrownParts(m0, start, g', tree', depth');
  }

  /** Every listed neighbour of a tree passage is in the tree or waits in the frontier `links` behind that passage. */
  ghost predicate Pending(m0: Maze, tree: map<Cell, Cell>, links: seq<(Cell, Cell)>)
  {
    forall t, v :: t in tree && Linked(m0, t, v) ==> v in tree || (t, v) in links
  }

  /** Every frontier entry leads from a tree passage to one of its listed neighbours. */
  ghost predicate Hanging(m0: Maze, tree: map<Cell, Cell>, links: seq<(Cell, Cell)>)
  {
    forall k :: 0 <= k < |links| ==> links[k].0 in tree && Linked(m0, links[k].0, links[k].1)
  }

  /** The entries pushed for a passage: one per listed neighbour. */
  ghost predicate PushedAll(m0: Maze, t: Cell, pushed: seq<(Cell, Cell)>)
  {
    && (forall v :: Linked(m0, t, v) ==> (t, v) in pushed)
    && (forall k :: 0 <= k < |pushed| ==> pushed[k].0 == t && Linked(m0, t, pushed[k].1))
  }

  /**
   Taking entry `k` off the frontier keeps `Pending` and `Hanging` when its
   child ends in the tree, the only passage added (if any) is that child, and
   the entries pushed for an added child are one per listed neighbour.
   */
  lemma PendingKeeps(m0: Maze, tree: map<Cell, Cell>, links: seq<(Cell, Cell)>, k: nat,
                      tree': map<Cell, Cell>, pushed: seq<(Cell, Cell)>, links': seq<(Cell, Cell)>)
    requires Pending(m0, tree, links) && Hanging(m0, tree, links)
    requires k < |links| && links[k].1 in tree' && tree.Keys <= tree'.Keys
    requires forall t :: t in tree' && t !in tree ==> t == links[k].1
    requires if links[k].1 in tree then pushed == [] else PushedAll(m0, links[k].1, pushed)
    requires links' == Remove(links, k) + pushed
    ensures Pending(m0, tree', links') && Hanging(m0, tree', links')
  {
    var c := links[k].1;
    forall t, v | t in tree' && Linked(m0, t, v)
      ensures v in tree' || (t, v) in links'
    {
      if v !in tree' {
        if t in tree {
          assert (t, v) in links && (t, v) != links[k];
          RemoveKeeps(links, k, (t, v));
        } else {
          assert t == c && c !in tree;
          assert (t, v) in pushed;
        }
      }
    }
    forall j | 0 <= j < |links'|
      ensures links'[j].0 in tree' && Linked(m0, links'[j].0, links'[j].1)
    {
      if j < |links| - 1 {
        if j < k {
          assert links'[j] == links[j];
        } else {
          assert links'[j] == links[j + 1];
        }
      } else {
        assert links'[j] == pushed[j - (|links| - 1)];
      }
    }
  }

  /** A walk along listed neighbours. */
  ghost predicate Walk(m0: Maze, p: seq<Cell>)
  {
    |p| > 0 && forall j :: 0 <= j < |p| - 1 ==> Linked(m0, p[j], p[j + 1])
  }

  /** A record closed under adjacency holds the end of every walk that starts in it. */
  lemma {:induction false} ClosedHoldsWalks(m0: Maze, tree: map<Cell, Cell>, p: seq<Cell>)
    requires Walk(m0, p) && p[0] in tree
    requires forall t, v :: t in tree && Linked(m0, t, v) ==> v in tree
    ensures Last(p) in tree
    decreases |p|
  {
    if |p| > 1 {
      var tail := p[1..];
      assert Linked(m0, p[0], p[1]);
      assert forall j :: 0 <= j < |tail| ==> tail[j] == p[j + 1];
      ClosedHoldsWalks(m0, tree, tail);
      assert Last(tail) == Last(p);
    }
  }

  /**
   The spanning-tree outcome of an emptied frontier: every passage reachable
   from `start` along listed neighbours is a TREE passage of the record.
   */
  lemma EmptyFrontierSpans(m0: Maze, start: Cell, g: seq<seq<int>>, tree: map<Cell, Cell>, depth: map<Cell, int>, p: seq<Cell>)
    requires Grown(m0, start, g, tree, depth) && Pending(m0, tree, [])
    requires Walk(m0, p) && p[0] == start
    ensures Last(p) in tree && At(g, Last(p)) == TREE
  {
    ClosedHoldsWalks(m0, tree, p);
  }

  /** The chain of recorded parents from `c` up to `start`, read as the search read-back reads it. */
  ghost function Ancestry(tree: map<Cell, Cell>, start: Cell, depth: map<Cell, int>, c: Cell): (p: seq<Cell>)
    requires start in tree && Rooted(start, tree, depth) && c in tree
    ensures TracesBack(tree, start, c, p) && |p| == depth[c] + 1
    decreases depth[c]
  {
    if c == start then [c]
    else
      var rest := Ancestry(tree, start, depth, tree[c]);
      ChainPrepends(tree, start, c, rest);
      [c] + rest
  }

  /** A chain read back from the parent of `c` extends to one read back from `c`. */
  lemma ChainPrepends(tree: map<Cell, Cell>, start: Cell, c: Cell, p: seq<Cell>)
    requires Chain(tree, start, p) && |p| > 0 && ParentLink(tree, start, c, p[0])
    ensures Chain(tree, start, [c] + p)
  {
    var q := [c] + p;
    forall i | 0 <= i < |q| - 1
      ensures ParentLink(tree, start, q[i], q[i + 1])
    {
      if i > 0 {
        assert q[i] == p[i - 1] && q[i + 1] == p[i];
      }
    }
  }
}
