/**
 The main loop of `src/wilson/kruskal.py`: every passage starts as its own
 set; the edges are taken in nondecreasing weight, and an edge whose ends
 lie in different sets joins the two sets by rank and marks both ends and
 the wall between them TREE.
 */
module Kruskal {
  import opened Wrappers
  import opened Grid
  import opened Frames
  import opened Trees
  import opened Edges
  import opened UnionFind

  /** The loop state: the maze and the disjoint sets. */
  datatype State = State(maze: Maze, sets: Sets)

  /** Every edge of `order` joins two listed neighbours. */
  ghost predicate Listed(m0: Maze, order: seq<Edge>)
  {
    forall j :: 0 <= j < |order| ==> Linked(m0, order[j].u, order[j].v)
  }

  /** `a` and `b`, when both are passages of the forest, lie in one set. */
  ghost predicate Together(ds: Sets, bound: int, a: Cell, b: Cell)
    requires Forest(ds, bound)
  {
    a in ds.parent && b in ds.parent ==> Root(ds, bound, a) == Root(ds, bound, b)
  }

  /** The first `i` edges of `order` have their two ends in one set. */
  ghost predicate Joined(ds: Sets, bound: int, order: seq<Edge>, i: int)
  {
    && Forest(ds, bound) && 0 <= i <= |order|
    && forall j :: 0 <= j < i ==> Together(ds, bound, order[j].u, order[j].v)
  }

  /** The maze half of the loop invariant: the layout is unchanged and every edge joins two neighbours. */
  ghost predicate Framed(m0: Maze, order: seq<Edge>, m: Maze)
  {
    Valid(m0) && Listed(m0, order) && Valid(m) && SameLayout(m0, m)
  }

  /**
   The set half of the loop invariant after `i` edges: the sets form a
   forest over the passages `g` whose ranks are at most `i`, the first `i`
   edges are inside single sets, and each carved edge has removed one set.
   */
  ghost predicate Merging(g: map<Cell, seq<Cell>>, order: seq<Edge>, i: int, ds: Sets, carved: int)
  {
    && 0 <= i <= |order|
    && ds.parent.Keys == g.Keys
    && Forest(ds, |order|) && RanksAtMost(ds, i)
    && carved + |Roots(ds)| == |g.Keys|
    && Joined(ds, |order|, order, i)
  }

  /** `Framed` compared with `true`, so that it is one proof obligation: the verifier would otherwise split it into its conjuncts at every use and prove each one separately. */
  ghost predicate Kept(m0: Maze, order: seq<Edge>, m: Maze)
  {
    Framed(m0, order, m) == true
  }

  /** `Merging` compared with `true`, so that it is one proof obligation: the verifier would otherwise split it into its conjuncts at every use and prove each one separately. */
  ghost predicate Merged(g: map<Cell, seq<Cell>>, order: seq<Edge>, i: int, ds: Sets, carved: int)
  {
    Merging(g, order, i, ds, carved) == true
  }

  /** The loop invariant after `i` edges, `tree` being the carved edges: the maze, the set and the grid halves. */
  ghost predicate KruskalInv(m0: Maze, order: seq<Edge>, i: int, s: State, carved: int, tree: seq<Edge>)
  {
    Kept(m0, order, s.maze) && Merged(m0.graph, order, i, s.sets, carved) && Carved(m0, order, i, tree, carved, s.maze)
  }

  /** The ends of the next edge are neighbouring passages whose wall lies inside the grid. */
  lemma NextInGrid(m0: Maze, order: seq<Edge>, i: int, m: Maze, u: Cell, v: Cell)
    requires Framed(m0, order, m) && 0 <= i < |order|
    requires order[i].u == u && order[i].v == v
    ensures u in m0.graph && v in m0.graph && u != v && Mid(u, v) != u && Mid(u, v) != v
    ensures Shaped(m) && InBounds(m, u) && InBounds(m, v) && InBounds(m, Mid(u, v))
  {
    LinkedWall(m0, u, v);
  }

  /** The ends of the next edge are passages of the forest. */
  lemma NextInSets(g: map<Cell, seq<Cell>>, order: seq<Edge>, i: int, ds: Sets, carved: int, u: Cell, v: Cell)
    requires Merged(g, order, i, ds, carved) && u in g && v in g
    ensures Forest(ds, |order|) && u in ds.parent && v in ds.parent
  {
  }

  /** `ds'` is the forest `ds` with the distinct roots `r1` and `r2` joined. */
  ghost predicate Joining(ds: Sets, bound: int, r1: Cell, r2: Cell, ds': Sets)
  {
    && Forest(ds, bound) && Forest(ds', bound)
    && r1 in ds.parent && r2 in ds.parent && ds.parent[r1] == r1 && ds.parent[r2] == r2 && r1 != r2
    && ds' == Link(ds, r1, r2)
  }

  /** `Joining` compared with `true`, so that it is one proof obligation: the verifier would otherwise split it into its conjuncts at every use and prove each one separately. */
  ghost predicate Joins(ds: Sets, bound: int, r1: Cell, r2: Cell, ds': Sets)
  {
    Joining(ds, bound, r1, r2, ds') == true
  }

  /** `ds'` is `ds` with the different sets of `u` and `v` joined by rank. */
  ghost predicate Unites(ds: Sets, bound: int, u: Cell, v: Cell, ds': Sets)
  {
    && Forest(ds, bound) && u in ds.parent && v in ds.parent
    && Root(ds, bound, u) != Root(ds, bound, v)
    && ds' == Link(ds, Root(ds, bound, u), Root(ds, bound, v))
  }

  /** Joining the sets of roots `r1` and `r2` keeps the passages of any one set together, and puts `r1`'s set with `r2`'s. */
  lemma StayJoined(ds: Sets, bound: int, r1: Cell, r2: Cell, ds': Sets, a: Cell, b: Cell)
    requires Joins(ds, bound, r1, r2, ds')
    requires Together(ds, bound, a, b)
      || (a in ds.parent && b in ds.parent && Root(ds, bound, a) == r1 && Root(ds, bound, b) == r2)
    ensures Together(ds', bound, a, b)
  {
    if a in ds.parent && b in ds.parent {
      RootAfterLink(ds, bound, r1, r2, ds', a);
      RootAfterLink(ds, bound, r1, r2, ds', b);
      var w := Winner(ds, r1, r2);
      if Root(ds, bound, a) == r1 && Root(ds, bound, b) == r2 {
        assert Root(ds', bound, a) == w;
        assert Root(ds', bound, b) == w;
      } else {
        assert Root(ds, bound, a) == Root(ds, bound, b);
      }
    } else {
      assert Loser(ds, r1, r2) in ds.parent;
    }
  }

  /** Joining two sets keeps the ends of each of the first `i` edges in one set. */
  lemma StayJoinedAt(ds: Sets, bound: int, r1: Cell, r2: Cell, ds': Sets, order: seq<Edge>, i: int, j: int)
    requires Joined(ds, bound, order, i) && Joins(ds, bound, r1, r2, ds') && 0 <= j < i
    ensures Together(ds', bound, order[j].u, order[j].v)
  {
    StayJoined(ds, bound, r1, r2, ds', order[j].u, order[j].v);
  }

  /** After joining the sets of `u` and `v`, the first `i + 1` edges are inside single sets. */
  lemma JoinedAfterLink(ds: Sets, bound: int, order: seq<Edge>, i: int, u: Cell, v: Cell, r1: Cell, r2: Cell, ds': Sets)
    requires Joined(ds, bound, order, i) && Joins(ds, bound, r1, r2, ds') && i < |order|
    requires order[i].u == u && order[i].v == v && u in ds.parent && v in ds.parent
    requires r1 == Root(ds, bound, u) && r2 == Root(ds, bound, v)
    ensures Joined(ds', bound, order, i + 1)
  {
    forall j | 0 <= j < i
      ensures Together(ds', bound, order[j].u, order[j].v)
    {
      StayJoinedAt(ds, bound, r1, r2, ds', order, i, j);
    }
    StayJoined(ds, bound, r1, r2, ds', u, v);
  }

  /** An edge inside one set leaves the sets as they are, and the first `i + 1` edges are inside single sets. */
  lemma JoinedAfterSkip(ds: Sets, bound: int, order: seq<Edge>, i: int, u: Cell, v: Cell)
    requires Joined(ds, bound, order, i) && i < |order|
    requires order[i].u == u && order[i].v == v
    requires Together(ds, bound, u, v)
    ensures Joined(ds, bound, order, i + 1)
  {
  }

  /** Joining the sets of the next edge's ends keeps the set half of the invariant, with one more carved edge. */
  lemma MergeAfterLink(g: map<Cell, seq<Cell>>, order: seq<Edge>, i: int, ds: Sets, carved: int, u: Cell, v: Cell,
                       r1: Cell, r2: Cell, ds': Sets)
    requires Merged(g, order, i, ds, carved) && i < |order|
    requires order[i].u == u && order[i].v == v
    requires u in ds.parent && v in ds.parent && Forest(ds, |order|)
    requires r1 == Root(ds, |order|, u) && r2 == Root(ds, |order|, v) && r1 != r2
    requires ds' == Link(ds, r1, r2)
    ensures Merging(g, order, i + 1, ds', carved + 1)
  {
    LinkKeeps(ds, |order|, i, r1, r2, ds');
    assert Joining(ds, |order|, r1, r2, ds');
    JoinedAfterLink(ds, |order|, order, i, u, v, r1, r2, ds');
  }

  /** An edge inside one set keeps the set half of the invariant. */
  lemma MergeAfterSkip(g: map<Cell, seq<Cell>>, order: seq<Edge>, i: int, ds: Sets, carved: int, u: Cell, v: Cell)
    requires Merged(g, order, i, ds, carved) && i < |order|
    requires order[i].u == u && order[i].v == v
    requires Forest(ds, |order|) && Together(ds, |order|, u, v)
    ensures Merging(g, order, i + 1, ds, carved)
  {
    JoinedAfterSkip(ds, |order|, order, i, u, v);
  }

  /** `g'` is `g` with `u`, `v` and the wall between them TREE. */
  ghost predicate Marked(g: seq<seq<int>>, u: Cell, v: Cell, g': seq<seq<int>>)
  {
    forall d :: At(g', d) == if d == u || d == v || d == Mid(u, v) then TREE else At(g, d)
  }

  /** The cells the carved edges `tree` mark: both ends of each and the wall between them. */
  function Marks(tree: seq<Edge>): (s: set<Cell>)
    ensures forall k :: 0 <= k < |tree| ==> tree[k].u in s && tree[k].v in s && Mid(tree[k].u, tree[k].v) in s
    decreases |tree|
  {
    if tree == [] then {}
    else
      var e := tree[|tree| - 1];
      Marks(tree[..|tree| - 1]) + {e.u, e.v, Mid(e.u, e.v)}
  }

  /** The walls of the carved edges `tree`. */
  function Mids(tree: seq<Edge>): (s: set<Cell>)
    ensures forall k :: 0 <= k < |tree| ==> Mid(tree[k].u, tree[k].v) in s
    ensures forall d :: d in s ==> exists k :: 0 <= k < |tree| && d == Mid(tree[k].u, tree[k].v)
    decreases |tree|
  {
    if tree == [] then {}
    else
      var e := tree[|tree| - 1];
      Mids(tree[..|tree| - 1]) + {Mid(e.u, e.v)}
  }

  /** `g` is the starting grid `g0` with every cell the carved edges mark TREE. */
  ghost predicate Painted(g0: seq<seq<int>>, tree: seq<Edge>, g: seq<seq<int>>)
  {
    forall d :: At(g, d) == if d in Marks(tree) then TREE else At(g0, d)
  }

  /**
   The grid half of the loop invariant after `i` edges, `tree` being the
   edges carved so far: each is one of the first `i` items, there are
   `carved` of them, no two share a wall, and the grid is the starting grid
   with their ends and walls TREE.
   */
  ghost predicate Carving(m0: Maze, order: seq<Edge>, i: int, tree: seq<Edge>, carved: int, m: Maze)
  {
    && 0 <= i <= |order|
    && Chosen(order, i, tree)
    && |tree| == carved && |Mids(tree)| == carved
    && Painted(m0.grid, tree, m.grid)
  }

  /** Every edge of `tree` is one of the first `i` items of `order`. */
  ghost predicate Chosen(order: seq<Edge>, i: int, tree: seq<Edge>)
    requires 0 <= i <= |order|
  {
    forall k :: 0 <= k < |tree| ==> tree[k] in order[..i]
  }

  /** The items chosen among the first `i` stay chosen among the first `i + 1`, and item `i` joins them. */
  lemma ChosenNext(order: seq<Edge>, i: int, tree: seq<Edge>, tree': seq<Edge>)
    requires 0 <= i < |order| && Chosen(order, i, tree)
    requires tree' == tree || tree' == tree + [order[i]]
    ensures Chosen(order, i + 1, tree')
  {
    assert order[..i + 1] == order[..i] + [order[i]];
  }

  /** `Carving` compared with `true`, so that it is one proof obligation: the verifier would otherwise split it into its conjuncts at every use and prove each one separately. */
  ghost predicate Carved(m0: Maze, order: seq<Edge>, i: int, tree: seq<Edge>, carved: int, m: Maze)
  {
    Carving(m0, order, i, tree, carved, m) == true
  }

  /** Carving one more edge adds its two ends and its wall to the marked cells and its wall to the walls. */
  lemma MarksAppend(tree: seq<Edge>, e: Edge)
    ensures Marks(tree + [e]) == Marks(tree) + {e.u, e.v, Mid(e.u, e.v)}
    ensures Mids(tree + [e]) == Mids(tree) + {Mid(e.u, e.v)}
  {
    assert (tree + [e])[..|tree|] == tree;
  }

  /**
   No carved edge has the wall of the edge `(u, v)` whose ends lie in
   different sets: a carved edge lies inside one set, and a wall belongs to
   one pair of passages only.
   */
  lemma FreshWall(m0: Maze, order: seq<Edge>, i: int, tree: seq<Edge>, ds: Sets, u: Cell, v: Cell)
    requires Valid(m0) && Listed(m0, order) && Joined(ds, |order|, order, i) && i < |order|
    requires Chosen(order, i, tree)
    requires order[i].u == u && order[i].v == v && !Together(ds, |order|, u, v)
    ensures Mid(u, v) !in Mids(tree)
  {
    if Mid(u, v) in Mids(tree) {
      var k :| 0 <= k < |tree| && Mid(u, v) == Mid(tree[k].u, tree[k].v);
      var j :| 0 <= j < i && order[j] == tree[k];
      assert Together(ds, |order|, order[j].u, order[j].v);
      LinkedWall(m0, u, v);
      LinkedWall(m0, order[j].u, order[j].v);
      MidDeterminesPair(m0, u, v, order[j].u, order[j].v);
      assert false;
    }
  }

  /** Marking the ends and the wall of one more edge paints the grid of one more carved edge. */
  lemma PaintAfterMark(g0: seq<seq<int>>, tree: seq<Edge>, e: Edge, g: seq<seq<int>>, g': seq<seq<int>>, tree': seq<Edge>)
    requires Painted(g0, tree, g) && Marked(g, e.u, e.v, g') && tree' == tree + [e]
    ensures Painted(g0, tree', g')
  {
    MarksAppend(tree, e);
  }

  /** An edge with a wall of its own adds one wall. */
  lemma MidsGrow(tree: seq<Edge>, e: Edge, tree': seq<Edge>)
    requires Mid(e.u, e.v) !in Mids(tree) && tree' == tree + [e]
    ensures |Mids(tree')| == |Mids(tree)| + 1
  {
    MarksAppend(tree, e);
  }

  /** Carving the next edge keeps the grid half of the invariant, with one more carved edge. */
  lemma CarveAfterLink(m0: Maze, order: seq<Edge>, i: int, tree: seq<Edge>, carved: int, m: Maze,
                       ds: Sets, u: Cell, v: Cell, m': Maze, tree': seq<Edge>)
    requires Carved(m0, order, i, tree, carved, m) && Valid(m0) && Listed(m0, order)
    requires Joined(ds, |order|, order, i) && i < |order|
    requires order[i].u == u && order[i].v == v && !Together(ds, |order|, u, v)
    requires Marked(m.grid, u, v, m'.grid) && tree' == tree + [order[i]]
    ensures Carving(m0, order, i + 1, tree', carved + 1, m')
  {
    FreshWall(m0, order, i, tree, ds, u, v);
    MidsGrow(tree, order[i], tree');
    PaintAfterMark(m0.grid, tree, order[i], m.grid, m'.grid, tree');
    ChosenNext(order, i, tree, tree');
  }

  /** Skipping the next edge keeps the grid half of the invariant. */
  lemma CarveAfterSkip(m0: Maze, order: seq<Edge>, i: int, tree: seq<Edge>, carved: int, m: Maze)
    requires Carved(m0, order, i, tree, carved, m) && i < |order|
    ensures Carving(m0, order, i + 1, tree, carved, m)
  {
    ChosenNext(order, i, tree, tree);
  }

  /** A round keeps the grid half of the invariant, carving the edge exactly when its ends were in different sets. */
  lemma RoundCarves(m0: Maze, order: seq<Edge>, i: int, tree: seq<Edge>, carved: int, m: Maze, ds: Sets,
                    u: Cell, v: Cell, m': Maze, tree': seq<Edge>, carved': int)
    requires Kept(m0, order, m) && Carved(m0, order, i, tree, carved, m) && Merged(m0.graph, order, i, ds, carved)
    requires i < |order| && order[i].u == u && order[i].v == v
    requires Forest(ds, |order|) && u in ds.parent && v in ds.parent
    requires Together(ds, |order|, u, v) ==> m'.grid == m.grid && tree' == tree && carved' == carved
    requires !Together(ds, |order|, u, v) ==>
      Marked(m.grid, u, v, m'.grid) && tree' == tree + [order[i]] && carved' == carved + 1
    ensures Carving(m0, order, i + 1, tree', carved', m')
  {
    if Together(ds, |order|, u, v) {
      CarveAfterSkip(m0, order, i, tree, carved, m);
    } else {
      CarveAfterLink(m0, order, i, tree, carved, m, ds, u, v, m', tree');
    }
  }

  /**
   Off the passages the marked cells are the walls: the ends of every carved
   edge are passages, its wall is not.
   */
  lemma {:induction false} MarksOffPassages(m0: Maze, tree: seq<Edge>, d: Cell)
    requires Valid(m0) && d !in m0.graph
    requires forall k :: 0 <= k < |tree| ==> Linked(m0, tree[k].u, tree[k].v)
    ensures d in Marks(tree) <==> d in Mids(tree)
    decreases |tree|
  {
    if tree != [] {
      var e := tree[|tree| - 1];
      LinkedWall(m0, e.u, e.v);
      MarksOffPassages(m0, tree[..|tree| - 1], d);
    }
  }

  /**
   Mark both ends of an edge and the wall between them TREE
   (kruskal.py:75-77): `u` first, then `v` and the wall as attaching `v`
   below `u` does.
   */
  function Join(m: Maze, u: Cell, v: Cell): (m': Maze)
    requires Shaped(m) && InBounds(m, u) && InBounds(m, v) && InBounds(m, Mid(u, v))
    ensures Shaped(m') && SameLayout(m, m') && m'.numChanges == m.numChanges + 3
    ensures Marked(m.grid, u, v, m'.grid)
    ensures TrackerOk(m) ==> TrackerOk(m')
    ensures Valid(m) ==> Valid(m')
  {
    var m1 := MarkCell(m, u, TREE);
    assert forall d :: At(m1.grid, d) == if d == u then TREE else At(m.grid, d) by {
      forall d ensures At(m1.grid, d) == if d == u then TREE else At(m.grid, d) {
        if InBounds(m, d) {
          AtIsGet(m, d);
          AtIsGet(m1, d);
        }
      }
    }
    Attach(m1, u, v)
  }

  /**
   One round of the main loop (kruskal.py:64-78): find the roots of both
   ends; if they differ, join the two sets by rank, mark both ends and the
   wall between them TREE and let the canvas take a frame if enough changes
   are pending; otherwise change nothing.
   */
  method Process(cv: Canvas, s: State, u: Cell, v: Cell, ghost bound: int) returns (s': State, frame: Option<Frame>)
    requires Forest(s.sets, bound) && u in s.sets.parent && v in s.sets.parent
    requires Shaped(s.maze) && TrackerOk(s.maze)
    requires InBounds(s.maze, u) && InBounds(s.maze, v) && InBounds(s.maze, Mid(u, v))
    ensures Together(s.sets, bound, u, v) ==> s' == s && frame.None?
    ensures !Together(s.sets, bound, u, v) ==>
      Unites(s.sets, bound, u, v, s'.sets) && Marked(s.maze.grid, u, v, s'.maze.grid)
    ensures SameLayout(s.maze, s'.maze) && TrackerOk(s'.maze) && (Valid(s.maze) ==> Valid(s'.maze))
  {
    var root1 := Find(s.sets, u, bound);
    var root2 := Find(s.sets, v, bound);
    if root1 != root2 {
      var fr := RefreshFrame(cv, Join(s.maze, u, v));
      s' := State(fr.1, Link(s.sets, root1, root2));
      frame := fr.0;
    } else {
      s' := s;
      frame := None;
    }
  }

  /** A round keeps the set half of the invariant, counting one more carved edge when it joined two sets. */
  lemma RoundKeeps(g: map<Cell, seq<Cell>>, order: seq<Edge>, i: int, ds: Sets, carved: int, u: Cell, v: Cell, ds': Sets, carved': int)
    requires Merged(g, order, i, ds, carved) && i < |order|
    requires order[i].u == u && order[i].v == v
    requires Forest(ds, |order|) && u in ds.parent && v in ds.parent
    requires Together(ds, |order|, u, v) ==> ds' == ds && carved' == carved
    requires !Together(ds, |order|, u, v) ==> Unites(ds, |order|, u, v, ds') && carved' == carved + 1
    ensures Merging(g, order, i + 1, ds', carved')
  {
    if Together(ds, |order|, u, v) {
      MergeAfterSkip(g, order, i, ds, carved, u, v);
    } else {
      MergeAfterLink(g, order, i, ds, carved, u, v, Root(ds, |order|, u), Root(ds, |order|, v), ds');
    }
  }

  /** The sorted items of the dictionary: the weighted keys visited for the passages, in nondecreasing weight. */
  ghost predicate Sorted(m0: Maze, draw: nat -> int, order: seq<Edge>)
    requires forall c :: c in m0.cells ==> c in m0.graph
  {
    Ascending(order) && multiset(order) == multiset(Weigh(EdgeKeys(m0, m0.cells), draw, 0))
  }

  /** Every sorted item joins two listed neighbours. */
  lemma SortedListed(m0: Maze, draw: nat -> int, order: seq<Edge>)
    requires Valid(m0) && Sorted(m0, draw, order)
    ensures Listed(m0, order)
  {
    var w := Weigh(EdgeKeys(m0, m0.cells), draw, 0);
    forall j | 0 <= j < |order|
      ensures Linked(m0, order[j].u, order[j].v)
    {
      assert order[j] in multiset(w);
      var k :| 0 <= k < |w| && w[k] == order[j];
      assert EdgeKeys(m0, m0.cells)[k] in EdgeKeys(m0, m0.cells);
    }
  }

  /** Before the loop every passage is its own set, and no edge has been carved. */
  lemma StartMerged(m0: Maze, order: seq<Edge>)
    requires Valid(m0)
    ensures Merging(m0.graph, order, 0, Singletons(m0.cells), 0)
  {
    var ds := Singletons(m0.cells);
    assert ds.parent.Keys == m0.graph.Keys;
    assert Roots(ds) == m0.graph.Keys;
  }

  /**
   Once every sorted item is inside one set, every two neighbouring
   passages are in one set: each pair of neighbours is one of the items,
   in one orientation.
   */
  lemma SortedCovers(m0: Maze, draw: nat -> int, order: seq<Edge>, ds: Sets, a: Cell, b: Cell)
    requires Valid(m0) && Simple(m0) && Sorted(m0, draw, order)
    requires Joined(ds, |order|, order, |order|) && Linked(m0, a, b)
    ensures Together(ds, |order|, a, b)
  {
    var keys := EdgeKeys(m0, m0.cells);
    var w := Weigh(keys, draw, 0);
    KeysOrient(m0, a, b);
    var x, y := if (a, b) in keys then a else b, if (a, b) in keys then b else a;
    assert (x, y) in keys;
    var k :| 0 <= k < |keys| && keys[k] == (x, y);
    assert w[k] in multiset(order);
    var j :| 0 <= j < |order| && order[j] == w[k];
    assert Together(ds, |order|, order[j].u, order[j].v);
  }

  /** One round of the loop (kruskal.py:64-78) keeps the loop invariant. */
  method Step(cv: Canvas, m0: Maze, order: seq<Edge>, i: int, s: State, ghost carved: int, ghost tree: seq<Edge>)
    returns (s': State, frame: Option<Frame>, ghost carved': int, ghost tree': seq<Edge>)
    requires 0 <= i < |order| && KruskalInv(m0, order, i, s, carved, tree)
    ensures Kept(m0, order, s'.maze)
    ensures carved' == if Together(s.sets, |order|, order[i].u, order[i].v) then carved else carved + 1
    ensures KruskalInv(m0, order, i + 1, s', carved', tree')
  {
    var u, v := order[i].u, order[i].v;
    NextInGrid(m0, order, i, s.maze, u, v);
    NextInSets(m0.graph, order, i, s.sets, carved, u, v);
    s', frame := Process(cv, s, u, v, |order|);
    carved' := if Together(s.sets, |order|, u, v) then carved else carved + 1;
    tree' := if Together(s.sets, |order|, u, v) then tree else tree + [order[i]];
    Advance(m0, order, i, s, carved, tree, u, v, s', carved', tree');
  }

  /** A round keeps all three halves of the loop invariant. */
  lemma Advance(m0: Maze, order: seq<Edge>, i: int, s: State, carved: int, tree: seq<Edge>,
                u: Cell, v: Cell, s': State, carved': int, tree': seq<Edge>)
    requires 0 <= i < |order| && KruskalInv(m0, order, i, s, carved, tree)
    requires order[i].u == u && order[i].v == v
    requires Forest(s.sets, |order|) && u in s.sets.parent && v in s.sets.parent
    requires Together(s.sets, |order|, u, v) ==> s' == s && carved' == carved && tree' == tree
    requires !Together(s.sets, |order|, u, v) ==>
      && Unites(s.sets, |order|, u, v, s'.sets) && Marked(s.maze.grid, u, v, s'.maze.grid)
      && carved' == carved + 1 && tree' == tree + [order[i]]
    requires Valid(s'.maze) && SameLayout(s.maze, s'.maze)
    ensures KruskalInv(m0, order, i + 1, s', carved', tree')
  {
    RoundKeeps(m0.graph, order, i, s.sets, carved, u, v, s'.sets, carved');
    RoundCarves(m0, order, i, tree, carved, s.maze, s.sets, u, v, s'.maze, tree', carved');
    FramedKeeps(m0, order, s.maze, s'.maze);
  }

  /** A round keeps the maze half of the invariant. */
  lemma FramedKeeps(m0: Maze, order: seq<Edge>, m: Maze, m': Maze)
    requires Kept(m0, order, m) && Valid(m') && SameLayout(m, m')
    ensures Framed(m0, order, m')
  {
  }

  /** The invariant holds before the first edge, on a maze with the starting grid and layout. */
  lemma StartInv(m0: Maze, order: seq<Edge>, m: Maze)
    requires Valid(m0) && Listed(m0, order) && Valid(m) && SameLayout(m0, m) && m.grid == m0.grid
    ensures KruskalInv(m0, order, 0, State(m, Singletons(m0.cells)), 0, [])
  {
    StartMerged(m0, order);
    assert Carving(m0, order, 0, [], 0, m);
  }

  /** The weighted keys in nondecreasing weight (kruskal.py:45-63). */
  method Order(m0: Maze, draw: nat -> int) returns (order: seq<Edge>)
    requires Valid(m0)
    ensures Sorted(m0, draw, order) && Listed(m0, order)
  {
    order := SortByWeight(Weigh(EdgeKeys(m0, m0.cells), draw, 0));
    SortedListed(m0, draw, order);
  }

  /**
   The main loop (kruskal.py:59-78) on the maze `m`, which has the grid and
   layout of `m0`: starting from singleton sets, every edge of `order` is
   processed in turn; afterwards all of them lie inside single sets, and
   the grid is the starting grid with the carved edges `tree` TREE.
   */
  method Run(cv: Canvas, m0: Maze, m: Maze, order: seq<Edge>)
    returns (s: State, frames: seq<Frame>, ghost carved: int, ghost tree: seq<Edge>)
    requires Valid(m0) && Listed(m0, order) && Valid(m) && SameLayout(m0, m) && m.grid == m0.grid
    ensures Kept(m0, order, s.maze)
    ensures KruskalInv(m0, order, |order|, s, carved, tree)
  {
    s := State(m, Singletons(m0.cells));
    StartInv(m0, order, m);
    carved := 0;
    tree := [];
    frames := [];
    var i := 0;
    while i < |order|
      invariant 0 <= i <= |order| && KruskalInv(m0, order, i, s, carved, tree)
      decreases |order| - i
    {
      var frame;
      s, frame, carved, tree := Step(cv, m0, order, i, s, carved, tree);
      i := i + 1;
      frames := Emit(frames, frame);
    }
  }

  /**
   What the carved edges `tree` come to in the grid `g`: there are `carved`
   of them, each a sorted item, no two sharing a wall; `g` is the starting
   grid with their ends and walls TREE, so off the passages the TREE cells
   are the starting grid's TREE cells and the walls of the carved edges.
   */
  ghost predicate CarvedGrid(m0: Maze, order: seq<Edge>, tree: seq<Edge>, carved: int, g: seq<seq<int>>)
  {
    && |tree| == carved && |Mids(tree)| == carved
    && (forall k :: 0 <= k < |tree| ==> tree[k] in order)
    && (forall d :: At(g, d) == if d in Marks(tree) then TREE else At(m0.grid, d))
    && (forall d :: d !in m0.graph ==> (At(g, d) == TREE <==> d in Mids(tree) || At(m0.grid, d) == TREE))
  }

  /** At the end of the loop the carved edges come to `CarvedGrid`, and some set remains when there is a passage. */
  lemma CarvedTotals(m0: Maze, order: seq<Edge>, sets: Sets, carved: int, tree: seq<Edge>, m: Maze)
    requires KruskalInv(m0, order, |order|, State(m, sets), carved, tree)
    ensures CarvedGrid(m0, order, tree, carved, m.grid)
    ensures |m0.graph.Keys| > 0 ==> carved < |m0.graph.Keys|
  {
    TreeListed(m0, order, tree);
    TreeWalls(m0, tree, m.grid);
    SomeSetLeft(m0.graph, |order|, sets, carved);
  }

  /** Every edge chosen among all the items is an item, and so joins two listed neighbours. */
  lemma TreeListed(m0: Maze, order: seq<Edge>, tree: seq<Edge>)
    requires Listed(m0, order) && Chosen(order, |order|, tree)
    ensures forall k :: 0 <= k < |tree| ==> tree[k] in order && Linked(m0, tree[k].u, tree[k].v)
  {
    assert order[..|order|] == order;
    forall k | 0 <= k < |tree|
      ensures tree[k] in order && Linked(m0, tree[k].u, tree[k].v)
    {
      var j :| 0 <= j < |order| && order[j] == tree[k];
    }
  }

  /** Off the passages, a grid painted by edges between neighbours is TREE on their walls and where it was TREE. */
  lemma TreeWalls(m0: Maze, tree: seq<Edge>, g: seq<seq<int>>)
    requires Valid(m0) && Painted(m0.grid, tree, g)
    requires forall k :: 0 <= k < |tree| ==> Linked(m0, tree[k].u, tree[k].v)
    ensures forall d :: d !in m0.graph ==> (At(g, d) == TREE <==> d in Mids(tree) || At(m0.grid, d) == TREE)
  {
    forall d | d !in m0.graph
      ensures At(g, d) == TREE <==> d in Mids(tree) || At(m0.grid, d) == TREE
    {
      MarksOffPassages(m0, tree, d);
    }
  }

  /** A forest over a nonempty set of passages has a root, so fewer edges were carved than there are passages. */
  lemma SomeSetLeft(g: map<Cell, seq<Cell>>, bound: int, sets: Sets, carved: int)
    requires Forest(sets, bound) && sets.parent.Keys == g.Keys && carved + |Roots(sets)| == |g.Keys|
    ensures |g.Keys| > 0 ==> carved < |g.Keys|
  {
    if |g.Keys| > 0 {
      var c :| c in g.Keys;
      assert Root(sets, bound, c) in Roots(sets);
    }
  }

  /**
   The whole script from the fresh maze up to the final flush
   (kruskal.py:45-79): weigh the keys, sort them, make every passage its
   own set, paint the background and process the items in order. At the
   end every two neighbouring passages lie in one set, and each carved edge
   has removed one set, so the carved edges `tree` number the passages less
   the sets. The grid is the starting grid with the ends and walls of the
   carved edges TREE, and no two carved edges share a wall.
   */
  method Build(cv: Canvas, m0: Maze, draw: nat -> int)
    returns (m: Maze, frames: seq<Frame>, order: seq<Edge>, sets: Sets, ghost carved: int, ghost tree: seq<Edge>)
    requires Valid(m0) && Simple(m0)
    ensures Valid(m) && SameLayout(m0, m) && m.numChanges == 0 && m.frameBox.None?
    ensures |frames| > 0 && frames[0] == PaintBackground(cv, m0).0
    ensures Sorted(m0, draw, order)
    ensures Forest(sets, |order|) && sets.parent.Keys == m0.graph.Keys
    ensures forall a, b :: Linked(m0, a, b) ==> Together(sets, |order|, a, b)
    ensures carved + |Roots(sets)| == |m0.graph.Keys|
    ensures CarvedGrid(m0, order, tree, carved, m.grid)
    ensures |m0.graph.Keys| > 0 ==> carved < |m0.graph.Keys|
  {
    order := Order(m0, draw);
    var bg := PaintBackground(cv, m0);
    var s, more;
    s, more, carved, tree := Run(cv, m0, bg.1, order);
    var fr := ClearRemainingChanges(cv, s.maze);
    m := fr.1;
    frames := [bg.0] + Emit(more, fr.0);
    sets := s.sets;
    CarvedTotals(m0, order, sets, carved, tree, s.maze);
    forall a, b | Linked(m0, a, b)
      ensures Together(sets, |order|, a, b)
    {
      SortedCovers(m0, draw, order, sets, a, b);
    }
  }
}
