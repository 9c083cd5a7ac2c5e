/**
 The maze solvers of `src/wilson/search_algorithms.py`: breadth-first and
 depth-first search from `start` across carved walls, recording for every
 reached cell the cell it was reached from, and then reading the route back
 from `end` to `start` along that record.

 Both searches share one loop; they differ only in which end of the frontier
 is taken (`popleft` or `pop`) and in the colour a reached cell gets. The
 searches also keep the distance of every entry: the breadth-first search
 stores it in its queue, the depth-first search does not store it, and here it
 serves both as the colour's argument and as the measure showing the route
 read-back terminates.
 */
module Search {
  import opened Wrappers
  import opened Seqs
  import opened Grid
  import opened Frames

  /** `2 ** n`. */
  function Pow2(n: nat): (p: nat)
    ensures p >= 1
  {
    if n == 0 then 1 else 2 * Pow2(n - 1)
  }

  /**
   `dist_to_color`: the distance modulo the palette size, lifted to FILL when
   it would land on one of the three reserved indices WALL, TREE, PATH.
   */
  function DistToColor(depth: nat, d: int): (c: int)
    ensures c >= FILL
    ensures c == d % Pow2(depth) || c == FILL
    ensures d % Pow2(depth) >= FILL ==> c == d % Pow2(depth)
    ensures c < Pow2(depth) || c == FILL
  {
    var r := d % Pow2(depth);
    if r > FILL then r else FILL
  }

  /** Which search runs: breadth-first, with the writer's colour depth, or depth-first. */
  datatype Policy = Breadth(depth: nat) | Depth

  /** The colour a search paints a cell reached at distance `d`: never WALL, TREE or PATH. */
  function Colour(pol: Policy, d: int): (c: int)
    ensures c >= FILL
    ensures pol.Depth? ==> c == FILL
  {
    match pol
    case Breadth(depth) => DistToColor(depth, d)
    case Depth => FILL
  }

  /** A frontier entry `(parent, child, dist)`. */
  datatype Entry = Entry(parent: Cell, child: Cell, dist: int)

  function Children(q: seq<Entry>): seq<Cell>
  {
    seq(|q|, k requires 0 <= k < |q| => q[k].child)
  }

  function Entries(parent: Cell, ns: seq<Cell>, dist: int): seq<Entry>
  {
    seq(|ns|, k requires 0 <= k < |ns| => Entry(parent, ns[k], dist))
  }

  /** `b` is a listed neighbour of `a` and the wall between them is carved (`not connected`). */
  predicate Carved(m: Maze, a: Cell, b: Cell)
  {
    Linked(m, a, b) && Open(m, a, b)
  }

  /** The wall between `a` and `b` is inside the grid and carved: `not connected(a, b)`. */
  predicate Open(m: Maze, a: Cell, b: Cell)
  {
    Shaped(m) && InBounds(m, Mid(a, b)) && !Connected(m, a, b)
  }

  /** The walls from `c` to each of its listed neighbours lie inside the grid. */
  predicate NeighboursFit(m: Maze, c: Cell)
  {
    c in m.graph && forall i :: 0 <= i < |m.graph[c]| ==> InBounds(m, Mid(c, m.graph[c][i]))
  }

  /**
   `mark_cell(child, colour)` followed by `mark_wall(parent, child, colour)`:
   the taken child and the wall to its parent painted with the colour of the
   child's distance.
   */
  function PaintChild(pol: Policy, m: Maze, e: Entry): (m2: Maze)
    requires Shaped(m) && InBounds(m, e.child) && InBounds(m, Mid(e.parent, e.child))
  {
    MarkWall(MarkCell(m, e.child, Colour(pol, e.dist)), e.parent, e.child, Colour(pol, e.dist))
  }

  /**
   The neighbour loop of one expansion: in neighbour order, every neighbour
   not yet visited whose wall to `child` is carved is pushed and marked
   visited. `r.0` lists the pushed cells, `r.1` is the new visited set.
   */
  function Enqueue(m: Maze, child: Cell, ns: seq<Cell>, visited: set<Cell>): (r: (seq<Cell>, set<Cell>))
    requires Shaped(m) && forall i :: 0 <= i < |ns| ==> InBounds(m, Mid(child, ns[i]))
    ensures NoDup(r.0)
    ensures forall k :: 0 <= k < |r.0| ==> r.0[k] in ns && r.0[k] !in visited && Open(m, child, r.0[k])
    ensures forall x :: x in r.1 <==> x in visited || x in r.0
    ensures forall i :: 0 <= i < |ns| && Open(m, child, ns[i]) ==> ns[i] in r.1
    decreases |ns|
  {
    if |ns| == 0 then ([], visited)
    else
      var tail := ns[1..];
      assert forall i :: 0 <= i < |tail| ==> tail[i] == ns[i + 1];
      if ns[0] !in visited && !Connected(m, child, ns[0]) then
        var (pushed, v) := Enqueue(m, child, tail, visited + {ns[0]});
        ([ns[0]] + pushed, v)
      else
        Enqueue(m, child, tail, visited)
  }

  // ---------------------------------------------------------------------------
  // The search invariant
  // ---------------------------------------------------------------------------

  /**
   What the search has painted, relative to the maze `m0` it started on: the
   layout is unchanged, and a cell differs from `m0` only if it is now
   painted with a colour of at least FILL and is a lattice passage or a wall
   that was already carved. Walls therefore stay WALL exactly when they were.
   */
  ghost predicate Recoloured(m0: Maze, m: Maze)
  {
    && Shaped(m0) && Shaped(m) && SameLayout(m0, m)
    && forall d :: InBounds(m0, d) && Get(m, d) != Get(m0, d) ==>
         Get(m, d) >= FILL && (OnLattice(m0, d) || Get(m0, d) != WALL)
  }

  /**
   The predecessor record `fromTo` of a search from `start`, with the
   distance of every recorded cell: `start` records itself at distance 0, and
   every other recorded cell records a recorded cell one closer.
   */
  ghost predicate Rooted(start: Cell, fromTo: map<Cell, Cell>, dist: map<Cell, int>)
  {
    && dist.Keys == fromTo.Keys
    && (forall c :: c in dist ==> dist[c] >= 0)
    && (start in fromTo ==> fromTo[start] == start && dist[start] == 0)
    && (forall c {:trigger fromTo[c]} :: c in fromTo && c != start ==>
          fromTo[c] in fromTo && dist[c] == dist[fromTo[c]] + 1)
  }

  /** Every recorded cell but `start` is a listed neighbour of its recorded parent across a carved wall of `m0`. */
  ghost predicate Carves(m0: Maze, start: Cell, fromTo: map<Cell, Cell>)
  {
    forall c {:trigger fromTo[c]} :: c in fromTo && c != start ==> Carved(m0, fromTo[c], c)
  }

  /**
   Every frontier entry's child is visited and not yet recorded; once the
   initial entry is gone, every entry comes from a recorded parent at the
   parent's distance plus one.
   */
  ghost predicate Entered(start: Cell, q: seq<Entry>, fromTo: map<Cell, Cell>,
                          dist: map<Cell, int>, visited: set<Cell>)
  {
    && (forall i :: 0 <= i < |q| ==> q[i].child in visited && q[i].child !in fromTo)
    && (forall i :: 0 <= i < |q| && start in fromTo ==>
          q[i].parent in dist && q[i].dist == dist[q[i].parent] + 1)
  }

  /** Once the initial entry is gone, every entry's child is a listed neighbour of its parent across a carved wall. */
  ghost predicate EntriesCarved(m0: Maze, start: Cell, q: seq<Entry>, fromTo: map<Cell, Cell>)
  {
    forall i :: 0 <= i < |q| && start in fromTo ==> Carved(m0, q[i].parent, q[i].child)
  }

  /** No child waits in the frontier twice. */
  ghost predicate Distinct(q: seq<Entry>)
  {
    forall i, j :: 0 <= i < j < |q| ==> q[i].child != q[j].child
  }

  /** Every visited cell is recorded or waiting in the frontier. */
  ghost predicate Covered(q: seq<Entry>, fromTo: map<Cell, Cell>, visited: set<Cell>)
  {
    forall x :: x in visited ==> x in fromTo || x in Children(q)
  }

  /**
   The frontier: visited cells are passages, recorded cells are visited,
   and before the first iteration the frontier is the initial self-entry.
   */
  ghost predicate Frontier(m0: Maze, start: Cell, q: seq<Entry>, fromTo: map<Cell, Cell>,
                           dist: map<Cell, int>, visited: set<Cell>)
  {
    && fromTo.Keys <= visited && visited <= m0.graph.Keys && start in visited
    && (start !in fromTo ==> q == [Entry(start, start, 0)])
    && Entered(start, q, fromTo, dist, visited) && EntriesCarved(m0, start, q, fromTo)
    && Distinct(q) && Covered(q, fromTo, visited)
  }

  /** Every carved neighbour of a recorded (expanded) cell has been visited. */
  ghost predicate Expanded(m0: Maze, fromTo: map<Cell, Cell>, visited: set<Cell>)
  {
    forall c, n :: c in fromTo && Carved(m0, c, n) ==> n in visited
  }

  /** The breadth-first queue is sorted by distance and spans at most two consecutive distances from `lo`. */
  ghost predicate Layered(q: seq<Entry>, lo: int)
  {
    && (forall i, j :: 0 <= i < j < |q| ==> q[i].dist <= q[j].dist)
    && (forall i :: 0 <= i < |q| ==> lo <= q[i].dist <= lo + 1)
  }

  /** Every recorded cell is painted with the colour of its distance. */
  ghost predicate Painted(m: Maze, pol: Policy, fromTo: map<Cell, Cell>, dist: map<Cell, int>)
  {
    forall c :: c in fromTo ==> Shaped(m) && InBounds(m, c) && c in dist && Get(m, c) == Colour(pol, dist[c])
  }

  ghost predicate ExploreInv(m0: Maze, start: Cell, pol: Policy, m: Maze, q: seq<Entry>,
                             fromTo: map<Cell, Cell>, dist: map<Cell, int>, visited: set<Cell>, lo: int)
  {
    && Valid(m0) && Valid(m) && Recoloured(m0, m)
    && Rooted(start, fromTo, dist) && Carves(m0, start, fromTo)
    && Frontier(m0, start, q, fromTo, dist, visited)
    && Expanded(m0, fromTo, visited)
    && Painted(m, pol, fromTo, dist)
    && (pol.Breadth? ==> Layered(q, lo))
  }

  // ---------------------------------------------------------------------------
  // One iteration
  // ---------------------------------------------------------------------------

  /** The entry one iteration takes: the oldest (`popleft`) breadth-first, the newest (`pop`) depth-first. */
  function Take(pol: Policy, q: seq<Entry>): (k: nat)
    requires |q| > 0
    ensures k < |q|
    ensures pol.Breadth? ==> k == 0
    ensures pol.Depth? ==> k == |q| - 1
  {
    if pol.Breadth? then 0 else |q| - 1
  }

  /** The frontier without the entry `Take` chose. */
  function Rest(pol: Policy, q: seq<Entry>): (rest: seq<Entry>)
    requires |q| > 0
    ensures |rest| == |q| - 1
    ensures forall i :: 0 <= i < |rest| ==> rest[i] == q[if pol.Breadth? then i + 1 else i]
  {
    if pol.Breadth? then q[1..] else q[..|q| - 1]
  }

  /** A painted or carved wall stays away from every passage except in the initial self-entry. */
  lemma EntryFits(m0: Maze, m: Maze, start: Cell, q: seq<Entry>, fromTo: map<Cell, Cell>,
                  dist: map<Cell, int>, visited: set<Cell>, k: nat)
    requires Valid(m0) && Valid(m) && SameLayout(m0, m)
    requires Frontier(m0, start, q, fromTo, dist, visited) && k < |q|
    ensures q[k].child in m0.graph && InBounds(m, q[k].child)
    ensures InBounds(m, Mid(q[k].parent, q[k].child))
    ensures q[k].child !in fromTo
    ensures q[k] == Entry(start, start, 0) ||
      (start in fromTo && q[k].parent in dist && q[k].dist == dist[q[k].parent] + 1 && Carved(m0, q[k].parent, q[k].child))
    ensures forall i :: 0 <= i < |m.graph[q[k].child]| ==> InBounds(m, Mid(q[k].child, m.graph[q[k].child][i]))
  {
    var e := q[k];
    if start in fromTo {
      LinkedWall(m0, e.parent, e.child);
    }
    forall i | 0 <= i < |m.graph[e.child]|
      ensures InBounds(m, Mid(e.child, m.graph[e.child][i]))
    {
      LinkedWall(m, e.child, m.graph[e.child][i]);
    }
  }

  /** The wall between listed neighbours is off the lattice, so recolouring never changes `connected`. */
  lemma OpenStable(m0: Maze, m: Maze, a: Cell, b: Cell)
    requires Valid(m0) && Recoloured(m0, m) && Linked(m0, a, b)
    ensures Open(m, a, b) <==> Open(m0, a, b)
  {
    LinkedWall(m0, a, b);
    MidOfAdjacent(m0, a, b);
  }

  /**
   Painting the passage `b` and the wall to `a` (the cell itself when `a == b`,
   the initial self-entry) with a colour of at least FILL keeps the maze valid
   and a recolouring of `m0`.
   */
  lemma PaintRecolours(m0: Maze, m: Maze, a: Cell, b: Cell, col: int, m2: Maze)
    requires Valid(m0) && Valid(m) && Recoloured(m0, m) && b in m0.graph && col >= FILL
    requires a == b || Carved(m0, a, b)
    requires InBounds(m, b) && InBounds(m, Mid(a, b))
    requires m2 == MarkWall(MarkCell(m, b, col), a, b, col)
    ensures Valid(m2) && Recoloured(m0, m2)
  {
    var m1 := MarkCell(m, b, col);
    var w := Mid(a, b);
    assert IsPassage(m0, b);
    forall d | InBounds(m0, d) && Get(m2, d) != Get(m0, d)
      ensures Get(m2, d) >= FILL && (OnLattice(m0, d) || Get(m0, d) != WALL)
    {
      if d == w {
        if a != b {
          assert !Connected(m0, a, b);
        }
      } else if d != b {
        assert Get(m2, d) == Get(m1, d) == Get(m, d);
      }
    }
  }

  /** Painting the passage `b` and the wall to `a` leaves every other passage `c` as it was. */
  lemma PaintSpares(m0: Maze, m: Maze, a: Cell, b: Cell, c: Cell, col: int)
    requires Valid(m0) && Shaped(m) && SameLayout(m0, m) && c in m0.graph && c != b
    requires a == b || Linked(m0, a, b)
    requires InBounds(m, b) && InBounds(m, Mid(a, b))
    ensures InBounds(m, c) && Get(MarkWall(MarkCell(m, b, col), a, b, col), c) == Get(m, c)
  {
    if a != b {
      LinkedWall(m0, a, b);
    }
    assert c != Mid(a, b);
  }

  /**
   Painting the newly recorded child and the wall to its parent with the
   colour of the child's distance keeps the record painted: no recorded cell
   is the child or a wall.
   */
  lemma PaintedKeeps(m0: Maze, m: Maze, pol: Policy, fromTo: map<Cell, Cell>, dist: map<Cell, int>, e: Entry,
                     m2: Maze, f': map<Cell, Cell>, d': map<Cell, int>)
    requires Valid(m0) && Shaped(m) && SameLayout(m0, m) && Painted(m, pol, fromTo, dist)
    requires fromTo.Keys <= m0.graph.Keys && e.child !in fromTo
    requires e.parent == e.child || Linked(m0, e.parent, e.child)
    requires InBounds(m, e.child) && InBounds(m, Mid(e.parent, e.child))
    requires m2 == PaintChild(pol, m, e)
    requires f' == fromTo[e.child := e.parent] && d' == dist[e.child := e.dist]
    ensures Painted(m2, pol, f', d')
  {
    forall c | c in f'
      ensures Shaped(m2) && InBounds(m2, c) && c in d' && Get(m2, c) == Colour(pol, d'[c])
    {
      if c != e.child {
        PaintSpares(m0, m, e.parent, e.child, c, Colour(pol, e.dist));
      }
    }
  }

  /**
   Painting the taken child and the wall to its parent keeps the maze valid,
   keeps it a recolouring of `m0`, and paints the child with the colour of its
   distance without disturbing the cells recorded before.
   */
  lemma PaintKeeps(m0: Maze, m: Maze, pol: Policy, start: Cell, fromTo: map<Cell, Cell>,
                   dist: map<Cell, int>, e: Entry, m2: Maze, f': map<Cell, Cell>, d': map<Cell, int>)
    requires Valid(m0) && Valid(m) && Recoloured(m0, m) && Painted(m, pol, fromTo, dist)
    requires fromTo.Keys <= m0.graph.Keys && e.child in m0.graph && e.child !in fromTo
    requires e == Entry(start, start, 0) || Carved(m0, e.parent, e.child)
    requires InBounds(m, e.child) && InBounds(m, Mid(e.parent, e.child))
    requires m2 == PaintChild(pol, m, e)
    requires f' == fromTo[e.child := e.parent] && d' == dist[e.child := e.dist]
    ensures Valid(m2) && Recoloured(m0, m2) && Painted(m2, pol, f', d')
  {
    PaintRecolours(m0, m, e.parent, e.child, Colour(pol, e.dist), m2);
    PaintedKeeps(m0, m, pol, fromTo, dist, e, m2, f', d');
  }

  /** After recording the taken entry, the recorded cell `c` still sits one farther than its parent. */
  lemma RecordKeepsAt(start: Cell, fromTo: map<Cell, Cell>, dist: map<Cell, int>, e: Entry,
                      f': map<Cell, Cell>, d': map<Cell, int>, c: Cell)
    requires Rooted(start, fromTo, dist) && e.child !in fromTo
    requires e == Entry(start, start, 0) || (start in fromTo && e.parent in dist && e.dist == dist[e.parent] + 1)
    requires f' == fromTo[e.child := e.parent] && d' == dist[e.child := e.dist]
    requires c in f' && c != start
    ensures f'[c] in f' && c in d' && f'[c] in d' && d'[c] == d'[f'[c]] + 1
  {
    if c == e.child {
      assert e.parent in fromTo && e.parent != e.child;
      assert d'[e.parent] == dist[e.parent];
    } else {
      var p := fromTo[c];
      assert f'[c] == p && p in fromTo && p != e.child;
      assert dist[c] == dist[p] + 1;
      assert d'[c] == dist[c];
      assert d'[p] == dist[p] by {
        assert p in dist && p != e.child;
      }
    }
  }

  /** Recording the taken entry keeps the predecessor record rooted at `start`. */
  lemma RecordKeeps(start: Cell, fromTo: map<Cell, Cell>, dist: map<Cell, int>, e: Entry,
                    f': map<Cell, Cell>, d': map<Cell, int>)
    requires Rooted(start, fromTo, dist) && e.child !in fromTo
    requires e == Entry(start, start, 0) || (start in fromTo && e.parent in dist && e.dist == dist[e.parent] + 1)
    requires f' == fromTo[e.child := e.parent] && d' == dist[e.child := e.dist]
    ensures Rooted(start, f', d') && start in f'
  {
    assert d'.Keys == f'.Keys;
    forall c | c in f' && c != start
      ensures f'[c] in f' && d'[c] == d'[f'[c]] + 1
    {
      RecordKeepsAt(start, fromTo, dist, e, f', d', c);
    }
  }

  /** Recording the taken entry keeps every recorded parent link carved. */
  lemma RecordCarves(m0: Maze, start: Cell, fromTo: map<Cell, Cell>, e: Entry, f': map<Cell, Cell>)
    requires Carves(m0, start, fromTo) && e.child !in fromTo
    requires e == Entry(start, start, 0) || Carved(m0, e.parent, e.child)
    requires f' == fromTo[e.child := e.parent]
    ensures Carves(m0, start, f')
  {
    forall c | c in f' && c != start
      ensures Carved(m0, f'[c], c)
    {
    }
  }

  /** `Children` distributes over the frontier update of one iteration. */
  lemma ChildrenAfter(pol: Policy, q: seq<Entry>, parent: Cell, pushed: seq<Cell>, dist: int, x: Cell)
    requires |q| > 0
    ensures x in Children(Rest(pol, q) + Entries(parent, pushed, dist)) <==>
      (x in Children(q) && (exists i :: 0 <= i < |q| && i != Take(pol, q) && q[i].child == x)) || x in pushed
  {
    var rest := Rest(pol, q);
    var q' := rest + Entries(parent, pushed, dist);
    if x in Children(q') {
      var j :| 0 <= j < |q'| && Children(q')[j] == x;
      if j < |rest| {
        var i := if pol.Breadth? then j + 1 else j;
        assert q[i].child == x && i != Take(pol, q);
        assert Children(q)[i] == x;
      } else {
        assert pushed[j - |rest|] == x;
      }
    }
    if exists i :: 0 <= i < |q| && i != Take(pol, q) && q[i].child == x {
      var i :| 0 <= i < |q| && i != Take(pol, q) && q[i].child == x;
      var j := if pol.Breadth? then i - 1 else i;
      assert Children(q')[j] == x;
    }
    if x in pushed {
      var j :| 0 <= j < |pushed| && pushed[j] == x;
      assert Children(q')[|rest| + j] == x;
    }
  }

  /**
   What the neighbour loop of the taken child achieves, read against `m0`:
   the pushed cells are fresh passages across carved walls, and every carved
   neighbour of the child is now visited.
   */
  lemma PushedFacts(m0: Maze, m2: Maze, child: Cell, visited: set<Cell>, pushed: seq<Cell>, v': set<Cell>)
    requires Valid(m0) && Valid(m2) && Recoloured(m0, m2) && child in m0.graph
    requires NeighboursFit(m2, child)
    requires pushed == Enqueue(m2, child, m2.graph[child], visited).0
    requires v' == Enqueue(m2, child, m2.graph[child], visited).1
    ensures NoDup(pushed)
    ensures forall j :: 0 <= j < |pushed| ==> pushed[j] !in visited && Carved(m0, child, pushed[j])
    ensures forall x :: x in v' <==> x in visited || x in pushed
    ensures forall n :: Carved(m0, child, n) ==> n in v'
  {
    var ns := m2.graph[child];
    forall j | 0 <= j < |pushed|
      ensures Carved(m0, child, pushed[j])
    {
      OpenStable(m0, m2, child, pushed[j]);
    }
    forall n | Carved(m0, child, n)
      ensures n in v'
    {
      var i :| 0 <= i < |ns| && ns[i] == n;
      OpenStable(m0, m2, child, n);
    }
  }

  /**
   The frontier after one iteration: the entries left after taking `q[k]`,
   followed by the pushed children one farther away.
   */
  ghost predicate Advanced(pol: Policy, q: seq<Entry>, e: Entry, pushed: seq<Cell>, q': seq<Entry>)
  {
    |q| > 0 && e == q[Take(pol, q)] && q' == Rest(pol, q) + Entries(e.child, pushed, e.dist + 1)
  }

  /** Where an entry of the advanced frontier comes from. */
  lemma AdvancedAt(pol: Policy, q: seq<Entry>, e: Entry, pushed: seq<Cell>, q': seq<Entry>, i: nat)
    requires Advanced(pol, q, e, pushed, q') && i < |q'|
    ensures i < |q| - 1 ==> q'[i] == q[if pol.Breadth? then i + 1 else i] && (if pol.Breadth? then i + 1 else i) != Take(pol, q)
    ensures i >= |q| - 1 ==> q'[i] == Entry(e.child, pushed[i - (|q| - 1)], e.dist + 1)
  {
  }

  /** The entries left after taking one, and the pushed ones, satisfy `Entered`. */
  lemma EnteredKeeps(start: Cell, pol: Policy, q: seq<Entry>, fromTo: map<Cell, Cell>, dist: map<Cell, int>,
                     visited: set<Cell>, e: Entry, pushed: seq<Cell>, v': set<Cell>,
                     q': seq<Entry>, f': map<Cell, Cell>, d': map<Cell, int>)
    requires Advanced(pol, q, e, pushed, q') && fromTo.Keys <= visited && dist.Keys == fromTo.Keys
    requires (start !in fromTo ==> q == [Entry(start, start, 0)])
    requires Entered(start, q, fromTo, dist, visited) && Distinct(q)
    requires forall j :: 0 <= j < |pushed| ==> pushed[j] !in visited
    requires forall x :: x in v' <==> x in visited || x in pushed
    requires f' == fromTo[e.child := e.parent] && d' == dist[e.child := e.dist]
    ensures Entered(start, q', f', d', v')
  {
    if start !in fromTo {
      assert |q| - 1 == 0;
    }
    forall i | 0 <= i < |q'|
      ensures q'[i].child in v' && q'[i].child !in f'
      ensures q'[i].parent in d' && q'[i].dist == d'[q'[i].parent] + 1
    {
      AdvancedAt(pol, q, e, pushed, q', i);
      if i < |q| - 1 {
        var j := if pol.Breadth? then i + 1 else i;
        assert q[j].parent in fromTo;
      }
    }
  }

  /** The entries left after taking one, and the pushed ones, are carved links once `start` is recorded. */
  lemma EntriesCarvedKeeps(m0: Maze, start: Cell, pol: Policy, q: seq<Entry>, fromTo: map<Cell, Cell>,
                           e: Entry, pushed: seq<Cell>, q': seq<Entry>, f': map<Cell, Cell>)
    requires Advanced(pol, q, e, pushed, q') && EntriesCarved(m0, start, q, fromTo)
    requires (start !in fromTo ==> q == [Entry(start, start, 0)])
    requires forall j :: 0 <= j < |pushed| ==> Carved(m0, e.child, pushed[j])
    requires f' == fromTo[e.child := e.parent]
    ensures EntriesCarved(m0, start, q', f')
  {
    if start !in fromTo {
      assert |q| - 1 == 0;
    }
    forall i | 0 <= i < |q'|
      ensures Carved(m0, q'[i].parent, q'[i].child)
    {
      AdvancedAt(pol, q, e, pushed, q', i);
    }
  }

  /** The entries left after taking one, and the pushed ones, have distinct children. */
  lemma DistinctKeeps(start: Cell, pol: Policy, q: seq<Entry>, fromTo: map<Cell, Cell>, dist: map<Cell, int>,
                      visited: set<Cell>, e: Entry, pushed: seq<Cell>, q': seq<Entry>)
    requires Advanced(pol, q, e, pushed, q') && Entered(start, q, fromTo, dist, visited) && Distinct(q)
    requires NoDup(pushed) && forall j :: 0 <= j < |pushed| ==> pushed[j] !in visited
    ensures Distinct(q')
  {
    forall i, j | 0 <= i < j < |q'|
      ensures q'[i].child != q'[j].child
    {
      AdvancedAt(pol, q, e, pushed, q', i);
      AdvancedAt(pol, q, e, pushed, q', j);
    }
  }

  /** Every visited cell stays recorded or waiting after one iteration. */
  lemma CoveredKeeps(pol: Policy, q: seq<Entry>, fromTo: map<Cell, Cell>, visited: set<Cell>, e: Entry,
                     pushed: seq<Cell>, v': set<Cell>, q': seq<Entry>, f': map<Cell, Cell>)
    requires Advanced(pol, q, e, pushed, q') && Covered(q, fromTo, visited)
    requires forall x :: x in v' <==> x in visited || x in pushed
    requires f' == fromTo[e.child := e.parent]
    ensures Covered(q', f', v')
  {
    var k := Take(pol, q);
    forall x | x in v'
      ensures x in f' || x in Children(q')
    {
      ChildrenAfter(pol, q, e.child, pushed, e.dist + 1, x);
      if x != e.child && x !in fromTo && x !in pushed {
        var j :| 0 <= j < |q| && Children(q)[j] == x;
        assert j != k;
      }
    }
  }

  /** One iteration keeps the frontier invariant. */
  lemma FrontierKeeps(m0: Maze, start: Cell, pol: Policy, q: seq<Entry>, fromTo: map<Cell, Cell>,
                      dist: map<Cell, int>, visited: set<Cell>, e: Entry, pushed: seq<Cell>, v': set<Cell>,
                      q': seq<Entry>, f': map<Cell, Cell>, d': map<Cell, int>)
    requires Valid(m0) && Frontier(m0, start, q, fromTo, dist, visited) && dist.Keys == fromTo.Keys
    requires Advanced(pol, q, e, pushed, q') && NoDup(pushed)
    requires forall j :: 0 <= j < |pushed| ==> pushed[j] !in visited && Carved(m0, e.child, pushed[j])
    requires forall x :: x in v' <==> x in visited || x in pushed
    requires f' == fromTo[e.child := e.parent] && d' == dist[e.child := e.dist]
    ensures Frontier(m0, start, q', f', d', v')
  {
    forall j | 0 <= j < |pushed|
      ensures pushed[j] in m0.graph
    {
      LinkedWall(m0, e.child, pushed[j]);
    }
    forall x | x in v'
      ensures x in m0.graph
    {
      if x !in visited {
        var j :| 0 <= j < |pushed| && pushed[j] == x;
      }
    }
    assert e.child in visited;
    assert f'.Keys == fromTo.Keys + {e.child};
    if start !in fromTo {
      assert e == Entry(start, start, 0);
    }
    EnteredKeeps(start, pol, q, fromTo, dist, visited, e, pushed, v', q', f', d');
    EntriesCarvedKeeps(m0, start, pol, q, fromTo, e, pushed, q', f');
    DistinctKeeps(start, pol, q, fromTo, dist, visited, e, pushed, q');
    CoveredKeeps(pol, q, fromTo, visited, e, pushed, v', q', f');
  }

  /** Expanding the taken child keeps every recorded cell's carved neighbours visited. */
  lemma ExpandedKeeps(m0: Maze, fromTo: map<Cell, Cell>, visited: set<Cell>, child: Cell, parent: Cell,
                      v': set<Cell>, f': map<Cell, Cell>)
    requires Expanded(m0, fromTo, visited) && visited <= v'
    requires forall n :: Carved(m0, child, n) ==> n in v'
    requires f' == fromTo[child := parent]
    ensures Expanded(m0, f', v')
  {
  }

  /**
   Breadth-first order: the taken entry is at distance at least `lo`, and
   after it is replaced by its children at one more, the queue is again
   sorted and spans two consecutive distances from the taken one.
   */
  lemma LayeredKeeps(pol: Policy, q: seq<Entry>, lo: int, e: Entry, pushed: seq<Cell>, q': seq<Entry>)
    requires pol.Breadth? && Advanced(pol, q, e, pushed, q') && Layered(q, lo)
    ensures e.dist >= lo
    ensures Layered(q', e.dist)
  {
    forall i | 0 <= i < |q'|
      ensures e.dist <= q'[i].dist <= e.dist + 1
    {
      AdvancedAt(pol, q, e, pushed, q', i);
    }
    forall i, j | 0 <= i < j < |q'|
      ensures q'[i].dist <= q'[j].dist
    {
      AdvancedAt(pol, q, e, pushed, q', i);
      AdvancedAt(pol, q, e, pushed, q', j);
    }
  }

  /** A tracker-only change (same grid, same layout) keeps what the search painted. */
  lemma RegridKeeps(m0: Maze, m: Maze, m': Maze, pol: Policy, fromTo: map<Cell, Cell>, dist: map<Cell, int>)
    requires Recoloured(m0, m) && Painted(m, pol, fromTo, dist)
    requires m'.grid == m.grid && SameLayout(m, m')
    ensures Recoloured(m0, m') && Painted(m', pol, fromTo, dist)
  {
  }

  /** Recording one more passage shrinks the set of passages not yet recorded. */
  lemma Shrinks(keys: set<Cell>, fromTo: map<Cell, Cell>, f': map<Cell, Cell>, x: Cell, y: Cell)
    requires x in keys && x !in fromTo && f' == fromTo[x := y]
    ensures |keys - f'.Keys| < |keys - fromTo.Keys|
  {
    assert keys - fromTo.Keys == (keys - f'.Keys) + {x};
  }

  /** The search state: the maze, the frontier, the predecessor record and the visited set. */
  datatype State = State(maze: Maze, queue: seq<Entry>, fromTo: map<Cell, Cell>, visited: set<Cell>)

  /**
   The entries taken so far, in order: each took a cell not recorded before
   (no child twice), they are exactly what `fromTo` records, each parent but
   the initial self-entry's was taken earlier, and breadth-first they were
   taken in nondecreasing distance, the last at `lo`.
   */
  ghost predicate Popped(pol: Policy, order: seq<Entry>, fromTo: map<Cell, Cell>, lo: int)
  {
    && Distinct(order)
    && (forall c :: c in fromTo <==> c in Children(order))
    && (forall i :: 0 <= i < |order| ==> order[i].child in fromTo && fromTo[order[i].child] == order[i].parent)
    && (forall i :: 0 <= i < |order| ==> order[i].parent == order[i].child || order[i].parent in Children(order)[..i])
    && (pol.Breadth? ==> forall i, j :: 0 <= i < j < |order| ==> order[i].dist <= order[j].dist)
    && (pol.Breadth? ==> forall i :: 0 <= i < |order| ==> order[i].dist <= lo)
  }

  /** The children of a frontier with one more entry. */
  lemma ChildrenAppend(q: seq<Entry>, e: Entry)
    ensures Children(q + [e]) == Children(q) + [e.child]
  {
    assert forall k :: 0 <= k < |q| ==> (q + [e])[k] == q[k];
  }

  /** The recorded cells stay exactly the taken children when one more is taken and recorded. */
  lemma RecordsTaken(order: seq<Entry>, fromTo: map<Cell, Cell>, e: Entry, o': seq<Entry>, f': map<Cell, Cell>)
    requires forall c :: c in fromTo <==> c in Children(order)
    requires o' == order + [e] && f' == fromTo[e.child := e.parent]
    ensures forall c :: c in f' <==> c in Children(o')
  {
    ChildrenAppend(order, e);
  }

  /** Each parent was taken earlier, when the new entry's parent is recorded. */
  lemma ParentsEarlier(order: seq<Entry>, fromTo: map<Cell, Cell>, e: Entry, o': seq<Entry>)
    requires forall c :: c in fromTo <==> c in Children(order)
    requires forall i :: 0 <= i < |order| ==> order[i].parent == order[i].child || order[i].parent in Children(order)[..i]
    requires e.parent == e.child || e.parent in fromTo
    requires o' == order + [e]
    ensures forall i :: 0 <= i < |o'| ==> o'[i].parent == o'[i].child || o'[i].parent in Children(o')[..i]
  {
    ChildrenAppend(order, e);
    var cs := Children(order);
    forall i | 0 <= i < |o'|
      ensures o'[i].parent == o'[i].child || o'[i].parent in Children(o')[..i]
    {
      assert Children(o')[..i] == cs[..i];
      if i < |order| {
        assert o'[i] == order[i];
      } else {
        assert cs[..i] == cs;
      }
    }
  }

  /** Taking one more entry for a cell not yet recorded, whose parent is recorded, extends the record of what was taken. */
  lemma PoppedKeeps(pol: Policy, order: seq<Entry>, fromTo: map<Cell, Cell>, lo: int, e: Entry,
                    o': seq<Entry>, f': map<Cell, Cell>)
    requires Popped(pol, order, fromTo, lo) && e.child !in fromTo
    requires e.parent == e.child || e.parent in fromTo
    requires pol.Breadth? ==> e.dist >= lo
    requires o' == order + [e] && f' == fromTo[e.child := e.parent]
    ensures Popped(pol, o', f', e.dist)
  {
    RecordsTaken(order, fromTo, e, o', f');
    ParentsEarlier(order, fromTo, e, o');
    forall i | 0 <= i < |order|
      ensures order[i].child != e.child && f'[order[i].child] == order[i].parent
    {
    }
  }

  /**
   The state just before the loop: `start` painted with the colour of
   distance 0 (`mark_cell(start, ...)` ahead of the loop), the frontier the
   single self-entry `(start, start, 0)`, and only `start` visited.
   */
  lemma ExploreStarts(m0: Maze, start: Cell, pol: Policy, m: Maze)
    requires Valid(m0) && start in m0.graph
    requires InBounds(m0, start) && m == MarkCell(m0, start, Colour(pol, 0))
    ensures ExploreInv(m0, start, pol, m, [Entry(start, start, 0)], map[], map[], {start}, 0)
  {
    assert IsPassage(m0, start);
    forall d | InBounds(m0, d) && Get(m, d) != Get(m0, d)
      ensures Get(m, d) >= FILL && OnLattice(m0, d)
    {
    }
    var q := [Entry(start, start, 0)];
    assert Covered(q, map[], {start}) by {
      assert Children(q)[0] == start;
    }
  }

  /**
   Before an iteration the taken entry's child is a passage not yet recorded,
   its walls lie in the grid, painting it keeps the maze valid, and
   breadth-first its distance is at least the last taken one.
   */
  lemma TakeFits(m0: Maze, start: Cell, pol: Policy, s: State, dist: map<Cell, int>, lo: int, e: Entry)
    requires ExploreInv(m0, start, pol, s.maze, s.queue, s.fromTo, dist, s.visited, lo) && |s.queue| > 0
    requires e == s.queue[Take(pol, s.queue)]
    ensures Shaped(s.maze) && InBounds(s.maze, e.child) && InBounds(s.maze, Mid(e.parent, e.child))
    ensures e.child in m0.graph && e.child !in s.fromTo && (e.parent == e.child || e.parent in s.fromTo)
    ensures pol.Breadth? ==> e.dist >= lo
  {
    EntryFits(m0, s.maze, start, s.queue, s.fromTo, dist, s.visited, Take(pol, s.queue));
    if pol.Breadth? {
      assert e == s.queue[0];
    }
  }

  /** Painting the taken entry's child and its wall keeps the maze valid, with the child's walls in the grid. */
  lemma TakePaints(m0: Maze, start: Cell, pol: Policy, s: State, dist: map<Cell, int>, lo: int, e: Entry)
    requires ExploreInv(m0, start, pol, s.maze, s.queue, s.fromTo, dist, s.visited, lo) && |s.queue| > 0
    requires e == s.queue[Take(pol, s.queue)]
    ensures Shaped(s.maze) && InBounds(s.maze, e.child) && InBounds(s.maze, Mid(e.parent, e.child))
    ensures Valid(PaintChild(pol, s.maze, e)) && NeighboursFit(PaintChild(pol, s.maze, e), e.child)
  {
    EntryFits(m0, s.maze, start, s.queue, s.fromTo, dist, s.visited, Take(pol, s.queue));
    PaintChildFits(m0, pol, s.maze, e);
  }

  /** Painting a child across a carved wall, or the start on its own, keeps a recolouring valid. */
  lemma PaintChildFits(m0: Maze, pol: Policy, m: Maze, e: Entry)
    requires Valid(m0) && Valid(m) && Recoloured(m0, m) && e.child in m0.graph
    requires e.parent == e.child || Carved(m0, e.parent, e.child)
    requires InBounds(m, e.child) && InBounds(m, Mid(e.parent, e.child))
    ensures Valid(PaintChild(pol, m, e)) && NeighboursFit(PaintChild(pol, m, e), e.child)
  {
    PaintRecolours(m0, m, e.parent, e.child, Colour(pol, e.dist), PaintChild(pol, m, e));
  }

  /**
   The visiting half of one iteration: painting the taken child and recording
   it keeps the maze a valid recolouring of `m0`, keeps the record painted,
   rooted at `start` and carved.
   */
  lemma VisitKeeps(cv: Canvas, m0: Maze, start: Cell, pol: Policy, m: Maze, fromTo: map<Cell, Cell>,
                   dist: map<Cell, int>, e: Entry, m2: Maze, m3: Maze, f': map<Cell, Cell>, d': map<Cell, int>)
    requires Valid(m0) && Valid(m) && Recoloured(m0, m) && Painted(m, pol, fromTo, dist)
    requires Rooted(start, fromTo, dist) && Carves(m0, start, fromTo) && fromTo.Keys <= m0.graph.Keys
    requires e.child in m0.graph && e.child !in fromTo
    requires e == Entry(start, start, 0) || (start in fromTo && Carved(m0, e.parent, e.child) && e.parent in dist && e.dist == dist[e.parent] + 1)
    requires InBounds(m, e.child) && InBounds(m, Mid(e.parent, e.child))
    requires m2 == PaintChild(pol, m, e)
    requires m3 == RefreshFrame(cv, m2).1
    requires f' == fromTo[e.child := e.parent] && d' == dist[e.child := e.dist]
    ensures Valid(m2) && Recoloured(m0, m2)
    ensures Valid(m3) && Recoloured(m0, m3) && Painted(m3, pol, f', d')
    ensures Rooted(start, f', d') && Carves(m0, start, f') && start in f'
  {
    PaintKeeps(m0, m, pol, start, fromTo, dist, e, m2, f', d');
    RegridKeeps(m0, m2, m3, pol, f', d');
    RecordKeeps(start, fromTo, dist, e, f', d');
    RecordCarves(m0, start, fromTo, e, f');
  }

  /**
   The expanding half of one iteration: pushing the child's fresh carved
   neighbours keeps the frontier invariant, keeps every recorded cell
   expanded, and breadth-first keeps the queue layered around the taken
   distance.
   */
  lemma ExpandKeeps(m0: Maze, m2: Maze, start: Cell, pol: Policy, q: seq<Entry>, fromTo: map<Cell, Cell>,
                    dist: map<Cell, int>, visited: set<Cell>, lo: int, e: Entry, pushed: seq<Cell>,
                    q': seq<Entry>, f': map<Cell, Cell>, d': map<Cell, int>, v': set<Cell>)
    requires Valid(m0) && Valid(m2) && Recoloured(m0, m2) && e.child in m0.graph
    requires Frontier(m0, start, q, fromTo, dist, visited) && dist.Keys == fromTo.Keys
    requires Expanded(m0, fromTo, visited) && (pol.Breadth? ==> Layered(q, lo))
    requires NeighboursFit(m2, e.child)
    requires pushed == Enqueue(m2, e.child, m2.graph[e.child], visited).0
    requires v' == Enqueue(m2, e.child, m2.graph[e.child], visited).1
    requires Advanced(pol, q, e, pushed, q')
    requires f' == fromTo[e.child := e.parent] && d' == dist[e.child := e.dist]
    ensures Frontier(m0, start, q', f', d', v') && Expanded(m0, f', v')
    ensures pol.Breadth? ==> Layered(q', e.dist)
  {
    PushedFacts(m0, m2, e.child, visited, pushed, v');
    FrontierKeeps(m0, start, pol, q, fromTo, dist, visited, e, pushed, v', q', f', d');
    ExpandedKeeps(m0, fromTo, visited, e.child, e.parent, v', f');
    if pol.Breadth? {
      LayeredKeeps(pol, q, lo, e, pushed, q');
    }
  }

  /**
   One iteration keeps the search invariant: once the taken entry's child is
   painted (`m2`), the frame refreshed (`m3`), the child recorded with its
   parent and distance, and its fresh carved neighbours pushed, the invariant
   holds again around the taken distance.
   */
  lemma StepKeeps(cv: Canvas, m0: Maze, start: Cell, pol: Policy, s: State, dist: map<Cell, int>, lo: int,
                  e: Entry, m2: Maze, pushed: seq<Cell>, m3: Maze, q': seq<Entry>, f': map<Cell, Cell>,
                  d': map<Cell, int>, v': set<Cell>)
    requires ExploreInv(m0, start, pol, s.maze, s.queue, s.fromTo, dist, s.visited, lo) && |s.queue| > 0
    requires e == s.queue[Take(pol, s.queue)] && InBounds(s.maze, e.child) && InBounds(s.maze, Mid(e.parent, e.child))
    requires m2 == PaintChild(pol, s.maze, e)
    requires Valid(m2) && NeighboursFit(m2, e.child) && m3 == RefreshFrame(cv, m2).1
    requires pushed == Enqueue(m2, e.child, m2.graph[e.child], s.visited).0
    requires v' == Enqueue(m2, e.child, m2.graph[e.child], s.visited).1
    requires q' == Rest(pol, s.queue) + Entries(e.child, pushed, e.dist + 1)
    requires f' == s.fromTo[e.child := e.parent] && d' == dist[e.child := e.dist]
    ensures ExploreInv(m0, start, pol, m3, q', f', d', v', e.dist)
  {
    EntryFits(m0, s.maze, start, s.queue, s.fromTo, dist, s.visited, Take(pol, s.queue));
    VisitKeeps(cv, m0, start, pol, s.maze, s.fromTo, dist, e, m2, m3, f', d');
    assert Advanced(pol, s.queue, e, pushed, q');
    ExpandKeeps(m0, m2, start, pol, s.queue, s.fromTo, dist, s.visited, lo, e, pushed, q', f', d', v');
  }

  /**
   One iteration keeps the loop invariants: the search invariant and the
   record of taken entries hold again around the taken distance, and one more
   passage is recorded.
   */
  lemma IterateKeeps(cv: Canvas, m0: Maze, start: Cell, pol: Policy, s: State, dist: map<Cell, int>,
                     order: seq<Entry>, lo: int, e: Entry, m2: Maze, pushed: seq<Cell>,
                     s': State, d': map<Cell, int>, o': seq<Entry>, lo': int)
    requires ExploreInv(m0, start, pol, s.maze, s.queue, s.fromTo, dist, s.visited, lo) && |s.queue| > 0
    requires Popped(pol, order, s.fromTo, lo)
    requires e == s.queue[Take(pol, s.queue)] && InBounds(s.maze, e.child) && InBounds(s.maze, Mid(e.parent, e.child))
    requires e.child !in s.fromTo && (e.parent == e.child || e.parent in s.fromTo) && (pol.Breadth? ==> e.dist >= lo)
    requires m2 == PaintChild(pol, s.maze, e)
    requires Valid(m2) && NeighboursFit(m2, e.child)
    requires pushed == Enqueue(m2, e.child, m2.graph[e.child], s.visited).0
    requires s' == State(RefreshFrame(cv, m2).1, Rest(pol, s.queue) + Entries(e.child, pushed, e.dist + 1),
                         s.fromTo[e.child := e.parent], Enqueue(m2, e.child, m2.graph[e.child], s.visited).1)
    requires d' == dist[e.child := e.dist] && o' == order + [e] && lo' == e.dist
    ensures ExploreInv(m0, start, pol, s'.maze, s'.queue, s'.fromTo, d', s'.visited, lo')
    ensures Popped(pol, o', s'.fromTo, lo') && |o'| > 0 && Last(o').dist == lo'
    ensures |m0.graph.Keys - s'.fromTo.Keys| < |m0.graph.Keys - s.fromTo.Keys|
  {
    StepKeeps(cv, m0, start, pol, s, dist, lo, e, m2, pushed, s'.maze, s'.queue, s'.fromTo, d', s'.visited);
    PoppedKeeps(pol, order, s.fromTo, lo, e, o', s'.fromTo);
    Shrinks(m0.graph.Keys, s.fromTo, s'.fromTo, e.child, e.parent);
  }

  /**
   One iteration of the search loop with its frame (the body of the `while`
   loop of `bfs` and `dfs`): take an entry, record the child's parent, paint
   the child and the wall to its parent, push the child's unvisited
   neighbours across carved walls, and refresh the frame. It records one more
   passage, so fewer passages are left unrecorded, keeps the search invariant
   and extends the record of taken entries.
   */
  method Iterate(cv: Canvas, m0: Maze, start: Cell, pol: Policy, s: State, ghost dist: map<Cell, int>,
                 ghost order: seq<Entry>, ghost lo: int)
    returns (s': State, frame: Option<Frame>, ghost d': map<Cell, int>, ghost o': seq<Entry>, ghost lo': int)
    requires ExploreInv(m0, start, pol, s.maze, s.queue, s.fromTo, dist, s.visited, lo) && |s.queue| > 0
    requires Popped(pol, order, s.fromTo, lo)
    ensures ExploreInv(m0, start, pol, s'.maze, s'.queue, s'.fromTo, d', s'.visited, lo')
    ensures Popped(pol, o', s'.fromTo, lo') && |o'| > 0 && Last(o').dist == lo'
    ensures |m0.graph.Keys - s'.fromTo.Keys| < |m0.graph.Keys - s.fromTo.Keys|
  {
    var e := s.queue[Take(pol, s.queue)];
    TakeFits(m0, start, pol, s, dist, lo, e);
    TakePaints(m0, start, pol, s, dist, lo, e);
    var m2 := PaintChild(pol, s.maze, e);
    var en := Enqueue(m2, e.child, m2.graph[e.child], s.visited);
    var fr := RefreshFrame(cv, m2);
    s' := State(fr.1, Rest(pol, s.queue) + Entries(e.child, en.0, e.dist + 1), s.fromTo[e.child := e.parent], en.1);
    frame := fr.0;
    d', o', lo' := dist[e.child := e.dist], order + [e], e.dist;
    IterateKeeps(cv, m0, start, pol, s, dist, order, lo, e, m2, en.0, s', d', o', lo');
  }

  /**
   The search loop shared by `bfs` and `dfs`, with the frames it emits.
   Afterwards the maze is a recolouring of `m0` with nothing pending, every
   recorded cell is painted with the colour of its distance, the record is a
   tree rooted at `start` along carved walls, and it is closed: every carved
   neighbour of a recorded cell is recorded. `order` lists the entries taken,
   one per recorded cell, breadth-first in nondecreasing distance.
   */
  method Explore(cv: Canvas, m0: Maze, start: Cell, pol: Policy)
    returns (m: Maze, frames: seq<Frame>, fromTo: map<Cell, Cell>, ghost dist: map<Cell, int>, ghost order: seq<Entry>)
    requires Valid(m0) && start in m0.graph
    ensures Valid(m) && Recoloured(m0, m) && m.numChanges == 0 && m.frameBox.None?
    ensures start in fromTo && fromTo.Keys <= m0.graph.Keys
    ensures Rooted(start, fromTo, dist) && Carves(m0, start, fromTo)
    ensures Expanded(m0, fromTo, fromTo.Keys)
    ensures Painted(m, pol, fromTo, dist)
    ensures Popped(pol, order, fromTo, if |order| == 0 then 0 else Last(order).dist)
  {
    assert InBounds(m0, start) by {
      assert IsPassage(m0, start);
    }
    var s := State(MarkCell(m0, start, Colour(pol, 0)), [Entry(start, start, 0)], map[], {start});
    ExploreStarts(m0, start, pol, s.maze);
    frames := [];
    dist, order := map[], [];
    ghost var lo: int := 0;
    while |s.queue| > 0
      invariant ExploreInv(m0, start, pol, s.maze, s.queue, s.fromTo, dist, s.visited, lo)
      invariant Popped(pol, order, s.fromTo, lo)
      invariant |order| > 0 ==> Last(order).dist == lo
      decreases |m0.graph.Keys - s.fromTo.Keys|
    {
      var frame;
      s, frame, dist, order, lo := Iterate(cv, m0, start, pol, s, dist, order, lo);
      frames := Emit(frames, frame);
    }
    var cl := ClearRemainingChanges(cv, s.maze);
    RegridKeeps(m0, s.maze, cl.1, pol, s.fromTo, dist);
    m, fromTo, frames := cl.1, s.fromTo, Emit(frames, cl.0);
  }
}
