/**
 The edge list of `src/wilson/kruskal.py`: the comparison `greater`, the
 dictionary of weighted edges built from the passages and their neighbour
 lists, and its keys sorted by weight.

 The dictionary comprehension draws one `random.random()` per key it
 visits; the model takes the draws from `draw`, numbered in visiting order,
 as integers (thousandths or any finer unit: only their order matters).
 */
module Edges {
  import opened Wrappers
  import opened Seqs
  import opened Grid
  import opened Heap

  /**
   `greater(u, v)` (kruskal.py:24-31): compare coordinate by coordinate;
   the first difference decides, and equal cells fall through to `None`.
   */
  function Greater(u: Cell, v: Cell): (r: Option<bool>)
    ensures r == None <==> u == v
    ensures r == Some(true) <==> CellBelow(v, u)
    ensures r == Some(false) <==> CellBelow(u, v)
  {
    if u.0 > v.0 then Some(true)
    else if u.0 < v.0 then Some(false)
    else if u.1 > v.1 then Some(true)
    else if u.1 < v.1 then Some(false)
    else None
  }

  /** Of two different cells exactly one is greater than the other; no cell is greater than itself. */
  lemma GreaterOrients(u: Cell, v: Cell)
    ensures Greater(u, u) != Some(true)
    ensures u != v ==> (Greater(u, v) == Some(true) <==> Greater(v, u) != Some(true))
  {
  }

  /** The keys `(u, v)` visited for one passage `u`: its listed neighbours below it, in list order. */
  function Outgoing(u: Cell, ns: seq<Cell>): (r: seq<(Cell, Cell)>)
    ensures forall e :: e in r <==> e.0 == u && e.1 in ns && CellBelow(e.1, u)
    decreases |ns|
  {
    if |ns| == 0 then []
    else (if Greater(u, ns[0]) == Some(true) then [(u, ns[0])] else []) + Outgoing(u, ns[1..])
  }

  /** A duplicate-free neighbour list gives duplicate-free keys. */
  lemma {:induction false} OutgoingNoDup(u: Cell, ns: seq<Cell>)
    requires NoDup(ns)
    ensures NoDup(Outgoing(u, ns))
    decreases |ns|
  {
    if |ns| > 0 {
      assert NoDup(ns[1..]) by {
        forall i, j | 0 <= i < j < |ns| - 1 ensures ns[1..][i] != ns[1..][j] {
          assert ns[1..][i] == ns[i + 1] && ns[1..][j] == ns[j + 1];
        }
      }
      OutgoingNoDup(u, ns[1..]);
      assert ns[0] !in ns[1..] by {
        forall t | 0 <= t < |ns| - 1 ensures ns[1..][t] != ns[0] {
          assert ns[1..][t] == ns[t + 1];
        }
      }
      var head := if Greater(u, ns[0]) == Some(true) then [(u, ns[0])] else [];
      assert NoDup(head);
      NoDupConcat(head, Outgoing(u, ns[1..]));
    }
  }

  /**
   The keys of the dictionary `edges` (kruskal.py:45) visited for the
   passages `cs`, in visiting order: `(u, v)` for every passage `u` and every
   listed neighbour `v` that `u` is greater than.
   */
  function EdgeKeys(m: Maze, cs: seq<Cell>): (r: seq<(Cell, Cell)>)
    requires forall c :: c in cs ==> c in m.graph
    ensures forall e :: e in r <==> e.0 in cs && Linked(m, e.0, e.1) && CellBelow(e.1, e.0)
    decreases |cs|
  {
    if |cs| == 0 then []
    else Outgoing(cs[0], m.graph[cs[0]]) + EdgeKeys(m, cs[1..])
  }

  /**
   What the edge list needs of a maze: no passage listed twice, no
   neighbour listed twice, and neighbourhood symmetric.
   */
  ghost predicate Simple(m: Maze)
  {
    && NoDup(m.cells)
    && (forall c :: c in m.graph ==> NoDup(m.graph[c]))
    && (forall a, b :: Linked(m, a, b) ==> Linked(m, b, a))
  }

  /** Every freshly built maze is simple. */
  lemma FreshIsSimple(width: nat, height: nat, margin: nat, mask: Cell -> bool)
    ensures Simple(NewMaze(width, height, margin, mask))
  {
    var m := NewMaze(width, height, margin, mask);
    forall c | c in m.graph
      ensures NoDup(m.graph[c])
    {
      var ns := m.graph[c];
      forall i, j | 0 <= i < j < |ns| ensures ns[i] != ns[j]
      {
        assert Direction(c, ns[i]) < Direction(c, ns[j]);
      }
    }
    forall a, b | Linked(m, a, b)
      ensures Linked(m, b, a)
    {
      var i :| 0 <= i < |m.graph[a]| && m.graph[a][i] == b;
      NeighborsSymmetric(width, height, margin, mask, a, b);
    }
  }

  /** Keys visited for different passages differ, so a duplicate-free passage list gives duplicate-free keys. */
  lemma {:induction false} EdgeKeysNoDup(m: Maze, cs: seq<Cell>)
    requires forall c :: c in cs ==> c in m.graph
    requires NoDup(cs) && forall c :: c in m.graph ==> NoDup(m.graph[c])
    ensures NoDup(EdgeKeys(m, cs))
    decreases |cs|
  {
    if |cs| > 0 {
      var rest := cs[1..];
      assert NoDup(rest) by {
        forall i, j | 0 <= i < j < |rest| ensures rest[i] != rest[j] {
          assert rest[i] == cs[i + 1] && rest[j] == cs[j + 1];
        }
      }
      assert cs[0] !in rest by {
        forall t | 0 <= t < |rest| ensures rest[t] != cs[0] {
          assert rest[t] == cs[t + 1];
        }
      }
      EdgeKeysNoDup(m, rest);
      OutgoingNoDup(cs[0], m.graph[cs[0]]);
      NoDupConcat(Outgoing(cs[0], m.graph[cs[0]]), EdgeKeys(m, rest));
    }
  }

  /**
   In a simple maze the keys hold every pair of neighbours exactly once,
   oriented from the greater cell to the smaller, and nothing else.
   */
  lemma KeysOrient(m: Maze, u: Cell, v: Cell)
    requires Valid(m) && Simple(m)
    ensures (u, v) in EdgeKeys(m, m.cells) <==> Linked(m, u, v) && Greater(u, v) == Some(true)
    ensures Linked(m, u, v) ==> ((u, v) in EdgeKeys(m, m.cells) <==> (v, u) !in EdgeKeys(m, m.cells))
    ensures NoDup(EdgeKeys(m, m.cells))
  {
    EdgeKeysNoDup(m, m.cells);
    if Linked(m, u, v) {
      LinkedWall(m, u, v);
      assert Linked(m, v, u);
    }
  }

  /** A key of the dictionary with its weight. */
  datatype Edge = Edge(u: Cell, v: Cell, weight: int)

  /** The dictionary's items in key order, the i-th key weighted with the draw numbered `n + i`. */
  function Weigh(keys: seq<(Cell, Cell)>, draw: nat -> int, n: nat): (r: seq<Edge>)
    ensures |r| == |keys|
    ensures forall i :: 0 <= i < |keys| ==> r[i] == Edge(keys[i].0, keys[i].1, draw(n + i))
  {
    seq(|keys|, i requires 0 <= i < |keys| => Edge(keys[i].0, keys[i].1, draw(n + i)))
  }

  /** Nondecreasing weights. */
  predicate Ascending(s: seq<Edge>)
  {
    forall i, j :: 0 <= i < j < |s| ==> s[i].weight <= s[j].weight
  }

  /** Every element weighs at most `w`. */
  predicate AllAtMost(s: seq<Edge>, w: int)
  {
    forall i :: 0 <= i < |s| ==> s[i].weight <= w
  }

  /** Appending an element no lighter than all others keeps weights nondecreasing. */
  lemma AscendingAppend(s: seq<Edge>, e: Edge)
    requires Ascending(s) && AllAtMost(s, e.weight)
    ensures Ascending(s + [e])
  {
    var t := s + [e];
    forall i, j | 0 <= i < j < |t|
      ensures t[i].weight <= t[j].weight
    {
      assert t[i] == s[i];
      if j < |s| {
        assert t[j] == s[j];
      }
    }
  }

  /** Elements drawn from a multiset of light elements are light. */
  lemma AllAtMostOfMultiset(r: seq<Edge>, s: seq<Edge>, e: Edge, w: int)
    requires multiset(r) == multiset(s) + multiset{e}
    requires AllAtMost(s, w) && e.weight <= w
    ensures AllAtMost(r, w)
  {
    forall i | 0 <= i < |r|
      ensures r[i].weight <= w
    {
      assert r[i] in multiset(r);
      if r[i] != e {
        assert r[i] in multiset(s);
        var k :| 0 <= k < |s| && s[k] == r[i];
      }
    }
  }

  /**
   Insert `e` into an ascending sequence after every element of weight at
   most its own: the step that keeps a sort stable.
   */
  function Insert(e: Edge, s: seq<Edge>): (r: seq<Edge>)
    requires Ascending(s)
    ensures Ascending(r) && multiset(r) == multiset(s) + multiset{e}
    decreases |s|
  {
    if |s| == 0 || Last(s).weight <= e.weight then
      assert AllAtMost(s, e.weight) by {
        forall i | 0 <= i < |s| ensures s[i].weight <= e.weight {
          assert s[i].weight <= Last(s).weight || i == |s| - 1;
        }
      }
      AscendingAppend(s, e);
      s + [e]
    else
      var init := s[..|s| - 1];
      assert s == init + [Last(s)];
      var r := Insert(e, init);
      assert AllAtMost(init, Last(s).weight) by {
        forall i | 0 <= i < |init| ensures init[i].weight <= Last(s).weight {
          assert init[i] == s[i];
        }
      }
      AllAtMostOfMultiset(r, init, e, Last(s).weight);
      AscendingAppend(r, Last(s));
      r + [Last(s)]
  }

  /**
   `sorted(edges, key=edges.get)` (kruskal.py:63): the items in
   nondecreasing weight, holding the same items as often as before.
   Ties keep their dictionary order, as Python's sort is stable.
   */
  function SortByWeight(s: seq<Edge>): (r: seq<Edge>)
    ensures Ascending(r) && multiset(r) == multiset(s)
    decreases |s|
  {
    if |s| == 0 then []
    else
      assert s == s[..|s| - 1] + [Last(s)];
      Insert(Last(s), SortByWeight(s[..|s| - 1]))
  }
}
