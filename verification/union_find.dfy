/**
 The disjoint-set forest of `src/wilson/kruskal.py`: a parent map and a rank
 map over the passages, `find` following parent pointers up to a root, and
 union by rank of two distinct roots. Ranks only bound the depth of a tree
 here; the model carries a bound on every rank so that following parents
 is seen to stop.
 */
module UnionFind {
  import opened Grid

  /** The two maps `parent` and `rank` of kruskal.py:59-60. */
  datatype Sets = Sets(parent: map<Cell, Cell>, rank: map<Cell, int>)

  /** Every passage its own root with rank 0 (kruskal.py:59-60). */
  function Singletons(cells: seq<Cell>): (ds: Sets)
    ensures forall c :: c in ds.parent <==> c in cells
    ensures ds.rank.Keys == ds.parent.Keys
    ensures forall c :: c in ds.parent ==> ds.parent[c] == c && ds.rank[c] == 0
  {
    Sets(map c | c in cells :: c, map c | c in cells :: 0)
  }

  /**
   A well-formed forest: both maps have the same keys, every parent is a key,
   ranks lie between 0 and `bound`, and a non-root's rank is below its
   parent's, so parent pointers never cycle.
   */
  ghost predicate Forest(ds: Sets, bound: int)
  {
    && (forall v :: v in ds.parent <==> v in ds.rank)
    && (forall v :: v in ds.parent ==> 0 <= ds.rank[v] <= bound)
    && (forall v {:trigger ds.parent[v]} :: v in ds.parent ==> ds.parent[v] in ds.parent)
    && (forall v {:trigger ds.parent[v]} :: v in ds.parent && ds.parent[v] != v ==> ds.rank[v] < ds.rank[ds.parent[v]])
  }

  /** No rank exceeds `k`. */
  ghost predicate RanksAtMost(ds: Sets, k: int)
  {
    forall v :: v in ds.rank ==> ds.rank[v] <= k
  }

  /** The root reached from `u` by following parent pointers. */
  ghost function Root(ds: Sets, bound: int, u: Cell): (r: Cell)
    requires Forest(ds, bound) && u in ds.parent
    ensures r in ds.parent && ds.parent[r] == r
    ensures ds.parent[u] == u ==> r == u
    decreases bound - ds.rank[u]
  {
    if ds.parent[u] == u then u else Root(ds, bound, ds.parent[u])
  }

  /** The roots of the forest: one per set. */
  ghost function Roots(ds: Sets): (rs: set<Cell>)
    ensures forall v {:trigger v in rs} :: v in rs <==> v in ds.parent && ds.parent[v] == v
  {
    set v | v in ds.parent && ds.parent[v] == v
  }

  /**
   `find(parent, u)` (kruskal.py:16-21): follow parent pointers from `u`
   while they lead elsewhere. It returns the root of `u`'s tree.
   */
  method Find(ds: Sets, u: Cell, ghost bound: int) returns (r: Cell)
    requires Forest(ds, bound) && u in ds.parent
    ensures r in ds.parent && ds.parent[r] == r
    ensures r == Root(ds, bound, u)
  {
    r := u;
    while ds.parent[r] != r
      invariant r in ds.parent && Root(ds, bound, r) == Root(ds, bound, u)
      decreases bound - ds.rank[r]
    {
      r := ds.parent[r];
    }
  }

  /** The root that stays a root when `r1` and `r2` are joined: the higher-ranked, or `r2` on a tie. */
  function Winner(ds: Sets, r1: Cell, r2: Cell): Cell
    requires r1 in ds.rank && r2 in ds.rank
  {
    if ds.rank[r1] > ds.rank[r2] then r1 else r2
  }

  /** The root that is hung below the other. */
  function Loser(ds: Sets, r1: Cell, r2: Cell): Cell
    requires r1 in ds.rank && r2 in ds.rank
  {
    if ds.rank[r1] > ds.rank[r2] then r2 else r1
  }

  /** The winner's rank after joining: one more than before on a tie, unchanged otherwise. */
  function WinnerRank(ds: Sets, r1: Cell, r2: Cell): int
    requires r1 in ds.rank && r2 in ds.rank
  {
    if ds.rank[r1] == ds.rank[r2] then ds.rank[r2] + 1 else ds.rank[Winner(ds, r1, r2)]
  }

  /**
   Union by rank of two roots (kruskal.py:67-73): the lower-ranked root is
   hung below the other; on a tie `root1` goes below `root2` and `root2`'s
   rank grows by one.
   */
  function Link(ds: Sets, r1: Cell, r2: Cell): (ds': Sets)
    requires r1 in ds.parent && r2 in ds.parent && r1 in ds.rank && r2 in ds.rank
    ensures ds'.parent == ds.parent[Loser(ds, r1, r2) := Winner(ds, r1, r2)]
    ensures ds'.rank == ds.rank[Winner(ds, r1, r2) := WinnerRank(ds, r1, r2)]
  {
    if ds.rank[r1] > ds.rank[r2] then ds.(parent := ds.parent[r2 := r1])
    else if ds.rank[r1] < ds.rank[r2] then ds.(parent := ds.parent[r1 := r2])
    else Sets(ds.parent[r1 := r2], ds.rank[r2 := ds.rank[r2] + 1])
  }

  /** Hanging `lo` below `hi` and giving `hi` rank `h` keeps the keys, parents inside the keys and ranks in range. */
  lemma HangClosed(p: map<Cell, Cell>, r: map<Cell, int>, bound: int, lo: Cell, hi: Cell, h: int,
                   p': map<Cell, Cell>, r': map<Cell, int>)
    requires forall v :: v in p <==> v in r
    requires forall v :: v in p ==> 0 <= r[v] <= bound
    requires forall v {:trigger p[v]} :: v in p ==> p[v] in p
    requires lo in p && hi in p && 0 <= h <= bound
    requires p' == p[lo := hi] && r' == r[hi := h]
    ensures forall v :: v in p' <==> v in r'
    ensures forall v :: v in p' ==> 0 <= r'[v] <= bound
    ensures forall v {:trigger p'[v]} :: v in p' ==> p'[v] in p'
  {
  }

  /** Raising one rank to at most `k + 1` keeps every rank at most `k + 1`. */
  lemma RaiseKeepsBound(r: map<Cell, int>, k: int, hi: Cell, h: int, r': map<Cell, int>)
    requires forall v :: v in r ==> r[v] <= k
    requires r' == r[hi := h] && h <= k + 1
    ensures forall v :: v in r' ==> r'[v] <= k + 1
  {
  }

  /** After hanging `lo` below `hi`, a non-root's rank is still below its parent's. */
  lemma HangOrdered(ds: Sets, bound: int, lo: Cell, hi: Cell, h: int, ds': Sets, v: Cell)
    requires Forest(ds, bound)
    requires lo in ds.parent && hi in ds.parent && ds.parent[lo] == lo && ds.parent[hi] == hi && lo != hi
    requires ds'.parent == ds.parent[lo := hi] && ds'.rank == ds.rank[hi := h]
    requires ds.rank[hi] <= h && ds.rank[lo] < h
    requires v in ds'.parent && ds'.parent[v] != v
    ensures ds'.rank[v] < ds'.rank[ds'.parent[v]]
  {
    if v != lo {
      assert ds'.parent[v] == ds.parent[v] && v != hi;
    }
  }

  /**
   Hanging root `lo` below root `hi`, with `hi`'s rank kept or raised so
   that it stays above `lo`'s, keeps a forest whose ranks grow by at most one.
   */
  lemma HangKeeps(ds: Sets, bound: int, k: int, lo: Cell, hi: Cell, h: int, ds': Sets)
    requires Forest(ds, bound) && RanksAtMost(ds, k) && k < bound
    requires lo in ds.parent && hi in ds.parent && ds.parent[lo] == lo && ds.parent[hi] == hi && lo != hi
    requires ds'.parent == ds.parent[lo := hi] && ds'.rank == ds.rank[hi := h]
    requires ds.rank[hi] <= h <= k + 1 && ds.rank[lo] < h
    ensures Forest(ds', bound) && RanksAtMost(ds', k + 1)
  {
    HangClosed(ds.parent, ds.rank, bound, lo, hi, h, ds'.parent, ds'.rank);
    forall v | v in ds'.parent && ds'.parent[v] != v
      ensures ds'.rank[v] < ds'.rank[ds'.parent[v]]
    {
      HangOrdered(ds, bound, lo, hi, h, ds', v);
    }
    RaiseKeepsBound(ds.rank, k, hi, h, ds'.rank);
  }

  /** Hanging one root below another removes exactly that root. */
  lemma HangRoots(ds: Sets, lo: Cell, hi: Cell, ds': Sets)
    requires lo in Roots(ds) && hi in Roots(ds) && lo != hi
    requires ds'.parent == ds.parent[lo := hi]
    ensures Roots(ds') == Roots(ds) - {lo}
    ensures |Roots(ds')| == |Roots(ds)| - 1
  {
    forall v ensures v in Roots(ds') <==> v in Roots(ds) - {lo}
    {
    }
  }

  /** Hanging one passage below another keeps the passages. */
  lemma HangSameKeys(p: map<Cell, Cell>, lo: Cell, hi: Cell, p': map<Cell, Cell>)
    requires lo in p && p' == p[lo := hi]
    ensures p'.Keys == p.Keys
  {
  }

  /**
   Joining two distinct roots keeps a forest whose ranks grow by at most
   one, and removes exactly one root: the loser.
   */
  lemma LinkKeeps(ds: Sets, bound: int, k: int, r1: Cell, r2: Cell, ds': Sets)
    requires Forest(ds, bound) && RanksAtMost(ds, k) && k < bound
    requires r1 in ds.parent && r2 in ds.parent && ds.parent[r1] == r1 && ds.parent[r2] == r2 && r1 != r2
    requires ds' == Link(ds, r1, r2)
    ensures Forest(ds', bound) && RanksAtMost(ds', k + 1)
    ensures Roots(ds') == Roots(ds) - {Loser(ds, r1, r2)}
    ensures |Roots(ds')| == |Roots(ds)| - 1
    ensures ds'.parent.Keys == ds.parent.Keys
  {
    var lo, hi := Loser(ds, r1, r2), Winner(ds, r1, r2);
    HangKeeps(ds, bound, k, lo, hi, WinnerRank(ds, r1, r2), ds');
    HangRoots(ds, lo, hi, ds');
    HangSameKeys(ds.parent, lo, hi, ds'.parent);
  }

  /** After hanging root `lo` below root `hi`, a root other than `lo` is its own root still, and `lo` leads to `hi`. */
  lemma HangAtRoot(ds: Sets, bound: int, lo: Cell, hi: Cell, ds': Sets, x: Cell)
    requires Forest(ds', bound)
    requires lo in ds.parent && hi in ds.parent && ds.parent[hi] == hi && lo != hi
    requires ds'.parent == ds.parent[lo := hi] && x in ds.parent && ds.parent[x] == x
    ensures Root(ds', bound, x) == if x == lo then hi else x
  {
    if x == lo {
      assert ds'.parent[x] == hi && ds'.parent[hi] == hi;
      assert Root(ds', bound, hi) == hi;
    }
  }

  /** After hanging root `lo` below root `hi`, a non-root leads where its parent leads, before and after. */
  lemma HangBelowRoot(ds: Sets, bound: int, lo: Cell, hi: Cell, ds': Sets, x: Cell)
    requires Forest(ds, bound) && Forest(ds', bound)
    requires lo in ds.parent && ds.parent[lo] == lo
    requires ds'.parent == ds.parent[lo := hi] && x in ds.parent && ds.parent[x] != x
    ensures ds.parent[x] in ds.parent && ds.rank[ds.parent[x]] > ds.rank[x]
    ensures Root(ds, bound, x) == Root(ds, bound, ds.parent[x])
    ensures Root(ds', bound, x) == Root(ds', bound, ds.parent[x])
  {
    assert ds'.parent[x] == ds.parent[x];
  }

  /** After hanging root `lo` below root `hi`, what led to `lo` leads to `hi`, and every other root is unchanged. */
  lemma {:induction false} RootAfterHang(ds: Sets, bound: int, lo: Cell, hi: Cell, ds': Sets, x: Cell)
    requires Forest(ds, bound) && Forest(ds', bound)
    requires lo in ds.parent && hi in ds.parent && ds.parent[lo] == lo && ds.parent[hi] == hi && lo != hi
    requires ds'.parent == ds.parent[lo := hi] && x in ds.parent
    ensures Root(ds', bound, x) == if Root(ds, bound, x) == lo then hi else Root(ds, bound, x)
    decreases bound - ds.rank[x]
  {
    if ds.parent[x] == x {
      HangAtRoot(ds, bound, lo, hi, ds', x);
    } else {
      HangBelowRoot(ds, bound, lo, hi, ds', x);
      RootAfterHang(ds, bound, lo, hi, ds', ds.parent[x]);
    }
  }

  /**
   After joining two distinct roots, the root of every passage is the
   winner if its old root was one of the two, and its old root otherwise.
   */
  lemma RootAfterLink(ds: Sets, bound: int, r1: Cell, r2: Cell, ds': Sets, x: Cell)
    requires Forest(ds, bound) && Forest(ds', bound)
    requires r1 in ds.parent && r2 in ds.parent && ds.parent[r1] == r1 && ds.parent[r2] == r2 && r1 != r2
    requires ds'.parent == Link(ds, r1, r2).parent && x in ds.parent
    ensures Root(ds', bound, x) ==
      if Root(ds, bound, x) == r1 || Root(ds, bound, x) == r2 then Winner(ds, r1, r2) else Root(ds, bound, x)
  {
    var lo, hi := Loser(ds, r1, r2), Winner(ds, r1, r2);
    LoserWinner(ds, r1, r2);
    RootAfterHang(ds, bound, lo, hi, ds', x);
  }

  /** The loser and the winner are the two joined roots, one each. */
  lemma LoserWinner(ds: Sets, r1: Cell, r2: Cell)
    requires r1 in ds.rank && r2 in ds.rank
    ensures (Loser(ds, r1, r2) == r1 && Winner(ds, r1, r2) == r2) || (Loser(ds, r1, r2) == r2 && Winner(ds, r1, r2) == r1)
  {
  }
}
