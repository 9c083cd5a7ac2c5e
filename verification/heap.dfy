/**
 The priority queue of the two Prim scripts (`heapq` over tuples
 `(weight, parent, child)`), modelled as a sequence from which the least
 entry under Python's tuple order is taken. The order is total and
 antisymmetric, so the least entry is one value whatever the heap layout,
 and which entries remain does not depend on the layout either.
 */
module Heap {
  import opened Seqs
  import opened Grid

  /**
   A queue entry `(w, parent, child)`. The scripts draw `round(random.random(), 3)`;
   here a weight is the integer number of thousandths, which orders entries the same way.
   */
  datatype Item = Item(weight: int, parent: Cell, child: Cell)

  /** Python's order on coordinate pairs: first coordinate, then second. */
  predicate CellBelow(a: Cell, b: Cell)
  {
    a.0 < b.0 || (a.0 == b.0 && a.1 < b.1)
  }

  /** Python's `x <= y` on entries: weight, then parent, then child, lexicographically. */
  predicate AtMost(x: Item, y: Item)
  {
    || x.weight < y.weight
    || (x.weight == y.weight && CellBelow(x.parent, y.parent))
    || (x.weight == y.weight && x.parent == y.parent && (CellBelow(x.child, y.child) || x.child == y.child))
  }

  /** The tuple order is total, antisymmetric and transitive. */
  lemma AtMostOrder(x: Item, y: Item, z: Item)
    ensures AtMost(x, y) || AtMost(y, x)
    ensures AtMost(x, y) && AtMost(y, x) ==> x == y
    ensures AtMost(x, y) && AtMost(y, z) ==> AtMost(x, z)
  {
  }

  /** Where `heappop` finds its entry: the position of a least entry. */
  function MinIndex(q: seq<Item>): (k: nat)
    requires |q| > 0
    ensures k < |q| && forall j :: 0 <= j < |q| ==> AtMost(q[k], q[j])
    decreases |q|
  {
    if |q| == 1 then 0
    else
      var k := MinIndex(q[..|q| - 1]);
      assert forall j :: 0 <= j < |q| - 1 ==> q[..|q| - 1][j] == q[j];
      if AtMost(q[k], Last(q)) then k
      else
        AtMostOrder(q[k], Last(q), q[k]);
        assert forall j :: 0 <= j < |q| - 1 ==> AtMost(Last(q), q[k]) && AtMost(q[k], q[j]);
        forall j | 0 <= j < |q| - 1
          ensures AtMost(Last(q), q[j])
        {
          AtMostOrder(Last(q), q[k], q[j]);
        }
        |q| - 1
  }

  /** Any two least entries of a queue are equal: the popped value does not depend on the heap layout. */
  lemma LeastIsUnique(q: seq<Item>, i: nat, j: nat)
    requires i < |q| && j < |q|
    requires forall t :: 0 <= t < |q| ==> AtMost(q[i], q[t])
    requires forall t :: 0 <= t < |q| ==> AtMost(q[j], q[t])
    ensures q[i] == q[j]
  {
    AtMostOrder(q[i], q[j], q[i]);
  }

  /** The list satisfies `heapq`'s invariant: no entry is below its parent position `(i - 1) / 2`. */
  predicate HeapOrdered(q: seq<Item>)
  {
    forall i {:trigger q[i]} :: 0 < i < |q| ==> AtMost(q[(i - 1) / 2], q[i])
  }

  /** In a heap-ordered list the head is at most every entry, by the chain of parent positions. */
  lemma {:induction false} HeadAtMost(q: seq<Item>, j: nat)
    requires HeapOrdered(q) && j < |q|
    ensures AtMost(q[0], q[j])
    decreases j
  {
    if j == 0 {
      AtMostOrder(q[0], q[0], q[0]);
    } else {
      var p := (j - 1) / 2;
      HeadAtMost(q, p);
      AtMostOrder(q[0], q[p], q[j]);
    }
  }

  /**
   `heappop` returns `heap[0]`; on a heap-ordered list that is the entry
   `MinIndex` finds, so the two ways of popping agree.
   */
  lemma HeadIsLeast(q: seq<Item>)
    requires |q| > 0 && HeapOrdered(q)
    ensures forall j :: 0 <= j < |q| ==> AtMost(q[0], q[j])
    ensures q[MinIndex(q)] == q[0]
  {
    forall j | 0 <= j < |q|
      ensures AtMost(q[0], q[j])
    {
      HeadAtMost(q, j);
    }
    LeastIsUnique(q, 0, MinIndex(q));
  }

  /**
   The position `heappop` takes from. On the list a script builds before its
   loop (`first`), that is position 0 whatever the order of the list, since
   the list is never heapified. Afterwards the list is kept as a heap, whose
   head is its least entry.
   */
  function Pop(q: seq<Item>, first: bool): (k: nat)
    requires |q| > 0
    ensures k < |q|
    ensures first ==> k == 0
    ensures !first || HeapOrdered(q) ==> forall j :: 0 <= j < |q| ==> AtMost(q[k], q[j])
  {
    if first then
      if HeapOrdered(q) then HeadIsLeast(q); 0 else 0
    else MinIndex(q)
  }

  /** The `(parent, child)` pairs of the entries, in order. */
  function Links(q: seq<Item>): (r: seq<(Cell, Cell)>)
    ensures |r| == |q| && forall k :: 0 <= k < |q| ==> r[k] == (q[k].parent, q[k].child)
  {
    seq(|q|, k requires 0 <= k < |q| => (q[k].parent, q[k].child))
  }

  /** Taking an entry off and pushing more entries act on the pairs in the same way. */
  lemma LinksOfNext(q: seq<Item>, k: nat, pushed: seq<Item>)
    requires k < |q|
    ensures Links(Remove(q, k) + pushed) == Remove(Links(q), k) + Links(pushed)
  {
  }

  /**
   The entries `(w, child, v)` pushed for the neighbours `ns` of `child`, in
   order, the i-th weight being the draw numbered `n + i`.
   */
  function Pushes(child: Cell, ns: seq<Cell>, draw: nat -> int, n: nat): (r: seq<Item>)
    ensures |r| == |ns|
    ensures forall i :: 0 <= i < |ns| ==> r[i] == Item(draw(n + i), child, ns[i])
  {
    seq(|ns|, i requires 0 <= i < |ns| => Item(draw(n + i), child, ns[i]))
  }

  /**
   A start whose only neighbours lie right and below (the top-left passage of
   an unmasked maze) gets the unordered list `[right, below]`: `heappop`
   returns the right neighbour although the one below is the least entry.
   */
  lemma UnorderedStart(c: Cell)
    ensures var q := Pushes(c, [(c.0 + 2, c.1), (c.0, c.1 + 2)], (i: nat) => 0, 0);
      && !HeapOrdered(q)
      && q[Pop(q, true)].child == (c.0 + 2, c.1)
      && q[MinIndex(q)].child == (c.0, c.1 + 2)
  {
    var q := Pushes(c, [(c.0 + 2, c.1), (c.0, c.1 + 2)], (i: nat) => 0, 0);
    assert !AtMost(q[0], q[1]);
  }

  /**
   The list a fresh maze gives a start is heap-ordered whenever it holds more
   than two entries: with three or more neighbours one lies left or above and
   comes first. A list of at most two entries is a heap once its head is
   popped, so from the second pop on `heappop` takes the least entry.
   */
  lemma StartListShape(width: int, height: int, margin: int, mask: Cell -> bool, c: Cell)
    requires InMargin(width, height, margin, c)
    ensures var q := Pushes(c, Neighborhood(width, height, margin, mask, c), (i: nat) => 0, 0);
      |q| <= 2 || HeapOrdered(q)
  {
  }
}
