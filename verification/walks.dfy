/**
 The course of Wilson's walks read on the passage graph alone: where the head
 of a loop-erased random walk goes under a given sequence of choices, which
 path survives the loop erasure, and how a whole run strings its walks
 together. The grid colours play no part here: a walk stops on the first cell
 of the tree it meets, and the tree is a set of passages.

 The walks of `src/wilson/wilson.py` are shown to follow this course exactly.
 */
module Walks {
  import opened Seqs
  import opened Grid

  /** The neighbour lists of the passages. */
  type Graph = map<Cell, seq<Cell>>

  /** Every listed neighbour is itself a passage with a neighbour list. */
  predicate Closed(g: Graph)
  {
    forall c, i :: c in g && 0 <= i < |g[c]| ==> g[c][i] in g
  }

  /** The neighbour `random.choice` picks for a given choice value. */
  function Pick(ns: seq<Cell>, choice: nat): (z: Cell)
    requires |ns| > 0
    ensures z in ns
  {
    ns[choice % |ns|]
  }

  /** Why a walk or a run stopped before finishing. */
  datatype Halt =
    | OutOfChoices         // the supplied choices ran out (the model's fuel)
    | Isolated(at: Cell)   // `random.choice` on an empty neighbour list

  /**
   The course of one walk: it lands on the tree with the surviving path, or it
   stops; `used` is the number of choices it consumed.
   */
  datatype Course =
    | Lands(path: seq<Cell>, used: nat)
    | Stops(why: Halt, used: nat)

  /** The same course, counted after `k` choices used before it. */
  function Later(o: Course, k: nat): (o': Course)
    ensures o'.used == o.used + k
    ensures o'.Lands? <==> o.Lands?
    ensures o'.Lands? ==> o'.path == o.path
    ensures o'.Stops? ==> o'.why == o.why
  {
    match o
    case Lands(p, n) => Lands(p, n + k)
    case Stops(w, n) => Stops(w, n + k)
  }

  /** Counting after `a` and then after `b` choices is counting after `a + b`. */
  lemma LaterLater(o: Course, a: nat, b: nat)
    ensures Later(Later(o, a), b) == Later(o, a + b)
  {
  }

  /**
   The path after moving to `next`: when `next` is already on the path the
   loop back to it is erased, otherwise `next` is appended.
   */
  function Retrace(path: seq<Cell>, next: Cell): (p: seq<Cell>)
    requires |path| > 0
    ensures |p| > 0 && p[0] == path[0] && Last(p) == next
    ensures NoDup(path) ==> NoDup(p)
    ensures forall x :: x in p ==> x in path || x == next
  {
    if next in path then
      var k := FirstIndex(path, next);
      assert NoDup(path) ==> NoDup(path[..k + 1]) by {
        if NoDup(path) { NoDupPrefix(path, k + 1); }
      }
      path[..k + 1]
    else
      assert NoDup(path) ==> NoDup(path + [next]) by {
        if NoDup(path) { NoDupAppend(path, next); }
      }
      path + [next]
  }

  /**
   The course of the walk whose current path is `path`, on the graph `g` with
   the passages of `tree` already in the tree. A head on the tree lands; else
   without choices the walk is out of fuel; else without neighbours it is
   isolated; else the head moves to the picked neighbour.
   */
  function Wander(g: Graph, tree: set<Cell>, path: seq<Cell>, choices: seq<nat>): (o: Course)
    requires Closed(g) && |path| > 0 && Last(path) in g
    ensures o.used <= |choices|
    ensures o.Stops? && o.why.OutOfChoices? ==> o.used == |choices|
    ensures o.Stops? && o.why.Isolated? ==> o.why.at in g && g[o.why.at] == [] && o.used < |choices|
    ensures o.Lands? ==> |o.path| > 0 && o.path[0] == path[0] && Last(o.path) in tree
    ensures o.Lands? && NoDup(path) ==> NoDup(o.path)
    decreases |choices|
  {
    var c := Last(path);
    if c in tree then Lands(path, 0)
    else if |choices| == 0 then Stops(OutOfChoices, 0)
    else if |g[c]| == 0 then Stops(Isolated(c), 0)
    else Later(Wander(g, tree, Retrace(path, Pick(g[c], choices[0])), choices[1..]), 1)
  }

  /**
   A walk that lands, or stops on an isolated passage, does the same with
   more choices supplied: only running out of choices depends on the fuel.
   */
  lemma {:induction false} WanderMoreFuel(g: Graph, tree: set<Cell>, path: seq<Cell>, choices: seq<nat>, more: seq<nat>)
    requires Closed(g) && |path| > 0 && Last(path) in g
    requires !(Wander(g, tree, path, choices).Stops? && Wander(g, tree, path, choices).why.OutOfChoices?)
    ensures Wander(g, tree, path, choices + more) == Wander(g, tree, path, choices)
    decreases |choices|
  {
    var c := Last(path);
    if c !in tree && |g[c]| > 0 {
      assert (choices + more)[0] == choices[0] && (choices + more)[1..] == choices[1..] + more;
      WanderMoreFuel(g, tree, Retrace(path, Pick(g[c], choices[0])), choices[1..], more);
    }
  }

  /** The passages of a path. */
  function Cells(p: seq<Cell>): (s: set<Cell>)
    ensures forall x :: x in s <==> x in p
  {
    set x | x in p
  }

  /** The outcome of a whole run, with the number of choices it used. */
  datatype Run =
    | Spans(used: nat)
    | Halts(why: Halt, used: nat)

  /** The same run outcome, counted after `k` choices used before it. */
  function LaterRun(o: Run, k: nat): (o': Run)
    ensures o'.used == o.used + k
    ensures o'.Spans? <==> o.Spans?
    ensures o'.Halts? ==> o'.why == o.why
  {
    match o
    case Spans(n) => Spans(n + k)
    case Halts(w, n) => Halts(w, n + k)
  }

  /** Counting after `a` and then after `b` choices is counting after `a + b`. */
  lemma LaterRunLater(o: Run, a: nat, b: nat)
    ensures LaterRun(LaterRun(o, a), b) == LaterRun(o, a + b)
  {
  }

  /**
   The course of a run from position `i` of `cells` with the tree `tree`:
   a cell already in the tree is skipped; from any other cell a walk is
   started, and the run goes on with the tree grown by the walk's path and
   the choices the walk left, or halts where the walk stops.
   */
  function RunFrom(g: Graph, cells: seq<Cell>, i: nat, tree: set<Cell>, choices: seq<nat>): (o: Run)
    requires Closed(g) && (forall c :: c in cells ==> c in g) && i <= |cells|
    ensures o.used <= |choices|
    ensures o.Halts? && o.why.OutOfChoices? ==> o.used == |choices|
    ensures o.Halts? && o.why.Isolated? ==> o.why.at in g && g[o.why.at] == [] && o.used < |choices|
    decreases |cells| - i
  {
    if i == |cells| then Spans(0)
    else if cells[i] in tree then RunFrom(g, cells, i + 1, tree, choices)
    else
      match Wander(g, tree, [cells[i]], choices)
      case Lands(p, n) => LaterRun(RunFrom(g, cells, i + 1, tree + Cells(p), choices[n..]), n)
      case Stops(why, n) => Halts(why, n)
  }

  /**
   A run that does not run out of choices does the same with more choices
   supplied.
   */
  lemma {:induction false} RunMoreFuel(g: Graph, cells: seq<Cell>, i: nat, tree: set<Cell>, choices: seq<nat>, more: seq<nat>)
    requires Closed(g) && (forall c :: c in cells ==> c in g) && i <= |cells|
    requires !(RunFrom(g, cells, i, tree, choices).Halts? && RunFrom(g, cells, i, tree, choices).why.OutOfChoices?)
    ensures RunFrom(g, cells, i, tree, choices + more) == RunFrom(g, cells, i, tree, choices)
    decreases |cells| - i, 1
  {
    if i < |cells| {
      if cells[i] in tree {
        RunMoreFuel(g, cells, i + 1, tree, choices, more);
      } else {
        WalkMoreFuel(g, cells, i, tree, choices, more);
      }
    }
  }

  /**
   A run whose next cell starts a walk, and which does not run out of
   choices, does the same with more choices supplied: the walk does, and so
   does the rest of the run after it.
   */
  lemma {:induction false} WalkMoreFuel(g: Graph, cells: seq<Cell>, i: nat, tree: set<Cell>, choices: seq<nat>, more: seq<nat>)
    requires Closed(g) && (forall c :: c in cells ==> c in g) && i < |cells| && cells[i] !in tree
    requires !(RunFrom(g, cells, i, tree, choices).Halts? && RunFrom(g, cells, i, tree, choices).why.OutOfChoices?)
    ensures RunFrom(g, cells, i, tree, choices + more) == RunFrom(g, cells, i, tree, choices)
    decreases |cells| - i, 0
  {
    var o := Wander(g, tree, [cells[i]], choices);
    WanderMoreFuel(g, tree, [cells[i]], choices, more);
    if o.Lands? {
      DropAppend(choices, more, o.used);
      RunMoreFuel(g, cells, i + 1, tree + Cells(o.path), choices[o.used..], more);
    }
  }
}
