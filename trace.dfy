/** Turning the parent links of a finished search into a route, and
    thinning that route to the cells where its direction changes. */
module Trace {
  import opened Geometry
  import opened Grid

  /** `List.Reverse`. */
  function Reverse<T>(s: seq<T>): (r: seq<T>)
    ensures |r| == |s|
    ensures forall i :: 0 <= i < |s| ==> r[i] == s[|s| - 1 - i]
  {
    if s == [] then [] else [s[|s| - 1]] + Reverse(s[..|s| - 1])
  }

  /** The parent links a search leaves behind: every closed cell but the
      start has a parent, that parent is closed too and was closed earlier
      (`rank` is the order in which cells were closed), and the start has none. */
  ghost predicate ParentTree(start: Cell, parent: map<Cell, Cell>, closed: set<Cell>, rank: map<Cell, nat>)
  {
    start !in parent &&
    (forall c :: c in closed ==> c in rank) &&
    forall c :: c in closed && c != start ==>
      c in parent && parent[c] in closed && rank[parent[c]] < rank[c]
  }

  /** `nodes` is a chain of parent links leading out of `start`: the first
      node's parent is the start and each later node's parent is the node
      before it. */
  ghost predicate LinkedFrom(start: Cell, nodes: seq<Cell>, parent: map<Cell, Cell>)
  {
    |nodes| > 0 &&
    (forall i :: 0 <= i < |nodes| ==> nodes[i] in parent) &&
    parent[nodes[0]] == start &&
    forall i :: 0 < i < |nodes| ==> parent[nodes[i]] == nodes[i - 1]
  }

  /** Walks the parent links back from `target` until the start, then
      reverses, giving the route from just after the start up to the
      target. The walk also stops at a missing parent; in a parent tree
      only the start lacks one, so that exit is never taken. */
  method Retrace(start: Cell, target: Cell, parent: map<Cell, Cell>,
                 ghost closed: set<Cell>, ghost rank: map<Cell, nat>) returns (nodes: seq<Cell>)
    requires target in closed && ParentTree(start, parent, closed, rank)
    ensures target == start ==> nodes == []
    ensures target != start ==> LinkedFrom(start, nodes, parent) && nodes[|nodes| - 1] == target
    ensures start !in nodes
    ensures forall i, j :: 0 <= i < j < |nodes| ==> nodes[i] != nodes[j]
  {
    var back: seq<Cell> := [];
    var cur: Option<Cell> := Some(target);
    while cur.Some? && cur.value != start
      invariant cur.Some? && cur.value in closed
      invariant |back| == 0 ==> cur.value == target
      invariant |back| > 0 ==> back[0] == target && Linked(parent, back[|back| - 1], cur.value)
      invariant forall i :: 0 <= i < |back| - 1 ==> Linked(parent, back[i], back[i + 1])
      invariant forall i :: 0 <= i < |back| ==> back[i] in closed && back[i] != start
      invariant forall i :: 0 <= i < |back| ==> rank[back[i]] > rank[cur.value]
      invariant forall i, j :: 0 <= i < j < |back| ==> rank[back[i]] > rank[back[j]]
      decreases rank[cur.value]
    {
      var c := cur.value;
      assert c in parent && parent[c] in closed && rank[parent[c]] < rank[c];
      back := back + [c];
      cur := Some(parent[c]);
    }
    nodes := Reverse(back);
    ReversedWalk(start, target, back, parent, rank);
  }

  /** The reversed walk from the target back to the start is a chain of
      parent links out of the start that ends at the target and visits no
      cell twice. */
  lemma ReversedWalk(start: Cell, target: Cell, back: seq<Cell>, parent: map<Cell, Cell>, rank: map<Cell, nat>)
    requires |back| == 0 ==> target == start
    requires |back| > 0 ==> back[0] == target && Linked(parent, back[|back| - 1], start)
    requires forall i :: 0 <= i < |back| - 1 ==> Linked(parent, back[i], back[i + 1])
    requires forall i :: 0 <= i < |back| ==> back[i] in rank && back[i] != start
    requires forall i, j :: 0 <= i < j < |back| ==> rank[back[i]] > rank[back[j]]
    ensures var nodes := Reverse(back);
            (target == start ==> nodes == []) &&
            (target != start ==> LinkedFrom(start, nodes, parent) && nodes[|nodes| - 1] == target) &&
            start !in nodes &&
            forall i, j :: 0 <= i < j < |nodes| ==> nodes[i] != nodes[j]
  {
    var nodes := Reverse(back);
    var n := |back|;
    forall i, j | 0 <= i < j < n ensures nodes[i] != nodes[j] {
      assert nodes[i] == back[n - 1 - i] && nodes[j] == back[n - 1 - j];
    }
    if n > 0 {
      assert nodes[0] == back[n - 1];
      assert nodes[n - 1] == back[0];
      forall i | 0 < i < n ensures nodes[i] in parent && parent[nodes[i]] == nodes[i - 1] {
        assert nodes[i] == back[n - 1 - i] && nodes[i - 1] == back[n - i];
        assert Linked(parent, back[n - 1 - i], back[n - i]);
      }
    }
  }

  /** `child`'s parent link points at `p`. */
  ghost predicate Linked(parent: map<Cell, Cell>, child: Cell, p: Cell)
  {
    child in parent && parent[child] == p
  }

  /** A grid step as `Vector2Int`: the offset from the previous node, zero
      before the first node. */
  datatype Dir = Dir(dx: int, dy: int)

  function StepAt(nodes: seq<Cell>, i: nat): Dir
    requires i < |nodes|
  {
    if i == 0 then Dir(0, 0) else Dir(nodes[i].x - nodes[i - 1].x, nodes[i].y - nodes[i - 1].y)
  }

  /** The simplifier keeps the first node, the last node, and every node
      whose step differs from the step before it. */
  predicate Keep(nodes: seq<Cell>, i: nat)
    requires i < |nodes|
  {
    i == 0 || StepAt(nodes, i) != StepAt(nodes, i - 1) || i == |nodes| - 1
  }

  /** The nodes among the first `n` that are kept, in order. */
  function Kept(nodes: seq<Cell>, n: nat): seq<Cell>
    requires n <= |nodes|
  {
    if n == 0 then []
    else Kept(nodes, n - 1) + (if Keep(nodes, n - 1) then [nodes[n - 1]] else [])
  }

  /** The indices of the kept nodes among the first `n`, in order. */
  function KeptIndices(nodes: seq<Cell>, n: nat): seq<nat>
    requires n <= |nodes|
  {
    if n == 0 then []
    else KeptIndices(nodes, n - 1) + (if Keep(nodes, n - 1) then [n - 1] else [])
  }

  /** The direction-change filter of `RetraceAndSimplify`, on cells. */
  method Simplify(nodes: seq<Cell>) returns (kept: seq<Cell>)
    ensures kept == Kept(nodes, |nodes|)
  {
    kept := [];
    if |nodes| == 0 {
      return;
    }
    var prevDir := Dir(0, 0);
    for i := 0 to |nodes|
      invariant kept == Kept(nodes, i)
      invariant prevDir == if i == 0 then Dir(0, 0) else StepAt(nodes, i - 1)
    {
      var dir := Dir(0, 0);
      if i > 0 {
        dir := Dir(nodes[i].x - nodes[i - 1].x, nodes[i].y - nodes[i - 1].y);
      }
      if i == 0 || dir != prevDir || i == |nodes| - 1 {
        kept := kept + [nodes[i]];
      }
      prevDir := dir;
    }
  }

  /** The simplified route is an order-preserving selection of the route:
      exactly the nodes that `Keep` accepts, at increasing indices. */
  lemma {:induction false} KeptIsSubsequence(nodes: seq<Cell>, n: nat)
    requires n <= |nodes|
    ensures |Kept(nodes, n)| == |KeptIndices(nodes, n)|
    ensures forall k :: 0 <= k < |KeptIndices(nodes, n)| ==>
              KeptIndices(nodes, n)[k] < n && Kept(nodes, n)[k] == nodes[KeptIndices(nodes, n)[k]]
    ensures forall k, l :: 0 <= k < l < |KeptIndices(nodes, n)| ==>
              KeptIndices(nodes, n)[k] < KeptIndices(nodes, n)[l]
    ensures forall i :: 0 <= i < n ==> (i in KeptIndices(nodes, n) <==> Keep(nodes, i))
  {
    if n > 0 {
      KeptIsSubsequence(nodes, n - 1);
      var kept, indices := Kept(nodes, n - 1), KeptIndices(nodes, n - 1);
      if Keep(nodes, n - 1) {
        assert Kept(nodes, n) == kept + [nodes[n - 1]];
        assert KeptIndices(nodes, n) == indices + [n - 1];
      } else {
        assert Kept(nodes, n) == kept && KeptIndices(nodes, n) == indices;
      }
    }
  }

  /** The first and the last node of a non-empty route always survive. */
  lemma {:induction false} KeptEnds(nodes: seq<Cell>)
    requires |nodes| > 0
    ensures |Kept(nodes, |nodes|)| > 0
    ensures Kept(nodes, |nodes|)[0] == nodes[0]
    ensures Kept(nodes, |nodes|)[|Kept(nodes, |nodes|)| - 1] == nodes[|nodes| - 1]
  {
    KeptStartsAtFirst(nodes, |nodes|);
  }

  lemma {:induction false} KeptStartsAtFirst(nodes: seq<Cell>, n: nat)
    requires 0 < n <= |nodes|
    ensures |Kept(nodes, n)| > 0 && Kept(nodes, n)[0] == nodes[0]
  {
    if n > 1 {
      KeptStartsAtFirst(nodes, n - 1);
    }
  }

  /** The nodes dropped between two consecutive kept nodes continue in a
      straight line: each lies a whole number of equal steps past the kept
      node before them. */
  lemma {:induction false} DroppedRunIsStraight(nodes: seq<Cell>, a: nat, k: nat)
    requires a < k < |nodes|
    requires forall j :: a < j <= k ==> !Keep(nodes, j)
    ensures var d := StepAt(nodes, a + 1);
            nodes[k].x == nodes[a].x + (k - a) * d.dx && nodes[k].y == nodes[a].y + (k - a) * d.dy
    decreases k
  {
    var d := StepAt(nodes, a + 1);
    if k > a + 1 {
      DroppedRunIsStraight(nodes, a, k - 1);
      assert !Keep(nodes, k);
      SameStepThroughRun(nodes, a, k);
      assert (k - a) * d.dx == (k - 1 - a) * d.dx + d.dx;
      assert (k - a) * d.dy == (k - 1 - a) * d.dy + d.dy;
    }
  }

  lemma {:induction false} SameStepThroughRun(nodes: seq<Cell>, a: nat, k: nat)
    requires a < k < |nodes|
    requires forall j :: a < j <= k ==> !Keep(nodes, j)
    ensures StepAt(nodes, k) == StepAt(nodes, a + 1)
    decreases k
  {
    if k > a + 1 {
      assert !Keep(nodes, k);
      SameStepThroughRun(nodes, a, k - 1);
    }
  }

  /** A route that goes in one straight line keeps exactly three nodes: the
      first, the second (its step differs from the zero step assumed before
      the first node) and the last. */
  lemma StraightRouteKeepsThree(nodes: seq<Cell>, d: Dir)
    requires |nodes| >= 3 && d != Dir(0, 0)
    requires forall i :: 0 < i < |nodes| ==> StepAt(nodes, i) == d
    ensures Kept(nodes, |nodes|) == [nodes[0], nodes[1], nodes[|nodes| - 1]]
  {
    StraightPrefix(nodes, d, |nodes| - 1);
  }

  lemma {:induction false} StraightPrefix(nodes: seq<Cell>, d: Dir, n: nat)
    requires 2 <= n < |nodes| && d != Dir(0, 0)
    requires forall i :: 0 < i < |nodes| ==> StepAt(nodes, i) == d
    ensures Kept(nodes, n) == [nodes[0], nodes[1]]
  {
    if n > 2 {
      StraightPrefix(nodes, d, n - 1);
      assert StepAt(nodes, n - 1) == d == StepAt(nodes, n - 2);
    } else {
      assert Kept(nodes, 1) == [nodes[0]];
      assert StepAt(nodes, 1) == d;
    }
  }
}
