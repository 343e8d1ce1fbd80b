/** better_cycle_detect: a depth-first search that ends the process on the first cycle it meets. */
module CycleDetect {
  import opened BuildGraph

  /** The position of `x` in `s`. */
  function Position(s: seq<int>, x: int): (i: nat)
    requires x in s
    ensures i < |s| && s[i] == x && x !in s[..i]
  {
    if s[0] == x then 0 else
    assert x in s[1..];
    assert s[..1 + Position(s[1..], x)] == [s[0]] + s[1..][..Position(s[1..], x)];
    1 + Position(s[1..], x)
  }

  /** A list without repetition in which every rule comes after all its dependencies. */
  ghost predicate Topological(g: Graph, order: seq<int>) {
    && (forall i, j | 0 <= i < j < |order| :: order[i] != order[j])
    && (forall i | 0 <= i < |order| :: 0 <= order[i] < |g.deps| && forall d | d in g.Edges(order[i]) :: d in order[..i])
  }

  /** Along a walk, positions in a topological order fall. */
  lemma {:induction false} WalkDescends(g: Graph, order: seq<int>, p: seq<int>, i: nat)
    requires Topological(g, order) && g.Walk(p) && i < |p| && p[0] in order
    ensures p[i] in order
    ensures forall j | 0 <= j < i :: p[j] in order && Position(order, p[i]) < Position(order, p[j])
  {
    if i > 0 {
      WalkDescends(g, order, p, i - 1);
      var k := Position(order, p[i - 1]);
      assert p[(i - 1) + 1] in g.Edges(p[i - 1]);
      assert p[i] in order[..k];
      var m := Position(order[..k], p[i]);
      PositionUnique(g, order, p[i], m);
      forall j | 0 <= j < i
        ensures p[j] in order && Position(order, p[i]) < Position(order, p[j])
      {
      }
    }
  }

  lemma PositionUnique(g: Graph, order: seq<int>, x: int, m: nat)
    requires Topological(g, order) && m < |order| && order[m] == x
    ensures x in order && Position(order, x) == m
  {
    assert order[Position(order, x)] == order[m];
  }

  /** No cycle can be reached from a rule in a topological order, and only listed rules can. */
  lemma TopologicalAcyclic(g: Graph, order: seq<int>, a: int)
    requires Topological(g, order) && a in order
    ensures !g.CyclicFrom(a)
    ensures forall b | g.Reaches(a, b) :: b in order
  {
    forall p, i, j | 0 <= i < j < |p| && g.Walk(p) && p[0] == a
      ensures p[i] != p[j]
    {
      WalkDescends(g, order, p, j);
    }
    forall b | g.Reaches(a, b)
      ensures b in order
    {
      var p :| g.WalkFromTo(p, a, b);
      WalkDescends(g, order, p, |p| - 1);
    }
  }

  lemma WalkExtends(g: Graph, p: seq<int>, q: seq<int>)
    requires g.Walk(p) && g.Walk(q) && |p| > 0 && |q| > 0 && q[0] in g.Edges(p[|p| - 1])
    ensures g.Walk(p + q)
  {
    var w := p + q;
    forall i | 0 <= i < |w| - 1
      ensures w[i + 1] in g.Edges(w[i])
    {
      if i < |p| - 1 {
        assert w[i] == p[i] && w[i + 1] == p[i + 1];
      } else if i >= |p| {
        assert w[i] == q[i - |p|] && w[i + 1] == q[i - |p| + 1];
      }
    }
  }

  lemma ReachesExtends(g: Graph, a: int, d: int, b: int)
    requires 0 <= a < |g.deps| && d in g.Edges(a) && g.Reaches(d, b)
    ensures g.Reaches(a, b)
  {
    var p :| g.WalkFromTo(p, d, b);
    WalkExtends(g, [a], p);
    assert g.WalkFromTo([a] + p, a, b);
  }

  lemma TopologicalExtends(g: Graph, order: seq<int>, cur: int)
    requires Topological(g, order) && 0 <= cur < |g.deps| && cur !in order
    requires forall d | d in g.Edges(cur) :: d in order
    ensures Topological(g, order + [cur])
  {
    var next := order + [cur];
    forall i | 0 <= i < |next|
      ensures 0 <= next[i] < |g.deps| && forall d | d in g.Edges(next[i]) :: d in next[..i]
    {
      assert next[..i] == if i < |order| then order[..i] else order;
    }
  }

  class CycleDetector {
    const g: Graph
    /** The is_traversed flags. */
    var traversed: set<int>

    constructor (g: Graph)
      ensures this.g == g && traversed == {}
    {
      this.g := g;
      traversed := {};
    }

    /** better_cycle_detect_impl.  `stack` is the chain of calls, `order` the rules already found cycle-free. */
    method Impl(cur: int, noCycles: array<bool>, parents: array<bool>, mark: bool, ghost stack: seq<int>,
          ghost order: seq<int>)
      returns (cycle: bool, ghost order': seq<int>)
      requires g.Closed() && 0 <= cur < |g.deps|
      requires noCycles.Length == parents.Length == |g.deps| && noCycles != parents
      requires g.Walk(stack + [cur])
      requires forall i, j | 0 <= i < j < |stack| :: stack[i] != stack[j]
      requires forall i | 0 <= i < |g.deps| :: parents[i] <==> i in stack
      requires Topological(g, order) && forall i | 0 <= i < |g.deps| :: noCycles[i] <==> i in order
      requires forall x | x in stack :: x !in order
      modifies this`traversed, noCycles, parents
      decreases |g.deps| - |stack|
      ensures cycle ==> g.CyclicFrom((stack + [cur])[0])
      ensures !cycle ==> order <= order' && Topological(g, order') && cur in order'
      ensures !cycle ==> parents[..] == old(parents[..]) && forall x | x in stack :: x !in order'
      ensures !cycle ==> forall i | 0 <= i < |g.deps| :: noCycles[i] <==> i in order'
      ensures !cycle ==> forall x | x in order' && x !in order :: g.Reaches(cur, x)
      ensures !cycle ==> traversed == old(traversed) + (if mark then set x | x in order' && x !in order else {})
    {
      cycle, order' := false, order;
      if noCycles[cur] {
        return;
      }
      if parents[cur] {
        ghost var i := Position(stack, cur);
        assert (stack + [cur])[i] == (stack + [cur])[|stack|];
        cycle := true;
        return;
      }
      StackBound(g, stack + [cur]);
      parents[cur] := true;
      ghost var before := parents[..];
      ghost var trav := traversed;
      var i := 0;
      while i < |g.deps[cur]|
        invariant 0 <= i <= |g.deps[cur]|
        invariant parents[..] == before
        invariant order <= order' && Topological(g, order') && forall x | x in stack + [cur] :: x !in order'
        invariant forall k | 0 <= k < |g.deps| :: noCycles[k] <==> k in order'
        invariant forall x | x in order' && x !in order :: g.Reaches(cur, x)
        invariant forall j | 0 <= j < i && g.IsEdge(cur, j) :: g.deps[cur][j].rule in order'
        invariant traversed == trav + (if mark then set x | x in order' && x !in order else {})
      {
        if !g.deps[cur][i].isDupe && g.deps[cur][i].rule >= 0 {
          var d := g.deps[cur][i].rule;
          assert g.IsEdge(cur, i) && d in g.Edges(cur);
          WalkExtends(g, stack + [cur], [d]);
          ghost var prev := order';
          cycle, order' := Impl(d, noCycles, parents, mark, stack + [cur], order');
          if cycle {
            assert (stack + [cur] + [d])[0] == (stack + [cur])[0];
            return;
          }
          forall x | x in order' && x !in prev
            ensures g.Reaches(cur, x)
          {
            ReachesExtends(g, cur, d, x);
          }
        }
        i := i + 1;
      }
      assert cur in stack + [cur];
      assert g.WalkFromTo([cur], cur, cur);
      TopologicalExtends(g, order', cur);
      parents[cur] := false;
      noCycles[cur] := true;
      if mark {
        traversed := traversed + {cur};
      }
      order' := order' + [cur];
    }

    /** better_cycle_detect: returns whether the process ends because a cycle was found. */
    method Detect(cur: int, mark: bool) returns (cycle: bool, ghost order: seq<int>)
      requires g.Closed() && 0 <= cur < |g.deps|
      modifies this
      ensures cycle <==> g.CyclicFrom(cur)
      ensures !cycle ==> Topological(g, order) && cur in order
      ensures !cycle ==> forall x :: x in order <==> g.Reaches(cur, x)
      ensures !cycle ==> forall x :: x in traversed <==> x in old(traversed) || (mark && g.Reaches(cur, x))
    {
      var noCycles := new bool[|g.deps|](i => false);
      var parents := new bool[|g.deps|](i => false);
      assert [] + [cur] == [cur];
      cycle, order := Impl(cur, noCycles, parents, mark, [], []);
      if !cycle {
        TopologicalAcyclic(g, order, cur);
      }
    }
  }

  /** A walk without repetition is no longer than the number of rules. */
  lemma StackBound(g: Graph, stack: seq<int>)
    requires forall i, j | 0 <= i < j < |stack| :: stack[i] != stack[j]
    requires forall i | 0 <= i < |stack| :: 0 <= stack[i] < |g.deps|
    ensures |stack| <= |g.deps|
  {
    var s := set i | 0 <= i < |stack| :: stack[i];
    SeqSetSize(stack);
    assert s <= Numbers(|g.deps|);
    var rest := Numbers(|g.deps|) - s;
    assert Numbers(|g.deps|) == s + rest;
  }

  lemma {:induction false} SeqSetSize(s: seq<int>)
    requires forall i, j | 0 <= i < j < |s| :: s[i] != s[j]
    ensures |set i | 0 <= i < |s| :: s[i]| == |s|
  {
    if s != [] {
      var t := s[..|s| - 1];
      SeqSetSize(t);
      assert (set i | 0 <= i < |s| :: s[i]) == (set i | 0 <= i < |t| :: t[i]) + {s[|s| - 1]};
    }
  }
}