/** What the scheduler invariant means for a whole run, on any graph and for any order of child completions. */
module SchedulerTheorems {
  import opened BuildGraph
  import opened SchedulerProgress
  import opened SchedulerState
  import opened SchedulerSteps

  /** Dependency-order safety: a rule is queued, running or executed only with all its dependencies executed. */
  lemma OrderSafety(c: Config, s: State, flight: set<int>, r: int, d: int)
    requires Good(c, s, flight) && (r in s.queue || r in s.running || r in s.executed)
    requires 0 <= r < |c.g.deps| && d in c.g.Edges(r)
    ensures d in s.executed
  {
    RuleBasics(c.g, s, flight, r);
    Basics(c.g, s, flight);
  }

  /** Wait ordering: once the dependency loop of a rule has moved past a wait marker, every dependency rule
      before the marker is executed. */
  lemma WaitOrder(c: Config, s: State, flight: set<int>, r: int, k: int, i: int)
    requires Good(c, s, flight) && 0 <= r < |c.g.deps| == |s.passed| && 0 <= i < k < s.passed[r] <= |c.g.deps[r]|
    requires c.g.deps[r][k].isWait && !c.g.deps[r][k].isDupe && c.g.IsEdge(r, i)
    ensures c.g.deps[r][i].rule in s.executed
  {
    assert LoopOf(c.g, s, r);
  }

  /** Wait ordering for starts: a rule that was not asked for and that rule `p` alone wants, behind a wait marker, is
      not started before everything before the marker is executed. */
  lemma HeldBack(c: Config, s: State, flight: set<int>, x: int, p: int, k: int, j: int)
    requires Good(c, s, flight) && x in s.executing && x !in s.asked
    requires 0 <= p < |c.g.deps| && 0 <= j < k < |c.g.deps[p]|
    requires c.g.deps[p][k].isWait && !c.g.deps[p][k].isDupe && c.g.IsEdge(p, j)
    requires forall q, i | 0 <= q < |c.g.deps| && 0 <= i < |c.g.deps[q]| && c.g.IsEdge(q, i) &&
      c.g.deps[q][i].rule == x ::
      q == p && k <= i
    ensures c.g.deps[p][j].rule in s.executed
  {
    var q, i :| Grants(c.g, s, q, i, x);
  }

  /** Bookkeeping: the remaining set holds every dependency rule not yet executed, with its size and the sum
      of its wait counts, and a dependency that the loop has passed unexecuted is counted. */
  lemma Bookkeeping(c: Config, s: State, flight: set<int>, r: int)
    requires Good(c, s, flight) && 0 <= r < |c.g.deps|
    ensures |s.remain| == |s.remainCnt| == |s.waitCnt| == |c.g.deps|
    ensures c.g.Edges(r) - s.executed <= s.remain[r].Keys <= c.g.Edges(r)
    ensures s.remainCnt[r] == |s.remain[r]| && s.waitCnt[r] == SumWait(s.remain[r], |c.g.deps|)
  {
    RuleBasics(c.g, s, flight, r);
    assert RemainOf(c.g, s, r);
    assert forall d | d in s.remain[r].Keys :: d in c.g.Edges(r);
  }

  /** In an ordered history, what a rule reaches in one or more steps was done before it was queued or done. */
  lemma {:induction false} DoneBefore(g: Graph, history: seq<Event>, p: seq<int>, i: nat, j: nat)
    requires g.Walk(p) && Ordered(g, history) && 0 < i < |p| && j < |history| && history[j].rule == p[0]
    ensures Done(p[i]) in history[..j]
  {
    assert DepsDone(g, p[0], history[..j]);
    assert p[0 + 1] in g.Edges(p[0]);
    if i > 1 {
      var k :| 0 <= k < j && history[k] == Done(p[1]);
      var q := p[1..];
      WalkTail(g, p, 1);
      DoneBefore(g, history, q, i - 1, k);
      assert history[..k] <= history[..j];
      assert Done(q[i - 1]) in history[..k];
    }
  }

  /** Whatever the graph, a rule from which a cycle can be reached is never queued and never executed. */
  lemma CyclesNeverRun(c: Config, s: State, flight: set<int>, r: int)
    requires Good(c, s, flight) && c.g.CyclicFrom(r)
    ensures r !in s.queue && r !in s.running && r !in s.executed
  {
    if r in s.queue || r in s.running || r in s.executed {
      var p, i, j :| 0 <= i < j < |p| && c.g.Walk(p) && p[0] == r && p[i] == p[j];
      if r !in s.executed {
        assert Queued(r) in s.history;
        DescendForever(c.g, s.history, Queued(r), p, i, j);
      } else {
        assert Done(r) in s.history;
        DescendForever(c.g, s.history, Done(r), p, i, j);
      }
    }
  }

  /** A walk from a rule with an event in an ordered history never visits a rule twice. */
  lemma DescendForever(g: Graph, history: seq<Event>, e: Event, p: seq<int>, i: int, j: int)
    requires g.Walk(p) && Ordered(g, history) && 0 <= i < j < |p| && e in history && e.rule == p[0]
    ensures p[i] != p[j]
  {
    var n :| 0 <= n < |history| && history[n] == e;
    DoneBefore(g, history, p, j, n);
    var m :| 0 <= m < n && history[m] == Done(p[j]);
    WalkTail(g, p, i);
    if p[i] == p[j] {
      NotBeforeItself(g, history, p[i..], j - i, m);
    }
  }

  lemma NotBeforeItself(g: Graph, history: seq<Event>, q: seq<int>, j: nat, m: nat)
    requires g.Walk(q) && Ordered(g, history) && 0 < j < |q| && m < |history| && history[m] == Done(q[0])
    ensures q[0] != q[j]
  {
    DoneBefore(g, history, q, j, m);
    assert history[m] !in history[..m];
  }

  lemma WalkTail(g: Graph, p: seq<int>, i: nat)
    requires g.Walk(p) && i <= |p|
    ensures g.Walk(p[i..])
  {
  }
}
