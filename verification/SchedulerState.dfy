/** The state of the scheduler as a value, its invariants, and how one call may change it. */
module SchedulerState {
  import opened BuildGraph
  import opened Sequences

  datatype Event = Queued(rule: int) | Done(rule: int)

  /** A snapshot of everything the scheduler updates.  Each set collects the rules whose flag is on;
      `remain[r]` maps a dependency rule still waited for to its wait count. */
  datatype State = State(
    executing: set<int>, queued: set<int>, executed: set<int>, under: set<int>, ran: set<int>,
    remain: seq<map<int, nat>>, remainCnt: seq<int>, waitCnt: seq<int>,
    waitloc: seq<int>, passed: seq<int>,
    queue: seq<int>, running: set<int>, roots: seq<int>, asked: set<int>,
    owed: set<(int, int)>, history: seq<Event>)

  /** What a build fixes before it starts: the graph, the outcome of each do_exec decision, and, for the
      completion claims, a set of rules with a certificate that they form no cycle. */
  datatype Config = Config(g: Graph, needs: seq<bool>, scope: set<int>, rank: map<int, nat>)
  {
    ghost predicate Needs(r: int) {
      0 <= r < |needs| && needs[r]
    }

    /** `scope` is closed under dependencies, and `rank` falls along every edge. */
    ghost predicate Ranked() {
      forall r | r in scope ::
        && 0 <= r < |g.deps|
        && r in rank
        && (forall d | d in g.Edges(r) :: d in scope && d in rank && rank[d] < rank[r])
    }

    /** Every dependency at or behind a wait marker needs its commands run. */
    ghost predicate Guarded() {
      forall r, k, i | r in scope && 0 <= r < |g.deps| && 0 <= k <= i < |g.deps[r]| && g.deps[r][k].isWait &&
        g.IsEdge(r, i) ::
        Needs(g.deps[r][i].rule)
    }

    ghost predicate Tamed() {
      Ranked() && Guarded()
    }

    /** No rule needs its commands run. */
    ghost predicate Idle() {
      Ranked() && forall r | r in scope :: !Needs(r)
    }
  }

  /** The sum of the wait counts of the dependency rules below `n`. */
  function SumWait(m: map<int, nat>, n: nat): nat {
    if n == 0 then 0 else (if n - 1 in m then m[n - 1] else 0) + SumWait(m, n - 1)
  }

  ghost predicate Shape(g: Graph, s: State) {
    var n := |g.deps|;
    && |s.remain| == |s.remainCnt| == |s.waitCnt| == |s.waitloc| == |s.passed| == n
    && s.executed <= s.queued <= s.executing <= Numbers(n)
    && s.under <= s.executing
  }

  /** The remaining-dependency set of rule `r`, its size and its total wait count agree. */
  ghost predicate RemainOf(g: Graph, s: State, r: int)
    requires g.WellFormed() && Shape(g, s) && 0 <= r < |g.deps|
  {
    && (forall d | d in s.remain[r] :: d in g.Edges(r))
    && (forall d | d in s.remain[r] && d in s.executed :: (d, r) in s.owed || r in s.executed)
    && (forall d | d in g.Edges(r) && d !in s.executed :: d in s.remain[r])
    && (forall d | d in s.remain[r] && s.remain[r][d] >= 1 :: d in s.executing)
    && (forall d | (d, r) in s.owed :: d in s.remain[r])
    && s.remainCnt[r] == |s.remain[r]|
    && s.waitCnt[r] == SumWait(s.remain[r], |g.deps|)
    && (r !in s.executing ==> s.waitCnt[r] == 0 && s.waitloc[r] == -1 && s.passed[r] == 0)
  }

  /** What rule `p` waits for besides `d`. */
  ghost function Rest(s: State, p: int, d: int): set<int> {
    if 0 <= p < |s.remain| then s.remain[p].Keys - {d} else {}
  }

  /** The dependency loop of rule `r` is over, or stands before a wait marker. */
  ghost predicate Parked(g: Graph, s: State, r: int) {
    && 0 <= r < |g.deps| && r < |s.passed| && 0 <= s.passed[r] <= |g.deps[r]|
    && (s.passed[r] < |g.deps[r]| ==> g.deps[r][s.passed[r]].isWait)
  }

  /** The dependency loop of rule `r` has passed its first `passed[r]` dependencies. */
  ghost predicate LoopOf(g: Graph, s: State, r: int)
    requires g.WellFormed() && Shape(g, s) && 0 <= r < |g.deps|
  {
    && -1 <= s.waitloc[r] <= s.passed[r] <= |g.deps[r]|
    && s.waitloc[r] < |g.deps[r]|
    && (r in s.executing && r !in s.under ==> Parked(g, s, r) && (g.Edges(r) != {} ==> s.waitloc[r] >= 0))
    && (r in s.queued ==> s.passed[r] == |g.deps[r]|)
    && (forall i | 0 <= i < s.passed[r] && g.IsEdge(r, i) && g.deps[r][i].rule !in s.executed ::
          g.deps[r][i].rule in s.remain[r] && s.remain[r][g.deps[r][i].rule] >= 1)
    && (forall k, i | 0 <= i < k < s.passed[r] && g.deps[r][k].isWait && !g.deps[r][k].isDupe && g.IsEdge(r, i) ::
          g.deps[r][i].rule in s.executed)
  }

  ghost predicate QueueOk(g: Graph, s: State, flight: set<int>)
    requires g.WellFormed() && Shape(g, s)
  {
    && Distinct(s.queue)
    && (forall r | r in s.queue :: r !in s.running && r !in flight)
    && s.running !! flight
    && (forall r :: r in s.queued && r !in s.executed <==> r in s.queue || r in s.running || r in flight)
    && Distinct(s.roots)
    && (forall r | r in s.roots :: 0 <= r < |g.deps| && r !in s.executed && r in s.asked)
    && (forall p | p in s.owed :: p.0 in s.executed)
  }

  /** Every dependency of rule `r` was done within `history`. */
  ghost predicate DepsDone(g: Graph, r: int, history: seq<Event>) {
    0 <= r < |g.deps| && forall d | d in g.Edges(r) :: Done(d) in history
  }

  /** A history in which no event repeats and every rule is queued or done only after its dependencies. */
  ghost predicate Ordered(g: Graph, history: seq<Event>) {
    && Distinct(history)
    && forall i | 0 <= i < |history| :: DepsDone(g, history[i].rule, history[..i])
  }

  ghost predicate HistoryOk(g: Graph, s: State)
    requires g.WellFormed() && Shape(g, s)
  {
    && Ordered(g, s.history)
    && (forall r :: Done(r) in s.history <==> r in s.executed)
    && (forall r :: Queued(r) in s.history ==> r in s.queued)
    && (forall r | r in s.queue || r in s.running :: Queued(r) in s.history)
  }

  /** The invariant of every state between two scheduler steps; `flight` holds the rules that left the
      queue or the child table and are about to be marked executed. */
  ghost predicate Inv(g: Graph, s: State, flight: set<int>) {
    && g.WellFormed()
    && Shape(g, s)
    && (forall r | 0 <= r < |g.deps| :: RemainOf(g, s, r))
    && (forall r | 0 <= r < |g.deps| :: LoopOf(g, s, r))
    && (forall r | r in s.queued :: g.Edges(r) <= s.executed)
    && QueueOk(g, s, flight)
    && HistoryOk(g, s)
  }

  /** Exactly the rules that need their commands run are queued for it, and `ran` holds those of them that finished. */
  ghost predicate Faithful(g: Graph, needs: seq<bool>, s: State)
  {
    && Shape(g, s) && |needs| == |g.deps|
    && (forall r | r in s.queued :: Queued(r) in s.history <==> needs[r])
    && (forall r :: r in s.ran <==> r in s.executed && needs[r])
  }

  /** What any call may do to the state, leaving the rules in `frozen` alone apart from wait counts. */
  ghost predicate Evolves(g: Graph, s: State, t: State, frozen: set<int>)
  {
    && Shape(g, s) && Shape(g, t)
    && frozen <= s.under && frozen <= t.under
    && s.executing <= t.executing && s.queued <= t.queued && s.executed <= t.executed
    && t.running == s.running && t.ran == s.ran && t.asked == s.asked
    && s.queue <= t.queue
    && s.history <= t.history
    && t.roots == Without(s.roots, t.executed)
    && (forall r | 0 <= r < |g.deps| :: s.passed[r] <= t.passed[r] && (s.waitloc[r] >= 0 ==> t.waitloc[r] >= 0))
    && (forall r | 0 <= r < |g.deps| :: t.remain[r].Keys <= s.remain[r].Keys)
    && (forall r | r in s.executing && r !in s.queued && r !in s.under && r in t.queued :: t.remain[r] == map[])
    && (forall r | r in frozen ::
          && (r in t.queued <==> r in s.queued) && (r in t.executed <==> r in s.executed)
          && t.waitloc[r] == s.waitloc[r] && t.passed[r] == s.passed[r]
          && (s.waitCnt[r] == 0 ==> t.waitCnt[r] == 0))
  }

  lemma EvolvesTrans(g: Graph, s: State, t: State, u: State, frozen: set<int>)
    requires Evolves(g, s, t, frozen) && Evolves(g, t, u, frozen)
    requires forall r | r in t.under && r !in s.under && r in s.executing && r !in s.queued && r in u.queued ::
      0 <= r < |u.remain| && u.remain[r] == map[]
    ensures Evolves(g, s, u, frozen)
  {
    WithoutTwice(s.roots, t.executed, u.executed);
    forall r | r in s.executing && r !in s.queued && r !in s.under && r in u.queued
      ensures u.remain[r] == map[]
    {
      if r in t.queued {
        assert u.remain[r].Keys <= t.remain[r].Keys == {};
      }
    }
  }

  lemma EvolvesRefl(g: Graph, s: State, frozen: set<int>)
    requires Shape(g, s) && frozen <= s.under && forall r | r in s.roots :: r !in s.executed
    ensures Evolves(g, s, s, frozen)
  {
    WithoutNone(s.roots, s.executed);
  }

  /** How many of the three flags are still off, over all rules. */
  ghost function Left(n: nat, executing: set<int>, queued: set<int>, executed: set<int>): nat {
    |Numbers(n) - executing| + |Numbers(n) - queued| + |Numbers(n) - executed|
  }

  lemma SubsetSize(a: set<int>, b: set<int>)
    requires a <= b
    ensures |a| <= |b|
    ensures a != b ==> |a| < |b|
  {
    assert b == a + (b - a);
  }

  lemma LeftMono(n: nat, s: State, t: State)
    requires s.executing <= t.executing && s.queued <= t.queued && s.executed <= t.executed
    ensures Left(n, t.executing, t.queued, t.executed) <= Left(n, s.executing, s.queued, s.executed)
    ensures forall r | r in Numbers(n) &&
      ((r in t.executing && r !in s.executing) || (r in t.queued && r !in s.queued) ||
        (r in t.executed && r !in s.executed)) ::
      Left(n, t.executing, t.queued, t.executed) < Left(n, s.executing, s.queued, s.executed)
  {
    SubsetSize(Numbers(n) - t.executing, Numbers(n) - s.executing);
    SubsetSize(Numbers(n) - t.queued, Numbers(n) - s.queued);
    SubsetSize(Numbers(n) - t.executed, Numbers(n) - s.executed);
  }

  lemma LeftEvolves(g: Graph, s: State, t: State, frozen: set<int>)
    requires Evolves(g, s, t, frozen)
    ensures Left(|g.deps|, t.executing, t.queued, t.executed) <= Left(|g.deps|, s.executing, s.queued, s.executed)
    ensures s.executed != t.executed ==>
              Left(|g.deps|, t.executing, t.queued, t.executed) < Left(|g.deps|, s.executing, s.queued, s.executed)
  {
    LeftMono(|g.deps|, s, t);
    if s.executed != t.executed {
      var r :| r in t.executed && r !in s.executed;
    }
  }

  /** The monotone part of an evolution. */
  lemma EvolvesBasics(g: Graph, s: State, t: State, frozen: set<int>)
    requires Evolves(g, s, t, frozen)
    ensures s.executing <= t.executing && s.queued <= t.queued && s.executed <= t.executed
    ensures t.running == s.running && t.ran == s.ran && s.queue <= t.queue && s.history <= t.history
    ensures t.asked == s.asked
    ensures t.roots == Without(s.roots, t.executed)
    ensures |s.passed| == |t.passed| == |s.waitloc| == |t.waitloc| == |s.remain| == |t.remain|
    ensures forall r | 0 <= r < |s.remain| :: t.remain[r].Keys <= s.remain[r].Keys
    ensures forall r | r in s.executing && r !in s.queued && r !in s.under && r in t.queued ::
      0 <= r < |t.remain| && t.remain[r] == map[]
    ensures forall r | 0 <= r < |s.passed| :: s.passed[r] <= t.passed[r] && (s.waitloc[r] >= 0 ==> t.waitloc[r] >= 0)
  {
  }

  lemma EvolvesFrozen(g: Graph, s: State, t: State, frozen: set<int>, r: int)
    requires Evolves(g, s, t, frozen) && r in frozen
    ensures 0 <= r < |s.waitloc| && |s.waitloc| == |t.waitloc| == |s.passed| == |t.passed| == |s.waitCnt| == |t.waitCnt|
    ensures (r in t.queued <==> r in s.queued) && (r in t.executed <==> r in s.executed)
    ensures t.waitloc[r] == s.waitloc[r] && t.passed[r] == s.passed[r]
    ensures s.waitCnt[r] == 0 ==> t.waitCnt[r] == 0
  {
  }

  lemma EvolvesShrink(g: Graph, s: State, t: State, big: set<int>, small: set<int>)
    requires Evolves(g, s, t, big) && small <= big
    ensures Evolves(g, s, t, small)
  {
  }

  // ---- The effect of each elementary update on the invariant ----

  lemma {:induction false} SumWaitSet(m: map<int, nat>, d: int, w: nat, n: nat)
    ensures SumWait(m[d := w], n) == SumWait(m, n) + if 0 <= d < n then w - (if d in m then m[d] else 0) else 0
  {
    if n > 0 {
      SumWaitSet(m, d, w, n - 1);
    }
  }

  lemma {:induction false} SumWaitErase(m: map<int, nat>, d: int, n: nat)
    requires d in m
    ensures SumWait(m, n) == SumWait(m - {d}, n) + if 0 <= d < n then m[d] else 0
  {
    if n > 0 {
      SumWaitErase(m, d, n - 1);
    }
  }

  lemma {:induction false} SumWaitEntry(m: map<int, nat>, d: int, n: nat)
    requires d in m && 0 <= d < n
    ensures m[d] <= SumWait(m, n)
  {
    if d < n - 1 {
      SumWaitEntry(m, d, n - 1);
    }
  }

  /** Two states agree on everything the per-rule invariants say about rule `x`. */
  ghost predicate SameRule(g: Graph, s: State, t: State, x: int)
    requires Shape(g, s) && Shape(g, t) && 0 <= x < |g.deps|
  {
    && t.remain[x] == s.remain[x] && t.remainCnt[x] == s.remainCnt[x] && t.waitCnt[x] == s.waitCnt[x]
    && t.waitloc[x] == s.waitloc[x] && t.passed[x] == s.passed[x]
  }

  /** Only what the invariant says about rule `r` has changed, and it holds again. */
  lemma RuleChange(g: Graph, s: State, t: State, r: int)
    requires Inv(g, s, {}) && Shape(g, t) && 0 <= r < |g.deps|
    requires forall x | 0 <= x < |g.deps| && x != r :: SameRule(g, s, t, x)
    requires t == s.(remain := t.remain, remainCnt := t.remainCnt, waitCnt := t.waitCnt, waitloc := t.waitloc,
                     passed := t.passed, owed := t.owed)
    requires s.owed - (set p | p in s.owed && p.1 == r) <= t.owed <= s.owed
    requires RemainOf(g, t, r) && LoopOf(g, t, r)
    ensures Inv(g, t, {})
  {
    forall x | 0 <= x < |g.deps|
      ensures RemainOf(g, t, x) && LoopOf(g, t, x)
    {
      if x != r {
        assert RemainOf(g, s, x) && LoopOf(g, s, x) && SameRule(g, s, t, x);
      }
    }
    SameRest(g, s, t);
  }

  /** Changes that no rule's own bookkeeping is part of. */
  lemma RulesStay(g: Graph, s: State, t: State, flight: set<int>)
    requires Inv(g, s, flight) && Shape(g, t)
    requires t ==
      s.(queued := t.queued, queue := t.queue, running := t.running, roots := t.roots, asked := t.asked,
        history := t.history)
    requires forall r | r in t.queued && r !in s.queued :: 0 <= r < |g.deps| && s.passed[r] == |g.deps[r]|
    ensures forall x | 0 <= x < |g.deps| :: RemainOf(g, t, x) && LoopOf(g, t, x)
  {
    hide QueueOk, HistoryOk, SumWait, Graph.WellFormed;
    forall x | 0 <= x < |g.deps|
      ensures RemainOf(g, t, x) && LoopOf(g, t, x)
    {
      assert RemainOf(g, s, x) && LoopOf(g, s, x);
    }
  }

  lemma SameRest(g: Graph, s: State, t: State)
    requires Inv(g, s, {}) && Shape(g, t)
    requires t == s.(remain := t.remain, remainCnt := t.remainCnt, waitCnt := t.waitCnt, waitloc := t.waitloc,
                     passed := t.passed, owed := t.owed)
    requires t.owed <= s.owed
    ensures QueueOk(g, t, {}) && HistoryOk(g, t)
  {
  }

  lemma {:induction false} SumWaitEmpty(n: nat)
    ensures SumWait(map[], n) == 0
  {
    if n > 0 {
      SumWaitEmpty(n - 1);
    }
  }

  lemma StartKeeps(g: Graph, s: State, t: State, r: int)
    requires Inv(g, s, {}) && 0 <= r < |g.deps| && r !in s.executing
    requires t == s.(executing := s.executing + {r}, under := s.under + {r})
    ensures Inv(g, t, {})
    ensures Evolves(g, s, t, s.under)
  {
    WithoutNone(s.roots, s.executed);
    forall x | 0 <= x < |g.deps|
      ensures RemainOf(g, t, x) && LoopOf(g, t, x)
    {
      assert RemainOf(g, s, x) && LoopOf(g, s, x);
    }
  }

  lemma UnderRules(g: Graph, s: State, t: State)
    requires Inv(g, s, {}) && Shape(g, t) && t == s.(under := t.under)
    requires forall r | r in s.under && r !in t.under ::
      Parked(g, s, r) && (0 <= r < |s.waitloc| && g.Edges(r) != {} ==> s.waitloc[r] >= 0)
    ensures forall x | 0 <= x < |g.deps| :: RemainOf(g, t, x) && LoopOf(g, t, x)
  {
    hide SumWait, QueueOk, HistoryOk, Graph.WellFormed;
    forall x | 0 <= x < |g.deps|
      ensures RemainOf(g, t, x) && LoopOf(g, t, x)
    {
      assert RemainOf(g, s, x) && LoopOf(g, s, x);
    }
  }

  lemma UnderRest(g: Graph, s: State, t: State)
    requires Inv(g, s, {}) && Shape(g, t) && t == s.(under := t.under)
    ensures QueueOk(g, t, {}) && HistoryOk(g, t)
    ensures forall r | r in t.queued :: 0 <= r < |g.deps| && g.Edges(r) <= t.executed
  {
    hide SumWait, RemainOf, LoopOf, Ordered, Graph.WellFormed;
  }

  lemma UnderEvolves(g: Graph, s: State, t: State)
    requires Shape(g, s) && Shape(g, t) && t == s.(under := t.under) && forall x | x in s.roots :: x !in s.executed
    ensures Evolves(g, s, t, s.under * t.under)
  {
    WithoutNone(s.roots, s.executed);
  }

  /** Clearing the under-consideration flag once the dependency loop has been entered. */
  lemma FinishKeeps(g: Graph, s: State, t: State, r: int)
    requires Inv(g, s, {}) && 0 <= r < |g.deps| && r in s.under
    requires Parked(g, s, r) && (g.Edges(r) != {} ==> s.waitloc[r] >= 0)
    requires t == s.(under := s.under - {r})
    ensures Inv(g, t, {})
    ensures Evolves(g, s, t, t.under)
  {
    hide RemainOf, LoopOf, QueueOk, HistoryOk, Evolves, Parked, Graph.Edges;
    Basics(g, s, {});
    UnderRules(g, s, t);
    UnderRest(g, s, t);
    UnderEvolves(g, s, t);
    assert s.under * t.under == t.under;
  }

  /** Resuming a rule in reconsider. */
  lemma ResumeKeeps(g: Graph, s: State, t: State, r: int)
    requires Inv(g, s, {}) && r in s.executing
    requires t == s.(under := s.under + {r})
    ensures Inv(g, t, {})
    ensures Evolves(g, s, t, s.under)
  {
    hide RemainOf, LoopOf, QueueOk, HistoryOk, Evolves, Parked, Graph.Edges;
    Basics(g, s, {});
    UnderRules(g, s, t);
    UnderRest(g, s, t);
    UnderEvolves(g, s, t);
    assert s.under * t.under == s.under;
  }

  lemma PointRule(g: Graph, s: State, t: State, r: int, i: int)
    requires g.WellFormed() && Shape(g, s) && Shape(g, t) && 0 <= r < |g.deps| && r in s.executing
    requires RemainOf(g, s, r) && LoopOf(g, s, r) && 0 <= i <= s.passed[r] && i < |g.deps[r]|
    requires t == s.(waitloc := s.waitloc[r := i])
    ensures RemainOf(g, t, r) && LoopOf(g, t, r)
  {
  }

  lemma PointEvolves(g: Graph, s: State, t: State, r: int, i: int)
    requires Shape(g, s) && Shape(g, t) && 0 <= r < |g.deps| && 0 <= i
    requires t == s.(waitloc := s.waitloc[r := i]) && forall x | x in s.roots :: x !in s.executed
    ensures Evolves(g, s, t, s.under - {r})
  {
    WithoutNone(s.roots, s.executed);
  }

  /** Moving the wait pointer to a position that has been reached. */
  lemma PointKeeps(g: Graph, s: State, t: State, r: int, i: int)
    requires Inv(g, s, {}) && r in s.executing && 0 <= i <= s.passed[r] && i < |g.deps[r]|
    requires t == s.(waitloc := s.waitloc[r := i])
    ensures Inv(g, t, {})
    ensures Evolves(g, s, t, s.under - {r})
  {
    hide Inv, Shape, RemainOf, LoopOf, Evolves, HistoryOk, SumWait, Without, Graph.Edges, Graph.WellFormed;
    Basics(g, s, {});
    RuleBasics(g, s, {}, r);
    PointRule(g, s, t, r, i);
    RuleChange(g, s, t, r);
    PointEvolves(g, s, t, r, i);
  }

  /** The state with one more wait of rule `r` on dependency rule `d`. */
  ghost function Waited(g: Graph, s: State, r: int, d: int): State
    requires Shape(g, s) && 0 <= r < |g.deps| && d in s.remain[r]
  {
    s.(remain := s.remain[r := s.remain[r][d := s.remain[r][d] + 1]], waitCnt := s.waitCnt[r := s.waitCnt[r] + 1])
  }

  lemma WaitRule(g: Graph, s: State, r: int, d: int)
    requires g.WellFormed() && Shape(g, s) && 0 <= r < |g.deps| && r in s.executing && d in s.remain[r]
    requires d in s.executing
    requires RemainOf(g, s, r) && LoopOf(g, s, r)
    ensures RemainOf(g, Waited(g, s, r, d), r) && LoopOf(g, Waited(g, s, r, d), r)
  {
    WaitRemain(g, s, r, d);
    hide RemainOf, SumWait, Graph.WellFormed;
  }

  lemma WaitRemain(g: Graph, s: State, r: int, d: int)
    requires g.WellFormed() && Shape(g, s) && 0 <= r < |g.deps| && r in s.executing && d in s.remain[r]
    requires d in s.executing
    requires RemainOf(g, s, r)
    ensures RemainOf(g, Waited(g, s, r, d), r)
  {
    hide SumWait, Graph.WellFormed, Graph.Edges;
    var t := Waited(g, s, r, d);
    SumWaitSet(s.remain[r], d, s.remain[r][d] + 1, |g.deps|);
    assert t.remain[r].Keys == s.remain[r].Keys;
    assert |t.remain[r]| == |t.remain[r].Keys| == |s.remain[r].Keys| == |s.remain[r]|;
  }

  lemma WaitEvolves(g: Graph, s: State, r: int, d: int)
    requires Shape(g, s) && 0 <= r < |g.deps| && d in s.remain[r]
    requires forall x | x in s.roots :: x !in s.executed
    ensures Evolves(g, s, Waited(g, s, r, d), s.under - {r})
  {
    WithoutNone(s.roots, s.executed);
  }

  /** Counting one more wait on dependency rule `d`. */
  lemma WaitKeeps(g: Graph, s: State, r: int, d: int)
    requires Inv(g, s, {}) && r in s.executing && d in s.remain[r] && d in s.executing
    ensures Inv(g, Waited(g, s, r, d), {})
    ensures Evolves(g, s, Waited(g, s, r, d), s.under - {r})
  {
    hide Inv, Shape, RemainOf, LoopOf, Evolves, HistoryOk, SumWait, Graph.Edges, Graph.WellFormed;
    Basics(g, s, {});
    RuleBasics(g, s, {}, r);
    WaitRule(g, s, r, d);
    RuleChange(g, s, Waited(g, s, r, d), r);
    WaitEvolves(g, s, r, d);
  }

  lemma PassLoop(g: Graph, s: State, t: State, r: int, i: int)
    requires Inv(g, s, {}) && r in s.under && 0 <= i < |g.deps[r]| && i <= s.passed[r]
    requires t == s.(passed := s.passed[r := if i < s.passed[r] then s.passed[r] else i + 1])
    requires g.IsEdge(r, i) && g.deps[r][i].rule !in s.executed ==>
               g.deps[r][i].rule in s.remain[r] && s.remain[r][g.deps[r][i].rule] >= 1
    requires !g.deps[r][i].isDupe && g.deps[r][i].isWait ==>
               forall j | 0 <= j < i && g.IsEdge(r, j) :: g.deps[r][j].rule in s.executed
    ensures Shape(g, t) && RemainOf(g, t, r) && LoopOf(g, t, r)
  {
    assert LoopOf(g, s, r) && RemainOf(g, s, r);
    var p := t.passed[r];
    forall k, j | 0 <= j < k < p && g.deps[r][k].isWait && !g.deps[r][k].isDupe && g.IsEdge(r, j)
      ensures g.deps[r][j].rule in s.executed
    {
      assert k < s.passed[r] || k == i;
    }
    forall j | 0 <= j < p && g.IsEdge(r, j) && g.deps[r][j].rule !in s.executed
      ensures g.deps[r][j].rule in s.remain[r] && s.remain[r][g.deps[r][j].rule] >= 1
    {
      assert j < s.passed[r] || j == i;
    }
  }

  lemma PassEvolves(g: Graph, s: State, t: State, r: int)
    requires Shape(g, s) && Shape(g, t) && 0 <= r < |g.deps|
    requires t == s.(passed := s.passed[r := t.passed[r]]) && s.passed[r] <= t.passed[r]
    requires forall x | x in s.roots :: x !in s.executed
    ensures Evolves(g, s, t, s.under - {r})
  {
    WithoutNone(s.roots, s.executed);
  }

  /** Moving past dependency `i`, which is done or waited for; a wait marker is passed only with nothing waited for. */
  lemma PassKeeps(g: Graph, s: State, t: State, r: int, i: int)
    requires Inv(g, s, {}) && r in s.under && 0 <= i < |g.deps[r]| && i <= s.passed[r]
    requires t == s.(passed := s.passed[r := if i < s.passed[r] then s.passed[r] else i + 1])
    requires g.IsEdge(r, i) && g.deps[r][i].rule !in s.executed ==>
               g.deps[r][i].rule in s.remain[r] && s.remain[r][g.deps[r][i].rule] >= 1
    requires !g.deps[r][i].isDupe && g.deps[r][i].isWait ==>
               forall j | 0 <= j < i && g.IsEdge(r, j) :: g.deps[r][j].rule in s.executed
    ensures Inv(g, t, {})
    ensures Evolves(g, s, t, s.under - {r})
  {
    hide Inv, Shape, RemainOf, LoopOf, Evolves, HistoryOk, SumWait, Graph.Edges, Graph.WellFormed;
    Basics(g, s, {});
    RuleBasics(g, s, {}, r);
    PassLoop(g, s, t, r, i);
    RuleChange(g, s, t, r);
    PassEvolves(g, s, t, r);
  }

  /** With a zero wait count, every dependency that has been passed is done. */
  lemma NothingWaited(g: Graph, s: State, r: int)
    requires Inv(g, s, {}) && 0 <= r < |g.deps| && s.waitCnt[r] == 0
    ensures s.passed[r] <= |g.deps[r]|
    ensures forall j | 0 <= j < s.passed[r] && g.IsEdge(r, j) :: g.deps[r][j].rule in s.executed
  {
    assert RemainOf(g, s, r) && LoopOf(g, s, r);
    forall j | 0 <= j < s.passed[r] && g.IsEdge(r, j)
      ensures g.deps[r][j].rule in s.executed
    {
      var d := g.deps[r][j].rule;
      if d !in s.executed {
        SumWaitEntry(s.remain[r], d, |g.deps|);
      }
    }
  }

  /** The state once `d` has left the remaining set of rule `p`. */
  ghost function Erased(g: Graph, s: State, p: int, d: int): State
    requires g.WellFormed() && Shape(g, s) && 0 <= p < |g.deps|
  {
    var m := s.remain[p] - {d};
    s.(remain := s.remain[p := m], remainCnt := s.remainCnt[p := |m|],
       waitCnt := s.waitCnt[p := SumWait(m, |g.deps|)], owed := s.owed - {(d, p)})
  }

  lemma EraseSum(m: map<int, nat>, d: int, n: nat)
    ensures SumWait(m - {d}, n) <= SumWait(m, n)
  {
    if d in m {
      SumWaitErase(m, d, n);
    } else {
      assert m - {d} == m;
    }
  }

  lemma EraseRemain(g: Graph, s: State, p: int, d: int)
    requires g.WellFormed() && Shape(g, s) && 0 <= p < |g.deps| && RemainOf(g, s, p) && d in s.executed
    ensures RemainOf(g, Erased(g, s, p, d), p) && Erased(g, s, p, d).waitCnt[p] <= s.waitCnt[p]
  {
    EraseSum(s.remain[p], d, |g.deps|);
  }

  lemma EraseLoop(g: Graph, s: State, p: int, d: int)
    requires g.WellFormed() && Shape(g, s) && 0 <= p < |g.deps| && LoopOf(g, s, p) && d in s.executed
    ensures LoopOf(g, Erased(g, s, p, d), p)
  {
    var t := Erased(g, s, p, d);
    forall i | 0 <= i < t.passed[p] && g.IsEdge(p, i) && g.deps[p][i].rule !in t.executed
      ensures g.deps[p][i].rule in t.remain[p] && t.remain[p][g.deps[p][i].rule] >= 1
    {
      assert g.deps[p][i].rule in s.remain[p];
    }
  }

  lemma EraseEvolves(g: Graph, s: State, p: int, d: int)
    requires g.WellFormed() && Shape(g, s) && 0 <= p < |g.deps| && RemainOf(g, s, p) && d in s.executed
    requires forall x | x in s.roots :: x !in s.executed
    ensures Evolves(g, s, Erased(g, s, p, d), s.under)
  {
    EraseSum(s.remain[p], d, |g.deps|);
    WithoutNone(s.roots, s.executed);
  }

  /** Dropping `d` from the remaining set of rule `p`, once `d` is done. */
  lemma EraseKeeps(g: Graph, s: State, p: int, d: int)
    requires Inv(g, s, {}) && 0 <= p < |g.deps| && d in s.executed
    ensures Inv(g, Erased(g, s, p, d), {})
    ensures Erased(g, s, p, d).waitCnt[p] <= s.waitCnt[p]
    ensures Evolves(g, s, Erased(g, s, p, d), s.under)
  {
    hide Inv, Shape, RemainOf, LoopOf, Evolves, HistoryOk, SumWait, Graph.Edges, Graph.WellFormed;
    Basics(g, s, {});
    RuleBasics(g, s, {}, p);
    EraseRemain(g, s, p, d);
    EraseLoop(g, s, p, d);
    RuleChange(g, s, Erased(g, s, p, d), p);
    EraseEvolves(g, s, p, d);
  }

  /** An executed rule keeps what it still holds in its remaining set. */
  lemma ForgetKeeps(g: Graph, s: State, t: State, p: int, d: int)
    requires Inv(g, s, {}) && p in s.executed
    requires t == s.(owed := s.owed - {(d, p)})
    ensures Inv(g, t, {})
    ensures Evolves(g, s, t, s.under)
  {
    hide Inv, HistoryOk, SumWait, Without, Graph.Edges, Graph.WellFormed;
    Basics(g, s, {});
    WithoutNone(s.roots, s.executed);
    RuleBasics(g, s, {}, p);
    RuleChange(g, s, t, p);
  }

  lemma OrderedExtends(g: Graph, history: seq<Event>, e: Event)
    requires Ordered(g, history) && e !in history && DepsDone(g, e.rule, history)
    ensures Ordered(g, history + [e])
  {
    var h := history + [e];
    forall i | 0 <= i < |h|
      ensures DepsDone(g, h[i].rule, h[..i])
    {
      assert h[..i] == history[..i];
      assert i == |history| ==> h[..i] == history;
    }
  }

  lemma NewRootKeeps(g: Graph, s: State, t: State, r: int)
    requires Inv(g, s, {}) && 0 <= r < |g.deps| && r !in s.executed && r !in s.roots
    requires t == s.(roots := s.roots + [r], asked := s.asked + {r})
    ensures Inv(g, t, {})
  {
    hide RemainOf, LoopOf, SumWait, Ordered, Graph.Edges, Graph.WellFormed;
    RulesStay(g, s, t, {});
  }

  /** Taking the rule on top of the run stack. */
  lemma TakeKeeps(g: Graph, s: State, t: State)
    requires Inv(g, s, {}) && s.queue != []
    requires t == s.(queue := s.queue[..|s.queue| - 1], running := s.running + {s.queue[|s.queue| - 1]})
    ensures Inv(g, t, {}) && s.queue[|s.queue| - 1] !in s.running
    ensures s.queue[|s.queue| - 1] !in t.queue && forall x | x in t.queue :: x in s.queue
  {
    TakeQueue(g, s, t);
    hide RemainOf, LoopOf, QueueOk, SumWait, Ordered, Graph.Edges, Graph.WellFormed;
    RulesStay(g, s, t, {});
  }

  lemma TakeQueue(g: Graph, s: State, t: State)
    requires Inv(g, s, {}) && s.queue != []
    requires t == s.(queue := s.queue[..|s.queue| - 1], running := s.running + {s.queue[|s.queue| - 1]})
    ensures Shape(g, t) && QueueOk(g, t, {}) && s.queue[|s.queue| - 1] !in s.running
    ensures forall x | x in t.queue || x in t.running :: x in s.queue || x in s.running
    ensures s.queue[|s.queue| - 1] !in t.queue && forall x | x in t.queue :: x in s.queue
  {
    hide SumWait, Ordered, RemainOf, LoopOf, HistoryOk, Graph.Edges, Graph.WellFormed;
    var r := s.queue[|s.queue| - 1];
    assert r in s.queue;
    assert forall x :: x in s.queue <==> x in t.queue || x == r;
  }

  /** A running rule stops running, about to be marked executed. */
  lemma LandKeeps(g: Graph, s: State, t: State, r: int)
    requires Inv(g, s, {}) && r in s.running
    requires t == s.(running := s.running - {r})
    ensures Inv(g, t, {r})
  {
    hide RemainOf, LoopOf, SumWait, Ordered, Graph.Edges, Graph.WellFormed;
    RulesStay(g, s, t, {});
  }

  lemma EnqueueHistory(g: Graph, s: State, t: State, r: int)
    requires Inv(g, s, {}) && r in s.under && r !in s.queued && g.Edges(r) <= s.executed
    requires t == s.(queued := s.queued + {r}, queue := s.queue + [r], history := s.history + [Queued(r)])
    ensures Shape(g, t) && HistoryOk(g, t)
  {
    hide RemainOf, LoopOf, SumWait, QueueOk, Graph.WellFormed;
    Basics(g, s, {});
    assert Queued(r) !in s.history && DepsDone(g, r, s.history);
    OrderedExtends(g, s.history, Queued(r));
  }

  lemma EnqueueEvolves(g: Graph, s: State, t: State, r: int, queue: seq<int>, history: seq<Event>)
    requires Shape(g, s) && Shape(g, t) && r in s.under && s.queue <= queue && s.history <= history
    requires forall x | x in s.roots :: x !in s.executed
    requires t == s.(queued := s.queued + {r}, queue := queue, history := history)
    ensures Evolves(g, s, t, s.under - {r})
  {
    WithoutNone(s.roots, s.executed);
  }

  /** Pushing a rule whose dependencies are done. */
  lemma EnqueueKeeps(g: Graph, s: State, t: State, r: int)
    requires Inv(g, s, {}) && r in s.under && r !in s.queued && g.Edges(r) <= s.executed
    requires 0 <= r < |g.deps| == |s.passed| && s.passed[r] == |g.deps[r]|
    requires t == s.(queued := s.queued + {r}, queue := s.queue + [r], history := s.history + [Queued(r)])
    ensures Inv(g, t, {})
    ensures Evolves(g, s, t, s.under - {r})
  {
    hide RemainOf, LoopOf, HistoryOk, Evolves, SumWait, Without, Graph.Edges, Graph.WellFormed;
    EnqueueHistory(g, s, t, r);
    RulesStay(g, s, t, {});
    EnqueueEvolves(g, s, t, r, t.queue, t.history);
  }

  lemma FlightKeeps(g: Graph, s: State, t: State, r: int)
    requires Inv(g, s, {}) && r in s.under && r !in s.queued && g.Edges(r) <= s.executed
    requires 0 <= r < |g.deps| == |s.passed| && s.passed[r] == |g.deps[r]|
    requires t == s.(queued := s.queued + {r})
    ensures Inv(g, t, {r})
    ensures Evolves(g, s, t, s.under - {r})
  {
    hide RemainOf, LoopOf, Evolves, SumWait, Without, Graph.Edges, Graph.WellFormed;
    RulesStay(g, s, t, {});
    EnqueueEvolves(g, s, t, r, s.queue, s.history);
  }

  /** Rule `d` is to be reported to each rule of `s`. */
  ghost function Owing(d: int, s: seq<int>): set<(int, int)> {
    set p | p in s :: (d, p)
  }

  /** The state once rule `r` is executed: its dependents are owed a notification. */
  ghost function Marked(g: Graph, s: State, r: int, ran: set<int>): State
    requires 0 <= r < |g.index|
  {
    s.(executed := s.executed + {r}, roots := Without(s.roots, {r}), ran := ran,
       owed := s.owed + Owing(r, g.index[r]), history := s.history + [Done(r)])
  }

  lemma MarkedRule(g: Graph, s: State, r: int, ran: set<int>, x: int)
    requires Inv(g, s, {r}) && 0 <= r < |g.index| && 0 <= x < |g.deps|
    ensures var t := Marked(g, s, r, ran); Shape(g, t) && RemainOf(g, t, x) && LoopOf(g, t, x)
  {
    hide SumWait, Ordered, HistoryOk, QueueOk, Without;
    Basics(g, s, {r});
    assert RemainOf(g, s, x) && LoopOf(g, s, x);
    assert r in s.remain[x] ==> x in g.index[r];
  }

  lemma MarkedHistory(g: Graph, s: State, r: int, ran: set<int>)
    requires Inv(g, s, {r}) && 0 <= r < |g.index|
    ensures var t := Marked(g, s, r, ran); Shape(g, t) && HistoryOk(g, t)
  {
    hide SumWait, RemainOf, LoopOf, QueueOk, Without, Graph.WellFormed;
    Basics(g, s, {r});
    assert Done(r) !in s.history && DepsDone(g, r, s.history);
    hide Ordered;
    OrderedExtends(g, s.history, Done(r));
  }

  lemma MarkedQueue(g: Graph, s: State, r: int, ran: set<int>)
    requires Inv(g, s, {r}) && 0 <= r < |g.index|
    ensures var t := Marked(g, s, r, ran);
      Shape(g, t) && QueueOk(g, t, {}) && forall x | x in t.queued :: 0 <= x < |g.deps| && g.Edges(x) <= t.executed
  {
    hide SumWait, RemainOf, LoopOf, HistoryOk, Graph.Edges;
    WithoutMembers(s.roots, {r});
    WithoutOne(s.roots, s.executed, r);
  }

  lemma MarkedEvolves(g: Graph, s: State, r: int, ran: set<int>)
    requires Inv(g, s, {r}) && 0 <= r < |g.index|
    ensures Evolves(g, s.(ran := ran), Marked(g, s, r, ran), s.under - {r})
  {
    hide SumWait, RemainOf, LoopOf, HistoryOk, Graph.Edges, Distinct;
    assert r in s.queued && r !in s.executed;
    WithoutOne(s.roots, s.executed, r);
  }

  /** Marking a rule executed keeps the invariant. */
  lemma DoneKeeps(g: Graph, s: State, t: State, r: int)
    requires Inv(g, s, {r}) && 0 <= r < |g.index| && t == Marked(g, s, r, t.ran)
    ensures Inv(g, t, {})
    ensures Evolves(g, s.(ran := t.ran), t, s.under - {r})
  {
    MarkedQueue(g, s, r, t.ran);
    MarkedHistory(g, s, r, t.ran);
    MarkedEvolves(g, s, r, t.ran);
    hide SumWait, RemainOf, LoopOf, HistoryOk, QueueOk, Evolves, Marked, Graph.Edges;
    forall x | 0 <= x < |g.deps|
      ensures Shape(g, t) && RemainOf(g, t, x) && LoopOf(g, t, x)
    {
      MarkedRule(g, s, r, t.ran, x);
    }
  }

  /** Rules queued but not yet executed stay so while other rules are considered. */
  lemma ActiveStays(g: Graph, s: State, t: State, frozen: set<int>)
    requires Inv(g, s, {}) && Inv(g, t, {}) && Evolves(g, s, t, frozen)
    ensures forall q | q in s.queued && q !in s.executed :: q !in t.executed
  {
    forall q | q in s.queued && q !in s.executed
      ensures q !in t.executed
    {
      if q in s.queue {
        assert q in t.queue;
      }
    }
  }

  /** Facts about a valid state that need no unfolding of the invariant. */
  lemma Basics(g: Graph, s: State, flight: set<int>)
    requires Inv(g, s, flight)
    ensures g.WellFormed() && Shape(g, s)
    ensures |s.remain| == |s.remainCnt| == |s.waitCnt| == |s.waitloc| == |s.passed| == |g.deps| == |g.index|
    ensures s.executed <= s.queued <= s.executing && s.under <= s.executing
    ensures forall r | r in s.executing :: 0 <= r < |g.deps|
    ensures forall p | p in s.owed :: p.0 in s.executed
    ensures forall r | r in s.roots :: r !in s.executed && r in s.asked
    ensures forall r | r in flight :: r in s.queued && r !in s.executed
    ensures forall r | r in s.queue || r in s.running :: r in s.queued && r !in s.executed
  {
  }

  lemma RuleBasics(g: Graph, s: State, flight: set<int>, r: int)
    requires Inv(g, s, flight) && 0 <= r < |g.deps|
    ensures Shape(g, s) && RemainOf(g, s, r) && LoopOf(g, s, r)
    ensures 0 <= r < |s.remain| == |s.remainCnt| == |s.waitCnt| == |s.waitloc| == |s.passed|
    ensures forall d | d in s.remain[r] :: 0 <= d < |g.deps|
    ensures forall d | d in g.Edges(r) && d !in s.executed :: d in s.remain[r]
    ensures s.remainCnt[r] == |s.remain[r]| && s.waitCnt[r] == SumWait(s.remain[r], |g.deps|)
    ensures r !in s.executing ==> s.waitCnt[r] == 0 && s.waitloc[r] == -1 && s.passed[r] == 0
    ensures -1 <= s.waitloc[r] <= s.passed[r] <= |g.deps[r]| && s.waitloc[r] < |g.deps[r]|
    ensures r in s.executing && r !in s.under ==> Parked(g, s, r) && (g.Edges(r) != {} ==> s.waitloc[r] >= 0)
    ensures r in s.queued ==> g.Edges(r) <= s.executed && s.passed[r] == |g.deps[r]|
  {
  }

  lemma EdgeBasics(g: Graph, r: int, i: int)
    requires g.WellFormed() && 0 <= r < |g.deps| && 0 <= i < |g.deps[r]| && g.IsEdge(r, i)
    ensures g.deps[r][i].rule in g.Edges(r) && 0 <= g.deps[r][i].rule < |g.deps|
    ensures r in g.index[g.deps[r][i].rule]
  {
  }

  lemma ResumeRule(g: Graph, t: State, p: int)
    requires Inv(g, t, {}) && 0 <= p < |g.deps|
    ensures Shape(g, t)
    ensures t.remainCnt[p] > 0 <==> t.remain[p] != map[]
    ensures t.remain[p] == map[] ==> t.waitCnt[p] == 0 && g.Edges(p) <= t.executed
  {
    RuleBasics(g, t, {}, p);
    SumWaitEmpty(|g.deps|);
  }

  // ---- What was decided is what was queued ----

  lemma FaithfulFrame(g: Graph, needs: seq<bool>, s: State, t: State)
    requires Faithful(g, needs, s) && Shape(g, t)
    requires t.queued == s.queued && t.executed == s.executed && t.history == s.history && t.ran == s.ran
    ensures Faithful(g, needs, t)
  {
  }

  lemma FaithfulEnqueue(g: Graph, needs: seq<bool>, s: State, t: State, r: int)
    requires Inv(g, s, {}) && Faithful(g, needs, s) && Shape(g, t)
    requires 0 <= r < |g.deps| && needs[r] && r !in s.queued
    requires t.queued == s.queued + {r} && t.executed == s.executed && t.history == s.history + [Queued(r)]
    requires t.ran == s.ran
    ensures Faithful(g, needs, t)
  {
  }

  lemma FaithfulFlight(g: Graph, needs: seq<bool>, s: State, t: State, r: int)
    requires Inv(g, s, {}) && Faithful(g, needs, s) && Shape(g, t)
    requires 0 <= r < |g.deps| && !needs[r] && r !in s.queued
    requires t.queued == s.queued + {r} && t.executed == s.executed && t.history == s.history && t.ran == s.ran
    ensures Faithful(g, needs, t)
  {
  }

  lemma FaithfulDone(g: Graph, needs: seq<bool>, s: State, t: State, r: int)
    requires Inv(g, s, {r}) && Faithful(g, needs, s) && Shape(g, t)
    requires t.queued == s.queued && t.executed == s.executed + {r} && t.history == s.history + [Done(r)]
    requires t.ran == if needs[r] then s.ran + {r} else s.ran
    ensures Faithful(g, needs, t)
  {
  }
}
