/** The elementary updates of the scheduler, each shown to keep everything the scheduler promises. */
module SchedulerSteps {
  import opened BuildGraph
  import opened SchedulerProgress
  import opened SchedulerState
  import opened Sequences

  /** The full invariant.  Safety holds on every graph, completeness on ranked ones. */
  ghost predicate Good(c: Config, s: State, flight: set<int>) {
    && Inv(c.g, s, flight)
    && Faithful(c.g, c.needs, s)
    && Progress(c, s)
    && Started(c.g, s)
  }

  lemma Initial(c: Config, s: State)
    requires c.g.WellFormed() && |c.needs| == |c.g.deps|
    requires s.executing == s.queued == s.executed == s.under == s.ran == s.running == {} && s.owed == {}
    requires s.queue == s.roots == [] && s.history == [] && s.asked == {}
    requires |s.remain| == |s.remainCnt| == |s.waitCnt| == |s.waitloc| == |s.passed| == |c.g.deps|
    requires forall r | 0 <= r < |c.g.deps| ::
      && s.remain[r].Keys == c.g.Edges(r) && (forall d | d in s.remain[r] :: s.remain[r][d] == 0) &&
        s.remainCnt[r] == |s.remain[r]|
      && s.waitCnt[r] == 0 && s.waitloc[r] == -1 && s.passed[r] == 0
    ensures Good(c, s, {})
  {
    forall r | 0 <= r < |c.g.deps|
      ensures RemainOf(c.g, s, r) && LoopOf(c.g, s, r)
    {
      SumWaitZero(s.remain[r], |c.g.deps|);
    }
  }

  lemma {:induction false} SumWaitZero(m: map<int, nat>, n: nat)
    requires forall d | d in m :: m[d] == 0
    ensures SumWait(m, n) == 0
  {
    if n > 0 {
      SumWaitZero(m, n - 1);
    }
  }

  lemma NewRoot(c: Config, s: State, t: State, r: int)
    requires Good(c, s, {}) && 0 <= r < |c.g.deps| && r !in s.executed && r !in s.roots
    requires t == s.(roots := s.roots + [r], asked := s.asked + {r})
    ensures Good(c, t, {})
  {
    NewRootKeeps(c.g, s, t, r);
    hide Inv, SumWait, RemainOf, LoopOf;
    Basics(c.g, s, {});
    FaithfulFrame(c.g, c.needs, s, t);
    ProgressFrame(c, s, t);
    StartedFrame(c.g, s, t);
  }

  lemma Sizes(c: Config, s: State, flight: set<int>)
    requires Good(c, s, flight)
    ensures Shape(c.g, s)
    ensures |s.remain| == |s.remainCnt| == |s.waitCnt| == |s.waitloc| == |s.passed| == |c.g.deps| == |c.g.index| ==
      |c.needs|
    ensures s.executed <= s.queued <= s.executing && s.under <= s.executing
    ensures forall r | r in s.executing :: 0 <= r < |c.g.deps|
    ensures forall p | p in s.owed :: p.0 in s.executed
    ensures forall r | r in s.roots :: r !in s.executed
    ensures forall r | r in flight :: r in s.queued && r !in s.executed
    ensures forall r | r in s.queue || r in s.running :: r in s.queued && r !in s.executed
    ensures forall r | r in s.roots :: r in s.asked
    ensures c.Ranked() ==> s.executing <= c.scope
  {
    Basics(c.g, s, flight);
  }

  lemma OfRule(c: Config, s: State, flight: set<int>, r: int)
    requires Good(c, s, flight) && 0 <= r < |c.g.deps|
    ensures 0 <= r < |s.remain| == |s.remainCnt| == |s.waitCnt| == |s.waitloc| == |s.passed|
    ensures forall d | d in s.remain[r] :: 0 <= d < |c.g.deps|
    ensures forall d | d in c.g.Edges(r) && d !in s.executed :: d in s.remain[r]
    ensures s.remainCnt[r] == |s.remain[r]| && s.waitCnt[r] == SumWait(s.remain[r], |c.g.deps|)
    ensures r !in s.executing ==> s.waitCnt[r] == 0 && s.waitloc[r] == -1 && s.passed[r] == 0
    ensures -1 <= s.waitloc[r] <= s.passed[r] <= |c.g.deps[r]| && s.waitloc[r] < |c.g.deps[r]|
    ensures r in s.executing && r !in s.under ==> Parked(c.g, s, r) && (c.g.Edges(r) != {} ==> s.waitloc[r] >= 0)
    ensures r in s.queued ==> c.g.Edges(r) <= s.executed && s.passed[r] == |c.g.deps[r]|
    ensures c.Idle() && r in s.executing && r !in s.under ==> r in s.executed
  {
    RuleBasics(c.g, s, flight, r);
  }

  lemma OfEdge(c: Config, s: State, r: int, i: int)
    requires Good(c, s, {}) && 0 <= r < |c.g.deps| && 0 <= i < |c.g.deps[r]| && c.g.IsEdge(r, i)
    ensures var d := c.g.deps[r][i].rule;
      && d in c.g.Edges(r) && 0 <= d < |c.g.deps|
      && (d in s.executed || d in s.remain[r])
      && (c.Ranked() && r in c.scope ==> d in c.scope)
      && (c.Ranked() && r in c.scope && (forall u | u in s.under && u != r :: c.rank[r] < c.rank[u]) ==>
            forall u | u in s.under :: c.rank[d] < c.rank[u])
  {
    EdgeBasics(c.g, r, i);
    OfRule(c, s, {}, r);
  }

  lemma OfWaited(c: Config, s: State, r: int, i: int)
    requires Good(c, s, {}) && 0 <= r < |c.g.deps| == |s.remain| && 0 <= i < |c.g.deps[r]| && c.g.IsEdge(r, i)
    requires c.g.deps[r][i].rule !in s.executed
    ensures c.g.deps[r][i].rule in s.remain[r] && c.g.Edges(r) != {}
  {
    EdgeBasics(c.g, r, i);
    OfRule(c, s, {}, r);
  }

  lemma AllPassedDone(c: Config, s: State, r: int)
    requires Good(c, s, {}) && 0 <= r < |c.g.deps| && |s.waitCnt| == |s.passed| == |c.g.deps| && s.waitCnt[r] == 0
    ensures s.passed[r] <= |c.g.deps[r]|
    ensures forall j | 0 <= j < s.passed[r] && c.g.IsEdge(r, j) :: c.g.deps[r][j].rule in s.executed
  {
    NothingWaited(c.g, s, r);
  }

  /** A dependency loop that found every dependency executed. */
  lemma LoopDone(c: Config, s: State, r: int)
    requires Good(c, s, {}) && 0 <= r < |c.g.deps| == |s.waitloc|
    requires forall j | 0 <= j < |c.g.deps[r]| && c.g.IsEdge(r, j) :: c.g.deps[r][j].rule in s.executed
    requires forall j | 0 <= j < |c.g.deps[r]| && !c.g.deps[r][j].isDupe :: s.waitloc[r] >= 0
    ensures c.g.Edges(r) <= s.executed
    ensures c.g.Edges(r) != {} ==> s.waitloc[r] >= 0
  {
  }

  /** A dependency loop that has come past everything. */
  lemma AtEnd(c: Config, s: State, r: int)
    requires 0 <= r < |c.g.deps| && r < |s.passed| && s.passed[r] == |c.g.deps[r]|
    ensures Parked(c.g, s, r)
  {
  }

  lemma ParkedAt(c: Config, s: State, r: int)
    requires 0 <= r < |c.g.deps| && r < |s.passed| && 0 <= s.passed[r] <= |c.g.deps[r]|
    requires s.passed[r] < |c.g.deps[r]| ==> c.g.deps[r][s.passed[r]].isWait
    ensures Parked(c.g, s, r)
  {
  }

  lemma ParkedIf(c: Config, s: State, r: int)
    requires Parked(c.g, s, r)
    ensures 0 <= r < |c.g.deps| && r < |s.passed| && 0 <= s.passed[r] <= |c.g.deps[r]|
    ensures s.passed[r] < |c.g.deps[r]| ==> c.g.deps[r][s.passed[r]].isWait
  {
  }

  /** With no wait in the way, everything before the markers up to dependency `i` is done. */
  lemma MayVisit(c: Config, s: State, r: int, i: int)
    requires Good(c, s, {}) && 0 <= r < |c.g.deps| == |s.passed| == |s.waitCnt| && 0 <= i < |c.g.deps[r]|
    requires i <= s.passed[r]
    requires c.g.deps[r][i].isWait ==> s.waitCnt[r] == 0
    ensures Cleared(c.g, s, r, i)
  {
    hide Faithful, Progress, Started, HistoryOk, QueueOk, RemainOf, SumWait, Graph.WellFormed, Graph.Edges;
    assert LoopOf(c.g, s, r);
    if c.g.deps[r][i].isWait {
      NothingWaited(c.g, s, r);
    }
  }

  lemma EdgesDone(g: Graph, r: int, i: int, done: set<int>)
    requires 0 <= r < |g.deps| && 0 <= i < |g.deps[r]|
    ensures g.Edges(r) <= done && g.IsEdge(r, i) ==> g.deps[r][i].rule in done
  {
  }

  lemma Grant(c: Config, s: State, r: int, i: int)
    requires r in s.executing && Cleared(c.g, s, r, i) && c.g.IsEdge(r, i)
    ensures Licensed(c.g, s, c.g.deps[r][i].rule)
  {
    assert Grants(c.g, s, r, i, c.g.deps[r][i].rule);
  }

  /** A dependency loop that left something to wait for; `blocker` is something it went on waiting for. */
  lemma LoopLeft(c: Config, s: State, r: int, blocker: int)
    requires Good(c, s, {}) && 0 <= r < |c.g.deps| == |s.waitCnt| == |s.passed| == |s.remain|
    requires s.waitCnt[r] > 0 || s.passed[r] == |c.g.deps[r]|
    requires c.g.Edges(r) != {} && !c.Idle()
    requires c.Tamed() ==> blocker in s.remain[r]
    ensures Attended(c, s, r)
  {
    LoopOver(c.g, s, r);
    RuleBasics(c.g, s, {}, r);
    assert RemainOf(c.g, s, r);
    if c.Tamed() && s.waitCnt[r] > 0 {
      CountWaits(c.g, s, r);
    }
  }

  /** A rule whose dependencies were all done has been decided. */
  lemma Decided(c: Config, s: State, r: int)
    requires Good(c, s, {}) && 0 <= r < |c.g.deps| && r in s.queued && (c.Idle() ==> r in s.executed)
    ensures Attended(c, s, r)
  {
  }

  /** What a parked rule is left with when reconsider takes it up, `e` being the state without the done dependency. */
  lemma LeftBehind(c: Config, s: State, p: int, d: int)
    requires Good(c, s, {}) && c.Tamed() && p in s.executing && p !in s.under && 0 <= p < |s.remain| && d in s.remain[p]
    ensures d in s.executing || c.Needs(d)
  {
    if d !in s.executing {
      Behind(c, s, p, d);
    }
  }

  /** A dependency rule that keeps rule `r` waiting through one round of its dependency loop. */
  lemma WaitsOn(c: Config, s: State, t: State, r: int, d: int)
    requires Good(c, s, {}) && Good(c, t, {}) && Evolves(c.g, s, t, s.under - {r}) && s.owed <= t.owed
    requires c.Tamed() && r in s.executing && r !in s.executed && 0 <= r < |s.remain| == |t.remain| && d in s.remain[r]
    requires d in s.executing || c.Needs(d)
    ensures d in t.remain[r] && (d in t.executing || c.Needs(d))
  {
    KeepsWaiting(c, s, t, r, d);
  }

  lemma Stay(c: Config, s: State, frozen: set<int>)
    requires Good(c, s, {}) && frozen <= s.under
    ensures Evolves(c.g, s, s, frozen)
  {
    EvolvesRefl(c.g, s, frozen);
  }

  lemma Start(c: Config, s: State, t: State, r: int)
    requires Good(c, s, {}) && 0 <= r < |c.g.deps| && r !in s.executing && (c.Ranked() ==> r in c.scope)
    requires Licensed(c.g, s, r)
    requires t == s.(executing := s.executing + {r}, under := s.under + {r})
    ensures Good(c, t, {}) && Evolves(c.g, s, t, s.under)
    ensures Left(|c.g.deps|, t.executing, t.queued, t.executed) < Left(|c.g.deps|, s.executing, s.queued, s.executed)
  {
    hide Inv, Evolves, Progress, Started, Faithful, Left, SumWait, RemainOf, LoopOf, Without;
    Basics(c.g, s, {});
    StartKeeps(c.g, s, t, r);
    FaithfulFrame(c.g, c.needs, s, t);
    ProgressFrame(c, s, t);
    StartedFrame(c.g, s, t);
    LeftMono(|c.g.deps|, s, t);
  }

  lemma Point(c: Config, s: State, t: State, r: int, i: int)
    requires Good(c, s, {}) && r in s.executing && i < |c.g.deps[r]|
    requires |s.passed| == |s.waitloc| == |c.g.deps| && 0 <= i <= s.passed[r]
    requires t == s.(waitloc := s.waitloc[r := i])
    ensures Good(c, t, {}) && Evolves(c.g, s, t, s.under - {r})
  {
    hide Inv, Evolves, Progress, Started, Faithful, Left, SumWait, RemainOf, LoopOf, Without;
    Basics(c.g, s, {});
    PointKeeps(c.g, s, t, r, i);
    FaithfulFrame(c.g, c.needs, s, t);
    ProgressFrame(c, s, t);
    StartedFrame(c.g, s, t);
  }

  lemma Wait(c: Config, s: State, t: State, r: int, d: int)
    requires Good(c, s, {}) && r in s.executing && 0 <= r < |s.remain| == |s.waitCnt| && d in s.remain[r]
    requires d in s.executing
    requires t ==
      s.(remain := s.remain[r := s.remain[r][d := s.remain[r][d] + 1]], waitCnt := s.waitCnt[r := s.waitCnt[r] + 1])
    ensures Good(c, t, {}) && Evolves(c.g, s, t, s.under - {r})
  {
    hide Inv, Evolves, Progress, Started, Faithful, Left, SumWait, RemainOf, LoopOf, Without;
    Basics(c.g, s, {});
    WaitKeeps(c.g, s, r, d);
    FaithfulFrame(c.g, c.needs, s, t);
    assert d in t.remain[r];
    ProgressFrame(c, s, t);
    StartedFrame(c.g, s, t);
  }

  lemma Pass(c: Config, s: State, t: State, r: int, i: int)
    requires Good(c, s, {}) && r in s.under && 0 <= i < |c.g.deps[r]|
    requires |s.passed| == |s.remain| == |c.g.deps| && i <= s.passed[r]
    requires t == s.(passed := s.passed[r := if i < s.passed[r] then s.passed[r] else i + 1])
    requires c.g.IsEdge(r, i) && c.g.deps[r][i].rule !in s.executed ==>
               c.g.deps[r][i].rule in s.remain[r] && s.remain[r][c.g.deps[r][i].rule] >= 1
    requires !c.g.deps[r][i].isDupe && c.g.deps[r][i].isWait ==>
               forall j | 0 <= j < i && c.g.IsEdge(r, j) :: c.g.deps[r][j].rule in s.executed
    ensures Good(c, t, {}) && Evolves(c.g, s, t, s.under - {r})
  {
    hide Inv, Evolves, Progress, Started, Faithful, Left, SumWait, RemainOf, LoopOf, Without;
    Basics(c.g, s, {});
    PassKeeps(c.g, s, t, r, i);
    FaithfulFrame(c.g, c.needs, s, t);
    ProgressFrame(c, s, t);
    StartedFrame(c.g, s, t);
  }

  lemma Enqueue(c: Config, s: State, t: State, r: int)
    requires Good(c, s, {}) && r in s.under && r !in s.queued && 0 <= r < |c.needs| && c.needs[r]
    requires c.g.Edges(r) <= s.executed
    requires 0 <= r < |c.g.deps| == |s.passed| && s.passed[r] == |c.g.deps[r]|
    requires t == s.(queued := s.queued + {r}, queue := s.queue + [r], history := s.history + [Queued(r)])
    ensures Good(c, t, {}) && Evolves(c.g, s, t, s.under - {r})
  {
    hide Inv, Evolves, Progress, Started, Faithful, Left, SumWait, RemainOf, LoopOf, Without;
    Basics(c.g, s, {});
    EnqueueKeeps(c.g, s, t, r);
    FaithfulEnqueue(c.g, c.needs, s, t, r);
    ProgressFrame(c, s, t);
    StartedFrame(c.g, s, t);
  }

  lemma Skip(c: Config, s: State, t: State, r: int)
    requires Good(c, s, {}) && r in s.under && r !in s.queued && 0 <= r < |c.needs| && !c.needs[r]
    requires c.g.Edges(r) <= s.executed
    requires 0 <= r < |c.g.deps| == |s.passed| && s.passed[r] == |c.g.deps[r]|
    requires t == s.(queued := s.queued + {r})
    ensures Good(c, t, {r}) && Evolves(c.g, s, t, s.under - {r})
    ensures Left(|c.g.deps|, t.executing, t.queued, t.executed) < Left(|c.g.deps|, s.executing, s.queued, s.executed)
  {
    hide Inv, Evolves, Progress, Started, Faithful, Left, SumWait, RemainOf, LoopOf, Without;
    Basics(c.g, s, {});
    FlightKeeps(c.g, s, t, r);
    FaithfulFlight(c.g, c.needs, s, t, r);
    ProgressFrame(c, s, t);
    StartedFrame(c.g, s, t);
    LeftMono(|c.g.deps|, s, t);
  }

  lemma Finish(c: Config, s: State, t: State, r: int)
    requires Good(c, s, {r}) && 0 <= r < |c.g.index| && 0 <= r < |c.needs|
    requires t ==
      s.(executed := s.executed + {r}, roots := Without(s.roots, {r}), ran := if c.needs[r] then s.ran + {r} else s.ran,
                     owed := s.owed + Owing(r, c.g.index[r]), history := s.history + [Done(r)])
    ensures Good(c, t, {}) && Evolves(c.g, s.(ran := t.ran), t, s.under - {r})
    ensures Left(|c.g.deps|, t.executing, t.queued, t.executed) < Left(|c.g.deps|, s.executing, s.queued, s.executed)
  {
    hide Inv, Evolves, Progress, Started, Faithful, Left, SumWait, RemainOf, LoopOf, Without;
    Basics(c.g, s, {r});
    DoneKeeps(c.g, s, t, r);
    FaithfulDone(c.g, c.needs, s, t, r);
    ProgressFrame(c, s, t);
    StartedFrame(c.g, s, t);
    LeftMono(|c.g.deps|, s, t);
  }

  lemma Dependents(c: Config, s: State, r: int)
    requires Good(c, s, {}) && 0 <= r < |c.g.index|
    ensures forall i | 0 <= i < |c.g.index[r]| :: 0 <= c.g.index[r][i] < |c.g.deps| && r in c.g.Edges(c.g.index[r][i])
  {
    forall i | 0 <= i < |c.g.index[r]|
      ensures 0 <= c.g.index[r][i] < |c.g.deps| && r in c.g.Edges(c.g.index[r][i])
    {
      var p := c.g.index[r][i];
      assert p in c.g.index[r];
    }
  }

  lemma Forget(c: Config, s: State, t: State, p: int, d: int)
    requires Good(c, s, {}) && p in s.executed
    requires t == s.(owed := s.owed - {(d, p)})
    ensures Good(c, t, {}) && Evolves(c.g, s, t, s.under)
  {
    hide Inv, Evolves, Progress, Started, Faithful, Left, SumWait, RemainOf, LoopOf, Without;
    Basics(c.g, s, {});
    ForgetKeeps(c.g, s, t, p, d);
    FaithfulFrame(c.g, c.needs, s, t);
    ProgressFrame(c, s, t);
    StartedFrame(c.g, s, t);
  }

  /** Erasing from a rule that is not waiting in its own right. */
  lemma Erase(c: Config, s: State, p: int, d: int)
    requires Good(c, s, {}) && 0 <= p < |c.g.deps| && d in s.executed && Shape(c.g, s)
    requires p !in s.executing || p in s.under
    ensures Good(c, Erased(c.g, s, p, d), {}) && Evolves(c.g, s, Erased(c.g, s, p, d), s.under)
  {
    hide Inv, Evolves, Progress, Started, Faithful, Left, SumWait, RemainOf, LoopOf, Without;
    Basics(c.g, s, {});
    EraseKeeps(c.g, s, p, d);
    var t := Erased(c.g, s, p, d);
    FaithfulFrame(c.g, c.needs, s, t);
    ProgressFrame(c, s, t);
    StartedFrame(c.g, s, t);
  }

  /** Erasing from a waiting rule and taking the rule up again. */
  lemma Resume(c: Config, s: State, t: State, p: int, d: int)
    requires Good(c, s, {}) && p in s.executing && p !in s.under && p !in s.executed && Shape(c.g, s)
    requires 0 <= p < |c.g.deps| && d in s.executed && d in c.g.Edges(p)
    requires t == Erased(c.g, s, p, d).(under := s.under + {p})
    ensures Good(c, t, {}) && Evolves(c.g, s, t, s.under)
    ensures Left(|c.g.deps|, t.executing, t.queued, t.executed) == Left(|c.g.deps|, s.executing, s.queued, s.executed)
    ensures |t.remain| == |t.remainCnt| == |t.waitCnt| == |t.waitloc| == |t.passed| == |c.g.deps|
    ensures 0 <= t.waitloc[p] <= t.passed[p] && t.waitloc[p] < |c.g.deps[p]|
    ensures t.remainCnt[p] > 0 <==> t.remain[p] != map[]
    ensures t.remain[p] == map[] ==> t.waitCnt[p] == 0 && c.g.Edges(p) <= t.executed
    ensures Parked(c.g, t, p) && !c.Idle()
    ensures c.Tamed() ==> forall x | x in t.remain[p] :: x in t.executing || c.Needs(x)
  {
    hide Inv, Evolves, Progress, Started, Faithful, Left, SumWait, RemainOf, LoopOf, Without;
    Basics(c.g, s, {});
    EraseKeeps(c.g, s, p, d);
    var e := Erased(c.g, s, p, d);
    ResumeKeeps(c.g, e, t, p);
    EvolvesTrans(c.g, s, e, t, s.under);
    FaithfulFrame(c.g, c.needs, s, t);
    RuleBasics(c.g, s, {}, p);
    Basics(c.g, t, {});
    ResumeRule(c.g, t, p);
    OfRule(c, s, {}, p);
    ProgressFrame(c, s, t);
    StartedFrame(c.g, s, t);
    forall x | c.Tamed() && x in t.remain[p]
      ensures x in t.executing || c.Needs(x)
    {
      LeftBehind(c, s, p, x);
    }
  }

  /** Clearing the under-consideration flag of a rule whose dependency loop has been entered. */
  lemma Release(c: Config, s: State, t: State, r: int)
    requires Good(c, s, {}) && r in s.under && 0 <= r < |s.waitloc| == |s.remain| == |c.g.deps|
    requires Parked(c.g, s, r) && (c.g.Edges(r) != {} ==> s.waitloc[r] >= 0)
    requires Attended(c, s, r)
    requires t == s.(under := s.under - {r})
    ensures Good(c, t, {}) && Evolves(c.g, s, t, t.under)
  {
    hide Inv, Evolves, Progress, Started, Faithful, Left, SumWait, RemainOf, LoopOf, Without;
    Basics(c.g, s, {});
    FinishKeeps(c.g, s, t, r);
    FaithfulFrame(c.g, c.needs, s, t);
    ProgressRelease(c, s, t, r);
    StartedFrame(c.g, s, t);
  }

  /** A rule leaves the queue because its commands start running. */
  lemma Take(c: Config, s: State, t: State)
    requires Good(c, s, {}) && s.queue != []
    requires t == s.(queue := s.queue[..|s.queue| - 1], running := s.running + {s.queue[|s.queue| - 1]})
    ensures Good(c, t, {}) && s.queue[|s.queue| - 1] !in s.running
    ensures var r := s.queue[|s.queue| - 1];
      r in s.queued && r !in s.executed && 0 <= r < |c.needs| == |c.g.deps| && c.needs[r]
    ensures s.queue[|s.queue| - 1] !in t.queue && forall x | x in t.queue :: x in s.queue
  {
    hide Inv, Progress, Started, Faithful, SumWait, RemainOf, LoopOf;
    TakeKeeps(c.g, s, t);
    Basics(c.g, s, {});
    FaithfulFrame(c.g, c.needs, s, t);
    ProgressFrame(c, s, t);
    StartedFrame(c.g, s, t);
    var r := s.queue[|s.queue| - 1];
    assert r in s.queue;
    NeededToRun(c, s, r);
  }

  /** A rule whose last command has finished is about to be marked executed. */
  lemma Land(c: Config, s: State, t: State, r: int)
    requires Good(c, s, {}) && r in s.running
    requires t == s.(running := s.running - {r})
    ensures Good(c, t, {r}) && 0 <= r < |c.needs| == |c.g.deps| && c.needs[r]
  {
    hide Inv, Progress, Started, Faithful, SumWait, RemainOf, LoopOf;
    LandKeeps(c.g, s, t, r);
    Basics(c.g, s, {});
    FaithfulFrame(c.g, c.needs, s, t);
    ProgressFrame(c, s, t);
    StartedFrame(c.g, s, t);
    NeededToRun(c, s, r);
  }

  /** Only rules that need their commands run are on the run stack or running. */
  lemma NeededToRun(c: Config, s: State, r: int)
    requires Good(c, s, {}) && (r in s.queue || r in s.running)
    ensures 0 <= r < |c.needs| == |c.g.deps| && c.needs[r]
  {
    assert Queued(r) in s.history;
    assert r in s.queued;
  }

  /** Rule `x` was started, its dependencies are done, and yet it was never queued. */
  ghost predicate Forgotten(g: Graph, s: State, x: int) {
    x in s.executing && x !in s.queued && 0 <= x < |g.deps| && g.Edges(x) <= s.executed
  }

  /** With no child running and nothing queued, a started rule that is not executed lies above one that was
      passed over. */
  lemma {:induction false} Unfinished(c: Config, s: State, x: int) returns (y: int)
    requires Good(c, s, {}) && c.Ranked() && s.owed == {} && s.under == {}
    requires s.queue == [] && s.running == {} && x in s.executing && x !in s.executed
    ensures Forgotten(c.g, s, y) && c.g.Reaches(x, y)
    ensures !c.Tamed() && !c.Idle()
    decreases c.rank[x]
  {
    hide Inv, Faithful, Started, Shape, RemainOf, Forgotten, Graph.Walk, Graph.WellFormed;
    WaitsOrForgotten(c, s, x);
    StartsWalk(c.g, x);
    y := x;
    if Waiting(s, x) {
      var d :| d in s.remain[x] && d in s.executing;
      WaitedFor(c, s, x, d);
      y := Unfinished(c, s, d);
      LongerWalk(c.g, x, d, y);
    }
  }

  lemma WaitsOrForgotten(c: Config, s: State, x: int)
    requires Good(c, s, {}) && s.under == {} && s.queue == [] && s.running == {} && x in s.executing && x !in s.executed
    ensures 0 <= x < |c.g.deps| && c.g.WellFormed()
    ensures Waiting(s, x) || Forgotten(c.g, s, x)
    ensures !Waiting(s, x) ==> !c.Tamed()
    ensures !c.Idle()
  {
    hide RemainOf, LoopOf, HistoryOk;
    assert Attended(c, s, x);
  }

  lemma WaitedFor(c: Config, s: State, x: int, d: int)
    requires Good(c, s, {}) && s.owed == {} && 0 <= x < |s.remain| && x !in s.executed && d in s.remain[x]
    ensures x < |c.g.deps| && d in c.g.Edges(x) && d !in s.executed
  {
    assert RemainOf(c.g, s, x);
  }

  lemma StartsWalk(g: Graph, x: int)
    requires 0 <= x < |g.deps|
    ensures g.Reaches(x, x)
  {
    assert g.WalkFromTo([x], x, x);
  }

  lemma LongerWalk(g: Graph, x: int, d: int, y: int)
    requires 0 <= x < |g.deps| && d in g.Edges(x) && g.Reaches(d, y)
    ensures g.Reaches(x, y)
  {
    var p :| g.WalkFromTo(p, d, y);
    assert g.WalkFromTo([x] + p, x, y);
  }

  /** A rule passed over is not executed. */
  lemma ForgottenUnexecuted(c: Config, s: State, x: int)
    requires Good(c, s, {}) && Forgotten(c.g, s, x)
    ensures x !in s.executed
  {
  }

  // ---- Builds that end in the abort, whatever the order of events ----

  /** Rule `y` is wanted by rule `p` only, and only behind a wait marker that has `b` before it. */
  ghost predicate Late(g: Graph, p: int, b: int, y: int) {
    && 0 <= p < |g.deps| && y in g.Edges(p) && y != b && y != p
    && forall q, i | 0 <= q < |g.deps| && 0 <= i < |g.deps[q]| && g.IsEdge(q, i) && g.deps[q][i].rule == y ::
         q == p && AfterMarker(g, p, b, i)
  }

  /** Rule `p` has a wait marker at or before dependency `i`, and `b` before the marker. */
  ghost predicate AfterMarker(g: Graph, p: int, b: int, i: int) {
    && 0 <= p < |g.deps| && i < |g.deps[p]|
    && exists k, j ::
      0 <= j < k <= i && g.deps[p][k].isWait && !g.deps[p][k].isDupe && g.IsEdge(p, j) && g.deps[p][j].rule == b
  }

  /** Only rule `p` is asked for.  Its dependency `b` needs its commands run, and so do at most `p` and rules below
      `b`; something of `p` lies behind a wait marker after `b`. */
  ghost predicate Doomed(c: Config, asked: set<int>, p: int, b: int) {
    && c.Ranked() && asked == {p} && 0 <= p < |c.g.deps|
    && b in c.g.Edges(p) && c.Needs(b) && 0 <= b < |c.g.index| && c.g.index[b] == [p]
    && (exists y :: Late(c.g, p, b, y))
    && (forall x | x in c.scope && c.Needs(x) :: x == p || c.g.Reaches(b, x))
  }

  /** A rule is not queued before the commands of its dependency have run. */
  lemma NotBefore(c: Config, s: State, p: int, b: int)
    requires Good(c, s, {}) && 0 <= p < |c.g.deps| && b in c.g.Edges(p) && c.Needs(b) && b !in s.ran
    ensures b !in s.executed && p !in s.queued
  {
    hide RemainOf, LoopOf, QueueOk, HistoryOk, Progress, Started;
    RuleBasics(c.g, s, {}, p);
  }

  /** While something runs in a doomed build, `b` is still to be made, and `p` waits for more than `b`. */
  lemma StillWaits(c: Config, s: State, p: int, b: int, r: int)
    requires Good(c, s, {}) && Doomed(c, s.asked, p, b) && p !in s.queued && r in s.running
    ensures b !in s.ran && b !in s.executed && Rest(s, p, b) != {}
  {
    hide RemainOf, LoopOf, HistoryOk, AfterMarker, Graph.WellFormed;
    NeededToRun(c, s, r);
    if b in s.executed {
      ReachedExecuted(c, s, b);
      assert false;
    }
    var y :| Late(c.g, p, b, y);
    if y in s.executing {
      NotLicensed(c.g, s, p, b, y);
    }
    RuleBasics(c.g, s, {}, p);
    assert y in Rest(s, p, b);
  }

  lemma NotLicensed(g: Graph, s: State, p: int, b: int, y: int)
    requires Late(g, p, b, y) && s.asked == {p} && Licensed(g, s, y)
    ensures b in s.executed
  {
    var q, i :| Grants(g, s, q, i, y);
    assert q == p && AfterMarker(g, p, b, i);
  }

  /** Executed rules are closed under dependencies, so a walk never leaves them. */
  lemma {:induction false} WalkExecuted(c: Config, s: State, p: seq<int>, i: nat)
    requires Good(c, s, {}) && c.g.Walk(p) && i < |p| && p[0] in s.executed
    ensures p[i] in s.executed
  {
    if i > 0 {
      WalkExecuted(c, s, p, i - 1);
      RuleBasics(c.g, s, {}, p[i - 1]);
      assert p[(i - 1) + 1] in c.g.Edges(p[i - 1]);
    }
  }

  lemma ReachedExecuted(c: Config, s: State, r: int)
    requires Good(c, s, {}) && r in s.executed
    ensures forall x | c.g.Reaches(r, x) :: x in s.executed
  {
    forall x | c.g.Reaches(r, x)
      ensures x in s.executed
    {
      var p :| c.g.WalkFromTo(p, r, x);
      WalkExecuted(c, s, p, |p| - 1);
    }
  }

  /** What is executed without having run needed no commands and was never queued. */
  lemma ExecutedUnrun(c: Config, s: State, t: State, flight: set<int>)
    requires Good(c, s, flight) && Good(c, t, {}) && s.executed <= t.executed
    ensures forall x | x in t.executed && x !in s.executed && x !in flight && x !in t.ran - s.ran ::
      0 <= x < |c.needs| && !c.needs[x] && x !in s.queued
  {
    hide RemainOf, LoopOf, Progress, Started;
    forall x | x in t.executed && x !in s.executed && x !in flight && x !in t.ran - s.ran
      ensures 0 <= x < |c.needs| && !c.needs[x] && x !in s.queued
    {
      if x in s.queue || x in s.running {
        NeededToRun(c, s, x);
      }
    }
  }

  /** Whatever is queued was queued before or was not yet decided. */
  lemma QueueFresh(c: Config, s: State, t: State, flight: set<int>)
    requires Good(c, s, flight) && Good(c, t, {}) && t.running == s.running && s.executed <= t.executed
    ensures forall x | x in t.queue :: x in s.queue || x !in s.queued || x in flight
  {
    forall x | x in t.queue
      ensures x in s.queue || x !in s.queued || x in flight
    {
      assert x in t.queued && x !in t.executed && x !in t.running;
    }
  }

  lemma RootsStay(c: Config, s: State)
    requires Good(c, s, {})
    ensures Without(s.roots, s.executed) == s.roots && Distinct(s.roots)
    ensures forall r | r in s.roots :: 0 <= r < |c.g.deps| && r !in s.executed
  {
    WithoutNone(s.roots, s.executed);
  }

  /** When no command has been run and none is waiting to be, none was ever queued. */
  lemma NothingQueued(c: Config, s: State)
    requires Good(c, s, {}) && s.queue == [] && s.running == {} && s.ran == {}
    ensures forall r :: Queued(r) !in s.history
  {
  }

  /** When no rule needs its commands run, none is waiting to. */
  lemma IdleQueue(c: Config, s: State)
    requires Good(c, s, {}) && c.Idle()
    ensures s.queue == []
  {
    Basics(c.g, s, {});
    if s.queue != [] {
      NeededToRun(c, s, s.queue[0]);
      assert false;
    }
  }

  lemma RunningNeeds(c: Config, s: State, r: int)
    requires Good(c, s, {}) && r in s.running
    ensures 0 <= r < |c.needs| && c.needs[r] && r in s.queued && r !in s.queue
  {
    NeededToRun(c, s, r);
  }

  lemma Logged(c: Config, s: State, r: int)
    requires Good(c, s, {}) && r in s.queue
    ensures Queued(r) in s.history
  {
  }

  lemma AllDecided(c: Config, s: State)
    requires Good(c, s, {}) && s.queue == [] && s.running == {}
    ensures forall r | r in s.queued :: r in s.executed
  {
    hide RemainOf, LoopOf, HistoryOk, Progress, Started;
  }

  /** With nothing running, whatever was queued is done, and of the executed rules exactly those that needed it were
      queued. */
  lemma AllSettled(c: Config, s: State)
    requires Good(c, s, {}) && s.queue == [] && s.running == {}
    ensures forall r :: Queued(r) in s.history ==> Done(r) in s.history
    ensures forall r | r in s.executed :: 0 <= r < |c.needs| && (Queued(r) in s.history <==> c.needs[r])
  {
    forall r | Queued(r) in s.history
      ensures Done(r) in s.history
    {
      assert r in s.queued;
    }
  }

  lemma HistoryOf(c: Config, s: State)
    requires Good(c, s, {})
    ensures c.g.WellFormed() && Ordered(c.g, s.history) && forall r :: Done(r) in s.history <==> r in s.executed
    ensures c.Ranked() ==> forall e | e in s.history :: e.rule in c.scope
  {
    forall e | e in s.history && c.Ranked()
      ensures e.rule in c.scope
    {
      assert e == Queued(e.rule) || e == Done(e.rule);
    }
  }

  lemma IsClosed(g: Graph)
    requires g.WellFormed()
    ensures g.Closed()
  {
  }
}
