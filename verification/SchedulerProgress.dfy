/** Why a started rule is not forgotten, and why a rule may be started: the liveness half of the invariant. */
module SchedulerProgress {
  import opened BuildGraph
  import opened SchedulerState

  /** Rule `r` still waits for a dependency rule that has been started. */
  ghost predicate Waiting(s: State, r: int) {
    0 <= r < |s.remain| && exists d :: d in s.remain[r] && d in s.executing
  }

  /** A started rule that nobody is considering is queued, or waits for something that has been started, or
      has been passed over: its dependencies are done, and nothing will take it up again.  The last happens to no
      rule when every dependency behind a wait marker needs its commands run, and when no command is needed at all
      a rule is executed as soon as it has been considered. */
  ghost predicate Attended(c: Config, s: State, r: int)
    requires 0 <= r < |c.g.deps|
  {
    && (r in s.queued || Waiting(s, r) || (c.g.Edges(r) != {} && c.g.Edges(r) <= s.executed))
    && (c.Tamed() ==> r in s.queued || Waiting(s, r))
    && (c.Idle() ==> r in s.executed)
  }

  ghost predicate Progress(c: Config, s: State)
    requires Shape(c.g, s)
  {
    && (c.Ranked() ==> s.executing <= c.scope)
    && forall r | r in s.executing && r !in s.under :: Attended(c, s, r)
  }

  /** Everything that rule `p` lists before a wait marker, up to dependency `i`, is executed. */
  ghost predicate Cleared(g: Graph, s: State, p: int, i: int) {
    && 0 <= p < |g.deps| && 0 <= i < |g.deps[p]|
    && forall k, j | 0 <= j < k <= i && g.deps[p][k].isWait && !g.deps[p][k].isDupe && g.IsEdge(p, j) ::
         g.deps[p][j].rule in s.executed
  }

  /** Rule `p` has been started, depends on rule `x` at place `i`, and may go that far. */
  ghost predicate Grants(g: Graph, s: State, p: int, i: int, x: int) {
    p in s.executing && Cleared(g, s, p, i) && g.IsEdge(p, i) && g.deps[p][i].rule == x
  }

  /** A rule is started because it was asked for, or for a started rule whose wait markers allow it. */
  ghost predicate Licensed(g: Graph, s: State, x: int) {
    x in s.asked || exists p, i :: Grants(g, s, p, i, x)
  }

  ghost predicate Started(g: Graph, s: State) {
    forall x | x in s.executing :: Licensed(g, s, x)
  }

  lemma LicenceStays(g: Graph, s: State, t: State, x: int)
    requires Licensed(g, s, x) && s.executing <= t.executing && s.executed <= t.executed && s.asked <= t.asked
    ensures Licensed(g, t, x)
  {
    if x !in s.asked {
      var p, i :| Grants(g, s, p, i, x);
      assert Grants(g, t, p, i, x);
    }
  }

  lemma StartedFrame(g: Graph, s: State, t: State)
    requires Started(g, s) && s.executing <= t.executing && s.executed <= t.executed && s.asked <= t.asked
    requires forall x | x in t.executing && x !in s.executing :: Licensed(g, s, x)
    ensures Started(g, t)
  {
    forall x | x in t.executing
      ensures Licensed(g, t, x)
    {
      LicenceStays(g, s, t, x);
    }
  }

  /** What `Progress` says of a waiting rule is not undone by changes elsewhere. */
  lemma AttendedStays(c: Config, s: State, t: State, r: int)
    requires 0 <= r < |c.g.deps| && Attended(c, s, r)
    requires s.executing <= t.executing && s.queued <= t.queued && s.executed <= t.executed
    requires r < |s.remain| == |t.remain| && s.remain[r].Keys <= t.remain[r].Keys
    ensures Attended(c, t, r)
  {
    if Waiting(s, r) {
      var d :| d in s.remain[r] && d in s.executing;
      assert d in t.remain[r].Keys;
    }
  }

  lemma ProgressFrame(c: Config, s: State, t: State)
    requires Shape(c.g, s) && Shape(c.g, t) && Progress(c, s)
    requires s.executing <= t.executing && s.queued <= t.queued && s.executed <= t.executed && s.under <= t.under
    requires forall r | r in t.executing && r !in s.executing :: r in t.under && (c.Ranked() ==> r in c.scope)
    requires forall r | r in s.executing && r !in t.under :: s.remain[r].Keys <= t.remain[r].Keys
    ensures Progress(c, t)
  {
    forall r | r in t.executing && r !in t.under
      ensures Attended(c, t, r)
    {
      AttendedStays(c, s, t, r);
    }
  }

  lemma ProgressRelease(c: Config, s: State, t: State, r: int)
    requires Shape(c.g, s) && Shape(c.g, t) && Progress(c, s)
    requires t == s.(under := s.under - {r}) && (r in s.executing ==> Attended(c, s, r))
    ensures Progress(c, t)
  {
    forall x | x in t.executing && x !in t.under
      ensures Attended(c, t, x)
    {
      AttendedStays(c, s, t, x);
    }
  }

  lemma {:induction false} SumWaitSome(m: map<int, nat>, n: nat)
    requires SumWait(m, n) > 0
    ensures exists d :: d in m && m[d] >= 1
  {
    if !(n - 1 in m && m[n - 1] >= 1) {
      SumWaitSome(m, n - 1);
    }
  }

  /** A positive wait count is a wait for something that has been started. */
  lemma CountWaits(g: Graph, s: State, r: int)
    requires Inv(g, s, {}) && 0 <= r < |g.deps| == |s.waitCnt| && s.waitCnt[r] > 0
    ensures Waiting(s, r)
  {
    RuleBasics(g, s, {}, r);
    assert RemainOf(g, s, r);
    SumWaitSome(s.remain[r], |g.deps|);
  }

  /** A dependency that has been passed has been started. */
  lemma PassedStarted(g: Graph, s: State, r: int, i: int)
    requires Inv(g, s, {}) && 0 <= r < |g.deps| == |s.passed| && 0 <= i < s.passed[r] <= |g.deps[r]| && g.IsEdge(r, i)
    ensures g.deps[r][i].rule in s.executing
    ensures g.deps[r][i].rule in s.executed || (r < |s.remain| && g.deps[r][i].rule in s.remain[r])
  {
    assert RemainOf(g, s, r) && LoopOf(g, s, r);
  }

  /** A dependency loop that stopped or ran to its end waits for something, unless all its rules are done. */
  lemma LoopOver(g: Graph, s: State, r: int)
    requires Inv(g, s, {}) && 0 <= r < |g.deps| == |s.waitCnt| == |s.passed|
    requires s.waitCnt[r] > 0 || s.passed[r] == |g.deps[r]|
    ensures Waiting(s, r) || g.Edges(r) <= s.executed
    ensures s.waitCnt[r] > 0 || g.Edges(r) <= s.executing
  {
    if s.waitCnt[r] > 0 {
      CountWaits(g, s, r);
    } else {
      forall d | d in g.Edges(r)
        ensures d in s.executing && (d in s.executed || Waiting(s, r))
      {
        var i :| 0 <= i < |g.deps[r]| && g.IsEdge(r, i) && g.deps[r][i].rule == d;
        PassedStarted(g, s, r, i);
      }
    }
  }

  /** What a parked rule has not started lies at or behind a wait marker. */
  lemma Behind(c: Config, s: State, p: int, d: int)
    requires Inv(c.g, s, {}) && Progress(c, s) && c.Tamed() && p in s.executing && p !in s.under && 0 <= p < |s.remain|
    requires d in s.remain[p] && d !in s.executing
    ensures c.Needs(d)
  {
    assert RemainOf(c.g, s, p) && LoopOf(c.g, s, p);
    assert d in c.g.Edges(p);
    var i :| 0 <= i < |c.g.deps[p]| && c.g.IsEdge(p, i) && c.g.deps[p][i].rule == d;
    if i < s.passed[p] {
      PassedStarted(c.g, s, p, i);
    }
    assert c.g.deps[p][s.passed[p]].isWait;
  }

  /** While rule `r` considers its dependencies, what was started below it and is not executed stays so. */
  lemma {:induction false} Steady(c: Config, s: State, t: State, r: int, x: int)
    requires Inv(c.g, s, {}) && Inv(c.g, t, {}) && Progress(c, s) && c.Tamed()
    requires Evolves(c.g, s, t, s.under - {r}) && s.owed <= t.owed
    requires r in c.scope && x in s.executing && x !in s.executed && x in c.rank && r in c.rank && c.rank[x] < c.rank[r]
    ensures x !in t.executed
    decreases c.rank[x]
  {
    if x in s.under {
      assert x in s.under - {r};
    } else if x in s.queued {
      ActiveStays(c.g, s, t, s.under - {r});
    } else {
      assert Attended(c, s, x);
      var y :| y in s.remain[x] && y in s.executing;
      assert RemainOf(c.g, s, x) && RemainOf(c.g, t, x);
      assert y in c.g.Edges(x);
      if y in s.executed {
        assert (y, x) in t.owed;
        assert y in t.remain[x];
      } else {
        Steady(c, s, t, r, y);
      }
    }
  }

  /** While rule `r` considers its dependencies, it goes on waiting for what was started and for what needs its
      commands run. */
  lemma KeepsWaiting(c: Config, s: State, t: State, r: int, d: int)
    requires Inv(c.g, s, {}) && Inv(c.g, t, {}) && Progress(c, s) && c.Tamed()
    requires Evolves(c.g, s, t, s.under - {r}) && s.owed <= t.owed && Faithful(c.g, c.needs, s)
    requires Faithful(c.g, c.needs, t)
    requires r in s.executing && r !in s.executed && 0 <= r < |s.remain| == |t.remain| && d in s.remain[r]
    requires d in s.executing || c.Needs(d)
    ensures d in t.remain[r]
  {
    assert RemainOf(c.g, s, r) && RemainOf(c.g, t, r);
    if d in s.executed {
      assert (d, r) in t.owed;
    } else {
      assert d in c.g.Edges(r);
      if c.Needs(d) {
        assert d !in t.ran;
      } else {
        Steady(c, s, t, r, d);
      }
    }
  }
}
