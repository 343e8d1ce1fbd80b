/** Two builds in a row: what the first leaves in the databases, and that the second queues nothing. */
module SecondBuild {
  import opened Options
  import opened BuildGraph
  import opened SchedulerState
  import opened Sequences
  import opened BuildFiles
  import opened NullBuild
  import opened Bytes
  import opened DbTable
  import opened LiteralCode
  import opened Persist

  /** A dependency of a rule that may be decided exists and is not being written. */
  lemma DepFree(p: Plan, w: World, done: set<int>, busy: set<int>, r: int, i: int)
    requires RunInv(p, w, done, busy) && 0 <= r < |p.g.deps| && p.g.Edges(r) <= done
    requires 0 <= i < |p.g.deps[r]| && p.Live(r, i)
    ensures p.g.deps[r][i].name in w.fs
    ensures forall b | b in busy :: !p.HasTarget(b, p.g.deps[r][i].name)
  {
    var d := p.g.deps[r][i];
    if d.rule >= 0 {
      assert p.g.IsEdge(r, i);
      assert d.rule in p.g.Edges(r);
      assert Settled(p, w, d.rule);
    }
  }

  /** Everything the decision on an undecided rule looks at is remembered truthfully. */
  lemma Truthful(p: Plan, w: World, done: set<int>, busy: set<int>, r: int)
    requires RunInv(p, w, done, busy) && 0 <= r < |p.g.deps| && p.g.Edges(r) <= done
    ensures forall i | 0 <= i < |p.g.deps[r]| && p.Live(r, i) ::
      p.g.deps[r][i].name in w.fs &&
        (p.g.deps[r][i].name in w.cache ==> w.cache[p.g.deps[r][i].name] == Look(w.fs, p.g.deps[r][i].name))
    ensures r !in busy ==> forall t | t in p.recipes[r].tgts :: t in w.cache ==> w.cache[t] == Look(w.fs, t)
  {
    forall i | 0 <= i < |p.g.deps[r]| && p.Live(r, i)
      ensures p.g.deps[r][i].name in w.fs
      ensures (p.g.deps[r][i].name in w.cache ==> w.cache[p.g.deps[r][i].name] == Look(w.fs, p.g.deps[r][i].name))
    {
      DepFree(p, w, done, busy, r, i);
    }
    if r !in busy {
      forall t | t in p.recipes[r].tgts && t in w.cache
        ensures w.cache[t] == Look(w.fs, t)
      {
        assert forall b | b in busy :: !p.HasTarget(b, t);
      }
    }
  }

  /** Looking at files and noting what was seen keeps a settled rule settled. */
  lemma SettledStays(p: Plan, w: World, v: World, r: int)
    requires 0 <= r < |p.recipes| == |p.g.deps| && Settled(p, w, r)
    requires v.fs == w.fs && v.db == w.db && w.ran <= v.ran
    requires forall n | n in w.fs && Recorded(w.tsdb, n, w.fs[n]) :: Recorded(v.tsdb, n, w.fs[n])
    ensures Settled(p, v, r)
  {
  }

  /** do_exec keeps the invariant, and a queued rule has its dependencies measured. */
  lemma DecideKeeps(p: Plan, w: World, v: World, done: set<int>, busy: set<int>, r: int)
    requires RunInv(p, w, done, busy) && 0 <= r < |p.g.deps| && r !in done && r !in busy && p.g.Edges(r) <= done
    requires v == w.(cache := v.cache, tsdb := v.tsdb, stMtim := v.stMtim)
    requires CacheGrown(w.cache, v.cache, w.fs) && TsFollowed(w.tsdb, v.tsdb, w.fs)
    requires |v.stMtim| == |p.g.deps| && v.stMtim == w.stMtim[r := v.stMtim[r]]
    requires if p.g.deps[r] == [] then v.stMtim[r] == w.stMtim[r] else Newest(p, r, w.fs, v.stMtim[r])
    ensures RunInv(p, v, done, busy) && RunInv(p, v, done, busy + {r})
  {
    forall x | x in done
      ensures Settled(p, v, x)
    {
      SettledStays(p, w, v, x);
    }
    assert Newest(p, r, v.fs, v.stMtim[r]);
    assert forall b | b in busy :: Newest(p, b, v.fs, v.stMtim[b]);
  }

  /** The commands of a running rule touch nothing that a finished rule or a measured dependency relies on. */
  lemma CommandKeeps(p: Plan, w: World, v: World, done: set<int>, busy: set<int>, r: int)
    requires RunInv(p, w, done, busy) && r in busy && v == w.(fs := v.fs)
    requires forall n | !p.HasTarget(r, n) :: Look(v.fs, n) == Look(w.fs, n)
    ensures RunInv(p, v, done, busy)
  {
    forall x, i | x in done + busy && 0 <= i < |p.g.deps[x]| && p.Live(x, i)
      ensures Look(v.fs, p.g.deps[x][i].name) == Look(w.fs, p.g.deps[x][i].name) && p.g.deps[x][i].name in v.fs
    {
      DepFree(p, w, done, busy, x, i);
    }
    forall x | x in done
      ensures Settled(p, v, x)
    {
      assert Settled(p, w, x);
      forall t | t in p.recipes[x].tgts
        ensures Look(v.fs, t) == Look(w.fs, t) && t in v.fs && Recorded(v.tsdb, t, v.fs[t])
      {
        assert !p.HasTarget(r, t);
      }
    }
    forall b | b in busy
      ensures Newest(p, b, v.fs, v.stMtim[b])
    {
      assert Newest(p, b, w.fs, w.stMtim[b]);
    }
    forall x, i | 0 <= x < |p.g.deps| && 0 <= i < |p.g.deps[x]| && p.g.deps[x][i].rule < 0
      ensures p.g.deps[x][i].name in v.fs
    {
      assert !p.HasTarget(r, p.g.deps[x][i].name);
    }
  }

  /** mark_executed settles its rule. */
  lemma MarkKeeps(p: Plan, w: World, v: World, done: set<int>, busy: set<int>, r: int)
    requires RunInv(p, w, done, busy + {r}) && r !in busy
    requires v == w.(cache := v.cache, tsdb := v.tsdb, ran := v.ran) && w.ran <= v.ran <= w.ran + {r}
    requires r in v.ran || p.recipes[r].cmds == [] || forall t | t in p.recipes[r].tgts ::
      SameCommand(w.db, t, p.recipes[r])
    requires CacheGrown(w.cache, v.cache, w.fs) && TsStored(w.tsdb, v.tsdb, w.fs)
    requires forall t | t in p.recipes[r].tgts ::
      t in w.fs && (w.stMtim[r].Some? ==> TsCmp(w.fs[t].mtim, w.stMtim[r].value) >= 0)
    requires forall t | t in p.recipes[r].tgts :: Recorded(v.tsdb, t, w.fs[t])
    requires forall i | 0 <= i < |p.g.deps[r]| && p.Live(r, i) && p.g.deps[r][i].name in w.fs ::
      Recorded(v.tsdb, p.g.deps[r][i].name, w.fs[p.g.deps[r][i].name])
    requires forall t | t in p.recipes[r].tgts && t in v.cache :: v.cache[t] == Look(w.fs, t)
    ensures RunInv(p, v, done + {r}, busy)
  {
    forall x | x in done
      ensures Settled(p, v, x)
    {
      SettledStays(p, w, v, x);
    }
    assert Settled(p, v, r) by {
      Truthful(p, w, done, busy + {r}, r);
      assert Newest(p, r, w.fs, w.stMtim[r]);
      forall i, t | 0 <= i < |p.g.deps[r]| && p.Strict(r, i) && t in p.recipes[r].tgts
        ensures TsCmp(w.fs[t].mtim, w.fs[p.g.deps[r][i].name].mtim) >= 0
      {
        assert p.Live(r, i);
        TsCmpOrders(w.fs[p.g.deps[r][i].name].mtim, w.stMtim[r].value, w.fs[t].mtim);
        TsCmpOrders(w.fs[t].mtim, w.stMtim[r].value, w.fs[t].mtim);
        TsCmpOrders(w.fs[t].mtim, w.fs[p.g.deps[r][i].name].mtim, w.fs[t].mtim);
      }
    }
    forall n | n in v.cache && (forall b | b in busy :: !p.HasTarget(b, n))
      ensures v.cache[n] == Look(v.fs, n)
    {
      if n !in p.recipes[r].tgts {
        assert forall b | b in busy + {r} :: !p.HasTarget(b, n);
      }
    }
  }

  /** Nothing in a quiet world makes mark_executed give up. */
  lemma FreshPasses(p: Plan, r: int, fs: map<nat, Stat>, m: Option<Time>)
    requires 0 <= r < |p.recipes| == |p.g.deps| && Fresh(p, r, fs) && Newest(p, r, fs, m)
    ensures forall t | t in p.recipes[r].tgts :: t in fs && (m.Some? ==> TsCmp(fs[t].mtim, m.value) >= 0)
  {
  }

  lemma QuietStays(p: Plan, w: World, v: World, all: set<int>)
    requires Quiet(p, w, all) && v.fs == w.fs && v.db == w.db
    requires forall n | n in w.fs && Matches(w.tsdb, n, w.fs[n]) :: Matches(v.tsdb, n, w.fs[n])
    ensures Quiet(p, v, all)
  {
    forall r | r in all && p.recipes[r].cmds != []
      ensures UpToDate(p, r, v.fs, v.db, v.tsdb)
    {
      assert UpToDate(p, r, w.fs, w.db, w.tsdb);
    }
  }

  /** Why following a history stopped: at its end, at a decision that went the other way, or at a target that was
      not made or is too old. */
  datatype Reply = Agreed | Disagreed | GaveUp

  ghost function DoneIn(h: seq<Event>): set<int> {
    set e | e in h && e.Done? :: e.rule
  }

  ghost function BusyIn(h: seq<Event>): set<int> {
    set e | e in h && e.Queued? && Done(e.rule) !in h :: e.rule
  }

  /** Between two worlds nothing has happened but that running commands wrote their targets. */
  ghost predicate OnlyTargets(p: Plan, w: World, v: World, busy: set<int>) {
    && v == w.(fs := v.fs)
    && forall n | forall r | r in busy :: !p.HasTarget(r, n) :: Look(v.fs, n) == Look(w.fs, n)
  }

  /** What do_exec decides for rule `r`. */
  ghost predicate ToMake(p: Plan, w: World, r: int)
    requires 0 <= r < |p.recipes| == |p.g.deps|
  {
    p.recipes[r].cmds != [] && !UpToDate(p, r, w.fs, w.db, w.tsdb)
  }

  /** mark_executed finds every target of rule `r` there and not too old. */
  ghost predicate Passed(p: Plan, w: World, r: int)
    requires 0 <= r < |p.recipes|
  {
    r < |w.stMtim| && forall t | t in p.recipes[r].tgts ::
      t in w.fs && (w.stMtim[r].Some? ==> TsCmp(w.fs[t].mtim, w.stMtim[r].value) >= 0)
  }

  /** How the code answers one event, decided in world `mid` and completed in world `after`. */
  ghost function Answer(p: Plan, e: Event, done: set<int>, busy: set<int>, mid: World, after: World): Reply
    requires 0 <= e.rule < |p.recipes| == |p.g.deps|
  {
    if e.rule in done || (e.rule in busy && e.Queued?) then Disagreed
    else if e.rule !in busy && (ToMake(p, mid, e.rule) <==> e.Done?) then Disagreed
    else if e.Queued? || Passed(p, after, e.rule) then Agreed
    else GaveUp
  }

  /** Event `i` of a history, met in world `w`: running commands wrote their targets, the event was decided in world
      `mid` with this reply, and world `after` is what it left behind. */
  ghost predicate Step(p: Plan, h: seq<Event>, i: nat, w: World, mid: World, after: World, reply: Reply)
    requires i < |h|
  {
    && 0 <= h[i].rule < |p.recipes| == |p.g.deps|
    && OnlyTargets(p, w, mid, BusyIn(h[..i]))
    && after.fs == mid.fs && after.db == mid.db
    && reply == Answer(p, h[i], DoneIn(h[..i]), BusyIn(h[..i]), mid, after)
  }

  ghost function Before(w: World, afters: seq<World>, i: nat): World
    requires i <= |afters|
  {
    if i == 0 then w else afters[i - 1]
  }

  /** The first events of a history were all agreed to. */
  ghost predicate AllAgreed(p: Plan, w: World, h: seq<Event>, mids: seq<World>, afters: seq<World>) {
    && |mids| == |afters| <= |h|
    && forall i: nat | i < |mids| :: Step(p, h, i, Before(w, afters, i), mids[i], afters[i], Agreed)
  }

  /** A history was followed to its end, or to the first event with a reply other than `Agreed`. */
  ghost predicate Replayed(p: Plan, w: World, h: seq<Event>, mids: seq<World>, afters: seq<World>, reply: Reply) {
    if reply == Agreed then |mids| == |h| && AllAgreed(p, w, h, mids, afters)
    else
      var n := |mids| - 1;
      && 0 <= n < |h| && |afters| == n + 1
      && AllAgreed(p, w, h, mids[..n], afters[..n])
      && Step(p, h, n, Before(w, afters, n), mids[n], afters[n], reply)
  }

  lemma AllReplayed(p: Plan, w: World, h: seq<Event>, mids: seq<World>, afters: seq<World>)
    requires AllAgreed(p, w, h, mids, afters) && |mids| == |h|
    ensures Replayed(p, w, h, mids, afters, Agreed)
  {
  }

  lemma NoneAgreed(p: Plan, w: World, h: seq<Event>)
    ensures AllAgreed(p, w, h, [], [])
  {
  }

  lemma OneAgreed(p: Plan, w: World, h: seq<Event>, mids: seq<World>, afters: seq<World>, mid: World, after: World)
    requires AllAgreed(p, w, h, mids, afters) && |mids| < |h|
    requires Step(p, h, |mids|, Before(w, afters, |mids|), mid, after, Agreed)
    ensures AllAgreed(p, w, h, mids + [mid], afters + [after])
  {
    hide Step;
    var ms, vs := mids + [mid], afters + [after];
    forall i: nat | i < |ms|
      ensures Step(p, h, i, Before(w, vs, i), ms[i], vs[i], Agreed)
    {
      assert Before(w, vs, i) == Before(w, afters, i);
    }
  }

  lemma OneRefused(p: Plan, w: World, h: seq<Event>, mids: seq<World>, afters: seq<World>, mid: World, after: World,
                   reply: Reply)
    requires AllAgreed(p, w, h, mids, afters) && |mids| < |h| && reply != Agreed
    requires Step(p, h, |mids|, Before(w, afters, |mids|), mid, after, reply)
    ensures Replayed(p, w, h, mids + [mid], afters + [after], reply)
  {
    hide Step;
    var n := |mids|;
    assert (mids + [mid])[..n] == mids && (afters + [after])[..n] == afters;
    assert Before(w, afters + [after], n) == Before(w, afters, n);
  }

  /** Running commands write their targets, any number of times. */
  method Meanwhile(b: BuildDb, ghost done: set<int>, busy: set<int>)
    requires RunInv(b.p, b.View(), done, busy)
    modifies b`fs
    ensures RunInv(b.p, b.View(), done, busy)
    ensures OnlyTargets(b.p, old(b.View()), b.View(), busy)
    ensures busy == {} ==> b.fs == old(b.fs)
  {
    hide RunInv;
    assert (forall x :: x !in busy) ==> busy == {};
    if busy == {} {
      return;
    }
    var steps: int := *;
    for i := 0 to if steps < 0 then 0 else steps
      invariant RunInv(b.p, b.View(), done, busy) && OnlyTargets(b.p, old(b.View()), b.View(), busy)
    {
      var r :| r in busy;
      BusyRange(b.p, b.View(), done, busy, r);
      ghost var w := b.View();
      b.Command(r);
      CommandKeeps(b.p, w, b.View(), done, busy, r);
    }
  }

  lemma BusyRange(p: Plan, w: World, done: set<int>, busy: set<int>, r: int)
    requires RunInv(p, w, done, busy) && r in busy
    ensures 0 <= r < |p.g.deps| == |p.recipes| && p.Valid()
  {
  }

  /** Decide rule `r`: whether it is to be queued. */
  method Consult(b: BuildDb, r: int, ghost done: set<int>, ghost busy: set<int>, ghost all: set<int>)
    returns (run: bool)
    requires RunInv(b.p, b.View(), done, busy) && 0 <= r < |b.p.g.deps| && r !in done && r !in busy
    requires b.p.g.Edges(r) <= done
    modifies b`cache, b`tsdb, b`stMtim
    ensures RunInv(b.p, b.View(), done, busy) && RunInv(b.p, b.View(), done, busy + {r})
    ensures |b.p.recipes| == |b.p.g.deps|
    ensures run <==> ToMake(b.p, old(b.View()), r)
    ensures run || b.p.recipes[r].cmds == [] || forall t | t in b.p.recipes[r].tgts ::
      SameCommand(b.db, t, b.p.recipes[r])
    ensures old(Quiet(b.p, b.View(), all)) && r in all ==> !run && Quiet(b.p, b.View(), all)
  {
    ghost var w := b.View();
    Truthful(b.p, w, done, busy, r);
    var has := b.Decide(r);
    run := has && b.p.recipes[r].cmds != [];
    DecideKeeps(b.p, w, b.View(), done, busy, r);
    if Quiet(b.p, w, all) {
      QuietStays(b.p, w, b.View(), all);
    }
  }

  /** Rule `r` is done, after its commands when it was queued. */
  method Finish(b: BuildDb, r: int, executed: bool, ghost done: set<int>, ghost busy: set<int>, ghost all: set<int>)
    returns (ok: bool)
    requires RunInv(b.p, b.View(), done, busy + {r}) && r !in busy && |b.p.recipes| == |b.p.g.deps|
    requires 0 <= r < |b.p.recipes|
    requires !executed ==> RunInv(b.p, b.View(), done, busy)
    requires executed || b.p.recipes[r].cmds == [] || forall t | t in b.p.recipes[r].tgts ::
      SameCommand(b.db, t, b.p.recipes[r])
    modifies b`cache, b`tsdb, b`ran
    ensures ok ==> RunInv(b.p, b.View(), done + {r}, busy)
    ensures r < |b.stMtim|
    ensures ok <==> Passed(b.p, b.View(), r)
    ensures old(Quiet(b.p, b.View(), all)) && r in all ==> ok && Quiet(b.p, b.View(), all)
  {
    ghost var w := b.View();
    Truthful(b.p, w, done, busy + {r}, r);
    if !executed {
      Truthful(b.p, w, done, busy, r);
    }
    ok := b.MarkExecuted(r, executed);
    if ok {
      MarkKeeps(b.p, w, b.View(), done, busy, r);
    }
    if Quiet(b.p, w, all) && r in all {
      FreshPasses(b.p, r, b.fs, w.stMtim[r]);
      QuietStays(b.p, w, b.View(), all);
    }
  }

  lemma EventsSoFar(h: seq<Event>, i: nat)
    requires i < |h| && Distinct(h)
    ensures DoneIn(h[..i + 1]) == if h[i].Done? then DoneIn(h[..i]) + {h[i].rule} else DoneIn(h[..i])
    ensures BusyIn(h[..i + 1]) == if h[i].Done? then BusyIn(h[..i]) - {h[i].rule}
                                  else if h[i].rule in DoneIn(h[..i]) then BusyIn(h[..i])
                                  else BusyIn(h[..i]) + {h[i].rule}
  {
    var a, b := h[..i], h[..i + 1];
    assert b == a + [h[i]];
    assert forall e :: e in b <==> e in a || e == h[i];
    if h[i].Done? {
      assert BusyIn(b) == BusyIn(a) - {h[i].rule};
    } else {
      assert forall r :: Done(r) in b <==> Done(r) in a;
      assert forall r :: Queued(r) in b <==> Queued(r) in a || r == h[i].rule;
      assert forall r :: r in BusyIn(b) <==> Queued(r) in b && Done(r) !in b;
      assert forall r :: r in BusyIn(a) <==> Queued(r) in a && Done(r) !in a;
      assert h[i].rule in DoneIn(a) <==> Done(h[i].rule) in a;
    }
  }

  /** An event that has not happened yet. */
  lemma FreshEvent(h: seq<Event>, i: nat)
    requires i < |h| && Distinct(h)
    ensures h[i].Done? ==> h[i].rule !in DoneIn(h[..i])
  {
  }

  /** The rules done before event `i` include the dependencies of its rule. */
  lemma ReadyAt(g: Graph, h: seq<Event>, i: nat)
    requires i < |h| && Ordered(g, h)
    ensures 0 <= h[i].rule < |g.deps| && g.Edges(h[i].rule) <= DoneIn(h[..i])
  {
    assert DepsDone(g, h[i].rule, h[..i]);
    forall d | d in g.Edges(h[i].rule)
      ensures d in DoneIn(h[..i])
    {
      assert Done(d) in h[..i];
    }
  }

  /** One event of a history. */
  method Advance(b: BuildDb, e: Event, done: set<int>, busy: set<int>, ghost all: set<int>)
      returns (reply: Reply, done': set<int>, busy': set<int>, ghost mid: World)
    requires RunInv(b.p, b.View(), done, busy) && 0 <= e.rule < |b.p.g.deps| && b.p.g.Edges(e.rule) <= done
    modifies b`fs, b`cache, b`tsdb, b`stMtim, b`ran
    ensures OnlyTargets(b.p, old(b.View()), mid, busy) && b.fs == mid.fs && b.db == mid.db
    ensures e.rule in done ==> reply == Disagreed
    ensures busy == {} ==> b.fs == old(b.fs)
    ensures |b.p.recipes| == |b.p.g.deps| && reply == Answer(b.p, e, done, busy, mid, b.View())
    ensures reply == Agreed ==> RunInv(b.p, b.View(), done', busy')
    ensures reply == Agreed ==> done' == if e.Done? then done + {e.rule} else done
    ensures reply == Agreed ==> busy' == if e.Done? then busy - {e.rule} else busy + {e.rule}
    ensures old(Quiet(b.p, b.View(), all)) && e.rule in all && busy == {} && e.rule !in done ==>
      && Quiet(b.p, b.View(), all) && b.fs == old(b.fs)
      && reply == if e.Done? then Agreed else Disagreed
  {
    hide RunInv, Quiet, UpToDate, OnlyTargets, Passed;
    var r := e.rule;
    done', busy' := done, busy;
    Meanwhile(b, done, busy);
    mid := b.View();
    SameSizes(b.p, mid, done, busy);
    if r in done {
      return Disagreed, done, busy, mid;
    }
    if r in busy {
      if e.Queued? {
        return Disagreed, done, busy, mid;
      }
      assert busy - {r} + {r} == busy;
      BusyRange(b.p, b.View(), done, busy, r);
      var ok := Finish(b, r, true, done, busy - {r}, all);
      done', busy' := done + {r}, busy - {r};
      reply := if ok then Agreed else GaveUp;
      return;
    }
    var run := Consult(b, r, done, busy, all);
    if run != e.Queued? {
      return Disagreed, done, busy, mid;
    }
    if e.Queued? {
      return Agreed, done, busy + {r}, mid;
    }
    var ok := Finish(b, r, false, done, busy, all);
    done', busy' := done + {r}, busy;
    assert busy - {r} == busy;
    reply := if ok then Agreed else GaveUp;
  }

  lemma NoEvents(w: World)
    ensures DoneIn([]) == {} && BusyIn([]) == {} && Before(w, [], 0) == w
  {
  }

  lemma LastBefore(w: World, afters: seq<World>, after: World)
    ensures Before(w, afters + [after], |afters| + 1) == after
  {
  }

  lemma SameSizes(p: Plan, w: World, done: set<int>, busy: set<int>)
    requires RunInv(p, w, done, busy)
    ensures |p.recipes| == |p.g.deps|
  {
  }

  /** Put the decisions, commands and bookkeeping of a build beside an order of events the scheduler may produce. */
  method Follow(b: BuildDb, h: seq<Event>, ghost all: set<int>)
      returns (reply: Reply, ghost mids: seq<World>, ghost afters: seq<World>)
    requires RunInv(b.p, b.View(), {}, {}) && Ordered(b.p.g, h)
    modifies b`fs, b`cache, b`tsdb, b`stMtim, b`ran
    ensures |b.p.recipes| == |b.p.g.deps| && Replayed(b.p, old(b.View()), h, mids, afters, reply)
    ensures b.View() == Before(old(b.View()), afters, |afters|) && (reply == Agreed ==> |afters| == |h|)
    ensures reply == Agreed ==> RunInv(b.p, b.View(), DoneIn(h), BusyIn(h))
    ensures old(Quiet(b.p, b.View(), all)) && (forall e | e in h :: e.rule in all) ==>
      b.fs == old(b.fs) && reply == if forall e | e in h :: e.Done? then Agreed else Disagreed
  {
    hide RunInv, Quiet, Plan.Valid, Graph.Edges, Graph.WellFormed, Answer, OnlyTargets, AllAgreed, Replayed, Before,
      DoneIn, BusyIn;
    var done: set<int>, busy: set<int> := {}, {};
    mids, afters := [], [];
    reply := Agreed;
    NoEvents(b.View());
    NoneAgreed(b.p, b.View(), h);
    SameSizes(b.p, b.View(), {}, {});
    ghost var calm := Quiet(b.p, b.View(), all) && forall e | e in h :: e.rule in all;
    var i := 0;
    while i < |h|
      invariant 0 <= i <= |h|
      invariant RunInv(b.p, b.View(), done, busy) && done == DoneIn(h[..i]) && busy == BusyIn(h[..i])
      invariant |mids| == |afters| == i && AllAgreed(b.p, old(b.View()), h, mids, afters)
      invariant b.View() == Before(old(b.View()), afters, i)
      invariant calm ==>
        Quiet(b.p, b.View(), all) && b.fs == old(b.fs) && busy == {} && forall j | 0 <= j < i :: h[j].Done?
    {
      var e := h[i];
      assert e in h;
      ReadyAt(b.p.g, h, i);
      EventsSoFar(h, i);
      FreshEvent(h, i);
      var done', busy';
      ghost var mid;
      reply, done', busy', mid := Advance(b, e, done, busy, all);
      if reply != Agreed {
        LastBefore(old(b.View()), afters, b.View());
        OneRefused(b.p, old(b.View()), h, mids, afters, mid, b.View(), reply);
        return reply, mids + [mid], afters + [b.View()];
      }
      LastBefore(old(b.View()), afters, b.View());
      OneAgreed(b.p, old(b.View()), h, mids, afters, mid, b.View());
      mids, afters := mids + [mid], afters + [b.View()];
      done, busy := done', busy';
      i := i + 1;
    }
    assert h[..i] == h;
    reply := Agreed;
    AllReplayed(b.p, old(b.View()), h, mids, afters);
  }

  /** What is merged into the command database before it is saved; everything else stays. */
  ghost predicate Saved(p: Plan, w: World, v: World) {
    v == w.(db := v.db) && Merged(p, w.ran, w.db, v.db)
  }

  /** A build begins with what the databases hold and an empty stat cache. */
  ghost function NewWorld(p: Plan, fs: map<nat, Stat>, db: map<nat, CmdEntry>, tsdb: map<nat, TsEntry>): World {
    World(fs, map[], db, tsdb, seq(|p.g.deps|, i => None), {})
  }

  /** What a finished build writes to the file makes every rule it finished quiet; losing entries without a command
      does no harm. */
  lemma SavedIsQuiet(p: Plan, w: World, db: map<nat, CmdEntry>, v: World, done: set<int>)
    requires RunInv(p, w, done, {}) && Merged(p, w.ran, w.db, db)
    requires v.fs == w.fs && v.db == Commanded(db) && v.tsdb == map n | n in w.tsdb :: Reloaded(w.tsdb[n])
    ensures Quiet(p, v, done)
  {
    forall n | n in w.fs && Recorded(w.tsdb, n, w.fs[n])
      ensures Matches(v.tsdb, n, v.fs[n])
    {
    }
    forall r | r in done
      ensures 0 <= r < |p.g.deps| && p.g.Edges(r) <= done && Fresh(p, r, v.fs)
      ensures p.recipes[r].cmds != [] ==> UpToDate(p, r, v.fs, v.db, v.tsdb)
    {
      assert Settled(p, w, r);
      assert forall i | 0 <= i < |p.g.deps[r]| && p.Strict(r, i) :: p.Live(r, i);
      if p.recipes[r].cmds != [] {
        forall t | t in p.recipes[r].tgts
          ensures SameCommand(v.db, t, p.recipes[r])
        {
          assert r !in w.ran ==> SameCommand(w.db, t, p.recipes[r]);
          assert SameCommand(db, t, p.recipes[r]);
        }
      }
    }
  }

  lemma SavedQuiet(p: Plan, w: World, merged: World, v: World, done: set<int>)
    requires RunInv(p, w, done, {}) && Saved(p, w, merged)
    requires v.fs == merged.fs && v.db == Commanded(merged.db)
    requires v.tsdb == map n | n in merged.tsdb :: Reloaded(merged.tsdb[n])
    ensures Quiet(p, v, done) && p.Valid() && SourcesExist(p, v.fs)
  {
    SavedIsQuiet(p, w, merged.db, v, done);
  }

  lemma StartsClean(p: Plan, w: World)
    requires p.Valid() && SourcesExist(p, w.fs) && w.cache == map[] && w.ran == {}
    requires w.stMtim == seq(|p.g.deps|, i => None)
    ensures RunInv(p, w, {}, {})
  {
  }

  lemma Finished(p: Plan, w: World, done: set<int>)
    requires RunInv(p, w, done, {})
    ensures p.Valid() && SourcesExist(p, w.fs) && w.ran <= Numbers(|p.recipes|)
  {
  }

  /** A whole build beside a history of the scheduler, up to the merge before its databases are saved. */
  method FirstBuild(p: Plan, fs: map<nat, Stat>, db: map<nat, CmdEntry>, tsdb: map<nat, TsEntry>, h: seq<Event>)
      returns (reply: Reply, a: BuildDb, ghost w: World, ghost mids: seq<World>, ghost afters: seq<World>)
    requires p.Valid() && SourcesExist(p, fs) && Ordered(p.g, h)
    requires forall e | e in h && e.Queued? :: Done(e.rule) in h
    ensures a.p == p && Replayed(p, NewWorld(p, fs, db, tsdb), h, mids, afters, reply)
    ensures reply == Agreed ==> |afters| == |h| && w == Before(NewWorld(p, fs, db, tsdb), afters, |h|)
    ensures reply == Agreed ==> Saved(p, w, a.View()) && RunInv(p, w, DoneIn(h), {})
  {
    hide RunInv, Quiet, SourcesExist, Ordered, Merged, Plan.Valid, Replayed, Before, AllAgreed;
    a := new BuildDb(p, fs, db, tsdb);
    StartsClean(p, a.View());
    assert a.View() == NewWorld(p, fs, db, tsdb);
    reply, mids, afters := Follow(a, h, {});
    w := a.View();
    if reply == Agreed {
      assert BusyIn(h) == {};
      Finished(p, w, DoneIn(h));
      a.Merge();
    }
  }

  /** Null build: after a build that ran to its end, whose databases were printed to the file and read back, a second
      build on the same files queues no command, whatever the order of events, and gives up on no target: it follows
      exactly the histories without a queued rule.  The one thing asked of the databases is what the file needs, that
      `names` has their strings and no number is negative; `a` is the first build with its databases merged. */
  method TwoBuilds(p: Plan, fs: map<nat, Stat>, db: map<nat, CmdEntry>, tsdb: map<nat, TsEntry>, h1: seq<Event>,
                   h2: seq<Event>, names: seq<seq<Byte>>, accept: array<bool>, reject: array<seq<Byte>>,
                   hash: nat -> nat, sz: nat)
      returns (first: Reply, a: BuildDb, dbl: seq<Node<CmdEntry>>, tsl: seq<Node<TsEntry>>, second: Reply,
        ghost mids: seq<World>, ghost afters: seq<World>)
    requires p.Valid() && SourcesExist(p, fs) && Ordered(p.g, h1) && Ordered(p.g, h2)
    requires forall e | e in h1 && e.Queued? :: Done(e.rule) in h1
    requires forall e | e in h2 :: Done(e.rule) in h1
    requires Tables(accept[..], reject[..]) && sz > 0 && Strings(names)
    ensures Replayed(p, NewWorld(p, fs, db, tsdb), h1, mids, afters, first)
    ensures first == Agreed ==> AsMap(dbl) == a.db && AsMap(tsl) == a.tsdb
    ensures first == Agreed ==>
      |afters| == |h1| && Saved(p, Before(NewWorld(p, fs, db, tsdb), afters, |h1|), a.View())
    ensures first == Agreed && CommandsOk(names, dbl) && StampsStorable(names, tsl) ==>
      (second == if forall e | e in h2 :: e.Done? then Agreed else Disagreed)
  {
    hide RunInv, Quiet, SourcesExist, Ordered, Merged, Plan.Valid, Tables, Strings, AsMap, DistinctKeys, CommandsOk,
      StampsStorable, Replayed, Saved, Before, AllAgreed;
    ghost var w;
    first, a, w, mids, afters := FirstBuild(p, fs, db, tsdb, h1);
    second, dbl, tsl := first, [], [];
    if first == Agreed {
      dbl := Listing(a.db);
      tsl := Listing(a.tsdb);
      if CommandsOk(names, dbl) && StampsStorable(names, tsl) {
        var db2, tsdb2 := ReadBack(accept, reject, hash, sz, names, dbl, tsl);
        var b := new BuildDb(p, a.fs, db2, tsdb2);
        ghost var done := DoneIn(h1);
        SavedQuiet(p, w, a.View(), b.View(), done);
        StartsClean(p, b.View());
        assert forall e | e in h2 :: e.rule in done;
        ghost var mids2, afters2;
        second, mids2, afters2 := Follow(b, h2, done);
      }
    }
  }

  /** The file is written and read, and its tables used as maps. */
  method ReadBack(accept: array<bool>, reject: array<seq<Byte>>, hash: nat -> nat, sz: nat, names: seq<seq<Byte>>,
                  dbl: seq<Node<CmdEntry>>, tsl: seq<Node<TsEntry>>) returns (db: map<nat, CmdEntry>, tsdb: map<nat,
                    TsEntry>)
    requires Tables(accept[..], reject[..]) && sz > 0 && Strings(names)
    requires DistinctKeys(dbl) && DistinctKeys(tsl) && CommandsOk(names, dbl) && StampsStorable(names, tsl)
    ensures db == Commanded(AsMap(dbl)) && tsdb == map n | n in AsMap(tsl) :: Reloaded(AsMap(tsl)[n])
  {
    var dbTable, tsTable := SaveAndLoad(accept, reject, hash, sz, names, dbl, tsl);
    db, tsdb := AsMap(dbTable.ll), AsMap(tsTable.ll);
  }
}
