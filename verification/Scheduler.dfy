/** consider, reconsider, do_exec and mark_executed: the mutually recursive heart of the build. */
module Scheduler {
  import opened BuildGraph
  import opened SchedulerProgress
  import opened SchedulerState
  import opened Sequences
  import Steps = SchedulerSteps

  class Scheduler {
    const g: Graph
    /** Whether do_exec finds that the commands of a rule have to be run. */
    const needs: seq<bool>
    /** The dependency names for which access() succeeds. */
    const present: set<nat>

    // Per-rule flags, each as the set of rules that have it on.
    var executing: set<int>
    var queued: set<int>
    var executed: set<int>
    var under: set<int>
    var ran: set<int>

    // Per-rule bookkeeping of what is still waited for, and where the dependency loop stopped.
    var remain: seq<map<int, nat>>
    var remainCnt: seq<int>
    var waitCnt: seq<int>
    var waitloc: seq<int>

    var queue: seq<int>
    var roots: seq<int>
    /** What happened so far, in order. */
    var history: seq<Event>
    /** Set when errxit ends the process because a dependency neither exists nor has a rule. */
    var exited: bool

    /** How far each dependency loop has come. */
    ghost var passed: seq<int>
    /** The rules whose commands are being run. */
    ghost var running: set<int>
    /** The rules that were asked for. */
    ghost var asked: set<int>
    /** Pairs (d, r): rule d is executed, but its dependent r has not been told yet. */
    ghost var owed: set<(int, int)>

    /** Rules among which completion is claimed, and a certificate that they form no cycle. */
    ghost const scope: set<int>
    ghost const rank: map<int, nat>

    ghost function View(): State
      reads this
    {
      State(executing, queued, executed, under, ran, remain, remainCnt, waitCnt, waitloc, passed,
            queue, running, roots, asked, owed, history)
    }

    ghost function Cfg(): Config {
      Config(g, needs, scope, rank)
    }

    ghost predicate Valid(flight: set<int>)
      reads this
    {
      Steps.Good(Cfg(), View(), flight) && !exited && Checked(passed)
    }

    /** Every dependency that a loop has passed has a rule or a file, or need not have one. */
    ghost predicate Checked(passed: seq<int>) {
      forall r, i | 0 <= r < |g.deps| && 0 <= i < |g.deps[r]| && r < |passed| && i < passed[r] :: !Absent(r, i)
    }

    /** Dependency `i` of rule `r` has no rule and no file. */
    predicate Absent(r: int, i: int)
      requires 0 <= r < |g.deps| && 0 <= i < |g.deps[r]|
    {
      g.deps[r][i].rule < 0 && !g.deps[r][i].isDupe && !g.deps[r][i].isInc && g.deps[r][i].name !in present
    }

    ghost predicate Missing() {
      exists r, i | 0 <= r < |g.deps| && 0 <= i < |g.deps[r]| && (Cfg().Ranked() ==> r in scope) :: Absent(r, i)
    }

    lemma MissingAt(r: int, i: int)
      requires 0 <= r < |g.deps| && 0 <= i < |g.deps[r]| && (Cfg().Ranked() ==> r in scope) && Absent(r, i)
      ensures Missing()
    {
    }

    /** Whatever an executed rule depends on has a rule or a file, or need not have one. */
    lemma NothingAbsent(r: int, i: int)
      requires Valid({}) && r in executed && 0 <= r < |g.deps| && 0 <= i < |g.deps[r]|
      ensures !Absent(r, i)
    {
      Steps.Sizes(Cfg(), View(), {});
      Steps.OfRule(Cfg(), View(), {}, r);
    }

    /** How many flags are still off; every recursive round of calls lowers it. */
    ghost function Budget(): nat
      reads this
    {
      Left(|g.deps|, executing, queued, executed)
    }

    /** Nothing has been considered yet; calc_deps_remain has filled the remaining sets. */
    constructor (g: Graph, needs: seq<bool>, present: set<nat>, ghost scope: set<int>, ghost rank: map<int, nat>)
      requires g.WellFormed() && |needs| == |g.deps|
      ensures Valid({}) && this.g == g && this.needs == needs && this.present == present
      ensures this.scope == scope && this.rank == rank
      ensures executing == {} && under == {} && owed == {} && running == {} && queue == [] && roots == []
      ensures history == [] && asked == {}
    {
      this.g, this.needs, this.present := g, needs, present;
      this.scope, this.rank := scope, rank;
      executing, queued, executed, under, ran := {}, {}, {}, {}, {};
      remain, remainCnt := seq(|g.deps|, i => map[]), seq(|g.deps|, i => 0);
      waitCnt, waitloc, passed := seq(|g.deps|, i => 0), seq(|g.deps|, i => -1), seq(|g.deps|, i => 0);
      queue, roots, running, asked, owed, history, exited := [], [], {}, {}, {}, [], false;
      new;
      var r := 0;
      while r < |g.deps|
        invariant 0 <= r <= |g.deps| == |remain| == |remainCnt|
        invariant forall x | 0 <= x < r ::
          remain[x].Keys == g.Edges(x) && (forall d | d in remain[x] :: remain[x][d] == 0) &&
            remainCnt[x] == |remain[x]|
        invariant forall x | r <= x < |g.deps| :: remain[x] == map[] && remainCnt[x] == 0
        modifies this`remain, this`remainCnt
      {
        CalcDepsRemain(r);
        r := r + 1;
      }
      Steps.Initial(Cfg(), View());
    }

    /** calc_deps_remain: every dependency rule of `r` is waited for. */
    method CalcDepsRemain(r: int)
      requires g.WellFormed() && 0 <= r < |g.deps| == |remain| == |remainCnt| && remain[r] == map[] && remainCnt[r] == 0
      modifies this`remain, this`remainCnt
      ensures |remain| == |remainCnt| == |g.deps|
      ensures forall x | 0 <= x < |g.deps| && x != r :: remain[x] == old(remain[x]) && remainCnt[x] == old(remainCnt[x])
      ensures remain[r].Keys == g.Edges(r)
      ensures (forall d | d in remain[r] :: remain[r][d] == 0) && remainCnt[r] == |remain[r]|
    {
      var i := 0;
      while i < |g.deps[r]|
        invariant 0 <= i <= |g.deps[r]| && |remain| == |remainCnt| == |g.deps|
        invariant forall x | 0 <= x < |g.deps| && x != r ::
          remain[x] == old(remain[x]) && remainCnt[x] == old(remainCnt[x])
        invariant forall d | d in remain[r] :: d in g.Edges(r) && remain[r][d] == 0
        invariant forall j | 0 <= j < i && g.deps[r][j].rule >= 0 :: g.deps[r][j].rule in remain[r]
        invariant remainCnt[r] == |remain[r]|
      {
        if g.deps[r][i].rule >= 0 {
          Insert(r, g.deps[r][i].rule);
        }
        i := i + 1;
      }
      assert forall d | d in g.Edges(r) :: d in remain[r].Keys;
      assert forall d | d in remain[r].Keys :: d in g.Edges(r);
    }

    /** deps_remain_insert. */
    method Insert(r: int, d: int)
      requires 0 <= r < |remain| == |remainCnt| && remainCnt[r] == |remain[r]|
      modifies this`remain, this`remainCnt
      ensures remain == old(remain)[r := if d in old(remain)[r] then old(remain)[r] else old(remain)[r][d := 0]]
      ensures remainCnt == old(remainCnt)[r := |remain[r]|]
    {
      if d !in remain[r] {
        remain := remain[r := remain[r][d := 0]];
        remainCnt := remainCnt[r := remainCnt[r] + 1];
      }
    }

    /** ruleremain_add: asks for rule `r` to be built. */
    method AddRoot(r: int)
      requires Valid({}) && 0 <= r < |g.deps| && r !in executed
      modifies this`roots, this`asked
      ensures Valid({}) && roots == if r in old(roots) then old(roots) else old(roots) + [r]
      ensures asked == old(asked) + {r}
    {
      if r in roots {
        Steps.Sizes(Cfg(), View(), {});
        return;
      }
      ghost var s := View();
      roots := roots + [r];
      asked := asked + {r};
      Steps.NewRoot(Cfg(), s, View(), r);
    }

    /** deps_remain_erase. */
    method Erase(p: int, d: int)
      requires 0 <= p < |remain| == |remainCnt| == |waitCnt|
      requires remainCnt[p] == |remain[p]| && waitCnt[p] == SumWait(remain[p], |g.deps|)
      requires forall k | k in remain[p] :: 0 <= k < |g.deps|
      modifies this`remain, this`remainCnt, this`waitCnt
      ensures remain == old(remain)[p := old(remain)[p] - {d}]
      ensures remainCnt == old(remainCnt)[p := |old(remain)[p] - {d}|]
      ensures waitCnt == old(waitCnt)[p := SumWait(old(remain)[p] - {d}, |g.deps|)]
    {
      if d in remain[p] {
        SumWaitErase(remain[p], d, |g.deps|);
        var w := remain[p][d];
        assert (remain[p] - {d}).Keys == remain[p].Keys - {d};
        remain := remain[p := remain[p] - {d}];
        remainCnt := remainCnt[p := remainCnt[p] - 1];
        if waitCnt[p] < w {
          assert false;
        }
        waitCnt := waitCnt[p := waitCnt[p] - w];
      } else {
        assert remain[p] - {d} == remain[p];
      }
    }

    /** Counts a wait of rule `r` on dependency rule `d` (deps_remain_forwait). */
    method ForWait(r: int, d: int)
      requires Valid({}) && r in executing && 0 <= r < |remain| == |waitCnt| && d in remain[r] && d in executing
      modifies this`remain, this`waitCnt
      ensures Valid({}) && Evolves(g, old(View()), View(), under - {r})
      ensures remain == old(remain)[r := old(remain)[r][d := old(remain)[r][d] + 1]]
      ensures waitCnt == old(waitCnt)[r := old(waitCnt)[r] + 1]
    {
      hide Steps.Good, Evolves;
      ghost var s0 := View();
      if d !in remain[r] {
        assert false;
      }
      remain := remain[r := remain[r][d := remain[r][d] + 1]];
      waitCnt := waitCnt[r := waitCnt[r] + 1];
      Steps.Wait(Cfg(), s0, View(), r, d);
    }

    /** Notes that the dependency loop of rule `r` has moved past dependency `i`. */
    ghost method MovePast(r: int, i: int)
      requires Valid({}) && r in under && 0 <= r < |g.deps| == |passed| == |remain| && 0 <= i < |g.deps[r]|
      requires i <= passed[r]
      requires g.IsEdge(r, i) && g.deps[r][i].rule !in executed ==>
                 g.deps[r][i].rule in remain[r] && remain[r][g.deps[r][i].rule] >= 1
      requires !g.deps[r][i].isDupe && g.deps[r][i].isWait ==>
                 forall j | 0 <= j < i && g.IsEdge(r, j) :: g.deps[r][j].rule in executed
      requires !Absent(r, i)
      modifies this`passed
      ensures Valid({}) && Evolves(g, old(View()), View(), under - {r})
      ensures passed == old(passed)[r := if i < old(passed[r]) then old(passed[r]) else i + 1]
    {
      hide Steps.Good, Evolves;
      ghost var s0 := View();
      passed := passed[r := if i < passed[r] then passed[r] else i + 1];
      Steps.Pass(Cfg(), s0, View(), r, i);
    }

    /** Sets the wait pointer of rule `r`. */
    method PointAt(r: int, i: int)
      requires Valid({}) && r in executing && 0 <= r < |g.deps| == |passed| == |waitloc| && 0 <= i < |g.deps[r]|
      requires i <= passed[r]
      modifies this`waitloc
      ensures Valid({}) && Evolves(g, old(View()), View(), under - {r})
      ensures waitloc == old(waitloc)[r := i]
    {
      hide Steps.Good, Evolves;
      ghost var s0 := View();
      waitloc := waitloc[r := i];
      Steps.Point(Cfg(), s0, View(), r, i);
    }

    /** Clears the under-consideration flag of rule `r`, `s0` being the state in which it was set. */
    method Release(r: int, ghost s0: State)
      requires Valid({}) && r in under && 0 <= r < |g.deps| == |waitloc| == |remain| && r !in s0.under
      requires under == s0.under + {r} && Evolves(g, s0, View(), s0.under)
      requires Parked(g, View(), r) && (g.Edges(r) != {} ==> waitloc[r] >= 0)
      requires Attended(Cfg(), View(), r)
      modifies this`under
      ensures Valid({}) && Evolves(g, s0, View(), s0.under) && under == s0.under
    {
      hide Steps.Good, Evolves, Attended, Parked;
      ghost var s1 := View();
      under := under - {r};
      Steps.Release(Cfg(), s1, View(), r);
      EvolvesBasics(g, s0, s1, s0.under);
      EvolvesTrans(g, s0, s1, View(), s0.under);
    }

    /** Rule `r` is among those with a certificate; when no command is needed, rules under consideration are its
        dependants. */
    ghost predicate InOrder(r: int, under: set<int>) {
      && (Cfg().Ranked() ==> r in scope)
      && (Cfg().Idle() ==> r in rank && forall u | u in under && u != r :: u in rank && rank[r] < rank[u])
    }

    /** Starts the rule of dependency `i` and, unless it is already executed, waits for it. */
    method Visit(r: int, i: int) returns (ret: bool, waits: bool)
      requires Valid({}) && r in under && r !in executed && 0 <= r < |g.deps| && 0 <= i < |g.deps[r]|
      requires !g.deps[r][i].isDupe
      requires |passed| == |waitloc| == |waitCnt| == |remain| == |g.deps| && i <= passed[r]
      requires Cleared(g, View(), r, i)
      requires InOrder(r, under)
      modifies this
      decreases Budget(), 2
      ensures exited ==> Missing()
      ensures !exited ==>
        Valid({}) && under == old(under) && owed == old(owed) && Evolves(g, old(View()), View(), old(under) - {r})
      ensures !exited ==> |passed| == |waitloc| == |waitCnt| == |remain| == |g.deps|
      ensures !exited ==> waitloc[r] == old(waitloc[r]) && passed[r] == old(passed[r])
      ensures !exited ==> (waits <==> g.IsEdge(r, i) && g.deps[r][i].rule !in executed)
      ensures !exited && waits ==> g.deps[r][i].rule in remain[r] && remain[r][g.deps[r][i].rule] >= 1
      ensures !exited ==> !Absent(r, i)
      ensures !exited && g.IsEdge(r, i) ==> g.deps[r][i].rule in executing
      ensures !exited && !waits && old(waitCnt[r]) == 0 ==> waitCnt[r] == 0
      ensures !exited ==> (r in queued <==> r in old(queued)) && r !in executed
      ensures !exited && ret ==> executed != old(executed)
      ensures !exited && executed != old(executed) ==> ret || queue != old(queue)
      ensures !exited && Cfg().Idle() ==> !waits
    {
      hide Steps.Good, Evolves, Left, SumWait, Without, Config.Ranked, Config.Guarded, Config.Tamed, Config.Idle,
        Config.Needs, Missing, Shape, Cleared, Attended, Parked, Licensed, InOrder, Checked, Graph.Edges,
        Graph.WellFormed,
        Numbers;
      ghost var s0 := View();
      Steps.Sizes(Cfg(), s0, {});
      ret, waits := false, false;
      var e := g.deps[r][i];
      if e.rule >= 0 {
        Steps.OfEdge(Cfg(), s0, r, i);
        Steps.Grant(Cfg(), s0, r, i);
        InOrderBelow(r, e.rule);
        ret := Consider(e.rule);
        if exited {
          return;
        }
        ghost var s1 := View();
        Steps.Sizes(Cfg(), s1, {});
        EvolvesFrozen(g, s0, s1, s0.under, r);
        EvolvesShrink(g, s0, s1, s0.under, s0.under - {r});
        if e.rule !in executed {
          waits := true;
          Steps.OfEdge(Cfg(), s1, r, i);
          Steps.OfRule(Cfg(), s1, {}, e.rule);
          ForWait(r, e.rule);
          EvolvesTrans(g, s0, s1, View(), s0.under - {r});
        }
      } else {
        Steps.Stay(Cfg(), s0, s0.under - {r});
        if !e.isInc && e.name !in present {
          exited := true;
          MissingAt(r, i);
        }
      }
    }

    lemma InOrderBelow(r: int, d: int)
      requires InOrder(r, under) && 0 <= r < |g.deps| && d in g.Edges(r) && (Cfg().Ranked() ==> under <= scope)
      ensures InOrder(d, under) && (Cfg().Idle() ==> d !in under)
    {
    }

    lemma InOrderSelf(r: int)
      requires InOrder(r, under)
      ensures (Cfg().Ranked() ==> r in scope) && InOrder(r, under + {r})
    {
    }

    lemma InOrderAnyhow(r: int)
      requires (Cfg().Ranked() ==> r in scope) && !Cfg().Idle()
      ensures InOrder(r, under)
    {
    }

    /** One round of a dependency loop: stops at a wait marker while something is waited for. */
    method Try(r: int, i: int) returns (stop: bool, ret: bool, waits: bool)
      requires Valid({}) && r in under && r !in executed && 0 <= r < |g.deps| && 0 <= i < |g.deps[r]|
      requires |passed| == |waitloc| == |waitCnt| == |remain| == |g.deps| && i <= passed[r]
      requires InOrder(r, under)
      modifies this
      decreases Budget(), 3
      ensures exited ==> Missing()
      ensures !exited ==>
        Valid({}) && under == old(under) && owed == old(owed) && Evolves(g, old(View()), View(), old(under) - {r})
      ensures !exited ==> |passed| == |waitloc| == |waitCnt| == |remain| == |g.deps| && waitloc[r] == i
      ensures stop <==> old(waitCnt[r]) > 0 && g.deps[r][i].isWait
      ensures stop ==> !exited && passed[r] == old(passed[r]) && waitCnt[r] > 0 && executed == old(executed)
      ensures !exited && !stop ==> passed[r] == if i < old(passed[r]) then old(passed[r]) else i + 1
      ensures !exited && !stop ==> (waits <==> g.IsEdge(r, i) && g.deps[r][i].rule !in executed)
      ensures !exited && !stop && g.IsEdge(r, i) ==> g.deps[r][i].rule in executing
      ensures !exited && !waits && old(waitCnt[r]) == 0 ==> waitCnt[r] == 0
      ensures !exited ==> (r in queued <==> r in old(queued)) && r !in executed
      ensures !exited && ret ==> executed != old(executed)
      ensures !exited && executed != old(executed) ==> ret || queue != old(queue)
      ensures !exited && Cfg().Idle() ==> !waits
    {
      hide Steps.Good, Evolves, Left, SumWait, Without, Config.Ranked, Config.Guarded, Config.Tamed, Config.Idle,
        Config.Needs, Missing, Shape, Cleared, Attended, Parked, Licensed, InOrder, Checked, Graph.Edges,
        Graph.WellFormed,
        Numbers;
      stop, ret, waits := false, false, false;
      ghost var s0 := View();
      Steps.Sizes(Cfg(), s0, {});
      var e := g.deps[r][i];
      PointAt(r, i);
      ghost var s1 := View();
      if waitCnt[r] > 0 && e.isWait {
        stop := true;
        return;
      }
      Steps.OfRule(Cfg(), s1, {}, r);
      if e.isWait {
        Steps.AllPassedDone(Cfg(), s1, r);
      }
      if !e.isDupe {
        Steps.MayVisit(Cfg(), s1, r, i);
        ret, waits := Visit(r, i);
        if exited {
          return;
        }
        EvolvesTrans(g, s0, s1, View(), s0.under - {r});
        EvolvesBasics(g, s1, View(), s0.under - {r});
        s1 := View();
      }
      MovePast(r, i);
      EvolvesTrans(g, s0, s1, View(), s0.under - {r});
    }

    /** Pops the run stack; the commands of the popped rule start running. */
    method Take() returns (r: int)
      requires Valid({}) && queue != []
      modifies this`queue, this`running
      ensures Valid({}) && queue == old(queue)[..|old(queue)| - 1] && r == old(queue)[|old(queue)| - 1]
      ensures running == old(running) + {r} && r !in old(running) && r !in queue
      ensures 0 <= r < |g.deps| == |needs| && needs[r] && r in queued && r !in executed
    {
      hide Steps.Good;
      ghost var s := View();
      r := queue[|queue| - 1];
      queue := queue[..|queue| - 1];
      running := running + {r};
      Steps.Take(Cfg(), s, View());
    }

    /** The last command of rule `r` has finished. */
    method Complete(r: int)
      requires Valid({}) && r in running
      modifies this
      decreases Budget(), 8
      ensures exited ==> Missing()
      ensures !exited ==> Valid({}) && under == old(under) && owed == old(owed) && running == old(running) - {r}
      ensures !exited ==> Budget() < old(Budget()) && r in executed && roots == Without(old(roots), executed)
      ensures !exited ==> old(executing) <= executing && old(queued) <= queued && old(executed) <= executed
      ensures !exited ==> old(queue) <= queue && old(history) + [Done(r)] <= history
      ensures !exited ==> forall x | x in queue :: x in old(queue) || x !in old(queued)
      ensures !exited ==> ran == old(ran) + {r} && asked == old(asked)
      ensures !exited ==> forall x | x in executed && x !in old(executed) && x != r ::
        0 <= x < |needs| && !needs[x] && x !in old(queued)
      ensures !exited ==>
        forall p | g.index[r] == [p] && p !in old(queued) && Rest(old(View()), p, r) != {} :: p !in queued
    {
      hide Steps.Good, Evolves, Left, Without;
      ghost var s0 := View();
      Steps.Sizes(Cfg(), s0, {});
      running := running - {r};
      ghost var s1 := View();
      Steps.Land(Cfg(), s0, s1, r);
      MarkExecuted(r, true);
      if !exited {
        ghost var s2 := s1.(ran := s1.ran + {r});
        EvolvesBasics(g, s2, View(), s1.under - {r});
        Steps.Sizes(Cfg(), s1, {r});
        Steps.Sizes(Cfg(), View(), {});
        Steps.ExecutedUnrun(Cfg(), s1, View(), {r});
        Steps.QueueFresh(Cfg(), s1, View(), {r});
        LeftEvolves(g, s2, View(), s1.under - {r});
      }
    }

    method Consider(r: int) returns (ret: bool)
      requires Valid({}) && 0 <= r < |g.deps|
      requires r !in executing ==> Licensed(g, View(), r) && InOrder(r, under)
      modifies this
      decreases Budget(), 1
      ensures exited ==> Missing()
      ensures !exited ==>
        Valid({}) && under == old(under) && owed == old(owed) && Evolves(g, old(View()), View(), old(under))
      ensures !exited ==> r in executing
      ensures r in old(executing) ==> !ret && !exited && View() == old(View())
      ensures !exited && ret ==> executed != old(executed)
      ensures !exited && executed != old(executed) ==> ret || queue != old(queue)
      ensures !exited && !ret ==> (r in executed <==> r in old(executed))
    {
      hide Steps.Good, Evolves, Left, SumWait, Without, Config.Ranked, Config.Guarded, Missing, Shape, Cleared,
        Attended, Parked, Licensed, InOrder, Checked, Graph.Edges, Graph.WellFormed, Numbers;
      ret := false;
      ghost var s0 := View();
      Steps.Sizes(Cfg(), s0, {});
      Steps.OfRule(Cfg(), s0, {}, r);
      Steps.Stay(Cfg(), s0, under);
      if r in executed {
        return;
      }
      if r in executing {
        return;
      }
      InOrderSelf(r);
      executing := executing + {r};
      under := under + {r};
      Steps.Start(Cfg(), s0, View(), r);
      var toexecute, execedSome, blocker := StartDeps(r, s0);
      if exited {
        return;
      }
      Steps.ParkedAt(Cfg(), View(), r);
      if !toexecute && r !in queued {
        Steps.LoopDone(Cfg(), View(), r);
        ghost var s1 := View();
        ret := DoExec(r);
        if exited {
          return;
        }
        ExtendEvolution(s0, s1, r);
        Steps.Sizes(Cfg(), View(), {});
        Steps.OfRule(Cfg(), View(), {}, r);
        Steps.AtEnd(Cfg(), View(), r);
        Steps.Decided(Cfg(), View(), r);
      } else {
        Steps.LoopLeft(Cfg(), View(), r, blocker);
        ret := execedSome;
      }
      Release(r, s0);
    }

    /** The dependency loop of consider; `s0` is the state in which `r` was taken up. */
    method StartDeps(r: int, ghost s0: State) returns (toexecute: bool, execedSome: bool, ghost blocker: int)
      requires Valid({}) && Evolves(g, s0, View(), s0.under) && under == s0.under + {r} && owed == s0.owed
      requires r !in s0.under
      requires 0 <= r < |g.deps| && |passed| == |waitloc| == |waitCnt| == |remain| == |g.deps|
      requires r in executing && r !in executed && r !in queued && executed == s0.executed
      requires passed[r] == 0 && waitCnt[r] == 0
      requires InOrder(r, under) && r !in s0.executing
      modifies this
      decreases Budget(), 4
      ensures exited ==> Missing()
      ensures !exited ==> Valid({}) && under == old(under) && owed == old(owed) && Evolves(g, s0, View(), s0.under)
      ensures !exited ==> Budget() <= old(Budget()) && r in executing && r !in executed && r !in queued
      ensures !exited ==> |passed| == |waitloc| == |waitCnt| == |remain| == |g.deps|
      ensures !exited ==>
        (waitCnt[r] > 0 && 0 <= passed[r] < |g.deps[r]| && g.deps[r][passed[r]].isWait) || passed[r] == |g.deps[r]|
      ensures !exited && toexecute ==> waitloc[r] >= 0 && g.Edges(r) != {} && !Cfg().Idle()
      ensures !exited && toexecute && Cfg().Tamed() ==> blocker in remain[r]
      ensures !exited && !toexecute ==> passed[r] == |g.deps[r]|
      ensures !exited && !toexecute ==>
        forall j | 0 <= j < |g.deps[r]| && g.IsEdge(r, j) :: g.deps[r][j].rule in executed
      ensures !exited && !toexecute ==> forall j | 0 <= j < |g.deps[r]| && !g.deps[r][j].isDupe :: waitloc[r] >= 0
      ensures !exited && execedSome ==> executed != s0.executed
      ensures !exited && executed != s0.executed ==> execedSome || queue != s0.queue
    {
      hide Steps.Good, Evolves, Left, SumWait, Without, Config.Ranked, Config.Guarded, Config.Tamed, Config.Idle,
        Config.Needs, Missing, Shape, Cleared, Attended, Parked, Licensed, InOrder, Checked, Graph.Edges,
        Graph.WellFormed,
        Numbers;
      toexecute, execedSome := false, false;
      blocker := r;
      var i := 0;
      while i < |g.deps[r]|
        invariant 0 <= i <= |g.deps[r]|
        invariant Valid({}) && Evolves(g, s0, View(), s0.under) && Budget() <= old(Budget())
        invariant under == s0.under + {r} && owed == s0.owed
        invariant r in executing && r !in executed && r !in queued
        invariant |passed| == |waitloc| == |waitCnt| == |remain| == |g.deps|
        invariant passed[r] == i
        invariant forall j | 0 <= j < i && !g.deps[r][j].isDupe :: waitloc[r] >= 0
        invariant waitCnt[r] != 0 ==> toexecute
        invariant !toexecute ==> forall j | 0 <= j < i && g.IsEdge(r, j) :: g.deps[r][j].rule in executed
        invariant execedSome ==> executed != s0.executed
        invariant executed != s0.executed ==> execedSome || queue != s0.queue
        invariant toexecute ==> g.Edges(r) != {} && waitloc[r] >= 0 && !Cfg().Idle()
        invariant Cfg().Tamed() && toexecute ==> blocker in remain[r] && (blocker in executing || Cfg().Needs(blocker))
      {
        ghost var s1 := View();
        if !g.deps[r][i].isDupe {
          var stop, b, waits := Try(r, i);
          if exited {
            return;
          }
          ExtendEvolution(s0, s1, r);
          if Cfg().Tamed() && toexecute {
            Steps.WaitsOn(Cfg(), s1, View(), r, blocker);
          }
          if stop {
            break;
          }
          if b {
            execedSome := true;
          }
          if waits {
            if !toexecute {
              blocker := g.deps[r][i].rule;
            }
            toexecute := true;
            Steps.OfWaited(Cfg(), View(), r, i);
          }
        } else {
          Steps.Sizes(Cfg(), s1, {});
          MovePast(r, i);
          ExtendEvolution(s0, s1, r);
        }
        i := i + 1;
      }
    }

    /** Adds a step that may have touched rule `r` to an evolution that started before `r` was taken up. */
    lemma ExtendEvolution(s0: State, s1: State, r: int)
      requires r !in s0.under && s1.under == s0.under + {r}
      requires Evolves(g, s0, s1, s0.under) && Evolves(g, s1, View(), s1.under - {r})
      requires r in s0.executing && r !in s0.queued && r in queued ==> 0 <= r < |remain| && remain[r] == map[]
      ensures Evolves(g, s0, View(), s0.under)
      ensures Budget() <= Left(|g.deps|, s1.executing, s1.queued, s1.executed)
      ensures s1.executing <= executing && s1.queued <= queued && s1.executed <= executed
      ensures s0.executed <= s1.executed && s0.queue <= s1.queue <= queue
      ensures |passed| == |s1.passed| && forall x | 0 <= x < |passed| :: s1.passed[x] <= passed[x]
      ensures |remain| == |s1.remain| && forall x | 0 <= x < |remain| :: remain[x].Keys <= s1.remain[x].Keys
      ensures |waitloc| == |s1.waitloc| && forall x | 0 <= x < |waitloc| && s1.waitloc[x] >= 0 :: waitloc[x] >= 0
    {
      EvolvesShrink(g, s1, View(), s1.under - {r}, s0.under);
      EvolvesTrans(g, s0, s1, View(), s0.under);
      EvolvesBasics(g, s0, s1, s0.under);
      EvolvesBasics(g, s1, View(), s0.under);
      LeftEvolves(g, s1, View(), s0.under);
    }

    method DoExec(r: int) returns (ret: bool)
      requires Valid({}) && r in under && 0 <= r < |g.deps| && g.Edges(r) <= executed
      requires |passed| == |g.deps| && passed[r] == |g.deps[r]|
      modifies this
      decreases Budget(), 0
      ensures exited ==> Missing()
      ensures !exited ==>
        Valid({}) && under == old(under) && owed == old(owed) && Evolves(g, old(View()), View(), old(under) - {r})
      ensures !exited ==> r in queued && |needs| == |g.deps| && (ret <==> r !in old(queued) && !needs[r])
      ensures !exited && ret ==> r in executed && r !in old(executed)
      ensures !exited && !ret ==> executed == old(executed)
      ensures !exited && r !in old(queued) && needs[r] ==> queue == old(queue) + [r]
    {
      hide Steps.Good, Evolves, Left, SumWait, Without, Config.Ranked, Config.Guarded, Config.Tamed, Config.Idle,
        Config.Needs, Missing, Shape, Cleared, Attended, Parked, Licensed, InOrder, Checked, Graph.Edges,
        Graph.WellFormed,
        Numbers;
      ret := false;
      ghost var s0 := View();
      Steps.Sizes(Cfg(), s0, {});
      Steps.Stay(Cfg(), s0, under - {r});
      if r !in queued {
        if needs[r] {
          queue := queue + [r];
          queued := queued + {r};
          history := history + [Queued(r)];
          Steps.Enqueue(Cfg(), s0, View(), r);
        } else {
          queued := queued + {r};
          ghost var s1 := View();
          Steps.Skip(Cfg(), s0, s1, r);
          MarkExecuted(r, false);
          if exited {
            return;
          }
          EvolvesTrans(g, s0, s1, View(), s0.under - {r});
          EvolvesBasics(g, s1, View(), s0.under - {r});
          ret := true;
        }
      }
    }

    method MarkExecuted(r: int, actually: bool)
      requires Valid({r}) && 0 <= r < |needs| && actually == needs[r]
      modifies this
      decreases Budget(), 7
      ensures exited ==> Missing()
      ensures !exited ==>
        Valid({}) && under == old(under) && owed == old(owed) &&
          Evolves(g, old(View()).(ran := if actually then old(ran) + {r} else old(ran)), View(), old(under) - {r})
      ensures !exited ==> r in executed && old(history) + [Done(r)] <= history
      ensures !exited && r < |g.index| ==>
        forall p | g.index[r] == [p] && p !in old(queued) && Rest(old(View()), p, r) != {} :: p !in queued
    {
      hide Steps.Good, Evolves, Left, SumWait, Without, Config.Ranked, Config.Guarded, Config.Tamed, Config.Idle,
        Config.Needs, Missing, Shape, Cleared, Attended, Parked, Licensed, InOrder, Checked, Graph.Edges,
        Graph.WellFormed,
        Numbers;
      ghost var s0 := View();
      Steps.Sizes(Cfg(), s0, {r});
      if r in executed {
        assert false;
      }
      if r !in executing {
        assert false;
      }
      SetExecuted(r, actually);
      ghost var s1 := View();
      Notify(r);
      if exited {
        return;
      }
      EvolvesTrans(g, s0.(ran := s1.ran), s1, View(), s0.under - {r});
      EvolvesBasics(g, s1, View(), s0.under - {r});
    }

    /** The bookkeeping of mark_executed. */
    method SetExecuted(r: int, actually: bool)
      requires Valid({r}) && 0 <= r < |needs| && actually == needs[r] && r < |g.index|
      modifies this`roots, this`executed, this`ran, this`owed, this`history
      ensures Valid({}) && View() == Marked(g, old(View()), r, ran)
      ensures ran == if actually then old(ran) + {r} else old(ran)
      ensures Evolves(g, old(View()).(ran := ran), View(), under - {r}) && Budget() < old(Budget())
    {
      hide Steps.Good, Evolves, Left, SumWait, Without, Shape, Owing, Graph.Edges, Graph.WellFormed, Numbers;
      ghost var s0 := View();
      roots := Without(roots, {r});
      executed := executed + {r};
      if actually {
        ran := ran + {r};
      }
      owed := owed + Owing(r, g.index[r]);
      history := history + [Done(r)];
      Steps.Finish(Cfg(), s0, View(), r);
    }

    /** The loop of mark_executed over the rules that depend on `r`. */
    method Notify(r: int)
      requires Valid({}) && 0 <= r < |g.index| && r in executed
      modifies this
      decreases Budget(), 7
      ensures exited ==> Missing()
      ensures !exited ==> Valid({}) && under == old(under) && owed == old(owed) - Owing(r, g.index[r])
      ensures !exited ==> Evolves(g, old(View()), View(), old(under) - {r})
      ensures !exited ==>
        forall p | g.index[r] == [p] && p !in old(queued) && Rest(old(View()), p, r) != {} :: p !in queued
    {
      hide Steps.Good, Evolves, Left, SumWait, Without, Config.Ranked, Config.Guarded, Config.Tamed, Config.Idle,
        Config.Needs, Missing, Shape, Cleared, Attended, Parked, Licensed, InOrder, Checked, Graph.Edges,
        Graph.WellFormed,
        Numbers;
      ghost var s0 := View();
      Steps.Stay(Cfg(), s0, s0.under - {r});
      Steps.Dependents(Cfg(), s0, r);
      var i := 0;
      while i < |g.index[r]|
        invariant 0 <= i <= |g.index[r]|
        invariant Valid({}) && Evolves(g, s0, View(), s0.under - {r})
        invariant under == s0.under && r in executed
        invariant owed == s0.owed - Owing(r, g.index[r][..i])
        invariant i == 0 ==> View() == s0
        invariant forall p | i > 0 && g.index[r] == [p] && p !in s0.queued && Rest(s0, p, r) != {} :: p !in queued
      {
        ghost var s1 := View();
        LeftEvolves(g, s0, s1, s0.under - {r});
        Reconsider(g.index[r][i], r);
        if exited {
          return;
        }
        EvolvesShrink(g, s1, View(), s0.under, s0.under - {r});
        EvolvesTrans(g, s0, s1, View(), s0.under - {r});
        EvolvesBasics(g, s1, View(), s0.under - {r});
        assert g.index[r][..i + 1] == g.index[r][..i] + [g.index[r][i]];
        i := i + 1;
      }
      assert g.index[r][..i] == g.index[r];
    }

    method Reconsider(p: int, d: int)
      requires Valid({}) && 0 <= p < |g.deps| && d in executed && d in g.Edges(p)
      modifies this
      decreases Budget(), 6
      ensures exited ==> Missing()
      ensures !exited ==>
        Valid({}) && under == old(under) && owed == old(owed) - {(d, p)} && Evolves(g, old(View()), View(), old(under))
      ensures !exited && Rest(old(View()), p, d) != {} ==> (p in queued <==> p in old(queued))
    {
      hide Steps.Good, Evolves, Left, SumWait, Without, Config.Ranked, Config.Guarded, Config.Tamed, Config.Idle,
        Config.Needs, Missing, Shape, Cleared, Attended, Parked, Licensed, InOrder, Checked, Graph.Edges,
        Graph.WellFormed,
        Numbers;
      ghost var s0 := View();
      Steps.Sizes(Cfg(), s0, {});
      Steps.OfRule(Cfg(), s0, {}, p);
      if p in executed {
        owed := owed - {(d, p)};
        Steps.Forget(Cfg(), s0, View(), p, d);
        return;
      }
      if p !in executing || p in under {
        // Must be done always, in case the rule is to be executed in the future.
        Drop(p, d);
        return;
      }
      TakeUp(p, d);
      ResumeLoop(p, s0);
    }

    /** Erases `d` from a rule that is not waiting in its own right. */
    method Drop(p: int, d: int)
      requires Valid({}) && 0 <= p < |g.deps| && d in executed && (p !in executing || p in under)
      modifies this`remain, this`remainCnt, this`waitCnt, this`owed
      ensures Valid({}) && owed == old(owed) - {(d, p)} && Evolves(g, old(View()), View(), under)
    {
      hide Steps.Good, Evolves, Left, SumWait, Without;
      ghost var s0 := View();
      Steps.Sizes(Cfg(), s0, {});
      Steps.OfRule(Cfg(), s0, {}, p);
      Erase(p, d);
      owed := owed - {(d, p)};
      Steps.Erase(Cfg(), s0, p, d);
    }

    /** Erases `d` from a waiting rule and takes the rule up again. */
    method TakeUp(p: int, d: int)
      requires Valid({}) && 0 <= p < |g.deps| && d in executed && d in g.Edges(p)
      requires p in executing && p !in under && p !in executed
      modifies this`remain, this`remainCnt, this`waitCnt, this`owed, this`under
      ensures Valid({}) && owed == old(owed) - {(d, p)} && Evolves(g, old(View()), View(), old(under))
      ensures under == old(under) + {p}
      ensures Budget() == old(Budget()) && remain == old(remain)[p := old(remain)[p] - {d}]
      ensures |remain| == |remainCnt| == |waitCnt| == |waitloc| == |passed| == |g.deps|
      ensures 0 <= waitloc[p] <= passed[p] && waitloc[p] < |g.deps[p]| && Parked(g, View(), p)
      ensures InOrder(p, under) && g.Edges(p) != {} && !Cfg().Idle()
      ensures remainCnt[p] > 0 <==> remain[p] != map[]
      ensures remain[p] == map[] ==> waitCnt[p] == 0 && g.Edges(p) <= executed
      ensures Cfg().Tamed() ==> forall x | x in remain[p] :: x in executing || Cfg().Needs(x)
    {
      hide Steps.Good, Evolves, Left, SumWait, Without, Config.Ranked, Config.Guarded, Config.Tamed, Config.Idle,
        Config.Needs, Missing, Shape, Cleared, Attended, Parked, Licensed, InOrder, Checked, Graph.Edges,
        Graph.WellFormed,
        Numbers;
      ghost var s0 := View();
      Steps.Sizes(Cfg(), s0, {});
      Steps.OfRule(Cfg(), s0, {}, p);
      Erase(p, d);
      owed := owed - {(d, p)};
      under := under + {p};
      Steps.Resume(Cfg(), s0, View(), p, d);
      InOrderAnyhow(p);
    }

    /** The rest of reconsider, from the wait pointer on; `s0` is the state in which `p` was taken up.  Whether `p` is
        passed on to do_exec is settled before the loop: with something left to wait for it is not, whatever
        happens to that in the loop. */
    method ResumeLoop(p: int, ghost s0: State)
      requires Valid({}) && Evolves(g, s0, View(), s0.under) && under == s0.under + {p} && p !in s0.under
      requires queued == s0.queued
      requires 0 <= p < |g.deps| && |remain| == |remainCnt| == |waitCnt| == |waitloc| == |passed| == |g.deps|
      requires 0 <= waitloc[p] <= passed[p] && waitloc[p] < |g.deps[p]| && Parked(g, View(), p)
      requires p in executing && p !in executed && InOrder(p, under) && g.Edges(p) != {} && !Cfg().Idle()
      requires remainCnt[p] > 0 <==> remain[p] != map[]
      requires remain[p] == map[] ==> waitCnt[p] == 0 && g.Edges(p) <= executed
      requires Cfg().Tamed() ==> forall x | x in remain[p] :: x in executing || Cfg().Needs(x)
      modifies this
      decreases Budget(), 5
      ensures exited ==> Missing()
      ensures !exited ==> Valid({}) && under == s0.under && owed == old(owed) && Evolves(g, s0, View(), s0.under)
      ensures !exited && old(remain[p]) != map[] ==> (p in queued <==> p in old(queued))
    {
      hide Steps.Good, Evolves, Left, SumWait, Without, Config.Ranked, Config.Guarded, Config.Tamed, Config.Idle,
        Config.Needs, Missing, Shape, Cleared, Attended, Parked, Licensed, InOrder, Checked, Graph.Edges,
        Graph.WellFormed,
        Numbers;
      var toexecute := false;
      if remainCnt[p] > 0 {
        toexecute := true;
      }
      ghost var blocker := p;
      assert (forall x :: x !in remain[p]) ==> remain[p] == map[];
      if toexecute {
        blocker :| blocker in remain[p];
      }
      ResumeDeps(p, toexecute, blocker, s0);
      if exited {
        return;
      }
      ghost var s2 := View();
      if !toexecute && p !in queued {
        var b := DoExec(p);
        if exited {
          return;
        }
        EvolvesBasics(g, s2, View(), s2.under - {p});
        ExtendEvolution(s0, s2, p);
      }
      Steps.Sizes(Cfg(), View(), {});
      Steps.OfRule(Cfg(), View(), {}, p);
      if toexecute {
        Steps.LoopLeft(Cfg(), View(), p, blocker);
      } else {
        Steps.AtEnd(Cfg(), View(), p);
        Steps.Decided(Cfg(), View(), p);
      }
      Release(p, s0);
    }

    /** The loop of reconsider.  `blocker` is something rule `p` waits for when the loop starts. */
    method ResumeDeps(p: int, ghost toexecute: bool, ghost blocker: int, ghost s0: State)
      requires Valid({}) && Evolves(g, s0, View(), s0.under) && under == s0.under + {p} && p !in s0.under
      requires queued == s0.queued
      requires 0 <= p < |g.deps| && |remain| == |waitCnt| == |waitloc| == |passed| == |g.deps|
      requires 0 <= waitloc[p] <= passed[p] && waitloc[p] < |g.deps[p]| && Parked(g, View(), p)
      requires p in executing && p !in executed && InOrder(p, under) && !Cfg().Idle()
      requires !toexecute ==> waitCnt[p] == 0 && g.Edges(p) <= executed && remain[p] == map[]
      requires Cfg().Tamed() && toexecute ==> blocker in remain[p] && (blocker in executing || Cfg().Needs(blocker))
      modifies this
      decreases Budget(), 4
      ensures exited ==> Missing()
      ensures !exited ==> Valid({}) && under == old(under) && owed == old(owed) && Evolves(g, s0, View(), s0.under)
      ensures !exited ==>
        Budget() <= old(Budget()) && p in executing && p !in executed && (p in queued <==> p in s0.queued)
      ensures !exited ==> |remain| == |waitCnt| == |waitloc| == |passed| == |g.deps|
      ensures !exited ==> waitloc[p] >= 0 && Parked(g, View(), p) && (waitCnt[p] > 0 || passed[p] == |g.deps[p]|)
      ensures !exited && !toexecute ==> waitCnt[p] == 0 && g.Edges(p) <= executed && remain[p] == map[]
      ensures !exited && Cfg().Tamed() && toexecute ==> blocker in remain[p]
    {
      hide Steps.Good, Evolves, Left, SumWait, Without, Config.Ranked, Config.Guarded, Config.Tamed, Config.Idle,
        Config.Needs, Missing, Shape, Cleared, Attended, Parked, Licensed, InOrder, Checked, Graph.Edges,
        Graph.WellFormed,
        Numbers;
      ghost var reached := passed[p];
      Steps.ParkedIf(Cfg(), View(), p);
      var i := waitloc[p];
      while i < |g.deps[p]|
        invariant 0 <= i <= |g.deps[p]|
        invariant Valid({}) && Evolves(g, s0, View(), s0.under) && Budget() <= old(Budget())
        invariant under == s0.under + {p} && owed == old(owed)
        invariant p in executing && p !in executed && (p in queued <==> p in s0.queued)
        invariant |passed| == |waitloc| == |waitCnt| == |remain| == |g.deps|
        invariant passed[p] == (if i < reached then reached else i) && waitloc[p] >= 0
        invariant !toexecute ==> waitCnt[p] == 0 && g.Edges(p) <= executed && remain[p] == map[]
        invariant Cfg().Tamed() && toexecute ==> blocker in remain[p] && (blocker in executing || Cfg().Needs(blocker))
      {
        ghost var s1 := View();
        Steps.EdgesDone(g, p, i, executed);
        var stop, b, waits := Try(p, i);
        if exited {
          return;
        }
        ExtendEvolution(s0, s1, p);
        if Cfg().Tamed() && toexecute {
          Steps.WaitsOn(Cfg(), s1, View(), p, blocker);
        }
        if stop {
          break;
        }
        i := i + 1;
      }
      Steps.ParkedAt(Cfg(), View(), p);
    }
  }
}
