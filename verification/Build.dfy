/** A whole build: the requested rules are checked for cycles, orders are applied and checked again, and the run
    loop is started. */
module Build {
  import opened BuildGraph
  import opened CycleDetect
  import opened DependentIndex
  import RuleTable
  import Sched = Scheduler
  import SchedulerState
  import Steps = SchedulerSteps
  import Run = RunLoop
  import Jobserver

  /** Rule `x` is reached from one of the requested rules. */
  ghost predicate Needed(g: Graph, roots: seq<int>, x: int) {
    exists i :: 0 <= i < |roots| && g.Reaches(roots[i], x)
  }

  /** `order` followed by the rules of `more` it lacks. */
  function Merge(order: seq<int>, more: seq<int>): seq<int> {
    if more == [] then order else
    var front := Merge(order, more[..|more| - 1]);
    if more[|more| - 1] in front then front else front + [more[|more| - 1]]
  }

  lemma {:induction false} MergeTopological(g: Graph, order: seq<int>, more: seq<int>)
    requires Topological(g, order) && Topological(g, more)
    ensures Topological(g, Merge(order, more))
    ensures forall x :: x in Merge(order, more) <==> x in order || x in more
  {
    if more != [] {
      var n := |more| - 1;
      assert Topological(g, more[..n]) by {
        forall i | 0 <= i < n
          ensures forall d | d in g.Edges(more[i]) :: d in more[..n][..i]
        {
          assert more[..n][..i] == more[..i];
        }
      }
      MergeTopological(g, order, more[..n]);
      assert more == more[..n] + [more[n]];
      var front := Merge(order, more[..n]);
      if more[n] !in front {
        TopologicalExtends(g, front, more[n]);
      }
    }
  }

  /** better_cycle_detect on every requested rule. */
  method DetectAll(det: CycleDetector, roots: seq<int>, mark: bool) returns (cycle: bool, ghost order: seq<int>)
    requires det.g.Closed() && forall i | 0 <= i < |roots| :: 0 <= roots[i] < |det.g.deps|
    modifies det
    ensures cycle <==> exists i :: 0 <= i < |roots| && det.g.CyclicFrom(roots[i])
    ensures !cycle ==> Topological(det.g, order) && forall x :: x in order <==> Needed(det.g, roots, x)
    ensures !cycle ==> forall x :: x in det.traversed <==> x in old(det.traversed) || (mark && Needed(det.g, roots, x))
  {
    cycle, order := false, [];
    var k := 0;
    while k < |roots|
      invariant 0 <= k <= |roots| && !cycle
      invariant forall i | 0 <= i < k :: !det.g.CyclicFrom(roots[i])
      invariant Topological(det.g, order)
      invariant forall x :: x in order <==> exists i :: 0 <= i < k && det.g.Reaches(roots[i], x)
      invariant forall x :: x in det.traversed <==>
        x in old(det.traversed) || (mark && exists i :: 0 <= i < k && det.g.Reaches(roots[i], x))
    {
      ghost var more;
      cycle, more := det.Detect(roots[k], mark);
      if cycle {
        return;
      }
      MergeTopological(det.g, order, more);
      order := Merge(order, more);
      k := k + 1;
    }
  }

  lemma ReachesStep(g: Graph, a: int, b: int, d: int)
    requires g.Closed() && g.Reaches(a, b) && d in g.Edges(b)
    ensures g.Reaches(a, d)
  {
    var p :| g.WalkFromTo(p, a, b);
    WalkExtends(g, p, [d]);
    assert g.WalkFromTo(p + [d], a, d);
  }

  /** Orders between needed rules need no further rule. */
  lemma OrdersKeepNeeded(g: Graph, h: Graph, roots: seq<int>)
    requires g.Closed() && h.Closed() && |g.deps| == |h.deps|
    requires forall r | 0 <= r < |g.deps| :: g.Edges(r) <= h.Edges(r)
    requires forall r, d | 0 <= r < |g.deps| && d in h.Edges(r) && d !in g.Edges(r) :: Needed(g, roots, d)
    ensures forall x :: Needed(h, roots, x) <==> Needed(g, roots, x)
  {
    forall x
      ensures Needed(h, roots, x) <==> Needed(g, roots, x)
    {
      if Needed(g, roots, x) {
        var i :| 0 <= i < |roots| && g.Reaches(roots[i], x);
        var p :| g.WalkFromTo(p, roots[i], x);
        assert h.WalkFromTo(p, roots[i], x);
      }
      if Needed(h, roots, x) {
        var i :| 0 <= i < |roots| && h.Reaches(roots[i], x);
        var p :| h.WalkFromTo(p, roots[i], x);
        WalkNeeded(g, h, roots, i, p, |p| - 1);
      }
    }
  }

  lemma {:induction false} WalkNeeded(g: Graph, h: Graph, roots: seq<int>, root: nat, p: seq<int>, i: nat)
    requires g.Closed() && |g.deps| == |h.deps| && root < |roots| && h.Walk(p) && i < |p| && p[0] == roots[root]
    requires forall r, d | 0 <= r < |g.deps| && d in h.Edges(r) && d !in g.Edges(r) :: Needed(g, roots, d)
    ensures Needed(g, roots, p[i])
  {
    if i == 0 {
      assert g.WalkFromTo([p[0]], p[0], p[0]);
    } else {
      WalkNeeded(g, h, roots, root, p, i - 1);
      assert p[(i - 1) + 1] in h.Edges(p[i - 1]);
      if p[i] in g.Edges(p[i - 1]) {
        var j :| 0 <= j < |roots| && g.Reaches(roots[j], p[i - 1]);
        ReachesStep(g, roots[j], p[i - 1], p[i]);
      }
    }
  }

  /** What process_orders adds to the edges. */
  lemma OrderEdges(byTgt: map<nat, int>, before: seq<seq<RawDep>>, after: seq<seq<RawDep>>, b: seq<seq<seq<int>>>,
                   c: seq<seq<seq<int>>>, traversed: set<int>)
    requires |before| == |after| && forall r | 0 <= r < |after| :: OrdersOnly(byTgt, traversed, r, before[r], after[r])
    requires forall m | m in byTgt :: 0 <= byTgt[m] < |before|
    ensures var g, h := ToGraph(byTgt, before, b), ToGraph(byTgt, after, c);
      && |g.deps| == |h.deps| == |before| && g.Closed() && h.Closed()
      && (forall r | 0 <= r < |g.deps| :: g.Edges(r) <= h.Edges(r))
      && (forall r, d | 0 <= r < |g.deps| && d in h.Edges(r) && d !in g.Edges(r) :: r in traversed && d in traversed)
  {
    var g, h := ToGraph(byTgt, before, b), ToGraph(byTgt, after, c);
    forall r, d | 0 <= r < |g.deps| && d in g.Edges(r)
      ensures d in h.Edges(r)
    {
      var i :| 0 <= i < |g.deps[r]| && g.IsEdge(r, i) && g.deps[r][i].rule == d;
      assert after[r][i] == before[r][i];
      assert h.IsEdge(r, i) && h.deps[r][i].rule == d;
    }
    forall r, d | 0 <= r < |g.deps| && d in h.Edges(r) && d !in g.Edges(r)
      ensures r in traversed && d in traversed
    {
      var i :| 0 <= i < |h.deps[r]| && h.IsEdge(r, i) && h.deps[r][i].rule == d;
      if i < |before[r]| {
        assert after[r][i] == before[r][i];
        assert g.IsEdge(r, i);
      }
    }
  }

  datatype Outcome = UnknownTarget | UnknownOrder | Cycle | MissingFile | NothingToDo | Built | OutOfChildren

  /** In every needed rule, what lies at or behind a wait marker needs its commands run. */
  ghost predicate MadeBehindWaits(g: Graph, needs: seq<bool>, roots: seq<int>) {
    forall r, k, i | 0 <= r < |g.deps| && 0 <= k <= i < |g.deps[r]| && g.deps[r][k].isWait && g.IsEdge(r, i) &&
      Needed(g, roots, r) ::
      g.deps[r][i].rule < |needs| && needs[g.deps[r][i].rule]
  }

  /** No needed rule needs its commands run. */
  ghost predicate UpToDate(g: Graph, needs: seq<bool>, roots: seq<int>) {
    forall x | 0 <= x < |needs| && Needed(g, roots, x) :: !needs[x]
  }

  /** Only rule `p` is requested; its dependency `b`, which no other rule shares, is to be made, and something of `p`
      lies behind a wait marker after `b`, while beside `p` and below `b` nothing is to be made. */
  ghost predicate StopsAtWait(g: Graph, needs: seq<bool>, roots: seq<int>, p: int, b: int) {
    && p in roots && (forall x | x in roots :: x == p)
    && 0 <= p < |g.deps| && b in g.Edges(p) && 0 <= b < |needs| && needs[b] && b < |g.index| && g.index[b] == [p]
    && (exists y :: Steps.Late(g, p, b, y))
    && (forall x | 0 <= x < |needs| && Needed(g, roots, x) && needs[x] :: x == p || g.Reaches(b, x))
  }

  /** A needed rule was started and all its dependencies are executed, but it was never queued. */
  ghost predicate PassedOver(s: Sched.Scheduler, roots: seq<int>)
    reads s
  {
    exists x :: Needed(s.g, roots, x) && Steps.Forgotten(s.g, s.View(), x)
  }

  /** Dependency `i` of rule `r` has neither a rule nor a file, and is not left to an included file. */
  predicate Sourceless(g: Graph, present: set<nat>, r: int, i: int)
    requires 0 <= r < |g.deps| && 0 <= i < |g.deps[r]|
  {
    g.deps[r][i].rule < 0 && !g.deps[r][i].isDupe && !g.deps[r][i].isInc && g.deps[r][i].name !in present
  }

  /** What a finished run loop leaves behind: the commands of each executed rule that needed them have all been started,
      no executed rule lacks a file, `jobcnt` jobs being allowed. */
  ghost predicate Finished(loop: Run.RunLoop, s: Sched.Scheduler, roots: seq<int>, cmdCount: seq<nat>, jobcnt: int)
    reads loop, s
  {
    && loop.s == s && loop.peak <= jobcnt
    && |loop.cmdidx| == |cmdCount| == |s.needs|
    && (forall r | 0 <= r < |cmdCount| :: loop.cmdidx[r] == if r in s.executed && s.needs[r] then cmdCount[r] else 0)
    && (forall r, i | r in s.executed && 0 <= r < |s.g.deps| && 0 <= i < |s.g.deps[r]| ::
          !Sourceless(s.g, s.present, r, i))
    && SchedulerState.Ordered(s.g, s.history)
    && (forall r :: SchedulerState.Done(r) in s.history <==> r in s.executed)
    && (forall r :: SchedulerState.Queued(r) in s.history ==> SchedulerState.Done(r) in s.history)
    && (forall r | r in s.executed :: 0 <= r < |s.needs| && (SchedulerState.Queued(r) in s.history <==> s.needs[r]))
    && (forall e | e in s.history :: Needed(s.g, roots, e.rule))
  }

  /** The rules of a list of names. */
  method RootsOf(table: RuleTable.RuleTable, targets: seq<nat>) returns (ok: bool, roots: seq<int>)
    requires table.Valid(false)
    ensures ok <==> forall i | 0 <= i < |targets| :: targets[i] in table.byTgt
    ensures ok ==> |roots| == |targets| && forall i | 0 <= i < |targets| :: roots[i] == table.byTgt[targets[i]]
    ensures ok ==> forall i | 0 <= i < |roots| :: 0 <= roots[i] < |table.deps|
  {
    ok, roots := true, [];
    while |roots| < |targets|
      invariant |roots| <= |targets|
      invariant forall i | 0 <= i < |roots| :: targets[i] in table.byTgt && roots[i] == table.byTgt[targets[i]]
    {
      if targets[|roots|] !in table.byTgt {
        return false, [];
      }
      roots := roots + [table.byTgt[targets[|roots|]]];
    }
  }

  /** Graphs with the same dependencies have the same edges, walks and orders. */
  lemma SameDeps(g: Graph, h: Graph, order: seq<int>, roots: seq<int>)
    requires g.deps == h.deps
    ensures g.Closed() <==> h.Closed()
    ensures Topological(g, order) <==> Topological(h, order)
    ensures forall x :: Needed(g, roots, x) <==> Needed(h, roots, x)
    ensures forall x :: g.CyclicFrom(x) <==> h.CyclicFrom(x)
    ensures forall r | 0 <= r < |g.deps| :: g.Edges(r) == h.Edges(r)
  {
    assert forall r | 0 <= r < |g.deps| :: g.Edges(r) == h.Edges(r);
    assert forall p :: g.Walk(p) <==> h.Walk(p);
    assert forall p, a, b :: g.WalkFromTo(p, a, b) <==> h.WalkFromTo(p, a, b);
    assert forall a, b :: g.Reaches(a, b) <==> h.Reaches(a, b);
  }

  /** Some name in an order has no rule. */
  ghost predicate StrayOrder(byTgt: map<nat, int>, orders: seq<(nat, nat)>) {
    exists k :: 0 <= k < |orders| && (orders[k].0 !in byTgt || orders[k].1 !in byTgt)
  }

  /** Order `k` is between two needed rules of `g`. */
  ghost predicate Applies(g: Graph, byTgt: map<nat, int>, roots: seq<int>, order: (nat, nat)) {
    order.0 in byTgt && order.1 in byTgt && Needed(g, roots, byTgt[order.0]) && Needed(g, roots, byTgt[order.1])
  }

  /** The graph has the lists of the table, every name looked up. */
  ghost predicate Reflects(g: Graph, byTgt: map<nat, int>, deps: seq<seq<RawDep>>) {
    && |g.deps| == |deps|
    && forall r | 0 <= r < |deps| ::
      && |g.deps[r]| == |deps[r]|
      && forall i | 0 <= i < |deps[r]| ::
        && g.deps[r][i].name == deps[r][i].name
        && (deps[r][i].name in byTgt ==> g.deps[r][i].rule == byTgt[deps[r][i].name])
        && (deps[r][i].name !in byTgt ==> g.deps[r][i].rule == -1)
        && (g.deps[r][i].isWait <==> deps[r][i].isWait) && (g.deps[r][i].isDupe <==> deps[r][i].isDupe)
        && (g.deps[r][i].isOrderOnly <==> deps[r][i].isOrderOnly) && (g.deps[r][i].isInc <==> deps[r][i].isInc)
  }

  lemma ViewReflects(byTgt: map<nat, int>, deps: seq<seq<RawDep>>, blocks: seq<seq<seq<int>>>)
    ensures Reflects(ToGraph(byTgt, deps, blocks), byTgt, deps)
  {
  }

  /** What a name in a list is resolved to is an edge. */
  lemma ListedIsEdge(byTgt: map<nat, int>, deps: seq<seq<RawDep>>, blocks: seq<seq<seq<int>>>, r: int, m: nat)
    requires HasDep(deps, r, m) && m in byTgt && byTgt[m] >= 0 && ToGraph(byTgt, deps, blocks).WellFormed()
    ensures r < |ToGraph(byTgt, deps, blocks).deps| && byTgt[m] in ToGraph(byTgt, deps, blocks).Edges(r)
  {
    hide Graph.Edges;
    var i :| 0 <= i < |deps[r]| && deps[r][i].name == m;
    assert ToGraph(byTgt, deps, blocks).deps[r][i].rule == byTgt[m];
  }

  /** The two rounds of cycle detection around process_orders, and the flush of the deferred list.  `order` lists
      the needed rules of the final graph, dependencies first; `traversed` are the rules needed before the orders. */
  method Prepare(table: RuleTable.RuleTable, roots: seq<int>, orders: seq<(nat, nat)>)
    returns (outcome: Outcome, ghost order: seq<int>, ghost traversed: set<int>)
    requires table.Valid(false) && forall i | 0 <= i < |roots| :: 0 <= roots[i] < |table.deps|
    modifies table`deps, table`names, table`blocks, table`later, table`entries
    ensures outcome in {Cycle, UnknownOrder, Built}
    ensures (exists i :: 0 <= i < |roots| && old(table.View()).CyclicFrom(roots[i])) ==> outcome == Cycle
    ensures (forall i | 0 <= i < |roots| :: !old(table.View()).CyclicFrom(roots[i])) ==>
      (outcome == UnknownOrder <==> StrayOrder(table.byTgt, orders))
    ensures outcome != UnknownOrder ==>
      (outcome == Cycle <==> exists i :: 0 <= i < |roots| && table.View().CyclicFrom(roots[i]))
    ensures outcome == Built ==> table.Valid(false) && table.View().WellFormed() && |table.deps| == |old(table.deps)|
    ensures outcome == Built ==>
      Topological(table.View(), order) && forall x :: x in order <==> Needed(table.View(), roots, x)
    ensures outcome == Built ==> forall x :: Needed(table.View(), roots, x) <==> Needed(old(table.View()), roots, x)
    ensures outcome == Built ==> forall x :: x in traversed <==> Needed(old(table.View()), roots, x)
    ensures outcome == Built ==> forall r | 0 <= r < |table.deps| ::
      GrownBy(old(table.deps)[r], table.deps[r], Wanted(table.byTgt, traversed, orders, r))
    ensures outcome == Built ==> forall k | 0 <= k < |orders| && Applies(table.View(), table.byTgt, roots, orders[k]) ::
      0 <= table.byTgt[orders[k].1] < |table.View().deps| &&
        table.byTgt[orders[k].0] in table.View().Edges(table.byTgt[orders[k].1])
  {
    hide Entered, Chained, Announced, Flatten, Rules, Topological, Graph.Edges, Graph.WellFormed, Wanted, GrownBy,
      HasDep;
    traversed := {};
    ghost var g0 := table.View();
    EnteredSizes(table.byTgt, table.deps, table.names, table.entries, Flatten(table.later), false);
    AllClosed(table.byTgt, table.deps, table.blocks);
    var det := new CycleDetector(ToGraph(table.byTgt, table.deps, table.blocks));
    SameDeps(g0, det.g, [], roots);
    var cycle;
    cycle, order := DetectAll(det, roots, true);
    if cycle {
      return Cycle, order, {};
    }
    SameDeps(g0, det.g, order, roots);
    traversed := det.traversed;
    outcome, order := ApplyOrders(table, roots, orders, det.traversed, order);
  }

  /** process_orders, the second round of detection, and the flush of the deferred list. */
  method ApplyOrders(table: RuleTable.RuleTable, roots: seq<int>, orders: seq<(nat, nat)>, traversed: set<int>,
        ghost first: seq<int>)
    returns (outcome: Outcome, ghost order: seq<int>)
    requires table.Valid(false) && forall i | 0 <= i < |roots| :: 0 <= roots[i] < |table.deps|
    requires forall i | 0 <= i < |roots| :: !table.View().CyclicFrom(roots[i])
    requires forall x :: x in traversed <==> Needed(table.View(), roots, x)
    requires Topological(table.View(), first) && forall x :: x in first <==> Needed(table.View(), roots, x)
    modifies table`deps, table`names, table`blocks, table`later, table`entries
    ensures outcome in {Cycle, UnknownOrder, Built} && (outcome == UnknownOrder <==> StrayOrder(table.byTgt, orders))
    ensures outcome != UnknownOrder ==>
      (outcome == Cycle <==> exists i :: 0 <= i < |roots| && table.View().CyclicFrom(roots[i]))
    ensures outcome == Built ==> table.Valid(false) && table.View().WellFormed() && |table.deps| == |old(table.deps)|
    ensures outcome == Built ==>
      Topological(table.View(), order) && forall x :: x in order <==> Needed(table.View(), roots, x)
    ensures outcome == Built ==> forall x :: Needed(table.View(), roots, x) <==> Needed(old(table.View()), roots, x)
    ensures outcome == Built ==> forall r | 0 <= r < |table.deps| ::
      GrownBy(old(table.deps)[r], table.deps[r], Wanted(table.byTgt, traversed, orders, r))
    ensures outcome == Built ==> forall k | 0 <= k < |orders| && Applies(table.View(), table.byTgt, roots, orders[k]) ::
      0 <= table.byTgt[orders[k].1] < |table.View().deps| &&
        table.byTgt[orders[k].0] in table.View().Edges(table.byTgt[orders[k].1])
  {
    hide Entered, Chained, Announced, Flatten, Rules, Topological, Graph.Edges, Graph.WellFormed, Wanted, GrownBy,
      HasDep;
    order := first;
    ghost var g0 := table.View();
    EnteredSizes(table.byTgt, table.deps, table.names, table.entries, Flatten(table.later), false);
    AllClosed(table.byTgt, table.deps, table.blocks);
    var ok := table.ProcessOrders(orders, traversed);
    if !ok {
      return UnknownOrder, order;
    }
    ghost var g1 := table.View();
    EnteredSizes(table.byTgt, table.deps, table.names, table.entries, Flatten(table.later), false);
    OrderEdges(table.byTgt, old(table.deps), table.deps, old(table.blocks), table.blocks, traversed);
    OrdersKeepNeeded(g0, g1, roots);
    if |orders| > 0 {
      var again := new CycleDetector(ToGraph(table.byTgt, table.deps, table.blocks));
      SameDeps(g1, again.g, [], roots);
      var cycle;
      cycle, order := DetectAll(again, roots, false);
      SameDeps(g1, again.g, order, roots);
      if cycle {
        return Cycle, order;
      }
    } else {
      SameDeps(g0, g1, order, roots);
    }
    table.FlushLater();
    SameDeps(g1, table.View(), order, roots);
    outcome := Built;
    EdgesOfOrders(table.byTgt, table.deps, table.blocks, roots, orders, traversed);
  }

  lemma EdgesOfOrders(byTgt: map<nat, int>, deps: seq<seq<RawDep>>, blocks: seq<seq<seq<int>>>, roots: seq<int>,
                      orders: seq<(nat, nat)>, traversed: set<int>)
    requires ToGraph(byTgt, deps, blocks).WellFormed() && forall m | m in byTgt :: 0 <= byTgt[m] < |deps|
    requires forall x :: x in traversed <==> Needed(ToGraph(byTgt, deps, blocks), roots, x)
    requires forall k | 0 <= k < |orders| && orders[k].0 in byTgt && orders[k].1 in byTgt &&
      byTgt[orders[k].0] in traversed && byTgt[orders[k].1] in traversed ::
        HasDep(deps, byTgt[orders[k].1], orders[k].0)
    ensures var g := ToGraph(byTgt, deps, blocks);
      forall k | 0 <= k < |orders| && Applies(g, byTgt, roots, orders[k]) ::
        0 <= byTgt[orders[k].1] < |g.deps| && byTgt[orders[k].0] in g.Edges(byTgt[orders[k].1])
  {
    hide Graph.Edges, Graph.WellFormed, HasDep;
    var g := ToGraph(byTgt, deps, blocks);
    forall k | 0 <= k < |orders| && Applies(g, byTgt, roots, orders[k])
      ensures 0 <= byTgt[orders[k].1] < |g.deps| && byTgt[orders[k].0] in g.Edges(byTgt[orders[k].1])
    {
      ListedIsEdge(byTgt, deps, blocks, byTgt[orders[k].1], orders[k].0);
    }
  }

  lemma AllClosed(byTgt: map<nat, int>, deps: seq<seq<RawDep>>, blocks: seq<seq<seq<int>>>)
    requires forall m | m in byTgt :: 0 <= byTgt[m] < |deps|
    ensures ToGraph(byTgt, deps, blocks).Closed()
  {
  }

  /** From the requested targets to the end of the run loop.  `needs` is what do_exec will decide for each rule. */
  method Make(table: RuleTable.RuleTable, targets: seq<nat>, orders: seq<(nat, nat)>, present: set<nat>,
        needs: seq<bool>, cmdCount: seq<nat>, jobcnt: int)
    returns (outcome: Outcome, ghost roots: seq<int>, ghost traversed: set<int>, s: Sched.Scheduler?,
          loop: Run.RunLoop?)
    requires table.Valid(false) && |needs| == |cmdCount| == |table.deps|
    requires forall r | 0 <= r < |needs| && needs[r] :: cmdCount[r] >= 1
    requires 1 <= jobcnt <= Jobserver.MAX_JOBCNT
    modifies table`deps, table`names, table`blocks, table`later, table`entries
    ensures outcome == UnknownTarget <==> exists i :: 0 <= i < |targets| && targets[i] !in table.byTgt
    ensures outcome != UnknownTarget ==>
      |roots| == |targets| && forall i | 0 <= i < |roots| :: roots[i] == table.byTgt[targets[i]]
    ensures outcome == UnknownOrder <==>
      && outcome != UnknownTarget && StrayOrder(table.byTgt, orders)
      && forall i | 0 <= i < |roots| :: !old(table.View()).CyclicFrom(roots[i])
    ensures outcome == Cycle <==>
      && outcome !in {UnknownTarget, UnknownOrder}
      && exists i :: 0 <= i < |roots| && table.View().CyclicFrom(roots[i])
    ensures outcome == MissingFile ==> FileMissing(table.View(), present, roots)
    ensures outcome in {UnknownTarget, UnknownOrder, Cycle, MissingFile} <==> s == null
    ensures s != null ==> s.g == table.View() && s.needs == needs && s.present == present && s.g.WellFormed()
    ensures s != null ==> Reflects(s.g, table.byTgt, table.deps) && |table.deps| == |old(table.deps)|
    ensures s != null ==> forall r | 0 <= r < |table.deps| ::
      GrownBy(old(table.deps)[r], table.deps[r], Wanted(table.byTgt, traversed, orders, r))
    ensures s != null ==> forall x :: x in traversed <==> Needed(old(table.View()), roots, x)
    ensures s != null ==> forall k, j | 0 <= k < |orders| && Applies(s.g, table.byTgt, roots, orders[k]) &&
      0 <= j < |s.history| && s.history[j].rule == table.byTgt[orders[k].1] ::
        SchedulerState.Done(table.byTgt[orders[k].0]) in s.history[..j]
    ensures s != null ==> loop != null && Finished(loop, s, roots, cmdCount, jobcnt)
    ensures s != null ==> forall i | 0 <= i < |roots| :: !s.g.CyclicFrom(roots[i])
    ensures s != null ==> forall x :: Needed(s.g, roots, x) <==> Needed(old(table.View()), roots, x)
    ensures s != null && outcome != OutOfChildren ==>
      (outcome == NothingToDo <==> forall r :: SchedulerState.Queued(r) !in s.history)
    ensures s != null && outcome != OutOfChildren ==> forall x | Needed(s.g, roots, x) :: x in s.executed
    ensures s != null && outcome != OutOfChildren ==> !FileMissing(s.g, present, roots)
    ensures s != null ==> (outcome == OutOfChildren <==> PassedOver(s, roots))
    ensures s != null && MadeBehindWaits(s.g, needs, roots) ==> outcome != OutOfChildren
    ensures s != null && UpToDate(s.g, needs, roots) ==> outcome == NothingToDo
    ensures s != null ==> forall p, b | StopsAtWait(s.g, needs, roots, p, b) :: outcome == OutOfChildren
  {
    hide Steps.Good, Graph.WellFormed, Topological, SchedulerState.Ordered, Entered, Chained, Announced, Flatten, Rules,
      Graph.CyclicFrom, Finished, PassedOver, MadeBehindWaits, UpToDate, StopsAtWait, FileMissing, GrownBy, Wanted,
      StrayOrder, Reflects, Graph.Edges;
    s, loop, traversed := null, null, {};
    var known, rs := RootsOf(table, targets);
    roots := rs;
    if !known {
      return UnknownTarget, roots, {}, null, null;
    }
    ghost var order;
    outcome, order, traversed := Prepare(table, rs, orders);
    if outcome != Built {
      return outcome, roots, traversed, null, null;
    }
    ViewReflects(table.byTgt, table.deps, table.blocks);
    outcome, s, loop := Execute(ToGraph(table.byTgt, table.deps, table.blocks), needs, present, rs, order, cmdCount,
      jobcnt);
    if s != null {
      forall k, j | 0 <= k < |orders| && Applies(s.g, table.byTgt, roots, orders[k]) &&
        0 <= j < |s.history| && s.history[j].rule == table.byTgt[orders[k].1]
        ensures SchedulerState.Done(table.byTgt[orders[k].0]) in s.history[..j]
      {
        DoneFirst(loop, s, roots, cmdCount, jobcnt, j, table.byTgt[orders[k].0]);
      }
    }
  }

  /** In the history of a finished run, what a rule depends on was done before anything happened to the rule. */
  lemma DoneFirst(loop: Run.RunLoop, s: Sched.Scheduler, roots: seq<int>, cmdCount: seq<nat>, jobcnt: int, j: nat,
                  d: int)
    requires Finished(loop, s, roots, cmdCount, jobcnt) && j < |s.history|
    requires 0 <= s.history[j].rule < |s.g.deps| && d in s.g.Edges(s.history[j].rule)
    ensures SchedulerState.Done(d) in s.history[..j]
  {
    assert SchedulerState.DepsDone(s.g, s.history[j].rule, s.history[..j]);
  }

  lemma OneMore(roots: seq<int>, k: nat)
    requires k < |roots|
    ensures forall x :: x in roots[..k + 1] <==> x in roots[..k] || x == roots[k]
  {
    assert roots[..k + 1] == roots[..k] + [roots[k]];
  }

  /** A scheduler with the requested rules on its list. */
  method Request(g: Graph, needs: seq<bool>, present: set<nat>, roots: seq<int>, ghost scope: set<int>,
        ghost rank: map<int, nat>)
    returns (s: Sched.Scheduler)
    requires g.WellFormed() && |needs| == |g.deps| && forall i | 0 <= i < |roots| :: 0 <= roots[i] < |g.deps|
    ensures fresh(s) && s.Valid({}) && s.g == g && s.needs == needs && s.present == present && s.scope == scope
    ensures s.rank == rank
    ensures s.executing == {} && s.under == {} && s.owed == {} && s.running == {}
    ensures forall x :: x in s.roots <==> x in roots
    ensures forall x :: x in s.asked <==> x in roots
  {
    hide Steps.Good, Graph.WellFormed;
    s := new Sched.Scheduler(g, needs, present, scope, rank);
    var k := 0;
    while k < |roots|
      invariant 0 <= k <= |roots| && s.Valid({}) && s.executing == {} && s.under == {} && s.owed == {}
      invariant s.running == {}
      invariant forall x :: x in s.roots <==> x in roots[..k]
      invariant forall x :: x in s.asked <==> x in roots[..k]
    {
      assert s.executed == {} by {
        Steps.Sizes(s.Cfg(), s.View(), {});
      }
      s.AddRoot(roots[k]);
      OneMore(roots, k);
      k := k + 1;
    }
    assert roots[..k] == roots;
  }

  /** The run loop on a graph without cycles below the requested rules; `order` certifies that. */
  method Execute(g: Graph, needs: seq<bool>, present: set<nat>, roots: seq<int>, ghost order: seq<int>,
        cmdCount: seq<nat>, jobcnt: int)
    returns (outcome: Outcome, s: Sched.Scheduler?, loop: Run.RunLoop?)
    requires g.WellFormed() && |needs| == |cmdCount| == |g.deps|
    requires forall i | 0 <= i < |roots| :: 0 <= roots[i] < |g.deps|
    requires forall r | 0 <= r < |needs| && needs[r] :: cmdCount[r] >= 1
    requires 1 <= jobcnt <= Jobserver.MAX_JOBCNT
    requires Topological(g, order) && forall x :: x in order <==> Needed(g, roots, x)
    ensures outcome in {MissingFile, NothingToDo, Built, OutOfChildren} && (outcome == MissingFile <==> s == null)
    ensures outcome == MissingFile ==> FileMissing(g, present, roots)
    ensures s != null ==> fresh(s) && s.g == g && s.needs == needs && s.present == present
    ensures s != null ==> loop != null && Finished(loop, s, roots, cmdCount, jobcnt)
    ensures s != null && outcome != OutOfChildren ==>
      (outcome == NothingToDo <==> forall r :: SchedulerState.Queued(r) !in s.history)
    ensures s != null && outcome != OutOfChildren ==> forall x | Needed(g, roots, x) :: x in s.executed
    ensures s != null && outcome != OutOfChildren ==> !FileMissing(g, present, roots)
    ensures s != null ==> (outcome == OutOfChildren <==> PassedOver(s, roots))
    ensures s != null && MadeBehindWaits(g, needs, roots) ==> outcome != OutOfChildren
    ensures s != null && UpToDate(g, needs, roots) ==> outcome == NothingToDo
    ensures s != null ==> forall p, b | StopsAtWait(g, needs, roots, p, b) :: outcome == OutOfChildren
  {
    hide Steps.Good, Graph.WellFormed, Topological, SchedulerState.Config.Ranked, SchedulerState.Config.Guarded,
      SchedulerState.Config.Idle, Steps.Doomed, MadeBehindWaits, UpToDate, StopsAtWait, FileMissing, Finished,
      PassedOver;
    ghost var scope := set x | x in order;
    ghost var rank := map x | x in order :: Position(order, x);
    Steps.IsClosed(g);
    OrderRanks(g, needs, order, scope, rank, roots);
    var sched := Request(g, needs, present, roots, scope, rank);
    ghost var asked := sched.asked;
    var nothing, outOfChildren;
    nothing, outOfChildren, loop := Drive(sched, roots, cmdCount, jobcnt);
    if sched.exited {
      MissingIsNeeded(sched, roots);
      return MissingFile, null, null;
    }
    s := sched;
    outcome := if outOfChildren then OutOfChildren else if nothing then NothingToDo else Built;
    if !outOfChildren {
      NoneMissing(loop, s, roots, cmdCount, jobcnt);
    }
    forall p, b | StopsAtWait(g, needs, roots, p, b)
      ensures outOfChildren
    {
      StopsIsDoomed(SchedulerState.Config(g, needs, scope, rank), roots, p, b, asked);
    }
  }

  /** run_loop with a token pool of its own. */
  method Drive(s: Sched.Scheduler, roots: seq<int>, cmdCount: seq<nat>, jobcnt: int)
      returns (nothing: bool, outOfChildren: bool, loop: Run.RunLoop)
    requires s.Valid({}) && s.executing == {} && s.under == {} && s.owed == {} && s.running == {}
    requires |s.needs| == |cmdCount| == |s.g.deps| && forall r | 0 <= r < |s.needs| && s.needs[r] :: cmdCount[r] >= 1
    requires 1 <= jobcnt <= Jobserver.MAX_JOBCNT
    requires s.Cfg().Ranked() && (forall x :: x in s.scope <==> Needed(s.g, roots, x))
    requires (forall x :: x in s.roots <==> x in roots) && (forall x :: x in s.asked <==> x in roots)
    requires forall i | 0 <= i < |roots| :: 0 <= roots[i] < |s.g.deps|
    modifies s
    ensures s.exited ==> s.Missing()
    ensures !s.exited ==>
      Finished(loop, s, roots, cmdCount, jobcnt) && (nothing <==> forall r :: SchedulerState.Queued(r) !in s.history)
    ensures !s.exited && !outOfChildren ==> forall x | Needed(s.g, roots, x) :: x in s.executed
    ensures !s.exited ==> (outOfChildren <==> PassedOver(s, roots))
    ensures !s.exited && (s.Cfg().Tamed() || s.Cfg().Idle()) ==> !outOfChildren
    ensures !s.exited && s.Cfg().Idle() ==> nothing
    ensures !s.exited ==> forall p, b | Steps.Doomed(s.Cfg(), old(s.asked), p, b) :: outOfChildren
  {
    hide Steps.Good, Graph.WellFormed, SchedulerState.Ordered, SchedulerState.Config.Ranked,
      SchedulerState.Config.Guarded, SchedulerState.Config.Idle, Steps.Forgotten, Steps.Late;
    RootsNeeded(s.g, roots);
    ghost var asked := s.asked;
    var js := new Jobserver.Jobserver.Host(jobcnt);
    loop := new Run.RunLoop(s, js, cmdCount);
    ghost var listed := s.roots;
    nothing, outOfChildren := loop.Run();
    if !s.exited {
      Concluded(s, roots, listed, outOfChildren);
      AllSourced(s);
      forall p, b | Steps.Doomed(s.Cfg(), asked, p, b)
        ensures outOfChildren
      {
        assert p in asked;
      }
    }
  }

  lemma Concluded(s: Sched.Scheduler, roots: seq<int>, listed: seq<int>, outOfChildren: bool)
    requires forall x :: x in listed <==> x in roots
    requires !outOfChildren ==> forall r, x | r in listed && s.g.Reaches(r, x) :: x in s.executed
    requires outOfChildren <==> exists r, x :: r in listed && s.g.Reaches(r, x) && Steps.Forgotten(s.g, s.View(), x)
    ensures !outOfChildren ==> forall x | Needed(s.g, roots, x) :: x in s.executed
    ensures outOfChildren <==> PassedOver(s, roots)
  {
    hide Steps.Forgotten, Graph.Reaches;
    forall x | Needed(s.g, roots, x)
      ensures exists r :: r in listed && s.g.Reaches(r, x)
    {
      var i :| 0 <= i < |roots| && s.g.Reaches(roots[i], x);
      assert roots[i] in listed;
    }
    forall r, x | r in listed && s.g.Reaches(r, x)
      ensures Needed(s.g, roots, x)
    {
      assert r in roots;
    }
  }

  /** A dependency of a needed rule has neither a rule nor a file. */
  ghost predicate FileMissing(g: Graph, present: set<nat>, roots: seq<int>) {
    exists r, i :: 0 <= r < |g.deps| && 0 <= i < |g.deps[r]| && Needed(g, roots, r) && Sourceless(g, present, r, i)
  }

  lemma MissingIsNeeded(s: Sched.Scheduler, roots: seq<int>)
    requires s.Missing() && s.Cfg().Ranked() && forall x :: x in s.scope <==> Needed(s.g, roots, x)
    ensures FileMissing(s.g, s.present, roots)
  {
    var r, i :| 0 <= r < |s.g.deps| && 0 <= i < |s.g.deps[r]| && r in s.scope && s.Absent(r, i);
    assert Sourceless(s.g, s.present, r, i);
  }

  /** No executed rule lacks a file. */
  lemma AllSourced(s: Sched.Scheduler)
    requires s.Valid({})
    ensures forall r, i | r in s.executed && 0 <= r < |s.g.deps| && 0 <= i < |s.g.deps[r]| ::
      !Sourceless(s.g, s.present, r, i)
  {
    hide Steps.Good;
    forall r, i | r in s.executed && 0 <= r < |s.g.deps| && 0 <= i < |s.g.deps[r]|
      ensures !Sourceless(s.g, s.present, r, i)
    {
      s.NothingAbsent(r, i);
    }
  }

  lemma NoneMissing(loop: Run.RunLoop, s: Sched.Scheduler, roots: seq<int>, cmdCount: seq<nat>, jobcnt: int)
    requires Finished(loop, s, roots, cmdCount, jobcnt) && forall x | Needed(s.g, roots, x) :: x in s.executed
    ensures !FileMissing(s.g, s.present, roots)
  {
  }

  lemma RootsNeeded(g: Graph, roots: seq<int>)
    requires forall i | 0 <= i < |roots| :: 0 <= roots[i] < |g.deps|
    ensures forall x | x in roots :: Needed(g, roots, x)
  {
    forall x | x in roots
      ensures Needed(g, roots, x)
    {
      var i :| 0 <= i < |roots| && roots[i] == x;
      assert g.WalkFromTo([x], x, x);
    }
  }

  lemma StopsIsDoomed(c: SchedulerState.Config, roots: seq<int>, p: int, b: int, asked: set<int>)
    requires StopsAtWait(c.g, c.needs, roots, p, b) && c.Ranked() && forall x :: x in asked <==> x in roots
    requires forall x :: x in c.scope <==> Needed(c.g, roots, x)
    ensures Steps.Doomed(c, asked, p, b)
  {
    forall x
      ensures x in asked <==> x in {p}
    {
      assert x in asked <==> x in roots;
    }
  }

  /** A dependencies-first order certifies that the needed rules form no cycle, which with the conditions on wait
      markers and on what is to be made gives what the completion proofs ask for. */
  lemma OrderRanks(g: Graph, needs: seq<bool>, order: seq<int>, scope: set<int>, rank: map<int, nat>, roots: seq<int>)
    requires g.Closed() && |needs| == |g.deps| && Topological(g, order)
    requires forall x :: x in order <==> Needed(g, roots, x)
    requires scope == (set x | x in order) && rank == map x | x in order :: Position(order, x)
    ensures var c := SchedulerState.Config(g, needs, scope, rank);
      && c.Ranked()
      && (MadeBehindWaits(g, needs, roots) ==> c.Tamed())
      && (UpToDate(g, needs, roots) ==> c.Idle())
  {
    forall r | r in scope
      ensures 0 <= r < |g.deps| && r in rank
      ensures forall d | d in g.Edges(r) :: d in scope && d in rank && rank[d] < rank[r]
    {
      var m := Position(order, r);
      forall d | d in g.Edges(r)
        ensures d in scope && d in rank && rank[d] < rank[r]
      {
        assert d in order[..m];
        PositionUnique(g, order, d, Position(order[..m], d));
      }
    }
  }
}
