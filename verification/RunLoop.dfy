/** run_loop: considers the requested rules, then runs commands until no child is left. */
module RunLoop {
  import opened BuildGraph
  import opened SchedulerProgress
  import opened SchedulerState
  import opened Sequences
  import Steps = SchedulerSteps
  import opened Scheduler
  import opened Jobserver
  import CycleDetect

  /** The number of commands that have not been started yet, over the first `n` rules. */
  function Pending(cmdCount: seq<nat>, cmdidx: seq<nat>, n: nat): nat
    requires n <= |cmdCount| == |cmdidx|
  {
    if n == 0 then 0 else
    (if cmdidx[n - 1] < cmdCount[n - 1] then cmdCount[n - 1] - cmdidx[n - 1] else 0) + Pending(cmdCount, cmdidx, n - 1)
  }

  lemma {:induction false} PendingStep(cmdCount: seq<nat>, cmdidx: seq<nat>, n: nat, r: nat)
    requires r < |cmdCount| == |cmdidx| && n <= |cmdCount| && cmdidx[r] < cmdCount[r]
    ensures Pending(cmdCount, cmdidx[r := cmdidx[r] + 1], n) == Pending(cmdCount, cmdidx, n) - if r < n then 1 else 0
  {
    if n > 0 {
      PendingStep(cmdCount, cmdidx, n - 1, r);
    }
  }

  /** How many commands of each rule have been started: none before it leaves the run stack, all of them once it is
      executed and needed them. */
  ghost predicate Tally(cmdCount: seq<nat>, cmdidx: seq<nat>, needs: seq<bool>, pids: set<int>, queued: set<int>,
                        queue: seq<int>, executed: set<int>)
    requires |cmdidx| == |cmdCount| == |needs|
  {
    && (forall r | r in pids :: 0 <= r < |cmdCount| && 1 <= cmdidx[r] <= cmdCount[r])
    && (forall r | 0 <= r < |cmdCount| && (r !in queued || r in queue) :: cmdidx[r] == 0)
    && (forall r | 0 <= r < |cmdCount| && r in executed :: cmdidx[r] == if needs[r] then cmdCount[r] else 0)
  }

  /** Rule `r` is executed, after its last command, and with it rules that needed none. */
  lemma TallyDone(cmdCount: seq<nat>, cmdidx: seq<nat>, needs: seq<bool>, pids: set<int>, queued: set<int>,
                  queue: seq<int>, executed: set<int>, queued': set<int>, queue': seq<int>, executed': set<int>, r: int)
    requires |cmdidx| == |cmdCount| == |needs| && Tally(cmdCount, cmdidx, needs, pids, queued, queue, executed)
    requires 0 <= r < |cmdidx| && needs[r] && cmdidx[r] == cmdCount[r] && r in queued && r !in queue
    requires queued <= queued' && forall x | x in queue' :: x in queue || x !in queued
    requires forall x | x in executed' && x !in executed && x != r :: 0 <= x < |needs| && !needs[x] && x !in queued
    ensures Tally(cmdCount, cmdidx, needs, pids - {r}, queued', queue', executed')
  {
  }

  /** The part of a filtered list up to `x` comes from the part of the list up to `x`. */
  lemma {:induction false} WithoutPrefix(s: seq<int>, gone: set<int>, x: int)
    requires Distinct(s) && x in s && x !in gone
    ensures x in Without(s, gone)
    ensures forall i | 0 <= i <= CycleDetect.Position(Without(s, gone), x) ::
      Without(s, gone)[i] in s[..CycleDetect.Position(s, x) + 1]
  {
    var w := Without(s, gone);
    if s[0] != x {
      assert x in s[1..];
      assert Distinct(s[1..]);
      WithoutPrefix(s[1..], gone, x);
      var k := CycleDetect.Position(s[1..], x);
      assert s[..k + 2] == [s[0]] + s[1..][..k + 1];
      if s[0] !in gone {
        assert w[1..] == Without(s[1..], gone);
      }
    }
  }

  class RunLoop {
    const s: Scheduler
    const js: Jobserver
    /** How many commands each rule has. */
    const cmdCount: seq<nat>

    var children: int
    var cmdidx: seq<nat>
    /** The rules in the table from process ids to rules. */
    var pids: set<int>

    /** The largest number of children seen so far. */
    ghost var peak: int

    ghost predicate Valid()
      reads this, s, js
    {
      Core() && |js.held| == if children == 0 then 0 else children - 1
    }

    ghost predicate Core()
      reads this, s, js
    {
      && s.Valid({}) && s.under == {} && s.owed == {}
      && js.Valid() && |js.Tokens()| <= CAPACITY
      && s.running == pids && children == |pids|
      && children <= peak <= |js.Tokens()| + 1
      && |cmdidx| == |cmdCount| == |s.g.deps| == |s.needs|
      && (forall r | 0 <= r < |cmdCount| && s.needs[r] :: cmdCount[r] >= 1)
      && Tally(cmdCount, cmdidx, s.needs, pids, s.queued, s.queue, s.executed)
    }

    ghost function Work(): nat
      reads this
    {
      if |cmdidx| == |cmdCount| then Pending(cmdCount, cmdidx, |cmdCount|) else 0
    }

    constructor (s: Scheduler, js: Jobserver, cmdCount: seq<nat>)
      requires s.Valid({}) && s.under == {} && s.owed == {} && s.running == {} && s.executing == {}
      requires js.Valid() && |js.Tokens()| <= CAPACITY && js.held == []
      requires |cmdCount| == |s.g.deps| == |s.needs| && forall r | 0 <= r < |cmdCount| && s.needs[r] :: cmdCount[r] >= 1
      ensures Valid() && this.s == s && this.js == js && this.cmdCount == cmdCount && children == 0 && peak == 0
    {
      this.s, this.js, this.cmdCount := s, js, cmdCount;
      children, pids, peak := 0, {}, 0;
      cmdidx := seq(|cmdCount|, i => 0);
    }

    /** spawn_child: starts the next command of rule `r`. */
    method Spawn(r: int)
      requires 0 <= r < |cmdCount| == |cmdidx| && cmdidx[r] < cmdCount[r] && r !in pids
      modifies this
      ensures cmdidx == old(cmdidx)[r := old(cmdidx[r]) + 1]
      ensures Work() < old(Work())
      ensures pids == old(pids) + {r}
      ensures children == old(children) + if old(cmdidx[r]) == 0 then 1 else 0
      ensures peak == if children > old(peak) then children else old(peak)
    {
      PendingStep(cmdCount, cmdidx, |cmdCount|, r);
      var wasFirst := cmdidx[r] == 0;
      cmdidx := cmdidx[r := cmdidx[r] + 1];
      if wasFirst {
        children := children + 1;
      }
      pids := pids + {r};
      peak := if children > peak then children else peak;
    }

    /** Starts the rule on top of the run stack, with one token more than the running children need. */
    method StartOne()
      requires Core() && s.queue != [] && |js.held| == children
      modifies this, s`queue, s`running
      ensures Valid() && Work() <= old(Work()) && s.queue == old(s.queue)[..|old(s.queue)| - 1] && children > 0
    {
      hide Steps.Good;
      var r := s.Take();
      TokensHeld(js);
      Spawn(r);
    }

    /** Starts queued rules as long as tokens last; the first child needs none. */
    method SpawnQueued()
      requires Valid()
      modifies this, s`queue, s`running, js
      ensures Valid() && js.Tokens() == old(js.Tokens()) && Work() <= old(Work())
      ensures s.queue == [] || (children > 0 && js.Refused() && js.asked > old(js.asked))
      ensures s.queue <= old(s.queue)
    {
      hide Steps.Good;
      while |s.queue| > 0
        invariant Valid() && js.Tokens() == old(js.Tokens()) && Work() <= old(Work())
        invariant s.queue <= old(s.queue) && js.asked >= old(js.asked)
        decreases |s.queue|
      {
        if children != 0 {
          TokensHeld(js);
          var ok := js.Read();
          if !ok {
            break;
          }
        }
        StartOne();
      }
    }

    /** Handles one finished child: its rule's next command is started, or the rule is executed. */
    method Reap(r: int)
      requires Valid() && r in pids
      modifies this, s, js
      ensures s.exited ==> s.Missing()
      ensures !s.exited ==> Valid() && js.Tokens() == old(js.Tokens())
      ensures !s.exited ==>
        s.roots == Without(old(s.roots), s.executed) && old(s.executed) <= s.executed && old(s.executing) <= s.executing
      ensures !s.exited ==> s.Budget() < old(s.Budget()) || (s.Budget() == old(s.Budget()) && Work() < old(Work()))
      ensures old(cmdidx[r]) < cmdCount[r] ==>
        !s.exited && s.View() == old(s.View()) && r in pids && cmdidx == old(cmdidx)[r := old(cmdidx[r]) + 1]
      ensures old(cmdidx[r]) == cmdCount[r] && !s.exited ==> r in s.executed && r !in pids && cmdidx == old(cmdidx)
      ensures !s.exited ==> old(s.history) <= s.history
      ensures !s.exited ==> s.asked == old(s.asked)
      ensures !s.exited ==> forall p, b | Steps.Doomed(s.Cfg(), s.asked, p, b) && p !in old(s.queued) :: p !in s.queued
    {
      hide Steps.Good, Left, Without, Steps.Doomed, Core;
      CoreGood();
      Steps.RootsStay(s.Cfg(), s.View());
      Counts(r);
      if cmdidx[r] < cmdCount[r] {
        NextCommand(r);
      } else {
        LastCommand(r);
      }
    }

    lemma Counts(r: int)
      requires Core() && r in pids
      ensures 0 <= r < |cmdidx| == |cmdCount| && 1 <= cmdidx[r] <= cmdCount[r]
    {
    }

    /** The next command of a rule that is not ready. */
    method NextCommand(r: int)
      requires Valid() && r in pids && 0 <= r < |cmdidx| == |cmdCount| && cmdidx[r] < cmdCount[r]
      modifies this
      ensures Valid() && Work() < old(Work()) && pids == old(pids) && cmdidx == old(cmdidx)[r := old(cmdidx[r]) + 1]
    {
      hide Steps.Good;
      Steps.Sizes(s.Cfg(), s.View(), {});
      pids := pids - {r};
      Spawn(r);
      assert pids == old(pids);
    }

    /** The last command of a rule has finished. */
    method LastCommand(r: int)
      requires Valid() && r in pids && 0 <= r < |cmdidx| == |cmdCount| && cmdidx[r] == cmdCount[r]
      modifies this, s, js
      ensures s.exited ==> s.Missing()
      ensures !s.exited ==> Valid() && js.Tokens() == old(js.Tokens()) && cmdidx == old(cmdidx) && r !in pids
      ensures !s.exited ==>
        s.roots == Without(old(s.roots), s.executed) && old(s.executed) <= s.executed && old(s.executing) <= s.executing
      ensures !s.exited ==> s.Budget() < old(s.Budget()) && r in s.executed
      ensures !s.exited ==> s.asked == old(s.asked) && old(s.history) <= s.history
      ensures !s.exited ==> forall p, b | Steps.Doomed(s.Cfg(), s.asked, p, b) && p !in old(s.queued) :: p !in s.queued
    {
      hide Steps.Good, Left, Without, Steps.Doomed, Tally;
      Steps.RunningNeeds(s.Cfg(), s.View(), r);
      pids := pids - {r};
      assert old(pids) == pids + {r};
      children := children - 1;
      if children != 0 {
        js.Write();
      }
      ghost var t := s.View();
      CompleteRule(r);
      if !s.exited {
        TallyDone(cmdCount, cmdidx, s.needs, old(pids), t.queued, t.queue, t.executed, s.queued, s.queue, s.executed,
          r);
      }
    }

    /** Marks a finished rule executed.  In a doomed build this never queues the requested rule. */
    method CompleteRule(r: int)
      requires s.Valid({}) && r in s.running && s.under == {} && s.owed == {}
      modifies s
      ensures s.exited ==> s.Missing()
      ensures !s.exited ==> s.Valid({}) && s.under == {} && s.owed == {} && s.running == old(s.running) - {r}
      ensures !s.exited ==>
        s.Budget() < old(s.Budget()) && r in s.executed && s.roots == Without(old(s.roots), s.executed)
      ensures !s.exited ==>
        old(s.executing) <= s.executing && old(s.queued) <= s.queued && old(s.executed) <= s.executed
      ensures !s.exited ==> forall x | x in s.queue :: x in old(s.queue) || x !in old(s.queued)
      ensures !s.exited ==> old(s.history) <= s.history
      ensures !s.exited ==> forall x | x in s.executed && x !in old(s.executed) && x != r ::
        0 <= x < |s.needs| && !s.needs[x] && x !in old(s.queued)
      ensures !s.exited ==> s.asked == old(s.asked)
      ensures !s.exited ==> forall p, b | Steps.Doomed(s.Cfg(), s.asked, p, b) && p !in old(s.queued) :: p !in s.queued
    {
      hide Steps.Good, Left, Without;
      ghost var t := s.View();
      s.Complete(r);
      if !s.exited {
        forall p, b | Steps.Doomed(s.Cfg(), s.asked, p, b) && p !in t.queued
          ensures p !in s.queued
        {
          Steps.StillWaits(s.Cfg(), t, p, b, r);
          if r != b {
            Steps.NotBefore(s.Cfg(), s.View(), p, b);
          }
        }
      }
    }

    method ConsiderRoot(root: int) returns (b: bool)
      requires Valid() && children == 0 && root in s.roots && (s.Cfg().Ranked() ==> root in s.scope)
      modifies s
      ensures s.exited ==> s.Missing()
      ensures !s.exited ==> Valid() && s.roots == Without(old(s.roots), s.executed)
      ensures !s.exited ==> old(s.executing) <= s.executing && old(s.executed) <= s.executed && root in s.executing
      ensures !s.exited ==> s.Budget() <= old(s.Budget()) && (b ==> s.Budget() < old(s.Budget()))
      ensures !s.exited && !b ==> root !in s.executed
      ensures !s.exited ==> s.ran == old(s.ran) && s.asked == old(s.asked)
      ensures !s.exited && !b && s.executed != old(s.executed) ==> s.Budget() < old(s.Budget())
    {
      hide Steps.Good, Left, Without, Evolves;
      ghost var t := s.View();
      Steps.Sizes(s.Cfg(), t, {});
      Steps.RootsStay(s.Cfg(), t);
      Ready(root);
      b := s.Consider(root);
      if !s.exited {
        EvolvesBasics(s.g, t, s.View(), t.under);
        LeftEvolves(s.g, t, s.View(), t.under);
        Steps.ExecutedUnrun(s.Cfg(), t, s.View(), {});
        Steps.QueueFresh(s.Cfg(), t, s.View(), {});
        Steps.Sizes(s.Cfg(), s.View(), {});
      }
    }

    /** A requested rule may be considered. */
    lemma Ready(root: int)
      requires s.under == {} && root in s.asked && (s.Cfg().Ranked() ==> root in s.scope)
      ensures Licensed(s.g, s.View(), root) && s.InOrder(root, s.under)
    {
    }

    /** One pass over the list of requested rules, given up when a rule on it has been executed. */
    method Pass(ghost roots0: seq<int>) returns (again: bool)
      requires Valid() && children == 0 && s.roots == Without(roots0, s.executed)
      requires s.Cfg().Ranked() ==> forall x | x in roots0 :: x in s.scope
      modifies s
      ensures s.exited ==> s.Missing()
      ensures !s.exited ==> Valid() && s.roots == Without(roots0, s.executed)
      ensures !s.exited ==> s.Budget() <= old(s.Budget()) && (again ==> s.Budget() < old(s.Budget()))
      ensures !s.exited && !again ==> forall x | x in s.roots :: x in s.executing
      ensures !s.exited ==> s.ran == old(s.ran) && s.asked == old(s.asked)
    {
      hide Steps.Good, Left, Without, Evolves, Core;
      again := false;
      CoreGood();
      var i := 0;
      while i < |s.roots|
        invariant Valid() && s.roots == Without(roots0, s.executed) && 0 <= i <= |s.roots|
        invariant s.Budget() <= old(s.Budget()) && s.ran == old(s.ran) && s.asked == old(s.asked)
        invariant forall j | 0 <= j < i :: s.roots[j] in s.executing
        decreases s.Budget(), |s.roots| - i
      {
        ghost var before := s.View();
        var root := s.roots[i];
        CoreGood();
        Steps.RootsStay(s.Cfg(), before);
        WithoutMembers(roots0, before.executed);
        var b := ConsiderRoot(root);
        if s.exited {
          return;
        }
        WithoutTwice(roots0, before.executed, s.executed);
        if b {
          again := true;
          return;
        }
        i := NextRoot(before, root, i);
      }
      CoreGood();
    }

    /** The list position after `root`, in a list from which executed rules may have gone. */
    method NextRoot(ghost before: State, root: int, ghost i: int) returns (next: int)
      requires Distinct(before.roots) && 0 <= i < |before.roots| && before.roots[i] == root && root !in s.executed
      requires s.roots == Without(before.roots, s.executed) && before.executing <= s.executing && root in s.executing
      requires forall j | 0 <= j < i :: before.roots[j] in before.executing
      requires forall x | x in before.roots :: x !in before.executed
      ensures 0 < next <= |s.roots| && forall j | 0 <= j < next :: s.roots[j] in s.executing
      ensures s.executed == before.executed ==> next == i + 1 && s.roots == before.roots
    {
      if s.executed == before.executed {
        WithoutNone(before.roots, s.executed);
        assert before.roots[CycleDetect.Position(before.roots, root)] == before.roots[i];
      }
      WithoutPrefix(before.roots, s.executed, root);
      assert root in before.roots;
      next := CycleDetect.Position(s.roots, root) + 1;
      forall j | 0 <= j < next
        ensures s.roots[j] in s.executing
      {
        var x := s.roots[j];
        assert x in before.roots[..i + 1];
      }
    }

    lemma CoreGood()
      requires Core()
      ensures s.Valid({}) && s.under == {} && s.owed == {} && peak <= |js.Tokens()| + 1
    {
    }

    /** Considers every requested rule, starting over whenever some rule was executed on the way. */
    method ConsiderRoots()
      requires Valid() && children == 0
      requires s.Cfg().Ranked() ==> forall x | x in s.roots :: x in s.scope
      modifies s
      ensures s.exited ==> s.Missing()
      ensures !s.exited ==> Valid() && s.roots == Without(old(s.roots), s.executed)
      ensures !s.exited ==> forall x | x in old(s.roots) :: x in s.executing
      ensures !s.exited ==> s.ran == old(s.ran) && s.asked == old(s.asked)
    {
      hide Steps.Good, Left, Without, Evolves, Core;
      ghost var roots0 := s.roots;
      CoreGood();
      Steps.RootsStay(s.Cfg(), s.View());
      var again := true;
      while again
        invariant Valid() && s.roots == Without(roots0, s.executed)
        invariant !again ==> forall x | x in s.roots :: x in s.executing
        invariant s.ran == old(s.ran) && s.asked == old(s.asked)
        decreases s.Budget(), again
      {
        again := Pass(roots0);
        if s.exited {
          return;
        }
      }
      WithoutMembers(roots0, s.executed);
      CoreGood();
      Steps.Sizes(s.Cfg(), s.View(), {});
    }

    /** One return from select: any positive number of children have finished, in any order, then queued rules
        are started. */
    method Wakeup(ghost roots0: seq<int>)
      requires Valid() && children > 0 && s.roots == Without(roots0, s.executed)
      requires forall x | x in roots0 :: x in s.executing
      modifies this, s, js
      ensures s.exited ==> s.Missing()
      ensures !s.exited ==> Valid() && js.Tokens() == old(js.Tokens()) && s.roots == Without(roots0, s.executed)
      ensures !s.exited ==> forall x | x in roots0 :: x in s.executing
      ensures !s.exited ==> s.queue == [] || children > 0
      ensures !s.exited ==> s.Budget() < old(s.Budget()) || (s.Budget() == old(s.Budget()) && Work() < old(Work()))
      ensures !s.exited ==> s.asked == old(s.asked) && old(s.history) <= s.history
      ensures !s.exited ==> forall p, b | Steps.Doomed(s.Cfg(), s.asked, p, b) && p !in old(s.queued) :: p !in s.queued
    {
      hide Steps.Good, Left, Without, Core, Steps.Doomed;
      CoreGood();
      Meanwhile();
      var more := true;
      while more && children > 0
        invariant Valid() && js.Tokens() == old(js.Tokens()) && s.roots == Without(roots0, s.executed)
        invariant forall x | x in roots0 :: x in s.executing
        invariant s.Budget() < old(s.Budget()) || (s.Budget() == old(s.Budget()) && Work() <= old(Work()))
        invariant s.asked == old(s.asked) && old(s.history) <= s.history
        invariant forall p, b | Steps.Doomed(s.Cfg(), s.asked, p, b) && p !in old(s.queued) :: p !in s.queued
        invariant (more && children > 0) || s.Budget() < old(s.Budget()) || Work() < old(Work())
        decreases s.Budget(), Work(), more
      {
        ghost var executed0 := s.executed;
        var r := AnyChild();
        Reap(r);
        if s.exited {
          return;
        }
        WithoutTwice(roots0, executed0, s.executed);
        more := *;
      }
      CoreGood();
      SpawnQueued();
    }

    /** Other processes use the pool while select waits. */
    method Meanwhile()
      requires Valid()
      modifies js`pipe, js`away
      ensures Valid() && js.Tokens() == old(js.Tokens())
    {
      hide Steps.Good;
      js.Others();
    }

    lemma Idle()
      requires Core() && children == 0
      ensures s.Valid({}) && s.running == {} && s.under == {} && s.owed == {}
      ensures s.executing == {} ==> s.ran == {}
    {
    }

    /** Without children and queued rules, everything reachable from the requested rules is executed, or some of
        them are left over because a rule below them was passed over. */
    lemma AllBuilt(roots0: seq<int>)
      requires Core() && children == 0 && s.queue == []
      requires s.roots == Without(roots0, s.executed) && forall x | x in roots0 :: x in s.executing
      ensures s.roots == [] ==> forall r, x | r in roots0 && s.g.Reaches(r, x) :: x in s.executed
      ensures s.Cfg().Ranked() ==>
        (s.roots != [] <==> exists r, x :: r in roots0 && s.g.Reaches(r, x) && Steps.Forgotten(s.g, s.View(), x))
      ensures s.Cfg().Tamed() || s.Cfg().Idle() ==> s.roots == []
    {
      hide Steps.Good, Without, Steps.Forgotten, Config.Ranked, Config.Guarded;
      Idle();
      WithoutMembers(roots0, s.executed);
      assert s.roots == [] || s.roots[0] in s.roots;
      forall r | r in roots0 && r in s.executed
        ensures forall x | s.g.Reaches(r, x) :: x in s.executed && !Steps.Forgotten(s.g, s.View(), x)
      {
        Steps.ReachedExecuted(s.Cfg(), s.View(), r);
        forall x | Steps.Forgotten(s.g, s.View(), x)
          ensures x !in s.executed
        {
          Steps.ForgottenUnexecuted(s.Cfg(), s.View(), x);
        }
      }
      if s.Cfg().Ranked() && s.roots != [] {
        var r := s.roots[0];
        assert r in roots0 && r !in s.executed;
        var x := Steps.Unfinished(s.Cfg(), s.View(), r);
      }
    }

    /** A doomed build has never queued the requested rule when it ends. */
    lemma Aborts(roots0: seq<int>, p: int, b: int)
      requires Core() && children == 0 && s.roots == Without(roots0, s.executed) && p in roots0 && p !in s.queued
      ensures s.roots != []
    {
      Idle();
      Steps.Sizes(s.Cfg(), s.View(), {});
      WithoutMembers(roots0, s.executed);
      assert p in s.roots;
    }

    method AnyChild() returns (r: int)
      requires Core() && children > 0
      ensures r in pids
    {
      r :| r in pids;
    }

    /** A build from the first consideration to the last child.  `nothing` is the "Nothing to be done" message,
        `outOfChildren` the abort that follows when some requested rule is left over. */
    method Run() returns (nothing: bool, outOfChildren: bool)
      requires Valid() && children == 0 && s.executing == {}
      requires s.Cfg().Ranked() ==> forall x | x in s.roots :: x in s.scope
      modifies this, s, js
      ensures s.exited ==> s.Missing()
      ensures !s.exited ==> Valid() && js.Tokens() == old(js.Tokens()) && peak <= |old(js.Tokens())| + 1
      ensures !s.exited ==> s.queue == [] && children == 0 && (outOfChildren <==> s.roots != [])
      ensures !s.exited ==>
        s.g.WellFormed() && Ordered(s.g, s.history) && forall r :: Done(r) in s.history <==> r in s.executed
      ensures !s.exited && s.Cfg().Ranked() ==> forall e | e in s.history :: e.rule in s.scope
      ensures !s.exited ==> (nothing <==> forall r :: Queued(r) !in s.history)
      ensures !s.exited ==> |cmdidx| == |s.g.deps| == |s.needs| == |cmdCount|
      ensures !s.exited ==> forall r | 0 <= r < |cmdidx| ::
        cmdidx[r] == if r in s.executed && s.needs[r] then cmdCount[r] else 0
      ensures !s.exited && s.Cfg().Idle() ==> nothing
      ensures !s.exited ==> forall r :: Queued(r) in s.history ==> Done(r) in s.history
      ensures !s.exited ==> forall r | r in s.executed :: 0 <= r < |s.needs| && (Queued(r) in s.history <==> s.needs[r])
      ensures !s.exited && !outOfChildren ==> forall r, x | r in old(s.roots) && s.g.Reaches(r, x) :: x in s.executed
      ensures !s.exited && s.Cfg().Ranked() ==>
        (outOfChildren <==> exists r, x :: r in old(s.roots) && s.g.Reaches(r, x) && Steps.Forgotten(s.g, s.View(), x))
      ensures !s.exited && (s.Cfg().Tamed() || s.Cfg().Idle()) ==> !outOfChildren
      ensures !s.exited ==>
        forall p, b | Steps.Doomed(s.Cfg(), old(s.asked), p, b) && p in old(s.roots) :: outOfChildren
    {
      hide Steps.Good, Left, Without, Evolves, Core, Steps.Doomed, Steps.Forgotten, Config.Ranked, Config.Guarded,
        Config.Idle;
      nothing, outOfChildren := false, false;
      ghost var roots0 := s.roots;
      Idle();
      ConsiderRoots();
      if s.exited {
        return;
      }
      NotYet();
      if |s.queue| == 0 {
        nothing := true;
        Idle();
        Steps.NothingQueued(s.Cfg(), s.View());
      } else {
        ghost var first := s.queue[0];
        ghost var early := s.history;
        WasQueued(first);
        SpawnQueued();
        while children > 0
          invariant Valid() && js.Tokens() == old(js.Tokens())
          invariant s.queue == [] || children > 0
          invariant early <= s.history
          invariant s.roots == Without(roots0, s.executed) && s.asked == old(s.asked)
          invariant forall x | x in roots0 :: x in s.executing
          invariant forall p, b | Steps.Doomed(s.Cfg(), s.asked, p, b) :: p !in s.queued
          decreases s.Budget(), Work()
        {
          Wakeup(roots0);
          if s.exited {
            return;
          }
        }
      }
      AllRun();
      if s.roots != [] {
        outOfChildren := true;
      }
      AllBuilt(roots0);
      forall p, b | Steps.Doomed(s.Cfg(), s.asked, p, b) && p in roots0
        ensures outOfChildren
      {
        Aborts(roots0, p, b);
      }
      CoreGood();
      Idle();
      Steps.AllSettled(s.Cfg(), s.View());
      Steps.HistoryOf(s.Cfg(), s.View());
    }

    lemma WasQueued(r: int)
      requires Core() && r in s.queue
      ensures Queued(r) in s.history
    {
      Steps.Logged(s.Cfg(), s.View(), r);
    }

    /** Without children and queued rules, every command of the executed rules that needed them has been started, and
        no other. */
    lemma AllRun()
      requires Core() && children == 0 && s.queue == []
      ensures |cmdidx| == |s.g.deps| == |s.needs| == |cmdCount|
      ensures forall r | 0 <= r < |cmdidx| :: cmdidx[r] == if r in s.executed && s.needs[r] then cmdCount[r] else 0
    {
      hide Steps.Good;
      Idle();
      Steps.AllDecided(s.Cfg(), s.View());
    }

    /** Before any command has run, the requested rule of a doomed build is not queued, and an idle build has queued
        nothing. */
    lemma NotYet()
      requires Core() && s.ran == {}
      ensures forall p, b | Steps.Doomed(s.Cfg(), s.asked, p, b) :: p !in s.queued
      ensures s.Cfg().Idle() ==> s.queue == []
    {
      hide Steps.Good;
      if s.Cfg().Idle() {
        Steps.IdleQueue(s.Cfg(), s.View());
      }
      forall p, b | Steps.Doomed(s.Cfg(), s.asked, p, b)
        ensures p !in s.queued
      {
        Steps.NotBefore(s.Cfg(), s.View(), p, b);
      }
    }
  }

  /** A process holds no more tokens than there are. */
  lemma TokensHeld(js: Jobserver)
    ensures |js.held| <= |js.Tokens()|
  {
    assert |multiset(js.held)| == |js.held|;
  }
}
