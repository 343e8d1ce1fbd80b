/** Two whole builds of one project: what the run loop did, the decisions on files and databases that go with it, and
    the second build after the databases went through their file. */
module TwoMakes {
  import opened BuildGraph
  import opened SchedulerState
  import opened BuildFiles
  import opened NullBuild
  import opened SecondBuild
  import opened Bytes
  import opened DbTable
  import opened LiteralCode
  import opened Persist
  import opened Options
  import Build
  import CycleDetect
  import Jobserver

  /** What a build that ran to its end leaves in its history. */
  lemma AllMade(s: Build.Sched.Scheduler, loop: Build.Run.RunLoop, roots: seq<int>, cmdCount: seq<nat>, jobcnt: int)
    requires Build.Finished(loop, s, roots, cmdCount, jobcnt)
    requires forall x | Build.Needed(s.g, roots, x) :: x in s.executed
    ensures Ordered(s.g, s.history) && forall e | e in s.history && e.Queued? :: Done(e.rule) in s.history
    ensures forall x | Build.Needed(s.g, roots, x) :: Done(x) in s.history
    ensures forall x | Build.Needed(s.g, roots, x) :: 0 <= x < |s.needs| && (Queued(x) in s.history <==> s.needs[x])
  {
    forall e | e in s.history && e.Queued?
      ensures Done(e.rule) in s.history
    {
      assert e == Queued(e.rule);
    }
  }

  /** A build with any answers `needs1` for do_exec, then one with any answers `needs2`.  When the first ran to its end
      and its answers are those that files and databases give (`first`), and the databases can be stored, the answers
      of the second are those that files and databases give (`second`) exactly when it queued nothing; and with
      answers that make nothing the second build does end with nothing to do. */
  method BuildTwice(p: Plan, fs: map<nat, Stat>, db: map<nat, CmdEntry>, tsdb: map<nat, TsEntry>,
                    roots: seq<int>, ghost order: seq<int>, present: set<nat>, needs1: seq<bool>, needs2: seq<bool>,
                    cmdCount: seq<nat>, jobcnt: int,
                    names: seq<seq<Byte>>, accept: array<bool>, reject: array<seq<Byte>>, hash: nat -> nat, sz: nat)
      returns (outcome1: Build.Outcome, outcome2: Build.Outcome, s1: Build.Sched.Scheduler?,
               s2: Build.Sched.Scheduler?, first: Reply, second: Reply, a: BuildDb?, dbl: seq<Node<CmdEntry>>,
               tsl: seq<Node<TsEntry>>, ghost mids: seq<World>, ghost afters: seq<World>)
    requires p.Valid() && p.g.WellFormed() && SourcesExist(p, fs)
    requires |needs1| == |needs2| == |cmdCount| == |p.g.deps| && forall r | 0 <= r < |cmdCount| :: cmdCount[r] >= 1
    requires 1 <= jobcnt <= Jobserver.MAX_JOBCNT && forall i | 0 <= i < |roots| :: 0 <= roots[i] < |p.g.deps|
    requires CycleDetect.Topological(p.g, order) && forall x :: x in order <==> Build.Needed(p.g, roots, x)
    requires Tables(accept[..], reject[..]) && sz > 0 && Strings(names)
    ensures s1 != null ==> s1.g == p.g && s1.needs == needs1
    ensures s2 != null ==> s2.g == p.g && s2.needs == needs2
    ensures outcome1 == Build.MissingFile <==> s1 == null
    ensures outcome2 == Build.MissingFile <==> s2 == null
    ensures Ended(outcome1) && s2 != null ==>
      Replayed(p, NewWorld(p, fs, db, tsdb), s1.history, mids, afters, first)
    ensures Ended(outcome1) && s2 != null && first == Agreed ==> a != null && AsMap(dbl) == a.db && AsMap(tsl) == a.tsdb
    ensures Ended(outcome1) && s2 != null && first == Agreed ==>
      && |afters| == |s1.history|
      && Saved(p, Before(NewWorld(p, fs, db, tsdb), afters, |afters|), a.View())
    ensures Ended(outcome1) && s2 != null && first == Agreed && CommandsOk(names, dbl) && StampsStorable(names, tsl) ==>
      (second == Agreed <==> forall r :: Queued(r) !in s2.history) &&
        (second == Agreed && Ended(outcome2) ==> Build.UpToDate(p.g, needs2, roots))
    ensures Build.UpToDate(p.g, needs2, roots) && s2 != null ==> outcome2 == Build.NothingToDo
  {
    hide CommandsOk, StampsStorable, Tables, Strings, SourcesExist, Plan.Valid, CycleDetect.Topological, Replayed,
      Saved, Before, NewWorld;
    first, second, a, dbl, tsl, mids, afters := GaveUp, GaveUp, null, [], [], [], [];
    var loop1, loop2;
    outcome1, s1, loop1 := Build.Execute(p.g, needs1, present, roots, order, cmdCount, jobcnt);
    outcome2, s2, loop2 := Build.Execute(p.g, needs2, present, roots, order, cmdCount, jobcnt);
    if Ended(outcome1) && s2 != null {
      AllMade(s1, loop1, roots, cmdCount, jobcnt);
      first, a, dbl, tsl, second, mids, afters :=
        TwoBuilds(p, fs, db, tsdb, s1.history, s2.history, names, accept, reject, hash, sz);
      if Ended(outcome2) {
        AllMade(s2, loop2, roots, cmdCount, jobcnt);
      }
    }
  }

  /** The build came to its end with everything made. */
  predicate Ended(outcome: Build.Outcome) {
    outcome == Build.NothingToDo || outcome == Build.Built
  }
}
