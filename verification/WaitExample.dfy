/** The smallest build that a wait marker keeps from finishing, and what makes it finish. */
module WaitExample {
  import opened BuildGraph
  import opened Build
  import CycleDetect
  import SchedulerSteps

  /** Rule 0 depends on rule 1 and, behind a wait marker, on rule 2. */
  const TARGET := [Dep(1, 1, false, false, false, false), Dep(2, 2, false, true, false, false)]
  const GRAPH := Graph([TARGET, [], []], [[], [0], [0]])

  lemma Edges()
    ensures GRAPH.Edges(0) == {1, 2} && GRAPH.Edges(1) == {} && GRAPH.Edges(2) == {}
    ensures GRAPH.WellFormed()
  {
    assert GRAPH.IsEdge(0, 0) && GRAPH.IsEdge(0, 1);
  }

  lemma AllNeeded()
    ensures forall x :: Needed(GRAPH, [0], x) <==> x in [1, 2, 0]
    ensures CycleDetect.Topological(GRAPH, [1, 2, 0])
  {
    Edges();
    assert GRAPH.WalkFromTo([0], 0, 0) && GRAPH.WalkFromTo([0, 1], 0, 1) && GRAPH.WalkFromTo([0, 2], 0, 2);
    assert forall x :: x in [1, 2, 0] ==> GRAPH.Reaches([0][0], x);
    var order := [1, 2, 0];
    assert order[..2] == [1, 2];
  }

  lemma Stops()
    ensures StopsAtWait(GRAPH, [true, true, false], [0], 0, 1)
  {
    Edges();
    assert GRAPH.WalkFromTo([1], 1, 1);
    assert GRAPH.deps[0] == TARGET;
    assert SchedulerSteps.AfterMarker(GRAPH, 0, 1, 1);
    assert SchedulerSteps.Late(GRAPH, 0, 1, 2);
    AllNeeded();
  }

  lemma NothingMissing(present: set<nat>)
    ensures !FileMissing(GRAPH, present, [0])
  {
  }

  /** With rules 0 and 1 to be made, every build aborts when rule 2 is up to date, and none when it is to be made. */
  method MakeTarget(present: set<nat>, cmdCount: seq<nat>, jobcnt: int, second: bool) returns (outcome: Outcome)
    requires |cmdCount| == 3 && cmdCount[0] >= 1 && cmdCount[1] >= 1 && cmdCount[2] >= 1
    requires 1 <= jobcnt <= 1000
    ensures outcome == if second then Built else OutOfChildren
  {
    hide PassedOver, StopsAtWait, UpToDate, FileMissing, CycleDetect.Topological, Graph.WellFormed;
    Edges();
    AllNeeded();
    NothingMissing(present);
    var s, loop;
    outcome, s, loop := Execute(GRAPH, [true, true, second], present, [0], [1, 2, 0], cmdCount, jobcnt);
    if second {
      assert MadeBehindWaits(GRAPH, [true, true, second], [0]);
      assert Needed(GRAPH, [0], 0) && 0 in s.executed;
    } else {
      Stops();
    }
  }
}
