/** The rules of one Stirfile as the scheduler sees them: numbered rules, each with an ordered list of
    dependencies, and the reverse index from a rule to the rules that depend on it. */
module BuildGraph {

  /** One entry of a rule's dependency list.  `rule` is the number of the rule that makes the
      dependency, or -1 when no rule does. */
  datatype Dep = Dep(name: nat, rule: int, isOrderOnly: bool, isWait: bool, isDupe: bool, isInc: bool)

  datatype Graph = Graph(deps: seq<seq<Dep>>, index: seq<seq<int>>)
  {
    /** Dependency `i` of rule `r` is an edge: not a repeated name, and made by a rule. */
    predicate IsEdge(r: int, i: int)
      requires 0 <= r < |deps| && 0 <= i < |deps[r]|
    {
      !deps[r][i].isDupe && deps[r][i].rule >= 0
    }

    /** The rules that rule `r` depends on. */
    function Edges(r: int): set<int>
      requires 0 <= r < |deps|
    {
      set i | 0 <= i < |deps[r]| && IsEdge(r, i) :: deps[r][i].rule
    }

    /** Every dependency rule exists. */
    ghost predicate Closed() {
      forall r, i | 0 <= r < |deps| && 0 <= i < |deps[r]| :: deps[r][i].rule < |deps|
    }

    /** The reverse index mirrors the edges, and a repeated name repeats its rule. */
    ghost predicate WellFormed() {
      && |index| == |deps|
      && Closed()
      && (forall r, i | 0 <= r < |deps| && 0 <= i < |deps[r]| && deps[r][i].rule >= 0 :: deps[r][i].rule in Edges(r))
      && (forall d, i | 0 <= d < |index| && 0 <= i < |index[d]| :: 0 <= index[d][i] < |deps| && d in Edges(index[d][i]))
      && (forall r, d | 0 <= r < |deps| && d in Edges(r) :: r in index[d])
    }

    /** Rule numbers, each depending on the next. */
    ghost predicate Walk(p: seq<int>) {
      && (forall i | 0 <= i < |p| :: 0 <= p[i] < |deps|)
      && (forall i | 0 <= i < |p| - 1 :: p[i + 1] in Edges(p[i]))
    }

    ghost predicate WalkFromTo(p: seq<int>, a: int, b: int) {
      |p| > 0 && Walk(p) && p[0] == a && p[|p| - 1] == b
    }

    /** Rule `a` depends on rule `b`, directly or not, or is `b`. */
    ghost predicate Reaches(a: int, b: int) {
      exists p :: WalkFromTo(p, a, b)
    }

    /** Some walk from `a` comes back to a rule it has already visited. */
    ghost predicate CyclicFrom(a: int) {
      exists p, i, j :: 0 <= i < j < |p| && Walk(p) && p[0] == a && p[i] == p[j]
    }
  }

  /** The rule numbers 0, 1, ..., n-1. */
  function Numbers(n: nat): (s: set<int>)
    ensures |s| == n
    ensures forall i :: i in s <==> 0 <= i < n
  {
    if n == 0 then {} else Numbers(n - 1) + {n - 1}
  }
}
