/** The reverse index from a rule to its dependents: chained blocks, a list of entries deferred until their rule is
    known, and what makes the index complete. */
module DependentIndex {
  import opened BuildGraph
  import opened Sequences

  const INDEX_BLOCK := 16
  const LATER_BLOCK := 510

  /** The entries of a chain of blocks, in order. */
  function Flatten<T>(blocks: seq<seq<T>>): seq<T> {
    if blocks == [] then [] else Flatten(blocks[..|blocks| - 1]) + blocks[|blocks| - 1]
  }

  /** No block is empty or overfull, and only the last one has room. */
  ghost predicate Chained<T>(blocks: seq<seq<T>>, cap: nat) {
    && (forall i | 0 <= i < |blocks| :: 0 < |blocks[i]| <= cap)
    && (forall i | 0 <= i < |blocks| - 1 :: |blocks[i]| == cap)
  }

  /** Appends to the last block of a chain, after chaining a new block when it is full. */
  method Append<T>(blocks: seq<seq<T>>, cap: nat, x: T) returns (chain: seq<seq<T>>)
    requires Chained(blocks, cap) && cap > 0
    ensures Chained(chain, cap) && Flatten(chain) == Flatten(blocks) + [x]
  {
    hide Flatten;
    chain := blocks;
    if chain == [] {
      chain := [[]];
    }
    var blk := |chain| - 1;
    while |chain[blk]| >= cap
      invariant 0 <= blk < |chain|
      invariant chain == blocks || chain == blocks + [[]]
      invariant chain != blocks ==> blk == |blocks|
      invariant chain == blocks ==> blk == |chain| - 1
      invariant chain == blocks + [[]] ==> blocks == [] || |blocks[|blocks| - 1]| == cap
      decreases |blocks| + 1 - blk
    {
      if blk + 1 == |chain| {
        chain := chain + [[]];
      }
      blk := blk + 1;
    }
    FlattenLast(chain, chain[blk] + [x]);
    FlattenEmpty(blocks);
    assert Flatten(chain) == Flatten(blocks);
    chain := chain[blk := chain[blk] + [x]];
  }

  /** Changing the last block. */
  lemma FlattenLast<T>(blocks: seq<seq<T>>, b: seq<T>)
    requires blocks != []
    ensures var n := |blocks| - 1;
      Flatten(blocks) == Flatten(blocks[..n]) + blocks[n] && Flatten(blocks[n := b]) == Flatten(blocks[..n]) + b
  {
    var n := |blocks| - 1;
    assert blocks[n := b][..n] == blocks[..n];
  }

  lemma FlattenEmpty<T>(blocks: seq<seq<T>>)
    ensures Flatten(blocks + [[]]) == Flatten(blocks)
  {
    assert (blocks + [[]])[..|blocks|] == blocks;
  }

  /** One entry of a dependency list before rules are looked up by name. */
  datatype RawDep = RawDep(name: nat, isOrderOnly: bool, isWait: bool, isDupe: bool, isInc: bool)

  /** A dependency as a rule lists it: name, `@orderonly`, `@wait`. */
  predicate Plain(d: RawDep, given: (nat, bool, bool)) {
    d.name == given.0 && d.isOrderOnly == given.1 && d.isWait == given.2 && !d.isInc
  }

  /** One additional dependency; `dep` is -1 in the entry that only announces the target. */
  datatype Extra = Extra(tgt: nat, dep: int, isInc: bool)

  /** Target `tgt` has been announced. */
  ghost predicate Heralded(extras: seq<Extra>, tgt: nat) {
    exists j :: 0 <= j < |extras| && extras[j].tgt == tgt && extras[j].dep < 0
  }

  /** Every target with additional dependencies has been announced. */
  ghost predicate Announced(extras: seq<Extra>) {
    forall k | 0 <= k < |extras| :: Heralded(extras, extras[k].tgt)
  }

  lemma HeraldedAt(extras: seq<Extra>, k: nat)
    requires k < |extras| && extras[k].dep < 0
    ensures Heralded(extras, extras[k].tgt)
  {
  }

  lemma HeraldedIn(extras: seq<Extra>, known: set<nat>)
    requires forall k | 0 <= k < |extras| && extras[k].dep < 0 :: extras[k].tgt in known
    ensures forall m | Heralded(extras, m) :: m in known
  {
  }

  lemma HeraldedStays(extras: seq<Extra>, e: Extra)
    requires Announced(extras) && (e.dep < 0 || Heralded(extras, e.tgt))
    ensures Announced(extras + [e]) && Heralded(extras + [e], e.tgt)
    ensures forall t | Heralded(extras, t) :: Heralded(extras + [e], t)
  {
    var es := extras + [e];
    forall t | Heralded(extras, t)
      ensures Heralded(es, t)
    {
      var j :| 0 <= j < |extras| && extras[j].tgt == t && extras[j].dep < 0;
      assert es[j] == extras[j];
    }
    assert e.dep < 0 ==> es[|extras|].dep < 0;
  }

  function Rules(s: seq<(nat, int)>): (r: seq<int>)
    ensures |r| == |s| && forall i | 0 <= i < |s| :: r[i] == s[i].1
  {
    seq(|s|, i requires 0 <= i < |s| => s[i].1)
  }

  /** `names` are the names in a dependency list, and exactly the repeated ones are marked. */
  ghost predicate Named(deps: seq<RawDep>, names: set<nat>) {
    && (forall i | 0 <= i < |deps| :: deps[i].name in names)
    && (forall m | m in names :: exists i :: 0 <= i < |deps| && deps[i].name == m && !deps[i].isDupe)
    && (forall i | 0 <= i < |deps| && deps[i].isDupe ::
      exists j :: 0 <= j < i && deps[j].name == deps[i].name && !deps[j].isDupe)
    && (forall i, j | 0 <= i < j < |deps| && !deps[j].isDupe :: deps[i].name != deps[j].name)
  }

  /** Each name/rule pair entered in the index or on the deferred list occurs once and is a dependency; every
      dependency made by a rule (every dependency at all, while `all` holds) is entered. */
  ghost predicate Entered(byTgt: map<nat, int>, deps: seq<seq<RawDep>>, names: seq<set<nat>>,
                          entries: seq<seq<(nat, int)>>, pending: seq<(nat, int)>, all: bool)
  {
    && |deps| == |names| == |entries|
    && (forall m | m in byTgt :: 0 <= byTgt[m] < |deps|)
    && (forall r | 0 <= r < |deps| :: Named(deps[r], names[r]))
    && (forall d | 0 <= d < |entries| :: Distinct(entries[d]))
    && (forall d, k | 0 <= d < |entries| && 0 <= k < |entries[d]| ::
          entries[d][k].0 in byTgt && byTgt[entries[d][k].0] == d && 0 <= entries[d][k].1 < |deps| &&
            entries[d][k].0 in names[entries[d][k].1])
    && Distinct(pending)
    && (forall k | 0 <= k < |pending| :: 0 <= pending[k].1 < |deps| && pending[k].0 in names[pending[k].1])
    && (forall k, d | 0 <= k < |pending| && 0 <= d < |entries| :: pending[k] !in entries[d])
    && (forall r, m | 0 <= r < |deps| && m in names[r] && (all || m in byTgt) ::
          (m, r) in pending || (m in byTgt && (m, r) in entries[byTgt[m]]))
  }

  lemma NewRule(byTgt: map<nat, int>, deps: seq<seq<RawDep>>, names: seq<set<nat>>, entries: seq<seq<(nat, int)>>,
                pending: seq<(nat, int)>)
    requires Entered(byTgt, deps, names, entries, pending, true)
    ensures Entered(byTgt, deps + [[]], names + [{}], entries + [[]], pending, true)
  {
    var es := entries + [[]];
    forall r, m | 0 <= r < |deps + [[]]| && m in (names + [{}])[r]
      ensures (m, r) in pending || (m in byTgt && (m, r) in es[byTgt[m]])
    {
      assert r < |deps|;
    }
  }

  lemma NewTarget(byTgt: map<nat, int>, deps: seq<seq<RawDep>>, names: seq<set<nat>>, entries: seq<seq<(nat, int)>>,
                  pending: seq<(nat, int)>, tgt: nat, r: int)
    requires Entered(byTgt, deps, names, entries, pending, true) && tgt !in byTgt && 0 <= r < |deps|
    ensures Entered(byTgt[tgt := r], deps, names, entries, pending, true)
  {
  }

  /** ins_dep of a new name. */
  lemma NamedExtends(deps: seq<RawDep>, names: set<nat>, d: RawDep)
    requires Named(deps, names) && (d.isDupe <==> d.name in names)
    ensures Named(deps + [d], names + {d.name})
  {
    var ds := deps + [d];
    forall m | m in names + {d.name}
      ensures exists i :: 0 <= i < |ds| && ds[i].name == m && !ds[i].isDupe
    {
      if m in names {
        var i :| 0 <= i < |deps| && deps[i].name == m && !deps[i].isDupe;
        assert ds[i] == deps[i];
      } else {
        assert ds[|deps|] == d;
      }
    }
    forall i | 0 <= i < |ds| && ds[i].isDupe
      ensures exists j :: 0 <= j < i && ds[j].name == ds[i].name && !ds[j].isDupe
    {
      var j :| 0 <= j < i && j < |deps| && deps[j].name == ds[i].name && !deps[j].isDupe;
      assert ds[j] == deps[j];
    }
  }

  /** What a rule's dependency does to the entries: indexed, deferred, or dropped when its name has no rule. */
  lemma NewDep(byTgt: map<nat, int>, deps: seq<seq<RawDep>>, names: seq<set<nat>>, entries: seq<seq<(nat, int)>>,
               pending: seq<(nat, int)>, all: bool, r: int, d: RawDep)
    requires Entered(byTgt, deps, names, entries, pending, all) && 0 <= r < |deps| && (d.isDupe <==> d.name in names[r])
    ensures
      var ds, ns := deps[r := deps[r] + [d]], names[r := names[r] + {d.name}];
      && (d.isDupe ==> Entered(byTgt, ds, ns, entries, pending, all))
      && (!d.isDupe && d.name in byTgt ==>
            Entered(byTgt, ds, ns, entries[byTgt[d.name] := entries[byTgt[d.name]] + [(d.name, r)]], pending, all))
      && (!d.isDupe && d.name !in byTgt ==> Entered(byTgt, ds, ns, entries, pending + [(d.name, r)], all))
      && (!d.isDupe && d.name !in byTgt && !all ==> Entered(byTgt, ds, ns, entries, pending, all))
  {
    NamedExtends(deps[r], names[r], d);
    if d.isDupe {
      assert names[r] + {d.name} == names[r];
    }
  }

  lemma {:induction false} FlattenHead<T>(blocks: seq<seq<T>>)
    requires blocks != []
    ensures Flatten(blocks) == blocks[0] + Flatten(blocks[1..])
  {
    var front := blocks[..|blocks| - 1];
    if |front| > 0 {
      FlattenHead(front);
      assert front[1..] == blocks[1..][..|blocks[1..]| - 1];
    }
  }

  lemma EnteredSizes(byTgt: map<nat, int>, deps: seq<seq<RawDep>>, names: seq<set<nat>>, entries: seq<seq<(nat, int)>>,
                     pending: seq<(nat, int)>, all: bool)
    requires Entered(byTgt, deps, names, entries, pending, all)
    ensures |deps| == |names| == |entries| && forall m | m in byTgt :: 0 <= byTgt[m] < |deps|
  {
  }

  lemma Weaken(byTgt: map<nat, int>, deps: seq<seq<RawDep>>, names: seq<set<nat>>, entries: seq<seq<(nat, int)>>,
               pending: seq<(nat, int)>)
    requires Entered(byTgt, deps, names, entries, pending, true)
    ensures Entered(byTgt, deps, names, entries, pending, false)
  {
  }

  /** The list of rule `r` has grown only by plain dependencies between traversed rules. */
  ghost predicate OrdersOnly(byTgt: map<nat, int>, traversed: set<int>, r: int, before: seq<RawDep>,
        after: seq<RawDep>) {
    && before <= after
    && (after != before ==> r in traversed)
    && (forall i | |before| <= i < |after| ::
          !after[i].isWait && after[i].name in byTgt && byTgt[after[i].name] in traversed)
  }

  /** The names that the orders make rule `r` depend on, in the order they are given, none of them from an included
      file. */
  function Wanted(byTgt: map<nat, int>, traversed: set<int>, orders: seq<(nat, nat)>, r: int): (names: seq<(nat, bool)>)
    ensures |names| <= |orders|
    decreases |orders|
  {
    if orders == [] then []
    else
      var front, o := orders[..|orders| - 1], orders[|orders| - 1];
      Wanted(byTgt, traversed, front, r) +
      if o.0 in byTgt && o.1 in byTgt && byTgt[o.1] == r && byTgt[o.0] in traversed &&
        r in traversed then [(o.0, false)] else []
  }

  /** A strict dependency on a name without `@wait`, from an included file or not. */
  ghost predicate Strictly(d: RawDep, given: (nat, bool)) {
    d.name == given.0 && d.isInc == given.1 && !d.isOrderOnly && !d.isWait
  }

  /** The list of a rule has grown by just these names. */
  ghost predicate GrownBy(before: seq<RawDep>, after: seq<RawDep>, wanted: seq<(nat, bool)>) {
    && before <= after && |after| == |before| + |wanted|
    && forall i | 0 <= i < |wanted| :: Strictly(after[|before| + i], wanted[i])
  }

  lemma NothingAdded(byTgt: map<nat, int>, traversed: set<int>, r: int, before: seq<RawDep>)
    ensures GrownBy(before, before, []) && OrdersOnly(byTgt, traversed, r, before, before)
  {
  }

  lemma GrownMore(before: seq<RawDep>, after: seq<RawDep>, wanted: seq<(nat, bool)>, d: RawDep, given: (nat, bool))
    requires GrownBy(before, after, wanted) && Strictly(d, given)
    ensures GrownBy(before, after + [d], wanted + [given])
  {
  }

  lemma OrdersMore(byTgt: map<nat, int>, traversed: set<int>, r: int, before: seq<RawDep>, after: seq<RawDep>,
        d: RawDep)
    requires OrdersOnly(byTgt, traversed, r, before, after) && r in traversed
    requires !d.isWait && d.name in byTgt && byTgt[d.name] in traversed
    ensures OrdersOnly(byTgt, traversed, r, before, after + [d])
  {
  }

  lemma NothingWanted(byTgt: map<nat, int>, traversed: set<int>)
    ensures forall r :: Wanted(byTgt, traversed, [], r) == []
  {
  }

  lemma WantedMore(byTgt: map<nat, int>, traversed: set<int>, orders: seq<(nat, nat)>, k: nat, r: int)
    requires k < |orders|
    ensures Wanted(byTgt, traversed, orders[..k + 1], r) == Wanted(byTgt, traversed, orders[..k], r) +
      (var o := orders[k];
       if o.0 in byTgt && o.1 in byTgt && byTgt[o.1] == r && byTgt[o.0] in traversed &&
         r in traversed then [(o.0, false)] else [])
  {
    assert orders[..k + 1][..k] == orders[..k];
  }

  /** The additional dependencies listed for the targets of rule `r`, in order. */
  function Listed(byTgt: map<nat, int>, extras: seq<Extra>, r: int): (names: seq<(nat, bool)>)
    decreases |extras|
  {
    if extras == [] then []
    else
      Listed(byTgt, extras[..|extras| - 1], r) + Names(byTgt, extras[|extras| - 1], r)
  }

  function Names(byTgt: map<nat, int>, e: Extra, r: int): seq<(nat, bool)> {
    if e.dep >= 0 && e.tgt in byTgt && byTgt[e.tgt] == r then [(e.dep, e.isInc)] else []
  }

  lemma NothingListed(byTgt: map<nat, int>)
    ensures forall r :: Listed(byTgt, [], r) == []
  {
  }

  lemma ListedMore(byTgt: map<nat, int>, extras: seq<Extra>, k: nat)
    requires k < |extras|
    ensures forall r :: Listed(byTgt, extras[..k + 1], r) == Listed(byTgt, extras[..k], r) + Names(byTgt, extras[k], r)
  {
    assert extras[..k + 1][..k] == extras[..k];
  }

  /** Name `m` is in the dependency list of rule `r`. */
  ghost predicate HasDep(deps: seq<seq<RawDep>>, r: int, m: int) {
    0 <= r < |deps| && exists i :: 0 <= i < |deps[r]| && deps[r][i].name == m
  }

  /** What is in a dependency list stays there as the lists grow. */
  lemma DepsOnlyGrow(before: seq<seq<RawDep>>, after: seq<seq<RawDep>>)
    requires |before| <= |after| && forall r | 0 <= r < |before| :: before[r] <= after[r]
    ensures forall x, m | HasDep(before, x, m) :: HasDep(after, x, m)
  {
    forall x, m | HasDep(before, x, m)
      ensures HasDep(after, x, m)
    {
      var i :| 0 <= i < |before[x]| && before[x][i].name == m;
      assert after[x][i] == before[x][i];
    }
  }

  /** Flushing one deferred pair. */
  lemma FlushOne(byTgt: map<nat, int>, deps: seq<seq<RawDep>>, names: seq<set<nat>>, entries: seq<seq<(nat, int)>>,
                 pending: seq<(nat, int)>)
    requires Entered(byTgt, deps, names, entries, pending, false) && pending != []
    ensures
      var (m, r) := pending[0];
      Entered(byTgt, deps, names, if m in byTgt then entries[byTgt[m] := entries[byTgt[m]] + [(m, r)]]
        else entries, pending[1..], false)
  {
  }

  /** stirdep_ruleid: the rule that makes a name, or -1. */
  function Lookup(byTgt: map<nat, int>, name: nat): int {
    if name in byTgt then byTgt[name] else -1
  }

  function Resolve(byTgt: map<nat, int>, deps: seq<RawDep>): (s: seq<Dep>)
    ensures |s| == |deps|
  {
    seq(|deps|, i requires 0 <= i < |deps| =>
      Dep(deps[i].name, Lookup(byTgt, deps[i].name), deps[i].isOrderOnly, deps[i].isWait, deps[i].isDupe,
        deps[i].isInc))
  }

  /** The graph the scheduler works on, once every name has been entered. */
  function ToGraph(byTgt: map<nat, int>, deps: seq<seq<RawDep>>, blocks: seq<seq<seq<int>>>): Graph {
    Graph(seq(|deps|, r requires 0 <= r < |deps| => Resolve(byTgt, deps[r])),
          seq(|blocks|, d requires 0 <= d < |blocks| => Flatten(blocks[d])))
  }

  /** With nothing deferred any more, the reverse index mirrors the dependencies. */
  lemma IndexComplete(byTgt: map<nat, int>, deps: seq<seq<RawDep>>, names: seq<set<nat>>, entries: seq<seq<(nat, int)>>,
                      blocks: seq<seq<seq<int>>>)
    requires Entered(byTgt, deps, names, entries, [], false)
    requires |blocks| == |entries| && forall d | 0 <= d < |blocks| :: Flatten(blocks[d]) == Rules(entries[d])
    ensures ToGraph(byTgt, deps, blocks).WellFormed()
  {
    var g := ToGraph(byTgt, deps, blocks);
    forall r, i | 0 <= r < |g.deps| && 0 <= i < |g.deps[r]| && g.deps[r][i].rule >= 0
      ensures g.deps[r][i].rule in g.Edges(r)
    {
      if deps[r][i].isDupe {
        var j :| 0 <= j < i && deps[r][j].name == deps[r][i].name && !deps[r][j].isDupe;
        assert g.IsEdge(r, j) && g.deps[r][j].rule == g.deps[r][i].rule;
      } else {
        assert g.IsEdge(r, i);
      }
    }
    forall d, k | 0 <= d < |g.index| && 0 <= k < |g.index[d]|
      ensures 0 <= g.index[d][k] < |g.deps| && d in g.Edges(g.index[d][k])
    {
      var (m, r) := entries[d][k];
      var i :| 0 <= i < |deps[r]| && deps[r][i].name == m && !deps[r][i].isDupe;
      assert g.IsEdge(r, i) && g.deps[r][i].rule == d;
    }
    forall r, d | 0 <= r < |g.deps| && d in g.Edges(r)
      ensures r in g.index[d]
    {
      var i :| 0 <= i < |g.deps[r]| && g.IsEdge(r, i) && g.deps[r][i].rule == d;
      var m := deps[r][i].name;
      assert m in names[r];
      var k :| 0 <= k < |entries[d]| && entries[d][k] == (m, r);
      assert g.index[d][k] == r;
    }
  }

  /** How often rule `r` is listed as a dependent of rule `d`: once for each of its names made by `d`. */
  lemma IndexMultiplicity(byTgt: map<nat, int>, deps: seq<seq<RawDep>>, names: seq<set<nat>>,
        entries: seq<seq<(nat, int)>>,
                          blocks: seq<seq<seq<int>>>, r: int, d: int)
    requires Entered(byTgt, deps, names, entries, [], false)
    requires |blocks| == |entries| && forall d | 0 <= d < |blocks| :: Flatten(blocks[d]) == Rules(entries[d])
    requires 0 <= r < |deps| && 0 <= d < |deps|
    ensures var g := ToGraph(byTgt, deps, blocks);
            multiset(g.index[d])[r] == |set i | 0 <= i < |g.deps[r]| && IsEdgeTo(g.deps[r][i], d)|
  {
    hide Entered, Named;
    var g := ToGraph(byTgt, deps, blocks);
    EnteredSizes(byTgt, deps, names, entries, [], false);
    assert g.index[d] == Rules(entries[d]) && g.deps[r] == Resolve(byTgt, deps[r]);
    NamesDiffer(byTgt, deps, names, entries, r, d);
    SameNames(byTgt, deps, names, entries, r, d);
    Occurrences(g.index[d], r);
    CountsAgree(entries[d], g.deps[r], r, d);
    assert (set k | 0 <= k < |g.index[d]| && g.index[d][k] == r) ==
      (set k | 0 <= k < |entries[d]| && entries[d][k].1 == r);
  }

  predicate IsEdgeTo(e: Dep, d: int) {
    !e.isDupe && e.rule >= 0 && e.rule == d
  }

  lemma CountsAgree(es: seq<(nat, int)>, ds: seq<Dep>, r: int, d: int)
    requires forall k, l | 0 <= k < l < |es| && es[k].1 == r && es[l].1 == r :: es[k].0 != es[l].0
    requires forall i, j | 0 <= i < j < |ds| && IsEdgeTo(ds[i], d) && IsEdgeTo(ds[j], d) :: ds[i].name != ds[j].name
    requires forall k | 0 <= k < |es| && es[k].1 == r ::
      exists i :: 0 <= i < |ds| && IsEdgeTo(ds[i], d) && ds[i].name == es[k].0
    requires forall i | 0 <= i < |ds| && IsEdgeTo(ds[i], d) ::
      exists k :: 0 <= k < |es| && es[k].1 == r && ds[i].name == es[k].0
    ensures |set k | 0 <= k < |es| && es[k].1 == r| == |set i | 0 <= i < |ds| && IsEdgeTo(ds[i], d)|
  {
    hide IsEdgeTo;
    var listed := set k | 0 <= k < |es| && es[k].1 == r;
    var edges := set i | 0 <= i < |ds| && IsEdgeTo(ds[i], d);
    var f := (k: int) => if 0 <= k < |es| then es[k].0 else 0;
    var h := (i: int) => if 0 <= i < |ds| then ds[i].name else 0;
    forall k | k in listed
      ensures exists i :: i in edges && h(i) == f(k)
    {
      var i :| 0 <= i < |ds| && IsEdgeTo(ds[i], d) && ds[i].name == es[k].0;
      assert i in edges;
    }
    forall i | i in edges
      ensures exists k :: k in listed && f(k) == h(i)
    {
      var k :| 0 <= k < |es| && es[k].1 == r && ds[i].name == es[k].0;
      assert k in listed;
    }
    SameSize(listed, f, edges, h);
  }

  /** Two sets that are labelled injectively with the same labels have the same size. */
  lemma {:induction false} SameSize(a: set<int>, f: int -> int, b: set<int>, h: int -> int)
    requires forall x, y | x in a && y in a && f(x) == f(y) :: x == y
    requires forall x, y | x in b && y in b && h(x) == h(y) :: x == y
    requires forall x | x in a :: exists y :: y in b && h(y) == f(x)
    requires forall y | y in b :: exists x :: x in a && f(x) == h(y)
    ensures |a| == |b|
  {
    if a != {} {
      assert (forall x :: x !in a) ==> a == {};
      var x :| x in a;
      var y :| y in b && h(y) == f(x);
      SameSize(a - {x}, f, b - {y}, h);
    } else {
      assert forall y | y in b :: exists x :: x in a && f(x) == h(y);
    }
  }

  /** An index entry stands for a dependency of its rule. */
  lemma EntryHasEdge(byTgt: map<nat, int>, deps: seq<seq<RawDep>>, names: seq<set<nat>>, entries: seq<seq<(nat, int)>>,
                     d: int, k: int) returns (i: int)
    requires Entered(byTgt, deps, names, entries, [], false) && 0 <= d < |entries| && 0 <= k < |entries[d]|
    ensures 0 <= entries[d][k].1 < |deps| && 0 <= i < |deps[entries[d][k].1]|
    ensures IsEdgeTo(Resolve(byTgt, deps[entries[d][k].1])[i], d)
    ensures Resolve(byTgt, deps[entries[d][k].1])[i].name == entries[d][k].0
  {
    var ds := deps[entries[d][k].1];
    i :| 0 <= i < |ds| && ds[i].name == entries[d][k].0 && !ds[i].isDupe;
  }

  /** A dependency made by a rule has an index entry. */
  lemma EdgeHasEntry(byTgt: map<nat, int>, deps: seq<seq<RawDep>>, names: seq<set<nat>>, entries: seq<seq<(nat, int)>>,
                     r: int, d: int, i: int) returns (k: int)
    requires Entered(byTgt, deps, names, entries, [], false) && 0 <= r < |deps| && 0 <= d < |entries|
    requires 0 <= i < |deps[r]| && IsEdgeTo(Resolve(byTgt, deps[r])[i], d)
    ensures 0 <= k < |entries[d]| && entries[d][k] == (Resolve(byTgt, deps[r])[i].name, r)
  {
    var m := deps[r][i].name;
    assert m in names[r];
    k :| 0 <= k < |entries[d]| && entries[d][k] == (m, r);
  }

  /** Neither the entries of one rule nor its dependencies repeat a name. */
  lemma NamesDiffer(byTgt: map<nat, int>, deps: seq<seq<RawDep>>, names: seq<set<nat>>, entries: seq<seq<(nat, int)>>,
        r: int, d: int)
    requires Entered(byTgt, deps, names, entries, [], false) && 0 <= r < |deps| && 0 <= d < |entries|
    ensures forall k, l | 0 <= k < l < |entries[d]| && entries[d][k].1 == r && entries[d][l].1 == r ::
      entries[d][k].0 != entries[d][l].0
    ensures var ds := Resolve(byTgt, deps[r]);
      forall i, j | 0 <= i < j < |ds| && IsEdgeTo(ds[i], d) && IsEdgeTo(ds[j], d) :: ds[i].name != ds[j].name
  {
  }

  lemma SameNames(byTgt: map<nat, int>, deps: seq<seq<RawDep>>, names: seq<set<nat>>, entries: seq<seq<(nat, int)>>,
        r: int, d: int)
    requires Entered(byTgt, deps, names, entries, [], false) && 0 <= r < |deps| && 0 <= d < |entries|
    ensures
      var es, ds := entries[d], Resolve(byTgt, deps[r]);
      && (forall k | 0 <= k < |es| && es[k].1 == r ::
        exists i :: 0 <= i < |ds| && IsEdgeTo(ds[i], d) && ds[i].name == es[k].0)
      && (forall i | 0 <= i < |ds| && IsEdgeTo(ds[i], d) ::
        exists k :: 0 <= k < |es| && es[k].1 == r && ds[i].name == es[k].0)
  {
    hide Entered, Named;
    var es, ds := entries[d], Resolve(byTgt, deps[r]);
    forall k | 0 <= k < |es| && es[k].1 == r
      ensures exists i :: 0 <= i < |ds| && IsEdgeTo(ds[i], d) && ds[i].name == es[k].0
    {
      var i := EntryHasEdge(byTgt, deps, names, entries, d, k);
    }
    forall i | 0 <= i < |ds| && IsEdgeTo(ds[i], d)
      ensures exists k :: 0 <= k < |es| && es[k].1 == r && ds[i].name == es[k].0
    {
      var k := EdgeHasEntry(byTgt, deps, names, entries, r, d, i);
    }
  }

  lemma {:induction false} Occurrences(s: seq<int>, x: int)
    ensures multiset(s)[x] == |set k | 0 <= k < |s| && s[k] == x|
  {
    if |s| > 0 {
      var n := |s| - 1;
      var t := s[..n];
      Occurrences(t, x);
      assert s == t + [s[n]];
      var a := set k | 0 <= k < |t| && t[k] == x;
      assert (set k | 0 <= k < |s| && s[k] == x) == if s[n] == x then a + {n} else a;
    }
  }
}
