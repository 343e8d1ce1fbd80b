/** How rules and their dependencies are entered: add_rule, add_dep, process_additional_deps_2, process_orders and
    the flush of the deferred list. */
module RuleTable {
  import opened BuildGraph
  import opened DependentIndex
  import opened Sequences

  class RuleTable {
    /** ruleid_by_tgt. */
    var byTgt: map<nat, int>
    var deps: seq<seq<RawDep>>
    /** The tree of dependency names of each rule. */
    var names: seq<set<nat>>
    /** The chain of each rule's dependents. */
    var blocks: seq<seq<seq<int>>>
    /** The chain of dependencies whose rule was not known when they were entered. */
    var later: seq<seq<(nat, int)>>
    var extras: seq<Extra>
    /** The names behind the numbers in `blocks`. */
    ghost var entries: seq<seq<(nat, int)>>

    /** The chains are in shape, and each rule's chain holds its entries. */
    ghost predicate Indexed()
      reads this
    {
      && Chained(later, LATER_BLOCK)
      && |blocks| == |entries|
      && (forall d | 0 <= d < |blocks| :: Chained(blocks[d], INDEX_BLOCK) && Flatten(blocks[d]) == Rules(entries[d]))
    }

    ghost predicate Valid(all: bool)
      reads this
    {
      && Entered(byTgt, deps, names, entries, Flatten(later), all)
      && Indexed()
      && Announced(extras)
    }

    constructor ()
      ensures Valid(true) && deps == [] && byTgt == map[]
    {
      byTgt, deps, names, blocks, later, extras, entries := map[], [], [], [], [], [], [];
    }

    /** ins_ruleid_by_dep2. */
    method InsByDep(name: nat, r: int, enforce: bool) returns (ok: bool)
      requires Indexed()
      requires name in byTgt ==> 0 <= byTgt[name] < |blocks|
      modifies this`blocks, this`later, this`entries
      ensures Indexed()
      ensures ok <==> name in byTgt || !enforce
      ensures name in byTgt || enforce ==> later == old(later)
      ensures entries == if name in byTgt then old(entries)[byTgt[name] := old(entries)[byTgt[name]] + [(name, r)]]
        else old(entries)
      ensures Flatten(later) == if name in byTgt || enforce then old(Flatten(later))
        else old(Flatten(later)) + [(name, r)]
    {
      if name !in byTgt {
        if enforce {
          return false;
        }
        later := Append(later, LATER_BLOCK, (name, r));
        return true;
      }
      var d := byTgt[name];
      var chain := Append(blocks[d], INDEX_BLOCK, r);
      blocks := blocks[d := chain];
      entries := entries[d := entries[d] + [(name, r)]];
      assert Rules(entries[d]) == Rules(old(entries[d])) + [r];
      return true;
    }

    /** ins_dep, followed by ins_ruleid_by_dep2 when the name is new. */
    method EnterDep(r: int, name: nat, isOrderOnly: bool, isWait: bool, isInc: bool, enforce: bool, ghost all: bool)
      returns (isNew: bool)
      requires Valid(all) && 0 <= r < |deps| && (all ==> !enforce)
      modifies this`deps, this`names, this`blocks, this`later, this`entries
      ensures Valid(all) && (isNew <==> name !in old(names[r]))
      ensures deps == old(deps)[r := old(deps[r]) + [RawDep(name, isOrderOnly, isWait, !isNew, isInc)]]
      ensures enforce ==> later == old(later)
    {
      hide Entered, Named, Flatten, Rules, Chained, Announced;
      EnteredSizes(byTgt, deps, names, entries, Flatten(later), all);
      var e := RawDep(name, isOrderOnly, isWait, name in names[r], isInc);
      NewDep(byTgt, deps, names, entries, Flatten(later), all, r, e);
      isNew := !e.isDupe;
      deps := deps[r := deps[r] + [e]];
      names := names[r := names[r] + {name}];
      if isNew {
        var ok := InsByDep(name, r, enforce);
      }
    }

    /** The graph of all rules entered so far. */
    ghost function View(): Graph
      reads this
    {
      ToGraph(byTgt, deps, blocks)
    }

    /** A new rule without targets or dependencies. */
    method NewRuleNumber() returns (r: int)
      requires Valid(true)
      modifies this`deps, this`names, this`blocks, this`entries
      ensures Valid(true) && r == |old(deps)| && deps == old(deps) + [[]]
    {
      hide Entered, Named;
      EnteredSizes(byTgt, deps, names, entries, Flatten(later), true);
      r := |deps|;
      NewRule(byTgt, deps, names, entries, Flatten(later));
      deps, names, blocks, entries := deps + [[]], names + [{}], blocks + [[]], entries + [[]];
    }

    /** ins_tgt and ins_ruleid_by_tgt. */
    method AddTarget(r: int, tgt: nat) returns (ok: bool)
      requires Valid(true) && 0 <= r < |deps|
      modifies this`byTgt
      ensures Valid(true) && (ok <==> tgt !in old(byTgt))
      ensures byTgt == if ok then old(byTgt)[tgt := r] else old(byTgt)
    {
      hide Entered, Named, Flatten, Rules, Chained, Announced;
      if tgt in byTgt {
        return false;
      }
      NewTarget(byTgt, deps, names, entries, Flatten(later), tgt, r);
      byTgt := byTgt[tgt := r];
      return true;
    }

    /** add_rule: a new rule with its targets and dependencies.  The process ends, here `ok` is false, when there
        is no target or a target already has a rule. */
    method AddRule(tgts: seq<nat>, ds: seq<(nat, bool, bool)>) returns (ok: bool)
      requires Valid(true)
      modifies this`byTgt, this`deps, this`names, this`blocks, this`later, this`entries
      ensures ok <==> tgts != [] && Distinct(tgts) && forall i | 0 <= i < |tgts| :: tgts[i] !in old(byTgt)
      ensures ok ==> Valid(true) && |deps| == |old(deps)| + 1 && old(deps) == deps[..|old(deps)|]
      ensures ok ==> |deps[|old(deps)|]| == |ds|
      ensures ok ==> forall i | 0 <= i < |ds| :: Plain(deps[|old(deps)|][i], ds[i])
      ensures ok ==> byTgt.Keys == old(byTgt).Keys + (set i | 0 <= i < |tgts| :: tgts[i])
      ensures ok ==> forall m | m in byTgt :: byTgt[m] == if m in old(byTgt) then old(byTgt)[m] else |old(deps)|
    {
      hide Valid;
      if |tgts| == 0 {
        return false;
      }
      var r := NewRuleNumber();
      var i := 0;
      while i < |tgts|
        invariant 0 <= i <= |tgts| && Valid(true) && 0 <= r < |deps| && deps == old(deps) + [[]]
        invariant forall k, l | 0 <= k < l < i :: tgts[k] != tgts[l]
        invariant forall j | 0 <= j < i :: tgts[j] !in old(byTgt)
        invariant byTgt.Keys == old(byTgt).Keys + (set j | 0 <= j < i :: tgts[j])
        invariant forall m | m in byTgt :: byTgt[m] == if m in old(byTgt) then old(byTgt)[m] else r
      {
        var added := AddTarget(r, tgts[i]);
        if !added {
          return false;
        }
        i := i + 1;
      }
      AddDeps(r, ds);
      return true;
    }

    /** Enters the dependencies of a rule that has none yet. */
    method AddDeps(r: int, ds: seq<(nat, bool, bool)>)
      requires Valid(true) && 0 <= r < |deps| && deps[r] == []
      modifies this`deps, this`names, this`blocks, this`later, this`entries
      ensures Valid(true) && |deps| == |old(deps)| && |deps[r]| == |ds|
      ensures forall x | 0 <= x < |deps| && x != r :: deps[x] == old(deps)[x]
      ensures forall i | 0 <= i < |ds| :: Plain(deps[r][i], ds[i])
    {
      hide Valid;
      var i := 0;
      while i < |ds|
        invariant 0 <= i <= |ds| && Valid(true)
        invariant |deps| == |old(deps)| && |deps[r]| == i
        invariant forall x | 0 <= x < |deps| && x != r :: deps[x] == old(deps)[x]
        invariant forall j | 0 <= j < i :: Plain(deps[r][j], ds[j])
      {
        var isNew := EnterDep(r, ds[i].0, ds[i].1, ds[i].2, false, false, true);
        i := i + 1;
      }
    }

    /** One of the given targets is announced, or listed with one of the given dependencies. */
    static ghost predicate Announces(e: Extra, tgts: seq<nat>, ds: seq<nat>, isInc: bool) {
      e.tgt in tgts && (e.dep == -1 || (e.dep >= 0 && (e.dep as nat) in ds)) && e.isInc == isInc
    }

    /** add_dep: announces each target, then lists its additional dependencies. */
    method AddExtra(tgts: seq<nat>, ds: seq<nat>, isInc: bool)
      requires Announced(extras)
      modifies this`extras
      ensures Announced(extras) && old(extras) <= extras
      ensures forall k, l | 0 <= k < |tgts| && 0 <= l < |ds| :: Extra(tgts[k], ds[l], isInc) in extras
      ensures |extras| == |old(extras)| + |tgts| * (1 + |ds|)
      ensures forall k | |old(extras)| <= k < |extras| :: Announces(extras[k], tgts, ds, isInc)
    {
      hide Announced, Heralded;
      var i := 0;
      while i < |tgts|
        invariant 0 <= i <= |tgts| && Announced(extras) && old(extras) <= extras
        invariant forall k, l | 0 <= k < i && 0 <= l < |ds| :: Extra(tgts[k], ds[l], isInc) in extras
        invariant |extras| == |old(extras)| + i * (1 + |ds|)
        invariant forall k | |old(extras)| <= k < |extras| :: Announces(extras[k], tgts, ds, isInc)
      {
        HeraldedStays(extras, Extra(tgts[i], -1, isInc));
        extras := extras + [Extra(tgts[i], -1, isInc)];
        var j := 0;
        while j < |ds|
          invariant 0 <= j <= |ds| && Announced(extras) && old(extras) <= extras && Heralded(extras, tgts[i])
          invariant forall k, l | 0 <= k < i && 0 <= l < |ds| :: Extra(tgts[k], ds[l], isInc) in extras
          invariant forall l | 0 <= l < j :: Extra(tgts[i], ds[l], isInc) in extras
          invariant |extras| == |old(extras)| + i * (1 + |ds|) + 1 + j
          invariant forall k | |old(extras)| <= k < |extras| :: Announces(extras[k], tgts, ds, isInc)
        {
          HeraldedStays(extras, Extra(tgts[i], ds[j], isInc));
          extras := extras + [Extra(tgts[i], ds[j], isInc)];
          j := j + 1;
        }
        i := i + 1;
      }
    }

    /** Each name of `news` has a rule of its own, from number `n` on. */
    static ghost predicate OwnRules(byTgt: map<nat, int>, news: set<nat>, n: nat, count: nat) {
      && (forall m | m in byTgt :: 0 <= byTgt[m] < count && (m in news <==> n <= byTgt[m]))
      && (forall m, k | m in byTgt && m in news && k in byTgt && k != m :: byTgt[m] != byTgt[k])
      && |news| == count - n
    }

    /** A new rule with `tgt` as its target. */
    method AnnounceTarget(tgt: nat, ghost news: set<nat>, ghost n: nat)
      requires Valid(true) && tgt !in byTgt && tgt !in news && n <= |deps| && OwnRules(byTgt, news, n, |deps|)
      modifies this`byTgt, this`deps, this`names, this`blocks, this`entries
      ensures Valid(true) && deps == old(deps) + [[]] && byTgt == old(byTgt)[tgt := |old(deps)|]
      ensures OwnRules(byTgt, news + {tgt}, n, |deps|)
    {
      hide Valid;
      var r := NewRuleNumber();
      var ok := AddTarget(r, tgt);
    }

    /** The first pass of process_additional_deps_2: every announced target gets a rule. */
    method AnnounceTargets()
      requires Valid(true)
      modifies this`byTgt, this`deps, this`names, this`blocks, this`entries
      ensures Valid(true) && old(deps) <= deps && forall r | |old(deps)| <= r < |deps| :: deps[r] == []
      ensures forall m | m in old(byTgt) :: m in byTgt && byTgt[m] == old(byTgt)[m]
      ensures forall m :: m in byTgt <==> m in old(byTgt) || Heralded(extras, m)
      ensures OwnRules(byTgt, byTgt.Keys - old(byTgt).Keys, |old(deps)|, |deps|)
    {
      hide Valid, OwnRules, Heralded;
      TargetsInRange();
      OwnAtFirst();
      ghost var news: set<nat> := {};
      var k := 0;
      while k < |extras|
        invariant 0 <= k <= |extras| && Valid(true) && old(deps) <= deps
        invariant forall r | |old(deps)| <= r < |deps| :: deps[r] == []
        invariant forall m | m in byTgt :: m in old(byTgt) || m in news
        invariant forall m | m in news :: m in byTgt && m !in old(byTgt)
        invariant forall m | m in old(byTgt) :: m in byTgt && byTgt[m] == old(byTgt)[m]
        invariant forall m | m in news :: Heralded(extras, m)
        invariant forall l | 0 <= l < k && extras[l].dep < 0 :: extras[l].tgt in byTgt
        invariant OwnRules(byTgt, news, |old(deps)|, |deps|)
      {
        if extras[k].dep < 0 && extras[k].tgt !in byTgt {
          HeraldedAt(extras, k);
          AnnounceTarget(extras[k].tgt, news, |old(deps)|);
          news := news + {extras[k].tgt};
        }
        k := k + 1;
      }
      assert byTgt.Keys - old(byTgt).Keys == news;
      HeraldedIn(extras, byTgt.Keys);
    }

    lemma TargetsInRange()
      requires Valid(true)
      ensures forall m | m in byTgt :: 0 <= byTgt[m] < |deps|
    {
      hide Named, Flatten, Rules, Chained, Announced;
      EnteredSizes(byTgt, deps, names, entries, Flatten(later), true);
    }

    lemma OwnAtFirst()
      requires forall m | m in byTgt :: 0 <= byTgt[m] < |deps|
      ensures OwnRules(byTgt, {}, |deps|, |deps|)
    {
    }

    /** The second pass: the dependencies listed for each target are entered in order. */
    method EnterExtras()
      requires Valid(false) && forall k | 0 <= k < |extras| :: extras[k].tgt in byTgt
      modifies this`deps, this`names, this`blocks, this`later, this`entries
      ensures Valid(false) && |deps| == |old(deps)| && later == old(later)
      ensures forall r | 0 <= r < |deps| :: GrownBy(old(deps)[r], deps[r], Listed(byTgt, extras, r))
    {
      hide Entered, Named, Flatten, Rules, Chained, Heralded, Listed, Announced, Indexed, GrownBy;
      var k := 0;
      var lastRule: int, lastTgt: int := -1, -1;
      NothingListed(byTgt);
      forall r | 0 <= r < |deps|
        ensures GrownBy(deps[r], deps[r], Listed(byTgt, extras[..0], r))
      {
        assert extras[..0] == [];
        NothingAdded(byTgt, {}, r, deps[r]);
      }
      while k < |extras|
        invariant 0 <= k <= |extras| && Valid(false) && |deps| == |old(deps)| && later == old(later)
        invariant forall r | 0 <= r < |deps| :: GrownBy(old(deps)[r], deps[r], Listed(byTgt, extras[..k], r))
        invariant lastTgt >= 0 && lastRule >= 0 ==> lastTgt in byTgt && byTgt[lastTgt] == lastRule
      {
        var tgt := extras[k].tgt;
        var r := if tgt == lastTgt && lastRule >= 0 then lastRule else Lookup(byTgt, tgt);
        lastRule, lastTgt := r, tgt;
        EnteredSizes(byTgt, deps, names, entries, Flatten(later), false);
        if r < 0 {
          assert false;
        }
        ListedMore(byTgt, extras, k);
        if extras[k].dep >= 0 {
          ghost var before := deps;
          var isNew := EnterDep(r, extras[k].dep, false, false, extras[k].isInc, true, false);
          GrownMore(old(deps)[r], before[r], Listed(byTgt, extras[..k], r), deps[r][|before[r]|],
            (extras[k].dep, extras[k].isInc));
        }
        forall x | 0 <= x < |deps|
          ensures GrownBy(old(deps)[x], deps[x], Listed(byTgt, extras[..k + 1], x))
        {
          var listed := Listed(byTgt, extras[..k], x);
          assert Listed(byTgt, extras[..k + 1], x) == listed + Names(byTgt, extras[k], x);
          assert listed + [] == listed;
        }
        k := k + 1;
      }
      assert extras[..k] == extras;
    }

    /** process_additional_deps_2: first every announced target gets a rule, then the dependencies are entered. */
    method ProcessExtras()
      requires Valid(true)
      modifies this`byTgt, this`deps, this`names, this`blocks, this`later, this`entries
      ensures Valid(false) && |old(deps)| <= |deps|
      ensures forall r | 0 <= r < |deps| ::
        GrownBy(if r < |old(deps)| then old(deps)[r] else [], deps[r], Listed(byTgt, extras, r))
      ensures forall m | m in old(byTgt) :: m in byTgt && byTgt[m] == old(byTgt)[m]
      ensures forall k | 0 <= k < |extras| :: extras[k].tgt in byTgt
      ensures OwnRules(byTgt, byTgt.Keys - old(byTgt).Keys, |old(deps)|, |deps|)
    {
      hide Entered, Named, Flatten, Rules, Chained, Heralded, Listed, Indexed, GrownBy, OwnRules;
      AnnounceTargets();
      Weaken(byTgt, deps, names, entries, Flatten(later));
      ExtrasAnnounced();
      EnterExtras();
    }

    lemma ExtrasAnnounced()
      requires Announced(extras) && forall m | Heralded(extras, m) :: m in byTgt
      ensures forall k | 0 <= k < |extras| :: extras[k].tgt in byTgt
    {
    }

    /** Makes the rule of `second` depend on `first`. */
    method EnterOrder(first: nat, second: nat)
      requires Valid(false) && first in byTgt && second in byTgt
      modifies this`deps, this`names, this`blocks, this`later, this`entries
      ensures Valid(false) && |deps| == |old(deps)| && 0 <= byTgt[second] < |deps| && later == old(later)
      ensures exists d | Strictly(d, (first, false)) ::
        deps == old(deps)[byTgt[second] := old(deps)[byTgt[second]] + [d]]
      ensures HasDep(deps, byTgt[second], first)
      ensures forall x, m | HasDep(old(deps), x, m) :: HasDep(deps, x, m)
    {
      hide Entered, Named, Flatten, Rules, Chained, Announced, Indexed;
      EnteredSizes(byTgt, deps, names, entries, Flatten(later), false);
      var r := byTgt[second];
      var isNew := EnterDep(r, first, false, false, false, true, false);
      assert Strictly(deps[r][|old(deps[r])|], (first, false));
      DepsOnlyGrow(old(deps), deps);
    }

    /** process_orders: each order between two traversed rules becomes a dependency of the second on the first.
        The process ends, here `ok` is false, when a name has no rule. */
    method ProcessOrders(orders: seq<(nat, nat)>, traversed: set<int>) returns (ok: bool)
      requires Valid(false)
      modifies this`deps, this`names, this`blocks, this`later, this`entries
      ensures ok <==> forall k | 0 <= k < |orders| :: orders[k].0 in byTgt && orders[k].1 in byTgt
      ensures ok ==> Valid(false) && |deps| == |old(deps)|
      ensures ok ==> forall r | 0 <= r < |deps| :: OrdersOnly(byTgt, traversed, r, old(deps)[r], deps[r])
      ensures ok ==>
        forall k | 0 <= k < |orders| && byTgt[orders[k].0] in traversed && byTgt[orders[k].1] in traversed ::
        HasDep(deps, byTgt[orders[k].1], orders[k].0)
      ensures ok ==> forall r | 0 <= r < |deps| :: GrownBy(old(deps)[r], deps[r], Wanted(byTgt, traversed, orders, r))
      ensures ok && orders == [] ==> deps == old(deps)
    {
      hide Entered, Named, Flatten, Rules, Chained, Announced, Wanted, Indexed, OrdersOnly, GrownBy, HasDep;
      NothingWanted(byTgt, traversed);
      forall r | 0 <= r < |deps|
        ensures GrownBy(deps[r], deps[r], Wanted(byTgt, traversed, orders[..0], r))
        ensures OrdersOnly(byTgt, traversed, r, deps[r], deps[r])
      {
        assert orders[..0] == [];
        NothingAdded(byTgt, traversed, r, deps[r]);
      }
      var k := 0;
      while k < |orders|
        invariant 0 <= k <= |orders| && Valid(false) && |deps| == |old(deps)|
        invariant forall l | 0 <= l < k :: orders[l].0 in byTgt && orders[l].1 in byTgt
        invariant forall r | 0 <= r < |deps| :: OrdersOnly(byTgt, traversed, r, old(deps)[r], deps[r])
        invariant forall r | 0 <= r < |deps| :: GrownBy(old(deps)[r], deps[r], Wanted(byTgt, traversed, orders[..k], r))
        invariant forall l | 0 <= l < k && byTgt[orders[l].0] in traversed && byTgt[orders[l].1] in traversed ::
          HasDep(deps, byTgt[orders[l].1], orders[l].0)
        invariant orders == [] ==> deps == old(deps)
      {
        var (first, second) := orders[k];
        if first !in byTgt || second !in byTgt {
          return false;
        }
        ghost var before := deps;
        if byTgt[first] in traversed && byTgt[second] in traversed {
          EnterOrder(first, second);
        }
        forall r | 0 <= r < |deps|
          ensures OrdersOnly(byTgt, traversed, r, old(deps)[r], deps[r])
          ensures GrownBy(old(deps)[r], deps[r], Wanted(byTgt, traversed, orders[..k + 1], r))
        {
          var wanted := Wanted(byTgt, traversed, orders[..k], r);
          WantedMore(byTgt, traversed, orders, k, r);
          assert wanted + [] == wanted;
          if byTgt[first] in traversed && byTgt[second] == r && r in traversed {
            var d := deps[r][|before[r]|];
            assert deps[r] == before[r] + [d];
            GrownMore(old(deps)[r], before[r], wanted, d, (first, false));
            OrdersMore(byTgt, traversed, r, old(deps)[r], before[r], d);
          }
        }
        k := k + 1;
      }
      assert orders[..k] == orders;
      return true;
    }

    /** One block of the deferred list; `pending` is what is still deferred from this block on. */
    method FlushBlock(b: nat, ghost pending: seq<(nat, int)>) returns (ghost rest: seq<(nat, int)>)
      requires b < |later| && |later[b]| <= |pending| && later[b] == pending[..|later[b]|]
      requires Entered(byTgt, deps, names, entries, pending, false) && Indexed()
      modifies this`blocks, this`later, this`entries
      ensures later == old(later) && Indexed()
      ensures rest == pending[|later[b]|..] && Entered(byTgt, deps, names, entries, rest, false)
    {
      hide Entered, Named, Flatten, Rules, Chained;
      rest := pending;
      var cnt := |later[b]|;
      var i := 0;
      while i < cnt
        invariant 0 <= i <= cnt && later == old(later) && rest == pending[i..]
        invariant Entered(byTgt, deps, names, entries, rest, false) && Indexed()
      {
        EnteredSizes(byTgt, deps, names, entries, rest, false);
        FlushOne(byTgt, deps, names, entries, rest);
        var ok := InsByDep(later[b][i].0, later[b][i].1, true);
        rest := rest[1..];
        i := i + 1;
      }
    }

    /** ins_ruleid_by_dep_later: enters the deferred dependencies whose rule has turned up. */
    method FlushLater()
      requires Valid(false)
      modifies this`blocks, this`later, this`entries
      ensures Valid(false) && later == []
      ensures View().WellFormed()
    {
      hide Entered, Named, Rules;
      ghost var pending := Flatten(later);
      var b := 0;
      assert later[b..] == later;
      while b < |later|
        invariant 0 <= b <= |later| && later == old(later)
        invariant pending == Flatten(later[b..])
        invariant Entered(byTgt, deps, names, entries, pending, false) && Indexed()
      {
        FlattenHead(later[b..]);
        assert later[b..][1..] == later[b + 1..];
        pending := FlushBlock(b, pending);
        b := b + 1;
      }
      assert later[b..] == [];
      later := [];
      IndexComplete(byTgt, deps, names, entries, blocks);
    }
  }
}
