/** do_exec's decision, mark_executed's bookkeeping, and why a second build has nothing to do. */
module NullBuild {
  import opened Options
  import opened Bytes
  import opened BuildGraph
  import opened BuildFiles

  /** Nothing but what lstat returns has been added to the stat cache. */
  ghost predicate CacheGrown(before: map<nat, Lookup>, after: map<nat, Lookup>, fs: map<nat, Stat>) {
    forall n | n in after :: (n in before && after[n] == before[n]) || after[n] == Look(fs, n)
  }

  /** The compared fields are untouched, and the fields to be written back follow the files. */
  ghost predicate TsFollowed(before: map<nat, TsEntry>, after: map<nat, TsEntry>, fs: map<nat, Stat>) {
    && after.Keys == before.Keys
    && forall n | n in after ::
      && after[n].ts == before[n].ts && after[n].sz == before[n].sz
      && (after[n] == before[n] ||
        (n in fs && after[n].seen && after[n].tsnew == fs[n].mtim && after[n].sznew == fs[n].size))
  }

  /** One of the first `k` dependencies of rule `r` is strict and has this name. */
  ghost predicate Wants(p: Plan, r: int, n: nat, k: int)
    requires 0 <= r < |p.g.deps| && 0 <= k <= |p.g.deps[r]|
  {
    exists j :: 0 <= j < k && p.Strict(r, j) && p.g.deps[r][j].name == n
  }

  /** Of the strict ones among the first `k` dependencies, those that exist and are known have been noted as they are;
      nothing else has changed. */
  ghost predicate Noted(p: Plan, r: int, k: int, before: map<nat, TsEntry>, after: map<nat, TsEntry>,
                        fs: map<nat, Stat>)
    requires 0 <= r < |p.g.deps| && 0 <= k <= |p.g.deps[r]|
  {
    && after.Keys == before.Keys
    && forall n | n in before ::
      if n in fs && Wants(p, r, n, k)
      then after[n] == before[n].(tsnew := fs[n].mtim, sznew := fs[n].size, seen := true)
      else after[n] == before[n]
  }

  lemma NotedNone(p: Plan, r: int, tsdb: map<nat, TsEntry>, fs: map<nat, Stat>)
    requires 0 <= r < |p.g.deps|
    ensures Noted(p, r, 0, tsdb, tsdb, fs)
  {
  }

  lemma NotedMore(p: Plan, r: int, k: int, before: map<nat, TsEntry>, was: map<nat, TsEntry>,
                  after: map<nat, TsEntry>, fs: map<nat, Stat>)
    requires 0 <= r < |p.g.deps| && 0 <= k < |p.g.deps[r]| && Noted(p, r, k, before, was, fs)
    requires var n := p.g.deps[r][k].name;
      after == if p.Strict(r, k) && n in fs && n in was
        then was[n := was[n].(tsnew := fs[n].mtim, sznew := fs[n].size, seen := true)] else was
    ensures Noted(p, r, k + 1, before, after, fs)
  {
    forall n
      ensures Wants(p, r, n, k + 1) <==> Wants(p, r, n, k) || (p.Strict(r, k) && p.g.deps[r][k].name == n)
    {
    }
    hide Wants;
  }

  /** Noting changes none of the compared fields. */
  lemma NotedFollows(p: Plan, r: int, k: int, before: map<nat, TsEntry>, after: map<nat, TsEntry>, fs: map<nat, Stat>)
    requires 0 <= r < |p.g.deps| && 0 <= k <= |p.g.deps[r]| && Noted(p, r, k, before, after, fs)
    ensures TsFollowed(before, after, fs)
  {
    hide Wants;
  }

  /** The entry of `n` is as before. */
  ghost predicate SameEntry(before: map<nat, TsEntry>, after: map<nat, TsEntry>, n: nat) {
    (n in after <==> n in before) && (n in after ==> after[n] == before[n])
  }

  /** A dependency of rule `r` that takes part in decisions has this name. */
  ghost predicate Lists(p: Plan, r: int, n: nat)
    requires 0 <= r < |p.g.deps|
  {
    exists i :: 0 <= i < |p.g.deps[r]| && p.Live(r, i) && p.g.deps[r][i].name == n
  }

  /** With every dependency present, comparing the oldest target with the newest strict dependency compares them all. */
  lemma OldestAgainstNewest(p: Plan, r: int, fs: map<nat, Stat>, seen: bool, newest: Time, oldest: Time)
    requires 0 <= r < |p.recipes| == |p.g.deps| && Newest(p, r, fs, if seen then Some(newest) else None)
    requires forall i | 0 <= i < |p.g.deps[r]| && p.Strict(r, i) :: p.g.deps[r][i].name in fs
    requires exists t :: t in p.recipes[r].tgts && t in fs && fs[t].mtim == oldest
    requires forall t | t in p.recipes[r].tgts :: t in fs && TsCmp(oldest, fs[t].mtim) <= 0
    ensures (seen ==> TsCmp(oldest, newest) >= 0) <==>
      forall i, t | 0 <= i < |p.g.deps[r]| && p.Strict(r, i) && t in p.recipes[r].tgts ::
        TsCmp(fs[t].mtim, fs[p.g.deps[r][i].name].mtim) >= 0
  {
    var s :| s in p.recipes[r].tgts && s in fs && fs[s].mtim == oldest;
    if seen {
      var k :| 0 <= k < |p.g.deps[r]| && p.Strict(r, k) && p.g.deps[r][k].name in fs &&
        fs[p.g.deps[r][k].name].mtim == newest;
      forall i, t | 0 <= i < |p.g.deps[r]| && p.Strict(r, i) && t in p.recipes[r].tgts
        ensures TsCmp(oldest, newest) >= 0 ==> TsCmp(fs[t].mtim, fs[p.g.deps[r][i].name].mtim) >= 0
      {
        TsCmpOrders(fs[p.g.deps[r][i].name].mtim, newest, oldest);
        TsCmpOrders(fs[p.g.deps[r][i].name].mtim, oldest, fs[t].mtim);
        TsCmpOrders(newest, oldest, fs[t].mtim);
        TsCmpOrders(fs[t].mtim, fs[p.g.deps[r][i].name].mtim, oldest);
      }
    }
  }

  /** The timestamp database after mark_executed: entries were added or brought up to date, nothing else. */
  ghost predicate TsStored(before: map<nat, TsEntry>, after: map<nat, TsEntry>, fs: map<nat, Stat>) {
    && before.Keys <= after.Keys
    && forall n | n in after :: (n in before && after[n] == before[n]) || (n in fs && Recorded(after, n, fs[n]))
  }

  /** The targets of the rules in `ran` are entered with their commands; other targets keep what they had. */
  ghost predicate Merged(p: Plan, ran: set<int>, before: map<nat, CmdEntry>, after: map<nat, CmdEntry>) {
    forall r, t | 0 <= r < |p.recipes| && t in p.recipes[r].tgts ::
      if r in ran then SameCommand(after, t, p.recipes[r])
      else (t in after <==> t in before) && (t in after ==> after[t] == before[t])
  }

  lemma MergedNone(p: Plan, db: map<nat, CmdEntry>)
    ensures Merged(p, {}, db, db)
  {
  }

  /** Entering the targets of one more rule. */
  lemma MergedMore(p: Plan, ran: set<int>, i: int, before: map<nat, CmdEntry>, was: map<nat, CmdEntry>, after: map<nat,
        CmdEntry>)
    requires p.Valid() && 0 <= i < |p.recipes| && Merged(p, ran, before, was)
    requires forall t | t in p.recipes[i].tgts :: SameCommand(after, t, p.recipes[i])
    requires forall t | t !in p.recipes[i].tgts :: (t in after <==> t in was) && (t in after ==> after[t] == was[t])
    ensures Merged(p, ran + {i}, before, after)
  {
  }

  class BuildDb {
    const p: Plan
    var fs: map<nat, Stat>
    var cache: map<nat, Lookup>
    var db: map<nat, CmdEntry>
    var tsdb: map<nat, TsEntry>
    var stMtim: seq<Option<Time>>
    var ran: set<int>

    ghost function View(): World
      reads this
    {
      World(fs, cache, db, tsdb, stMtim, ran)
    }

    /** The stat cache tells the truth about `n`. */
    ghost predicate Coherent(n: nat)
      reads this
    {
      n in cache ==> cache[n] == Look(fs, n)
    }

    constructor (p: Plan, fs: map<nat, Stat>, db: map<nat, CmdEntry>, tsdb: map<nat, TsEntry>)
      ensures this.p == p && this.fs == fs && this.db == db && this.tsdb == tsdb
      ensures cache == map[] && ran == {} && stMtim == seq(|p.g.deps|, i => None)
    {
      this.p, this.fs, this.db, this.tsdb := p, fs, db, tsdb;
      cache, ran, stMtim := map[], {}, seq(|p.g.deps|, i => None);
    }

    /** lstat_cached, which may drop other entries to make room. */
    method Lstat(n: nat) returns (she: Lookup)
      requires Coherent(n)
      modifies this`cache
      ensures she == Look(fs, n) && CacheGrown(old(cache), cache, fs) && Coherent(n)
      ensures n in cache && (n in old(cache) ==> cache == old(cache))
    {
      if n in cache {
        she := cache[n];
        return;
      }
      var evicted: set<nat> := *;
      she := Look(fs, n);
      cache := (cache - evicted)[n := she];
    }

    /** tsszequal_db; a source's present state is noted for writing back. */
    method TsszEqual(n: nat, st: Stat, isTarget: bool) returns (eq: bool)
      modifies this`tsdb
      ensures eq <==> Matches(old(tsdb), n, st)
      ensures n in fs && fs[n] == st ==> TsFollowed(old(tsdb), tsdb, fs)
      ensures isTarget || n !in old(tsdb) ==> tsdb == old(tsdb)
      ensures !isTarget && n in old(tsdb) ==>
        tsdb == old(tsdb)[n := old(tsdb)[n].(tsnew := st.mtim, sznew := st.size, seen := true)]
    {
      if n !in tsdb {
        return false;
      }
      if !isTarget {
        tsdb := tsdb[n := tsdb[n].(tsnew := st.mtim, sznew := st.size, seen := true)];
      }
      if tsdb[n].sz != st.size {
        return false;
      }
      if TsCmp(tsdb[n].ts, st.mtim) != 0 {
        return false;
      }
      return true;
    }

    /** One dependency of do_exec's decision. */
    method CheckDep(r: int, i: int, seen: bool, newest: Time) returns (ok: bool, seen': bool, newest': Time)
      requires 0 <= r < |p.g.deps| && 0 <= i < |p.g.deps[r]| && p.Live(r, i) && Coherent(p.g.deps[r][i].name)
      modifies this`cache, this`tsdb
      ensures CacheGrown(old(cache), cache, fs)
      ensures var n := p.g.deps[r][i].name;
        && tsdb == (if p.Strict(r, i) && n in fs && n in old(tsdb)
                    then old(tsdb)[n := old(tsdb)[n].(tsnew := fs[n].mtim, sznew := fs[n].size, seen := true)]
                    else old(tsdb))
        && (ok <==> n in fs && (p.Strict(r, i) ==> Matches(old(tsdb), n, fs[n])))
        && (seen' <==> seen || (p.Strict(r, i) && n in fs))
        && (p.Strict(r, i) && n in fs ==>
          newest' == if !seen || TsCmp(fs[n].mtim, newest) > 0 then fs[n].mtim else newest)
        && (!(p.Strict(r, i) && n in fs) ==> newest' == newest)
    {
      var d := p.g.deps[r][i];
      ok, seen', newest' := true, seen, newest;
      var she := Lstat(d.name);
      if she.Missing? {
        ok := false;
      } else if !d.isOrderOnly {
        if !seen || TsCmp(she.st.mtim, newest) > 0 {
          newest' := she.st.mtim;
        }
        ok := TsszEqual(d.name, she.st, false);
        seen' := true;
      }
    }

    /** The dependency half of do_exec's decision. */
    method CheckDeps(r: int) returns (has: bool, seen: bool, newest: Time)
      requires 0 <= r < |p.g.deps|
      requires forall i | 0 <= i < |p.g.deps[r]| && p.Live(r, i) :: Coherent(p.g.deps[r][i].name)
      modifies this`cache, this`tsdb
      ensures CacheGrown(old(cache), cache, fs) && Noted(p, r, |p.g.deps[r]|, old(tsdb), tsdb, fs)
      ensures !has <==> forall i | 0 <= i < |p.g.deps[r]| && p.Live(r, i) ::
        p.g.deps[r][i].name in fs &&
          (p.Strict(r, i) ==> Matches(old(tsdb), p.g.deps[r][i].name, fs[p.g.deps[r][i].name]))
      ensures Newest(p, r, fs, if seen then Some(newest) else None)
    {
      hide Noted;
      has, seen, newest := false, false, Time(0, 0);
      ghost var at := -1;
      var ds := p.g.deps[r];
      var i := 0;
      NotedNone(p, r, tsdb, fs);
      while i < |ds|
        invariant 0 <= i <= |ds|
        invariant CacheGrown(old(cache), cache, fs) && Noted(p, r, i, old(tsdb), tsdb, fs)
        invariant !has <==> forall j | 0 <= j < i && p.Live(r, j) ::
          ds[j].name in fs && (p.Strict(r, j) ==> Matches(old(tsdb), ds[j].name, fs[ds[j].name]))
        invariant !seen ==> forall j | 0 <= j < i && p.Strict(r, j) :: ds[j].name !in fs
        invariant seen ==> 0 <= at < i && p.Strict(r, at) && ds[at].name in fs && fs[ds[at].name].mtim == newest
        invariant seen ==>
          forall j | 0 <= j < i && p.Strict(r, j) && ds[j].name in fs :: TsCmp(fs[ds[j].name].mtim, newest) <= 0
      {
        ghost var was := tsdb;
        NotedFollows(p, r, i, old(tsdb), tsdb, fs);
        if !ds[i].isDupe {
          var ok, seen', newest' := CheckDep(r, i, seen, newest);
          if newest' != newest || seen' != seen {
            at := i;
          }
          has, seen, newest := has || !ok, seen', newest';
        }
        NotedMore(p, r, i, old(tsdb), was, tsdb, fs);
        i := i + 1;
      }
    }

    /** The target half of do_exec's decision; `oldest` is meaningful when nothing differed. */
    method CheckTargets(r: int) returns (has: bool, seen: bool, oldest: Time)
      requires 0 <= r < |p.recipes| && forall t | t in p.recipes[r].tgts :: Coherent(t)
      modifies this`cache, this`tsdb
      ensures CacheGrown(old(cache), cache, fs) && tsdb == old(tsdb)
      ensures !has <==> forall t | t in p.recipes[r].tgts ::
        t in fs && SameCommand(db, t, p.recipes[r]) && Matches(tsdb, t, fs[t])
      ensures !has && p.recipes[r].tgts != [] ==> seen
      ensures !has && seen ==> exists t :: t in p.recipes[r].tgts && t in fs && fs[t].mtim == oldest
      ensures !has && seen ==> forall t | t in p.recipes[r].tgts :: t in fs && TsCmp(oldest, fs[t].mtim) <= 0
    {
      has, seen, oldest := false, false, Time(0, 0);
      var ts := p.recipes[r].tgts;
      ghost var at := -1;
      var i := 0;
      while i < |ts|
        invariant 0 <= i <= |ts| && tsdb == old(tsdb)
        invariant CacheGrown(old(cache), cache, fs)
        invariant !has <==> forall j | 0 <= j < i ::
          ts[j] in fs && SameCommand(db, ts[j], p.recipes[r]) && Matches(tsdb, ts[j], fs[ts[j]])
        invariant !has && i > 0 ==> seen
        invariant !has && seen ==> 0 <= at < i && ts[at] in fs && fs[ts[at]].mtim == oldest
        invariant !has && seen ==> forall j | 0 <= j < i :: ts[j] in fs && TsCmp(oldest, fs[ts[j]].mtim) <= 0
      {
        var same := CmdEqualDb(ts[i], p.recipes[r]);
        if !same {
          has := true;
        }
        assert ts[i] in ts;
        var she := Lstat(ts[i]);
        if she.Missing? {
          has := true;
        } else {
          var eq := TsszEqual(ts[i], she.st, true);
          if !eq {
            has := true;
          } else {
            if !seen || TsCmp(she.st.mtim, oldest) < 0 {
              oldest, at := she.st.mtim, i;
            }
            seen := true;
          }
        }
        i := i + 1;
      }
      if !has && seen {
        assert ts[at] in ts;
      }
    }

    /** The whole decision for a rule without dependencies. */
    method CheckExisting(r: int) returns (has: bool)
      requires 0 <= r < |p.recipes|
      modifies this`tsdb
      ensures tsdb == old(tsdb)
      ensures !has <==> forall t | t in p.recipes[r].tgts ::
        t in fs && SameCommand(db, t, p.recipes[r]) && Matches(tsdb, t, fs[t])
    {
      has := false;
      var ts := p.recipes[r].tgts;
      var i := 0;
      while i < |ts|
        invariant 0 <= i <= |ts| && tsdb == old(tsdb)
        invariant !has <==> forall j | 0 <= j < i ::
          ts[j] in fs && SameCommand(db, ts[j], p.recipes[r]) && Matches(tsdb, ts[j], fs[ts[j]])
      {
        assert ts[i] in ts;
        if ts[i] !in fs {
          return true;
        }
        var same := CmdEqualDb(ts[i], p.recipes[r]);
        if !same {
          return true;
        }
        var eq := TsszEqual(ts[i], fs[ts[i]], true);
        if !eq {
          has := true;
        }
        i := i + 1;
      }
    }

    /** cmdequal_db. */
    method CmdEqualDb(t: nat, rc: Recipe) returns (eq: bool)
      ensures eq <==> SameCommand(db, t, rc)
    {
      if t !in db || db[t].dir != rc.dir {
        return false;
      }
      eq := CmdEqual(rc.cmds, db[t].cmds);
    }

    /** do_exec's decision for an ordinary rule: whether anything it compares differs. */
    method Decide(r: int) returns (has: bool)
      requires p.Valid() && |stMtim| == |p.g.deps| && 0 <= r < |p.g.deps|
      requires forall i | 0 <= i < |p.g.deps[r]| && p.Live(r, i) :: Coherent(p.g.deps[r][i].name)
      requires forall t | t in p.recipes[r].tgts :: Coherent(t)
      modifies this`cache, this`tsdb, this`stMtim
      ensures has <==> !UpToDate(p, r, fs, db, old(tsdb))
      ensures CacheGrown(old(cache), cache, fs) && TsFollowed(old(tsdb), tsdb, fs)
      ensures Noted(p, r, |p.g.deps[r]|, old(tsdb), tsdb, fs)
      ensures |stMtim| == |p.g.deps| && stMtim == old(stMtim)[r := stMtim[r]]
      ensures if p.g.deps[r] == [] then stMtim[r] == old(stMtim)[r] else Newest(p, r, fs, stMtim[r])
    {
      hide Noted;
      if p.g.deps[r] == [] {
        has := CheckExisting(r);
        NotedNone(p, r, tsdb, fs);
        return;
      }
      var hasD, seen, newest := CheckDeps(r);
      stMtim := stMtim[r := if seen then Some(newest) else None];
      NotedFollows(p, r, |p.g.deps[r]|, old(tsdb), tsdb, fs);
      TargetsStay(r, old(cache), cache, old(tsdb), tsdb);
      var hasT, seenT, oldest := CheckTargets(r);
      has := hasD || hasT;
      if !has {
        OldestAgainstNewest(p, r, fs, seen, newest, oldest);
        if seen && TsCmp(oldest, newest) < 0 {
          has := true;
        }
      }
    }

    /** Checking the dependencies does not change what the target half will see. */
    lemma TargetsStay(r: int, cache0: map<nat, Lookup>, cache1: map<nat, Lookup>, ts0: map<nat, TsEntry>, ts1: map<nat,
          TsEntry>)
      requires 0 <= r < |p.recipes|
      requires CacheGrown(cache0, cache1, fs) && TsFollowed(ts0, ts1, fs)
      ensures forall t | t in p.recipes[r].tgts && (t in cache0 ==> cache0[t] == Look(fs, t)) :: t in cache1 ==>
        cache1[t] == Look(fs, t)
      ensures forall t | t in fs :: Matches(ts0, t, fs[t]) <==> Matches(ts1, t, fs[t])
    {
    }

    /** What the commands of rule `r` may do to the file system: anything to its own targets. */
    method Command(r: int)
      requires 0 <= r < |p.recipes|
      modifies this`fs
      ensures forall n | !p.HasTarget(r, n) :: Look(fs, n) == Look(old(fs), n)
    {
      var made: map<nat, Stat> := *;
      var kept := map n | n in fs && !p.HasTarget(r, n) :: fs[n];
      fs := kept + map n | n in made && p.HasTarget(r, n) :: made[n];
    }

    /** tsszstoretarget and tsszstoresource. */
    method Store(n: nat, st: Stat)
      modifies this`tsdb
      ensures tsdb == old(tsdb)[n := TsEntry(st.mtim, st.mtim, st.size, st.size, true)]
    {
      tsdb := tsdb[n := TsEntry(st.mtim, st.mtim, st.size, st.size, true)];
    }

    /** mark_executed's check that every target was made, and not before the newest dependency. */
    method StoreTargets(r: int, executed: bool) returns (ok: bool)
      requires 0 <= r < |p.recipes| && r < |stMtim|
      requires !executed ==> forall t | t in p.recipes[r].tgts :: Coherent(t)
      modifies this`cache, this`tsdb
      ensures CacheGrown(old(cache), cache, fs) && TsStored(old(tsdb), tsdb, fs)
      ensures ok <==> forall t | t in p.recipes[r].tgts ::
        t in fs && (stMtim[r].Some? ==> TsCmp(fs[t].mtim, stMtim[r].value) >= 0)
      ensures ok ==> forall t | t in p.recipes[r].tgts :: Recorded(tsdb, t, fs[t])
      ensures forall n | n !in p.recipes[r].tgts :: SameEntry(old(tsdb), tsdb, n)
    {
      var ts := p.recipes[r].tgts;
      var i := 0;
      while i < |ts|
        invariant 0 <= i <= |ts|
        invariant CacheGrown(old(cache), cache, fs) && TsStored(old(tsdb), tsdb, fs)
        invariant forall j | 0 <= j < i ::
          ts[j] in fs && (stMtim[r].Some? ==> TsCmp(fs[ts[j]].mtim, stMtim[r].value) >= 0)
        invariant forall j | 0 <= j < i :: Recorded(tsdb, ts[j], fs[ts[j]])
        invariant forall n | n !in ts :: SameEntry(old(tsdb), tsdb, n)
      {
        assert ts[i] in ts;
        var she;
        if executed {
          she := Look(fs, ts[i]);
        } else {
          she := Lstat(ts[i]);
        }
        if she.Missing? || (stMtim[r].Some? && TsCmp(she.st.mtim, stMtim[r].value) < 0) {
          return false;
        }
        Store(ts[i], she.st);
        i := i + 1;
      }
      return true;
    }

    /** mark_executed's second loop, over the dependencies. */
    method StoreSources(r: int)
      requires 0 <= r < |p.g.deps|
      requires forall i | 0 <= i < |p.g.deps[r]| && p.Live(r, i) :: Coherent(p.g.deps[r][i].name)
      modifies this`cache, this`tsdb
      ensures CacheGrown(old(cache), cache, fs) && TsStored(old(tsdb), tsdb, fs)
      ensures forall i | 0 <= i < |p.g.deps[r]| && p.Live(r, i) && p.g.deps[r][i].name in fs ::
        Recorded(tsdb, p.g.deps[r][i].name, fs[p.g.deps[r][i].name])
      ensures forall n | !Lists(p, r, n) :: SameEntry(old(tsdb), tsdb, n)
    {
      var ds := p.g.deps[r];
      var i := 0;
      while i < |ds|
        invariant 0 <= i <= |ds|
        invariant CacheGrown(old(cache), cache, fs) && TsStored(old(tsdb), tsdb, fs)
        invariant forall j | 0 <= j < i && p.Live(r, j) && ds[j].name in fs ::
          Recorded(tsdb, ds[j].name, fs[ds[j].name])
        invariant forall n | !Lists(p, r, n) :: SameEntry(old(tsdb), tsdb, n)
      {
        if !ds[i].isDupe {
          assert p.Live(r, i);
          assert Lists(p, r, ds[i].name);
          var she := Lstat(ds[i].name);
          if she.Found? {
            Store(ds[i].name, she.st);
          }
        }
        i := i + 1;
      }
    }

    /** The file and database half of mark_executed; `ok` is false when it gives up. */
    method MarkExecuted(r: int, executed: bool) returns (ok: bool)
      requires 0 <= r < |p.recipes| == |p.g.deps| && r < |stMtim|
      requires !executed ==> forall t | t in p.recipes[r].tgts :: Coherent(t)
      requires forall i | 0 <= i < |p.g.deps[r]| && p.Live(r, i) :: Coherent(p.g.deps[r][i].name)
      modifies this`cache, this`tsdb, this`ran
      ensures CacheGrown(old(cache), cache, fs) && TsStored(old(tsdb), tsdb, fs)
      ensures ran == if executed then old(ran) + {r} else old(ran)
      ensures ok <==> forall t | t in p.recipes[r].tgts ::
        t in fs && (stMtim[r].Some? ==> TsCmp(fs[t].mtim, stMtim[r].value) >= 0)
      ensures ok ==> forall t | t in p.recipes[r].tgts :: Recorded(tsdb, t, fs[t])
      ensures ok ==> forall i | 0 <= i < |p.g.deps[r]| && p.Live(r, i) && p.g.deps[r][i].name in fs ::
        Recorded(tsdb, p.g.deps[r][i].name, fs[p.g.deps[r][i].name])
      ensures forall n | n !in p.recipes[r].tgts && !Lists(p, r, n) :: SameEntry(old(tsdb), tsdb, n)
      ensures !ok ==> forall n | n !in p.recipes[r].tgts :: SameEntry(old(tsdb), tsdb, n)
      ensures ok && executed ==> forall t | t in p.recipes[r].tgts :: t !in cache
    {
      if executed {
        ran := ran + {r};
      }
      ok := StoreTargets(r, executed);
      if !ok {
        return;
      }
      StoreSources(r);
      if executed {
        cache := map n | n in cache && n !in p.recipes[r].tgts :: cache[n];
      }
    }

    /** The rules executed so far enter the command database, as merge_db_v2 does before printing it. */
    method Merge()
      requires p.Valid() && ran <= Numbers(|p.recipes|)
      modifies this`db
      ensures Merged(p, ran, old(db), db)
    {
      hide Merged, Plan.Valid, SameCommand;
      ghost var entered: set<int> := {};
      assert Merged(p, entered, db, db) by {
        MergedNone(p, db);
      }
      var i := 0;
      while i < |p.recipes|
        invariant 0 <= i <= |p.recipes|
        invariant entered == set r | r in ran && r < i
        invariant Merged(p, entered, old(db), db)
      {
        if i in ran {
          ghost var was := db;
          EnterTargets(i);
          MergedMore(p, entered, i, old(db), was, db);
          entered := entered + {i};
        }
        i := i + 1;
      }
      assert entered == ran;
    }

    method EnterTargets(i: int)
      requires 0 <= i < |p.recipes|
      modifies this`db
      ensures forall t | t in p.recipes[i].tgts :: SameCommand(db, t, p.recipes[i])
      ensures forall t | t !in p.recipes[i].tgts :: (t in db <==> t in old(db)) && (t in db ==> db[t] == old(db)[t])
    {
      var rc := p.recipes[i];
      var j := 0;
      while j < |rc.tgts|
        invariant 0 <= j <= |rc.tgts|
        invariant forall k | 0 <= k < j :: SameCommand(db, rc.tgts[k], rc)
        invariant forall t | t !in rc.tgts :: (t in db <==> t in old(db)) && (t in db ==> db[t] == old(db)[t])
      {
        db := db[rc.tgts[j] := CmdEntry(rc.dir, rc.cmds)];
        j := j + 1;
      }
    }
  }

  /** cmd_equal: the same commands with the same arguments, in order. */
  method CmdEqual(a: seq<seq<seq<Byte>>>, b: seq<seq<seq<Byte>>>) returns (eq: bool)
    ensures eq <==> a == b
  {
    if |a| != |b| {
      return false;
    }
    for i := 0 to |a|
      invariant a[..i] == b[..i]
    {
      if |a[i]| != |b[i]| {
        return false;
      }
      for j := 0 to |a[i]|
        invariant a[i][..j] == b[i][..j]
      {
        if a[i][j] != b[i][j] {
          return false;
        }
      }
      assert a[i] == a[i][..|a[i]|] && b[i] == b[i][..|a[i]|];
    }
    assert a == a[..|a|] && b == b[..|a|];
    return true;
  }
}
