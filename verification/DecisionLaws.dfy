/** What makes a rule be made again, and what mark_executed gives up on, said in seconds, sizes, directories and
    commands alone. */
module DecisionLaws {
  import opened Options
  import opened Bytes
  import opened BuildGraph
  import opened BuildFiles
  import opened NullBuild

  const BILLION := 1000000000

  /** A time as lstat gives it. */
  predicate Proper(t: Time) {
    0 <= t.nsec < BILLION
  }

  ghost predicate AllProper(fs: map<nat, Stat>) {
    forall n | n in fs :: Proper(fs[n].mtim)
  }

  /** Nanoseconds since the epoch. */
  function Nanos(t: Time): int {
    t.sec * BILLION + t.nsec
  }

  /** ts_cmp says 1 of a later time and -1 of an earlier one. */
  lemma TsCmpIsLater(a: Time, b: Time)
    requires Proper(a) && Proper(b)
    ensures TsCmp(a, b) == 1 <==> Nanos(a) > Nanos(b)
    ensures TsCmp(a, b) == -1 <==> Nanos(a) < Nanos(b)
    ensures TsCmp(a, b) in {-1, 0, 1}
  {
  }

  /** A strict dependency of rule `r` is newer than target `t`. */
  ghost predicate Newer(p: Plan, r: int, fs: map<nat, Stat>, i: int, t: nat)
    requires 0 <= r < |p.g.deps| && 0 <= i < |p.g.deps[r]|
  {
    var d := p.g.deps[r][i];
    !d.isDupe && !d.isOrderOnly && d.name in fs && t in fs && Nanos(fs[d.name].mtim) > Nanos(fs[t].mtim)
  }

  /** The file is not there, is not recorded, or has another size or time than recorded. */
  predicate Changed(fs: map<nat, Stat>, tsdb: map<nat, TsEntry>, n: nat) {
    n !in fs || n !in tsdb || fs[n].size != tsdb[n].sz || Nanos(fs[n].mtim) != Nanos(tsdb[n].ts)
  }

  /** The target is recorded with no command, another directory or other commands. */
  predicate MadeOtherwise(db: map<nat, CmdEntry>, t: nat, rc: Recipe) {
    t !in db || db[t].dir != rc.dir || db[t].cmds != rc.cmds
  }

  /** No dependency is missing, no strict one has changed, no target has changed or was made otherwise, and no strict
      dependency is newer than a target. */
  ghost predicate NothingToMake(p: Plan, r: int, fs: map<nat, Stat>, db: map<nat, CmdEntry>, tsdb: map<nat, TsEntry>)
    requires 0 <= r < |p.recipes| == |p.g.deps|
  {
    && (forall i | 0 <= i < |p.g.deps[r]| && !p.g.deps[r][i].isDupe :: p.g.deps[r][i].name in fs)
    && (forall i | 0 <= i < |p.g.deps[r]| && !p.g.deps[r][i].isDupe && !p.g.deps[r][i].isOrderOnly ::
          !Changed(fs, tsdb, p.g.deps[r][i].name))
    && (forall t | t in p.recipes[r].tgts :: !Changed(fs, tsdb, t) && !MadeOtherwise(db, t, p.recipes[r]))
    && (forall i, t | 0 <= i < |p.g.deps[r]| && t in p.recipes[r].tgts :: !Newer(p, r, fs, i, t))
  }

  lemma MatchesExactly(fs: map<nat, Stat>, tsdb: map<nat, TsEntry>, n: nat)
    requires AllProper(fs) && forall m | m in tsdb :: Proper(tsdb[m].ts)
    ensures n in fs ==> (!Changed(fs, tsdb, n) <==> Matches(tsdb, n, fs[n]))
  {
    if n in fs && n in tsdb {
      SameNanos(fs[n].mtim, tsdb[n].ts);
    }
  }

  /** do_exec's comparison comes out even exactly when there is nothing to make. */
  lemma UpToDateExactly(p: Plan, r: int, fs: map<nat, Stat>, db: map<nat, CmdEntry>, tsdb: map<nat, TsEntry>)
    requires 0 <= r < |p.recipes| == |p.g.deps|
    requires AllProper(fs) && forall n | n in tsdb :: Proper(tsdb[n].ts)
    ensures UpToDate(p, r, fs, db, tsdb) <==> NothingToMake(p, r, fs, db, tsdb)
  {
    forall n
      ensures n in fs ==> (!Changed(fs, tsdb, n) <==> Matches(tsdb, n, fs[n]))
    {
      MatchesExactly(fs, tsdb, n);
    }
    hide Changed, Matches, Nanos;
    if UpToDate(p, r, fs, db, tsdb) {
      forall i, t | 0 <= i < |p.g.deps[r]| && t in p.recipes[r].tgts
        ensures !Newer(p, r, fs, i, t)
      {
        if p.Strict(r, i) {
          TsCmpIsLater(fs[t].mtim, fs[p.g.deps[r][i].name].mtim);
        }
      }
      forall i | 0 <= i < |p.g.deps[r]| && !p.g.deps[r][i].isDupe
        ensures p.g.deps[r][i].name in fs
      {
        assert p.Live(r, i);
      }
      forall i | 0 <= i < |p.g.deps[r]| && !p.g.deps[r][i].isDupe && !p.g.deps[r][i].isOrderOnly
        ensures !Changed(fs, tsdb, p.g.deps[r][i].name)
      {
        assert p.Live(r, i) && p.Strict(r, i);
      }
    }
    if NothingToMake(p, r, fs, db, tsdb) {
      NothingThenEven(p, r, fs, db, tsdb);
    }
  }

  lemma NothingThenEven(p: Plan, r: int, fs: map<nat, Stat>, db: map<nat, CmdEntry>, tsdb: map<nat, TsEntry>)
    requires 0 <= r < |p.recipes| == |p.g.deps| && NothingToMake(p, r, fs, db, tsdb) && AllProper(fs)
    requires forall n :: n in fs ==> (!Changed(fs, tsdb, n) <==> Matches(tsdb, n, fs[n]))
    ensures UpToDate(p, r, fs, db, tsdb)
  {
    hide Matches, Nanos;
    forall t | t in p.recipes[r].tgts
      ensures t in fs && SameCommand(db, t, p.recipes[r]) && Matches(tsdb, t, fs[t])
    {
      assert !Changed(fs, tsdb, t);
    }
    forall i, t | 0 <= i < |p.g.deps[r]| && p.Strict(r, i) && t in p.recipes[r].tgts
      ensures TsCmp(fs[t].mtim, fs[p.g.deps[r][i].name].mtim) >= 0
    {
      assert !Newer(p, r, fs, i, t);
      TsCmpIsLater(fs[t].mtim, fs[p.g.deps[r][i].name].mtim);
    }
  }

  lemma SameNanos(a: Time, b: Time)
    requires Proper(a) && Proper(b)
    ensures Nanos(a) == Nanos(b) <==> a == b
  {
  }

  /** mark_executed, whose measured time is that of the newest strict dependency, passes exactly when every target
      exists and no strict dependency is newer. */
  lemma PassesExactly(p: Plan, r: int, fs: map<nat, Stat>, m: Option<Time>)
    requires 0 <= r < |p.recipes| == |p.g.deps| && AllProper(fs) && Newest(p, r, fs, m)
    ensures (forall t | t in p.recipes[r].tgts :: t in fs && (m.Some? ==> TsCmp(fs[t].mtim, m.value) >= 0)) <==>
      forall t | t in p.recipes[r].tgts :: t in fs && forall i | 0 <= i < |p.g.deps[r]| :: !Newer(p, r, fs, i, t)
  {
    if m.Some? {
      var k :| 0 <= k < |p.g.deps[r]| && p.Strict(r, k) && p.g.deps[r][k].name in fs &&
        fs[p.g.deps[r][k].name].mtim == m.value;
      forall t | t in p.recipes[r].tgts && t in fs
        ensures TsCmp(fs[t].mtim, m.value) >= 0 <==> forall i | 0 <= i < |p.g.deps[r]| :: !Newer(p, r, fs, i, t)
      {
        TsCmpIsLater(fs[t].mtim, m.value);
        forall i | 0 <= i < |p.g.deps[r]| && p.Strict(r, i) && p.g.deps[r][i].name in fs
          ensures Nanos(fs[p.g.deps[r][i].name].mtim) <= Nanos(m.value)
        {
          TsCmpIsLater(fs[p.g.deps[r][i].name].mtim, m.value);
        }
        assert Newer(p, r, fs, k, t) <==> Nanos(m.value) > Nanos(fs[t].mtim);
      }
    } else {
      forall t, i | t in p.recipes[r].tgts && 0 <= i < |p.g.deps[r]|
        ensures !Newer(p, r, fs, i, t)
      {
        assert p.Strict(r, i) ==> p.g.deps[r][i].name !in fs;
      }
    }
  }

  /** What is written of a timestamp entry: the values noted in this run when there are any, else the old ones. */
  lemma WrittenExactly(e: TsEntry)
    ensures Reloaded(e).ts == Reloaded(e).tsnew == (if e.seen then e.tsnew else e.ts)
    ensures Reloaded(e).sz == Reloaded(e).sznew == (if e.seen then e.sznew else e.sz) && !Reloaded(e).seen
  {
  }

  /** After the merge, the targets of the rules that ran are recorded with their own directory and commands, and no
      other target is recorded otherwise than before. */
  lemma MergedExactly(p: Plan, ran: set<int>, before: map<nat, CmdEntry>, after: map<nat, CmdEntry>, r: int, t: nat)
    requires Merged(p, ran, before, after) && 0 <= r < |p.recipes| && t in p.recipes[r].tgts
    ensures r in ran ==> t in after && after[t].dir == p.recipes[r].dir && after[t].cmds == p.recipes[r].cmds
    ensures r !in ran ==> (t in after <==> t in before) && (t in after ==> after[t] == before[t])
  {
  }

  /** An entry brought up to date holds the file's size and time, as the compared and as the noted values. */
  lemma RecordedExactly(tsdb: map<nat, TsEntry>, n: nat, st: Stat)
    ensures Recorded(tsdb, n, st) <==>
      && n in tsdb && tsdb[n].seen && tsdb[n].ts == tsdb[n].tsnew == st.mtim && tsdb[n].sz == tsdb[n].sznew == st.size
  {
  }
}
