/** Files, the stat cache and the two databases as values, and when a rule is up to date. */
module BuildFiles {
  import opened Options
  import opened Bytes
  import opened BuildGraph

  datatype Time = Time(sec: int, nsec: int)

  /** ts_cmp. */
  function TsCmp(a: Time, b: Time): int {
    if a.sec > b.sec then 1
    else if a.sec < b.sec then -1
    else if a.nsec > b.nsec then 1
    else if a.nsec < b.nsec then -1
    else 0
  }

  /** ts_cmp orders times totally and says 0 only of equal ones. */
  lemma TsCmpOrders(a: Time, b: Time, c: Time)
    ensures TsCmp(a, b) == -TsCmp(b, a)
    ensures TsCmp(a, b) == 0 <==> a == b
    ensures TsCmp(a, b) <= 0 && TsCmp(b, c) <= 0 ==> TsCmp(a, c) <= 0
  {
  }

  datatype Stat = Stat(mtim: Time, size: int)
  datatype Lookup = Missing | Found(st: Stat)

  /** An entry of the command database: the directory and commands a target was last made with. */
  datatype CmdEntry = CmdEntry(dir: nat, cmds: seq<seq<seq<Byte>>>)

  /** An entry of the timestamp database; `tsnew` and `sznew` are written back once `seen`. */
  datatype TsEntry = TsEntry(ts: Time, tsnew: Time, sz: int, sznew: int, seen: bool)

  /** What a rule makes, where, and how. */
  datatype Recipe = Recipe(tgts: seq<nat>, dir: nat, cmds: seq<seq<seq<Byte>>>)

  /** Everything a decision depends on. */
  datatype World = World(fs: map<nat, Stat>, cache: map<nat, Lookup>, db: map<nat, CmdEntry>, tsdb: map<nat, TsEntry>,
                         stMtim: seq<Option<Time>>, ran: set<int>)

  datatype Plan = Plan(g: Graph, recipes: seq<Recipe>)
  {
    /** Rules have targets, no two rules share one, and a dependency names a rule's target exactly when it is
        resolved to that rule. */
    ghost predicate Valid() {
      && g.WellFormed() && |recipes| == |g.deps|
      && (forall r | 0 <= r < |recipes| :: recipes[r].tgts != [])
      && (forall r, x, t | 0 <= r < |recipes| && 0 <= x < |recipes| && t in recipes[r].tgts && t in recipes[x].tgts ::
        r == x)
      && (forall r, i | 0 <= r < |g.deps| && 0 <= i < |g.deps[r]| && g.deps[r][i].rule >= 0 ::
            g.deps[r][i].name in recipes[g.deps[r][i].rule].tgts)
      && (forall r, i, x | 0 <= r < |g.deps| && 0 <= i < |g.deps[r]| && g.deps[r][i].rule < 0 && 0 <= x < |recipes| ::
            g.deps[r][i].name !in recipes[x].tgts)
    }

    /** Dependency `i` of rule `r` takes part in decisions. */
    predicate Live(r: int, i: int)
      requires 0 <= r < |g.deps| && 0 <= i < |g.deps[r]|
    {
      !g.deps[r][i].isDupe
    }

    /** Its contents matter too, not just its existence. */
    predicate Strict(r: int, i: int)
      requires 0 <= r < |g.deps| && 0 <= i < |g.deps[r]|
    {
      !g.deps[r][i].isDupe && !g.deps[r][i].isOrderOnly
    }

    predicate HasTarget(r: int, n: nat) {
      0 <= r < |recipes| && n in recipes[r].tgts
    }
  }

  function Look(fs: map<nat, Stat>, n: nat): Lookup {
    if n in fs then Found(fs[n]) else Missing
  }

  /** tsszequal_db: the timestamp database agrees with the file. */
  predicate Matches(tsdb: map<nat, TsEntry>, n: nat, st: Stat) {
    n in tsdb && tsdb[n].sz == st.size && tsdb[n].ts == st.mtim
  }

  /** cmdequal_db: the target was last made in this directory with these commands. */
  predicate SameCommand(db: map<nat, CmdEntry>, t: nat, rc: Recipe) {
    t in db && db[t].dir == rc.dir && db[t].cmds == rc.cmds
  }

  /** Everything do_exec compares agrees: rule `r` need not be made. */
  ghost predicate UpToDate(p: Plan, r: int, fs: map<nat, Stat>, db: map<nat, CmdEntry>, tsdb: map<nat, TsEntry>)
    requires 0 <= r < |p.recipes| == |p.g.deps|
  {
    && (forall i | 0 <= i < |p.g.deps[r]| && p.Live(r, i) ::
          p.g.deps[r][i].name in fs && (p.Strict(r, i) ==> Matches(tsdb, p.g.deps[r][i].name, fs[p.g.deps[r][i].name])))
    && (forall t | t in p.recipes[r].tgts :: t in fs && SameCommand(db, t, p.recipes[r]) && Matches(tsdb, t, fs[t]))
    && (forall i, t | 0 <= i < |p.g.deps[r]| && p.Strict(r, i) && t in p.recipes[r].tgts ::
          TsCmp(fs[t].mtim, fs[p.g.deps[r][i].name].mtim) >= 0)
  }

  /** The newest of the strict dependencies of rule `r`, as do_exec leaves it in st_mtim. */
  ghost predicate Newest(p: Plan, r: int, fs: map<nat, Stat>, m: Option<Time>)
    requires 0 <= r < |p.g.deps|
  {
    && (m.None? ==> forall i | 0 <= i < |p.g.deps[r]| && p.Strict(r, i) :: p.g.deps[r][i].name !in fs)
    && (m.Some? ==>
      exists i :: 0 <= i < |p.g.deps[r]| && p.Strict(r, i) && p.g.deps[r][i].name in fs &&
        fs[p.g.deps[r][i].name].mtim == m.value)
    && (m.Some? ==> forall i | 0 <= i < |p.g.deps[r]| && p.Strict(r, i) && p.g.deps[r][i].name in fs ::
          TsCmp(fs[p.g.deps[r][i].name].mtim, m.value) <= 0)
  }

  /** The timestamp database holds the file's present state, and will write it back. */
  predicate Recorded(tsdb: map<nat, TsEntry>, n: nat, st: Stat) {
    n in tsdb && tsdb[n] == TsEntry(st.mtim, st.mtim, st.size, st.size, true)
  }

  /** What the run leaves behind for a rule that is done. */
  ghost predicate Settled(p: Plan, w: World, r: int)
    requires 0 <= r < |p.recipes| == |p.g.deps|
  {
    && (forall i | 0 <= i < |p.g.deps[r]| && p.Live(r, i) ::
          p.g.deps[r][i].name in w.fs && Recorded(w.tsdb, p.g.deps[r][i].name, w.fs[p.g.deps[r][i].name]))
    && (forall t | t in p.recipes[r].tgts :: t in w.fs && Recorded(w.tsdb, t, w.fs[t]))
    && (forall i, t | 0 <= i < |p.g.deps[r]| && p.Strict(r, i) && t in p.recipes[r].tgts ::
          TsCmp(w.fs[t].mtim, w.fs[p.g.deps[r][i].name].mtim) >= 0)
    && (r in w.ran || p.recipes[r].cmds == [] || forall t | t in p.recipes[r].tgts ::
      SameCommand(w.db, t, p.recipes[r]))
  }

  /** Dependencies without a rule exist. */
  ghost predicate SourcesExist(p: Plan, fs: map<nat, Stat>) {
    forall r, i | 0 <= r < |p.g.deps| && 0 <= i < |p.g.deps[r]| && p.g.deps[r][i].rule < 0 :: p.g.deps[r][i].name in fs
  }

  /** The invariant of a run in which `done` rules are executed and `busy` rules have commands running. */
  ghost predicate RunInv(p: Plan, w: World, done: set<int>, busy: set<int>) {
    && p.Valid() && |w.stMtim| == |p.g.deps| && SourcesExist(p, w.fs)
    && done !! busy && w.ran <= done
    && (forall r | r in done || r in busy :: 0 <= r < |p.g.deps| && p.g.Edges(r) <= done)
    && (forall n | n in w.cache && (forall b | b in busy :: !p.HasTarget(b, n)) :: w.cache[n] == Look(w.fs, n))
    && (forall r | r in done :: Settled(p, w, r))
    && (forall b | b in busy :: Newest(p, b, w.fs, w.stMtim[b]))
    && (forall r | 0 <= r < |p.g.deps| && p.g.deps[r] == [] :: w.stMtim[r].None?)
  }

  /** A timestamp entry written to the database file and read back. */
  function Reloaded(e: TsEntry): TsEntry {
    if e.seen then TsEntry(e.tsnew, e.tsnew, e.sznew, e.sznew, false) else TsEntry(e.ts, e.ts, e.sz, e.sz, false)
  }

  /** Nothing a decision compares differs for any rule of `all`. */
  ghost predicate Quiet(p: Plan, w: World, all: set<int>) {
    && |p.recipes| == |p.g.deps|
    && forall r | r in all ::
      && 0 <= r < |p.g.deps| && p.g.Edges(r) <= all
      && (p.recipes[r].cmds != [] ==> UpToDate(p, r, w.fs, w.db, w.tsdb))
      && Fresh(p, r, w.fs)
  }

  /** The targets of rule `r` exist and are no older than its strict dependencies. */
  ghost predicate Fresh(p: Plan, r: int, fs: map<nat, Stat>)
    requires 0 <= r < |p.recipes| == |p.g.deps|
  {
    && (forall t | t in p.recipes[r].tgts :: t in fs)
    && (forall i, t | 0 <= i < |p.g.deps[r]| && p.Strict(r, i) && t in p.recipes[r].tgts ::
          p.g.deps[r][i].name in fs && TsCmp(fs[t].mtim, fs[p.g.deps[r][i].name].mtim) >= 0)
  }
}
