/** From the databases in memory to the file and back. */
module Persist {
  import opened Options
  import opened Bytes
  import opened Literal
  import opened LiteralCode
  import opened DbFormat
  import opened DbRoundTrip
  import opened DbTable
  import opened BuildFiles
  import DbCode

  /** A table of different strings without NUL bytes, as the string table is. */
  ghost predicate Strings(names: seq<seq<Byte>>) {
    && (forall i | 0 <= i < |names| :: NUL !in names[i])
    && (forall i, j | 0 <= i < j < |names| :: names[i] != names[j])
  }

  /** Looking a string up in the table. */
  method Intern(names: seq<seq<Byte>>, s: seq<Byte>, ghost at: nat) returns (k: nat)
    requires Strings(names) && at < |names| && names[at] == s
    ensures k == at
  {
    k := 0;
    while names[k] != s
      invariant k <= at
      decreases at - k
    {
      k := k + 1;
    }
  }

  predicate CommandOk(c: CmdEntry, n: nat) {
    c.dir < n && forall k | 0 <= k < |c.cmds| :: NulFree(c.cmds[k])
  }

  predicate StampOk(e: TsEntry) {
    var r := Reloaded(e);
    0 <= r.sz <= LLONG_MAX && 0 <= r.ts.sec <= LLONG_MAX && 0 <= r.ts.nsec <= LLONG_MAX
  }

  predicate CommandsOk(names: seq<seq<Byte>>, ll: seq<Node<CmdEntry>>) {
    forall k | 0 <= k < |ll| :: ll[k].key < |names| && CommandOk(ll[k].value, |names|)
  }

  predicate StampsStorable(names: seq<seq<Byte>>, ll: seq<Node<TsEntry>>) {
    forall k | 0 <= k < |ll| :: ll[k].key < |names| && StampOk(ll[k].value)
  }

  /** What is printed for the command database. */
  function EntriesOf(names: seq<seq<Byte>>, ll: seq<Node<CmdEntry>>): (es: seq<Entry>)
    requires CommandsOk(names, ll)
    ensures |es| == |ll|
    ensures forall k | 0 <= k < |ll| :: es[k] == Entry(names[ll[k].value.dir], names[ll[k].key], ll[k].value.cmds)
  {
    if ll == [] then []
    else [Entry(names[ll[0].value.dir], names[ll[0].key], ll[0].value.cmds)] + EntriesOf(names, ll[1..])
  }

  /** What is printed for the timestamp database: the values noted in this run where there are any. */
  function StampsOf(names: seq<seq<Byte>>, ll: seq<Node<TsEntry>>): (ts: seq<Stamp>)
    requires StampsStorable(names, ll)
    ensures |ts| == |ll|
    ensures forall k | 0 <= k < |ll| ::
      var r := Reloaded(ll[k].value); ts[k] == Stamp(names[ll[k].key], r.sz, r.ts.sec, r.ts.nsec)
  {
    if ll == [] then []
    else
      var r := Reloaded(ll[0].value);
      [Stamp(names[ll[0].key], r.sz, r.ts.sec, r.ts.nsec)] + StampsOf(names, ll[1..])
  }

  /** The nodes that have a command. */
  function WithCommands(ll: seq<Node<CmdEntry>>): (r: seq<Node<CmdEntry>>)
    ensures forall k | 0 <= k < |r| :: r[k] in ll
  {
    if ll == [] then [] else (if ll[0].value.cmds == [] then [] else [ll[0]]) + WithCommands(ll[1..])
  }

  lemma {:induction false} KeptEntries(names: seq<seq<Byte>>, ll: seq<Node<CmdEntry>>)
    requires CommandsOk(names, ll)
    ensures CommandsOk(names, WithCommands(ll))
    ensures Kept(EntriesOf(names, ll)) == EntriesOf(names, WithCommands(ll))
    decreases |ll|
  {
    if ll != [] {
      KeptEntries(names, ll[1..]);
      assert EntriesOf(names, ll)[1..] == EntriesOf(names, ll[1..]);
      if ll[0].value.cmds != [] {
        assert WithCommands(ll)[1..] == WithCommands(ll[1..]);
      } else {
        assert WithCommands(ll) == WithCommands(ll[1..]);
      }
    }
  }

  /** The entries that have a command. */
  function Commanded(db: map<nat, CmdEntry>): map<nat, CmdEntry> {
    map t | t in db && db[t].cmds != [] :: db[t]
  }

  lemma CommandedUpdate(db: map<nat, CmdEntry>, k: nat, v: CmdEntry)
    requires k !in db
    ensures Commanded(map[k := v] + db) == if v.cmds == [] then Commanded(db) else map[k := v] + Commanded(db)
  {
  }

  lemma {:induction false} MapWithCommands(ll: seq<Node<CmdEntry>>)
    requires DistinctKeys(ll)
    ensures DistinctKeys(WithCommands(ll)) && AsMap(WithCommands(ll)) == Commanded(AsMap(ll))
    decreases |ll|
  {
    hide Commanded;
    if ll == [] {
      CommandedNone();
    } else {
      var rest := WithCommands(ll[1..]);
      MapWithCommands(ll[1..]);
      CommandedUpdate(AsMap(ll[1..]), ll[0].key, ll[0].value);
      CommandedKeys(AsMap(ll[1..]));
      if ll[0].value.cmds != [] {
        assert WithCommands(ll) == [ll[0]] + rest && WithCommands(ll)[1..] == rest;
      } else {
        assert WithCommands(ll) == rest;
      }
    }
  }

  lemma CommandedNone()
    ensures Commanded(map[]) == map[]
  {
  }

  lemma CommandedKeys(db: map<nat, CmdEntry>)
    ensures Commanded(db).Keys <= db.Keys
  {
  }

  /** The list as it is read back. */
  function ReloadedList(ll: seq<Node<TsEntry>>): (r: seq<Node<TsEntry>>)
    ensures |r| == |ll| && forall k | 0 <= k < |ll| :: r[k] == Node(ll[k].key, Reloaded(ll[k].value))
  {
    if ll == [] then [] else [Node(ll[0].key, Reloaded(ll[0].value))] + ReloadedList(ll[1..])
  }

  lemma {:induction false} MapReloaded(ll: seq<Node<TsEntry>>)
    requires DistinctKeys(ll)
    ensures DistinctKeys(ReloadedList(ll))
    ensures AsMap(ReloadedList(ll)) == map n | n in AsMap(ll) :: Reloaded(AsMap(ll)[n])
    decreases |ll|
  {
    if ll != [] {
      MapReloaded(ll[1..]);
      assert ReloadedList(ll)[1..] == ReloadedList(ll[1..]);
    }
  }

  /** Some list of a map's nodes; its order is whatever the insertions made it. */
  method Listing<V(==)>(m: map<nat, V>) returns (ll: seq<Node<V>>)
    ensures DistinctKeys(ll) && AsMap(ll) == m
  {
    hide DistinctKeys, AsMap;
    ll := [];
    NoNodes<V>();
    var left := m;
    while left.Keys != {}
      invariant DistinctKeys(ll) && AsMap(ll) + left == m && AsMap(ll).Keys !! left.Keys
      decreases left.Keys
    {
      var k :| k in left.Keys;
      AppendedMap(ll, Node(k, left[k]));
      MovedOver(AsMap(ll), left, k);
      ll := ll + [Node(k, left[k])];
      left := left - {k};
    }
    assert left == map[];
  }

  lemma MovedOver<V>(done: map<nat, V>, left: map<nat, V>, k: nat)
    requires k in left && done.Keys !! left.Keys
    ensures done[k := left[k]] + (left - {k}) == done + left
    ensures done[k := left[k]].Keys !! (left - {k}).Keys
    ensures (left - {k}).Keys < left.Keys
  {
    var a, b := done[k := left[k]] + (left - {k}), done + left;
    assert forall x | x in a :: x in b && a[x] == b[x];
    assert forall x | x in b :: x in a;
    assert k in left.Keys && k !in (left - {k}).Keys;
  }

  lemma NoNodes<V>()
    ensures DistinctKeys<V>([]) && AsMap<V>([]) == map[]
  {
  }

  lemma EntryAt(names: seq<seq<Byte>>, ll: seq<Node<CmdEntry>>, i: nat)
    requires CommandsOk(names, ll) && i < |ll|
    ensures ll[i].key < |names| && ll[i].value.dir < |names|
    ensures |EntriesOf(names, ll)| == |ll|
    ensures EntriesOf(names, ll)[i] == Entry(names[ll[i].value.dir], names[ll[i].key], ll[i].value.cmds)
  {
  }

  /** dbyy_cmdfn on each entry: a node under the number of its target. */
  method CommandNodes(names: seq<seq<Byte>>, es: seq<Entry>, ghost ll: seq<Node<CmdEntry>>)
    returns (nodes: seq<Node<CmdEntry>>)
    requires Strings(names) && CommandsOk(names, ll) && es == EntriesOf(names, ll)
    ensures nodes == ll
  {
    hide Strings, CommandsOk, EntriesOf;
    nodes := [];
    for i := 0 to |es|
      invariant nodes == ll[..i]
    {
      EntryAt(names, ll, i);
      var key := Intern(names, es[i].tgt, ll[i].key);
      var dir := Intern(names, es[i].dir, ll[i].value.dir);
      nodes := nodes + [Node(key, CmdEntry(dir, es[i].cmds))];
      assert ll[..i + 1] == ll[..i] + [ll[i]];
    }
    assert ll[..|es|] == ll;
  }

  /** dbyy_tsfn on each stamp. */
  method StampNodes(names: seq<seq<Byte>>, ts: seq<Stamp>, ghost ll: seq<Node<TsEntry>>)
    returns (nodes: seq<Node<TsEntry>>)
    requires Strings(names) && StampsStorable(names, ll) && ts == StampsOf(names, ll)
    ensures nodes == ReloadedList(ll)
  {
    hide ReloadedList, StampsOf, Reloaded, StampsStorable;
    ghost var r := ReloadedList(ll);
    nodes := [];
    for i := 0 to |ts|
      invariant nodes == r[..i]
    {
      StampKey(names, ll, i);
      var key := Intern(names, ts[i].name, ll[i].key);
      var t := Time(ts[i].sec, ts[i].nsec);
      nodes := nodes + [Node(key, TsEntry(t, t, ts[i].sz, ts[i].sz, false))];
      ReloadedShape(ll[i].value);
      assert r[..i + 1] == r[..i] + [r[i]];
    }
    assert r[..|ts|] == r;
  }

  lemma StampKey(names: seq<seq<Byte>>, ll: seq<Node<TsEntry>>, i: nat)
    requires StampsStorable(names, ll) && i < |ll|
    ensures ll[i].key < |names|
  {
  }

  lemma ReloadedShape(e: TsEntry)
    ensures var r := Reloaded(e); r == TsEntry(r.ts, r.ts, r.sz, r.sz, false)
  {
  }

  lemma Storable(names: seq<seq<Byte>>, dbl: seq<Node<CmdEntry>>, tsl: seq<Node<TsEntry>>)
    requires Strings(names) && CommandsOk(names, dbl) && StampsStorable(names, tsl)
    ensures StampsOk(StampsOf(names, tsl))
    ensures forall k | 0 <= k < |EntriesOf(names, dbl)| :: EntryOk(EntriesOf(names, dbl)[k])
    ensures AllNonNegative(StampsOf(names, tsl))
  {
  }

  /** Print both databases to the file and read the file back: the command database comes back without the entries
      that have no command, the timestamp database with the values noted in this run. */
  method SaveAndLoad(accept: array<bool>, reject: array<seq<Byte>>, hash: nat -> nat, sz: nat, names: seq<seq<Byte>>,
                     dbl: seq<Node<CmdEntry>>, tsl: seq<Node<TsEntry>>)
      returns (db: Table<CmdEntry>, tsdb: Table<TsEntry>)
    requires Tables(accept[..], reject[..]) && sz > 0 && Strings(names)
    requires DistinctKeys(dbl) && DistinctKeys(tsl) && CommandsOk(names, dbl) && StampsStorable(names, tsl)
    ensures db.Valid() && db.ll == WithCommands(dbl) && AsMap(db.ll) == Commanded(AsMap(dbl))
    ensures tsdb.Valid() && tsdb.ll == ReloadedList(tsl)
    ensures AsMap(tsdb.ll) == map n | n in AsMap(tsl) :: Reloaded(AsMap(tsl)[n])
  {
    hide Tables, AsMap, DistinctKeys, Kept, WithCommands, ReloadedList, Strings, LastNodes, Commanded, EntriesOf,
      StampsOf, CommandsOk, StampsStorable;
    Storable(names, dbl, tsl);
    var es, ts := EntriesOf(names, dbl), StampsOf(names, tsl);
    var ret, entries, stamps := DbCode.WriteThenRead(accept, reject, es, ts);
    KeptEntries(names, dbl);
    MapWithCommands(dbl);
    MapReloaded(tsl);
    var cmdNodes := CommandNodes(names, entries, WithCommands(dbl));
    LastOfDistinct(cmdNodes);
    db := Load(hash, sz, cmdNodes);
    var tsNodes := StampNodes(names, stamps, tsl);
    LastOfDistinct(tsNodes);
    tsdb := Load(hash, sz, tsNodes);
  }
}
