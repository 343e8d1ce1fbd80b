/** The stat cache: a table of entries that move between a list in order of use and a list of free ones. */
module StatCache {
  import opened Sequences

  /** What lstat said, error code included. */
  datatype Reading = Reading(ret: int, mode: int, sec: int, nsec: int, size: int)

  datatype Entry = Entry(name: nat, reading: Reading)

  const INITIAL := 1024

  lemma DistinctTail(s: seq<nat>)
    requires s != []
    ensures Distinct(s) <==> s[0] !in s[1..] && Distinct(s[1..])
  {
    if s[0] !in s[1..] && Distinct(s[1..]) {
      forall i, j | 0 <= i < j < |s|
        ensures s[i] != s[j]
      {
        assert s[j] == s[1..][j - 1];
      }
    }
    if Distinct(s) {
      assert forall i | 0 <= i < |s[1..]| :: s[1..][i] == s[i + 1];
    }
  }

  lemma {:induction false} WithoutOnce(s: seq<nat>, x: nat)
    requires Distinct(s)
    ensures Distinct(Without(s, {x}))
    ensures |Without(s, {x})| == if x in s then |s| - 1 else |s|
    decreases |s|
  {
    if s != [] {
      DistinctTail(s);
      WithoutOnce(s[1..], x);
      WithoutMembers(s[1..], {x});
      assert forall y :: y in s <==> y == s[0] || y in s[1..];
      if s[0] != x {
        DistinctTail([s[0]] + Without(s[1..], {x}));
        assert ([s[0]] + Without(s[1..], {x}))[1..] == Without(s[1..], {x});
      }
    }
  }

  /** Dropping the last of different numbers. */
  lemma {:induction false} WithoutLast(s: seq<nat>)
    requires s != [] && Distinct(s)
    ensures Without(s, {s[|s| - 1]}) == s[..|s| - 1]
    decreases |s|
  {
    var x := s[|s| - 1];
    DistinctTail(s);
    if |s| == 1 {
      assert Without(s[1..], {x}) == [];
    } else {
      assert s[1..][|s| - 2] == x && x in s[1..];
      WithoutLast(s[1..]);
      assert s[..|s| - 1] == [s[0]] + s[1..][..|s| - 2];
    }
  }

  /** `x` moved to the front, or added there. */
  function ToFront(s: seq<nat>, x: nat): seq<nat> {
    [x] + Without(s, {x})
  }

  // The order of use

  datatype Use = Look(name: nat) | Forget(name: nat)

  /** Names in order of last use, most recent first, forgotten ones left out. */
  function Recency(uses: seq<Use>): seq<nat>
    decreases |uses|
  {
    if uses == [] then []
    else
      var before, u := Recency(uses[..|uses| - 1]), uses[|uses| - 1];
      if u.Look? then ToFront(before, u.name) else Without(before, {u.name})
  }

  lemma {:induction false} RecencyDistinct(uses: seq<Use>)
    ensures Distinct(Recency(uses))
    decreases |uses|
  {
    if uses != [] {
      var before, u := Recency(uses[..|uses| - 1]), uses[|uses| - 1];
      RecencyDistinct(uses[..|uses| - 1]);
      WithoutOnce(before, u.name);
      WithoutMembers(before, {u.name});
      assert forall i | 0 <= i < |Without(before, {u.name})| ::
        Without(before, {u.name})[i] in Without(before, {u.name});
    }
  }

  lemma {:induction false} WithoutPrefix(a: seq<nat>, b: seq<nat>, x: nat)
    requires a <= b
    ensures Without(a, {x}) <= Without(b, {x})
    decreases |a|
  {
    if a != [] {
      assert a[0] == b[0] && a[1..] <= b[1..];
      WithoutPrefix(a[1..], b[1..], x);
    }
  }

  /** One lookup on a cache that holds the most recent names: a miss in a full cache gives up the least recent one. */
  function Cached(names: seq<nat>, name: nat, limit: nat): seq<nat> {
    if name in names then ToFront(names, name)
    else if |names| < limit then [name] + names
    else if names == [] then [name]
    else [name] + names[..|names| - 1]
  }

  /** The cached names stay the most recent ones. */
  lemma CachedIsRecent(names: seq<nat>, recent: seq<nat>, name: nat, limit: nat)
    requires names <= recent && Distinct(recent)
    ensures Cached(names, name, limit) <= ToFront(recent, name)
    ensures Without(names, {name}) <= Without(recent, {name})
  {
    WithoutPrefix(names, recent, name);
    if name !in names {
      WithoutNone(names, {name});
    }
  }

  /** The names a cache holds after a run of lookups and evictions by name. */
  function CachedAfter(uses: seq<Use>, limit: nat): seq<nat>
    decreases |uses|
  {
    if uses == [] then []
    else
      var before, u := CachedAfter(uses[..|uses| - 1], limit), uses[|uses| - 1];
      if u.Look? then Cached(before, u.name, limit) else Without(before, {u.name})
  }

  /** Least recently used: after any run the cached names are the first ones in order of last use, and never more
      than the limit; so what a full cache gives up is the name used longest ago. */
  lemma {:induction false} CacheIsRecent(uses: seq<Use>, limit: nat)
    requires limit > 0
    ensures CachedAfter(uses, limit) <= Recency(uses) && |CachedAfter(uses, limit)| <= limit
    decreases |uses|
  {
    if uses != [] {
      var front, u := uses[..|uses| - 1], uses[|uses| - 1];
      CacheIsRecent(front, limit);
      RecencyDistinct(front);
      var names := CachedAfter(front, limit);
      CachedIsRecent(names, Recency(front), u.name, limit);
      assert Distinct(names);
      WithoutOnce(names, u.name);
    }
  }

  // The table

  /** The names of the entries in a list; a number that is no entry has the name 0. */
  function NamesOf(entries: seq<Entry>, lru: seq<nat>): (names: seq<nat>)
    ensures |names| == |lru|
  {
    if lru == [] then [] else [if lru[0] < |entries| then entries[lru[0]].name else 0] + NamesOf(entries, lru[1..])
  }

  lemma {:induction false} NamesWithout(entries: seq<Entry>, lru: seq<nat>, x: nat)
    requires x < |entries| && forall y | y in lru :: y < |entries| && (entries[y].name == entries[x].name ==> y == x)
    ensures NamesOf(entries, Without(lru, {x})) == Without(NamesOf(entries, lru), {entries[x].name})
    decreases |lru|
  {
    if lru != [] {
      assert lru[0] in lru && forall y | y in lru[1..] :: y in lru;
      NamesWithout(entries, lru[1..], x);
      var w := Without(lru[1..], {x});
      assert ([lru[0]] + w)[1..] == w && ([] + w) == w;
      assert NamesOf(entries, lru)[1..] == NamesOf(entries, lru[1..]);
    }
  }

  lemma {:induction false} NamesSame(a: seq<Entry>, b: seq<Entry>, lru: seq<nat>)
    requires forall x | x in lru :: x < |a| && x < |b| && a[x].name == b[x].name
    ensures NamesOf(a, lru) == NamesOf(b, lru)
    decreases |lru|
  {
    if lru != [] {
      assert lru[0] in lru && forall y | y in lru[1..] :: y in lru;
      NamesSame(a, b, lru[1..]);
    }
  }

  lemma {:induction false} NamesHas(entries: seq<Entry>, lru: seq<nat>, n: nat)
    requires forall y | y in lru :: y < |entries|
    ensures n in NamesOf(entries, lru) <==> exists y :: y in lru && entries[y].name == n
    decreases |lru|
  {
    if lru != [] {
      assert lru[0] in lru && forall y :: y in lru <==> y == lru[0] || y in lru[1..];
      NamesHas(entries, lru[1..], n);
      assert NamesOf(entries, lru)[1..] == NamesOf(entries, lru[1..]);
      var names := NamesOf(entries, lru);
      assert forall m :: m in names <==> m == names[0] || m in names[1..];
    }
  }

  /** Two lists share out the numbers below `n`. */
  ghost predicate Split(n: nat, lru: seq<nat>, free: seq<nat>) {
    && Distinct(lru) && Distinct(free) && |lru| + |free| == n
    && (forall x | x in lru :: x < n && x !in free)
    && (forall x | x in free :: x < n)
  }

  lemma SplitOccupy(n: nat, lru: seq<nat>, free: seq<nat>)
    requires Split(n, lru, free) && free != []
    ensures free[0] < n && free[0] !in lru && Split(n, [free[0]] + lru, free[1..])
  {
    var x := free[0];
    assert x in free;
    DistinctTail(free);
    DistinctTail([x] + lru);
    assert ([x] + lru)[1..] == lru;
    assert forall y | y in free[1..] :: y in free;
    assert forall y :: y in [x] + lru <==> y == x || y in lru;
  }

  lemma SplitRelease(n: nat, lru: seq<nat>, free: seq<nat>, x: nat)
    requires Split(n, lru, free) && x in lru
    ensures Split(n, Without(lru, {x}), [x] + free) && |Without(lru, {x})| == |lru| - 1
  {
    WithoutMembers(lru, {x});
    WithoutOnce(lru, x);
    DistinctTail([x] + free);
    assert ([x] + free)[1..] == free;
    assert forall y :: y in [x] + free <==> y == x || y in free;
  }

  lemma SplitTouch(n: nat, lru: seq<nat>, free: seq<nat>, x: nat)
    requires Split(n, lru, free) && x in lru
    ensures Split(n, ToFront(lru, x), free)
    ensures forall y :: y in ToFront(lru, x) <==> y in lru
    ensures lru[0] == x ==> ToFront(lru, x) == lru
  {
    WithoutMembers(lru, {x});
    WithoutOnce(lru, x);
    var w := Without(lru, {x});
    DistinctTail([x] + w);
    assert ([x] + w)[1..] == w;
    assert forall y :: y in [x] + w <==> y == x || y in w;
    if lru[0] == x {
      DistinctTail(lru);
      WithoutNone(lru[1..], {x});
      assert lru == [x] + lru[1..];
      assert w == [] + lru[1..];
    }
  }

  lemma SplitBounds(n: nat, lru: seq<nat>, free: seq<nat>)
    requires Split(n, lru, free)
    ensures |lru| + |free| == n && forall x | x in lru :: x < n
  {
  }

  lemma NamesCons(entries: seq<Entry>, x: nat, lru: seq<nat>)
    requires x < |entries|
    ensures NamesOf(entries, [x] + lru) == [entries[x].name] + NamesOf(entries, lru)
  {
    assert ([x] + lru)[1..] == lru;
  }

  class Cache {
    const hash: nat -> nat
    const sz: nat
    const limit: nat
    var entries: seq<Entry>
    var lru: seq<nat>
    var free: seq<nat>
    var buckets: seq<map<nat, nat>>

    function Bucket(k: nat): (b: nat)
      requires sz > 0
      ensures b < sz
    {
      hash(k) % sz
    }

    /** The list of use and the free list share out the entries. */
    ghost predicate Shared()
      reads this`entries, this`lru, this`free
    {
      0 < |entries| <= limit && Split(|entries|, lru, free)
    }

    /** The index holds exactly the entries in use, by name. */
    ghost predicate Indexed()
      requires forall x | x in lru :: x < |entries|
      reads this`entries, this`lru, this`buckets
    {
      && sz > 0 && |buckets| == sz
      && (forall x | x in lru ::
        entries[x].name in buckets[Bucket(entries[x].name)] && buckets[Bucket(entries[x].name)][entries[x].name] == x)
      && (forall b, k | 0 <= b < sz && k in buckets[b] ::
        b == Bucket(k) && buckets[b][k] in lru && entries[buckets[b][k]].name == k)
    }

    ghost predicate Valid()
      reads this
    {
      Shared() && Indexed()
    }

    /** The cached names, most recently used first. */
    ghost function Names(): seq<nat>
      requires Valid()
      reads this
    {
      NamesOf(entries, lru)
    }

    predicate Has(k: nat)
      requires Valid()
      reads this
    {
      k in buckets[Bucket(k)]
    }

    function ReadingFor(k: nat): Reading
      requires Valid() && Has(k)
      reads this
    {
      entries[buckets[Bucket(k)][k]].reading
    }

    /** statcache_init. */
    constructor (hash: nat -> nat, sz: nat, limit: nat)
      requires sz > 0 && limit > 0
      ensures Valid() && Names() == [] && this.hash == hash && this.sz == sz && this.limit == limit
    {
      this.hash, this.sz, this.limit := hash, sz, limit;
      var cnt := if INITIAL > limit then limit else INITIAL;
      entries := seq(cnt, i => Entry(0, Reading(0, 0, 0, 0, 0)));
      lru, free := [], seq(cnt, i requires 0 <= i < cnt => i as nat);
      buckets := seq(sz, i => map[]);
    }

    /** statcache_grow: twice as many entries, within the limit. */
    method Grow()
      requires Valid()
      modifies this`entries, this`free
      ensures Valid() && Names() == old(Names()) && (old(|entries|) < limit ==> free != [])
      ensures forall k | Has(k) :: ReadingFor(k) == old(ReadingFor(k))
      ensures old(|entries|) == limit ==> free == old(free)
    {
      var cnt := 2 * |entries|;
      if cnt > limit {
        cnt := limit;
      }
      var more := cnt - |entries|;
      if more == 0 {
        return;
      }
      var n := |entries|;
      var ids: seq<nat> := seq(more, i => n + i);
      GrowFree(free, ids, n);
      free := free + ids;
      entries := entries + seq(more, i => Entry(0, Reading(0, 0, 0, 0, 0)));
      NamesSame(entries, old(entries), lru);
    }

    /** Take a used entry out of the index and the list of use, and put it first among the free ones. */
    method Release(x: nat)
      requires Valid() && x in lru
      modifies this`lru, this`free, this`buckets
      ensures Valid() && free == [x] + old(free) && |lru| == |old(lru)| - 1
      ensures Names() == Without(old(Names()), {entries[x].name})
      ensures forall k :: Has(k) <==> old(Has(k)) && k != entries[x].name
      ensures forall k | Has(k) :: ReadingFor(k) == old(ReadingFor(k))
    {
      hide Distinct, Split, NamesOf, Without;
      SplitBounds(|entries|, lru, free);
      var k := entries[x].name;
      NamesWithout(entries, lru, x);
      WithoutMembers(lru, {x});
      SplitRelease(|entries|, lru, free, x);
      lru := Without(lru, {x});
      var bucket: map<nat, nat> := buckets[Bucket(k)] - {k};
      buckets := buckets[Bucket(k) := bucket];
      free := [x] + free;
    }

    /** stathashentry_evict: the entry that was used longest ago goes. */
    method Evict()
      requires Valid() && lru != []
      modifies this`lru, this`free, this`buckets
      ensures Valid() && free != [] && |lru| == |old(lru)| - 1
      ensures Names() == old(Names())[..|old(Names())| - 1]
      ensures forall k :: Has(k) <==> old(Has(k)) && k != old(Names())[|old(Names())| - 1]
      ensures forall k | Has(k) :: ReadingFor(k) == old(ReadingFor(k))
    {
      var x := lru[|lru| - 1];
      assert x in lru;
      LastName(entries, lru);
      DistinctNames();
      WithoutLast(Names());
      Release(x);
    }

    /** No name is cached twice. */
    lemma DistinctNames()
      requires Valid()
      ensures Distinct(Names())
    {
      var names := Names();
      forall i, j | 0 <= i < j < |names|
        ensures names[i] != names[j]
      {
        NameAt(entries, lru, i);
        NameAt(entries, lru, j);
        assert lru[i] in lru && lru[j] in lru;
      }
    }

    lemma HasNames(k: nat)
      requires Valid()
      ensures Has(k) <==> k in Names()
    {
      NamesHas(entries, lru, k);
    }

    /** stathashentry_ensure_evict: a free entry, by growing if the limit allows it, else by eviction. */
    method EnsureFree()
      requires Valid()
      modifies this
      ensures Valid() && free != [] && (old(free) != [] ==> entries == old(entries) && free == old(free))
      ensures Names() == if |old(Names())| < limit then old(Names()) else old(Names())[..|old(Names())| - 1]
      ensures forall k | Has(k) :: old(Has(k)) && ReadingFor(k) == old(ReadingFor(k))
    {
      hide Distinct;
      if free != [] {
        return;
      }
      Grow();
      if free != [] {
        return;
      }
      Evict();
    }

    /** A free entry takes a new name, and comes first in the list of use. */
    method Occupy(name: nat, reading: Reading) returns (x: nat)
      requires Valid() && free != [] && !Has(name)
      modifies this`entries, this`lru, this`free, this`buckets
      ensures Valid() && Names() == [name] + old(Names())
      ensures forall k :: Has(k) <==> old(Has(k)) || k == name
      ensures forall k | Has(k) :: ReadingFor(k) == if k == name then reading else old(ReadingFor(k))
      ensures x < |entries| && entries[x] == Entry(name, reading) && lru[0] == x
    {
      hide Distinct, NamesOf, Split;
      x := free[0];
      SplitOccupy(|entries|, lru, free);
      SplitBounds(|entries|, lru, free);
      var e := Entry(name, reading);
      NamesSame(entries, entries[x := e], lru);
      NamesCons(entries[x := e], x, lru);
      free := free[1..];
      entries := entries[x := e];
      lru := [x] + lru;
      var bucket: map<nat, nat> := buckets[Bucket(name)][name := x];
      buckets := buckets[Bucket(name) := bucket];
    }

    /** A hit: the entry comes first in the list of use. */
    method Touch(name: nat) returns (x: nat)
      requires Valid() && Has(name)
      modifies this`lru
      ensures Valid() && Names() == ToFront(old(Names()), name)
      ensures forall k :: Has(k) <==> old(Has(k))
      ensures forall k | Has(k) :: ReadingFor(k) == old(ReadingFor(k))
      ensures x < |entries| && entries[x].name == name && entries[x].reading == ReadingFor(name) && lru[0] == x
    {
      hide Distinct, NamesOf, Split;
      x := buckets[Bucket(name)][name];
      SplitBounds(|entries|, lru, free);
      SplitTouch(|entries|, lru, free, x);
      NamesWithout(entries, lru, x);
      NamesCons(entries, x, Without(lru, {x}));
      if lru[0] != x {
        lru := ToFront(lru, x);
      }
    }

    /** lstat_cached: a hit gives what was read at the last miss; a miss reads `now`, giving up the least recently
        used name only when the table is at its limit. */
    method Lstat(name: nat, now: Reading) returns (x: nat)
      requires Valid()
      modifies this
      ensures Valid() && Names() == Cached(old(Names()), name, limit)
      ensures x < |entries| && entries[x] == Entry(name, if old(Has(name)) then old(ReadingFor(name)) else now)
      ensures Has(name) && ReadingFor(name) == entries[x].reading
      ensures forall k | Has(k) && k != name :: old(Has(k)) && ReadingFor(k) == old(ReadingFor(k))
    {
      hide Distinct, Without, NamesOf, Shared, Indexed, ToFront;
      HasNames(name);
      NamesLength();
      if Has(name) {
        x := Touch(name);
        return;
      }
      EnsureFree();
      x := Occupy(name, now);
    }

    lemma NamesLength()
      requires Valid()
      ensures |Names()| == |lru| <= limit && limit > 0
    {
    }

    /** lstat_evict_named. */
    method EvictNamed(name: nat)
      requires Valid()
      modifies this`lru, this`free, this`buckets
      ensures Valid() && Names() == Without(old(Names()), {name})
      ensures forall k :: Has(k) <==> old(Has(k)) && k != name
      ensures forall k | Has(k) :: ReadingFor(k) == old(ReadingFor(k))
    {
      HasNames(name);
      if !Has(name) {
        WithoutNone(Names(), {name});
        return;
      }
      Release(buckets[Bucket(name)][name]);
    }

    /** stathashentry_evict_all. */
    method EvictAll()
      requires Valid()
      modifies this
      ensures Valid() && Names() == [] && |entries| == old(|entries|)
    {
      var cnt := |entries|;
      entries := seq(cnt, i => Entry(0, Reading(0, 0, 0, 0, 0)));
      lru, free := [], seq(cnt, i requires 0 <= i < cnt => i as nat);
      buckets := seq(sz, i => map[]);
    }
  }

  lemma {:induction false} NameAt(entries: seq<Entry>, lru: seq<nat>, i: nat)
    requires i < |lru| && forall x | x in lru :: x < |entries|
    ensures lru[i] in lru && NamesOf(entries, lru)[i] == entries[lru[i]].name
    decreases |lru|
  {
    assert lru[0] in lru && forall y | y in lru[1..] :: y in lru;
    if i > 0 {
      NameAt(entries, lru[1..], i - 1);
    }
  }

  lemma LastName(entries: seq<Entry>, lru: seq<nat>)
    requires lru != [] && forall x | x in lru :: x < |entries|
    ensures lru[|lru| - 1] in lru && NamesOf(entries, lru)[|lru| - 1] == entries[lru[|lru| - 1]].name
  {
    NameAt(entries, lru, |lru| - 1);
  }

  lemma GrowFree(free: seq<nat>, ids: seq<nat>, n: nat)
    requires Distinct(free) && (forall x | x in free :: x < n) && forall i | 0 <= i < |ids| :: ids[i] == n + i
    ensures Distinct(free + ids)
    ensures forall x :: x in free + ids <==> x in free || n <= x < n + |ids|
  {
    assert forall i | 0 <= i < |free| :: free[i] in free;
    forall x | n <= x < n + |ids|
      ensures x in free + ids
    {
      assert (free + ids)[|free| + (x - n)] == x;
    }
  }
}
