/** The databases in memory: a list in file order and a hash index over the same nodes. */
module DbTable {
  import opened Options

  datatype Node<V> = Node(key: nat, value: V)

  /** The list as a map. */
  function AsMap<V>(ll: seq<Node<V>>): map<nat, V> {
    if ll == [] then map[] else map[ll[0].key := ll[0].value] + AsMap(ll[1..])
  }

  ghost predicate DistinctKeys<V>(ll: seq<Node<V>>) {
    ll != [] ==> ll[0].key !in AsMap(ll[1..]) && DistinctKeys(ll[1..])
  }

  /** The list without the node for `k`. */
  function Dropped<V>(ll: seq<Node<V>>, k: nat): seq<Node<V>> {
    if ll == [] then [] else (if ll[0].key == k then [] else [ll[0]]) + Dropped(ll[1..], k)
  }

  /** The list with the value of the node for `k` replaced where it stands. */
  function Overwritten<V>(ll: seq<Node<V>>, k: nat, v: V): seq<Node<V>> {
    if ll == [] then [] else [if ll[0].key == k then Node(k, v) else ll[0]] + Overwritten(ll[1..], k, v)
  }

  lemma {:induction false} DroppedMap<V>(ll: seq<Node<V>>, k: nat)
    ensures AsMap(Dropped(ll, k)) == AsMap(ll) - {k}
    ensures DistinctKeys(ll) ==> DistinctKeys(Dropped(ll, k))
    ensures k !in AsMap(ll) ==> Dropped(ll, k) == ll
    decreases |ll|
  {
    if ll != [] {
      DroppedMap(ll[1..], k);
      var d := Dropped(ll, k);
      if ll[0].key != k {
        assert d[1..] == Dropped(ll[1..], k);
      } else {
        assert d == Dropped(ll[1..], k);
      }
    }
  }

  lemma {:induction false} AppendedMap<V>(ll: seq<Node<V>>, n: Node<V>)
    ensures AsMap(ll + [n]) == AsMap(ll)[n.key := n.value]
    ensures DistinctKeys(ll) && n.key !in AsMap(ll) ==> DistinctKeys(ll + [n])
    decreases |ll|
  {
    if ll == [] {
      assert [n][1..] == [];
      assert ll + [n] == [n];
    } else {
      AppendedMap(ll[1..], n);
      assert (ll + [n])[1..] == ll[1..] + [n];
    }
  }

  lemma {:induction false} OverwrittenMap<V>(ll: seq<Node<V>>, k: nat, v: V)
    ensures AsMap(Overwritten(ll, k, v)) == if k in AsMap(ll) then AsMap(ll)[k := v] else AsMap(ll)
    ensures DistinctKeys(ll) ==> DistinctKeys(Overwritten(ll, k, v))
    ensures |Overwritten(ll, k, v)| == |ll|
    ensures forall i | 0 <= i < |ll| :: Overwritten(ll, k, v)[i] == if ll[i].key == k then Node(k, v) else ll[i]
    decreases |ll|
  {
    if ll != [] {
      OverwrittenMap(ll[1..], k, v);
      assert Overwritten(ll, k, v)[1..] == Overwritten(ll[1..], k, v);
    }
  }

  class Table<V(==)> {
    const hash: nat -> nat
    const sz: nat
    var byname: seq<map<nat, V>>
    var ll: seq<Node<V>>

    function Bucket(k: nat): (b: nat)
      requires sz > 0
      ensures b < sz
    {
      hash(k) % sz
    }

    /** The index holds exactly the nodes of the list, each in the bucket of its key. */
    ghost predicate Valid()
      reads this
    {
      && sz > 0 && |byname| == sz && DistinctKeys(ll)
      && (forall k: nat :: k in AsMap(ll) <==> k in byname[Bucket(k)])
      && (forall k: nat | k in AsMap(ll) :: byname[Bucket(k)][k] == AsMap(ll)[k])
      && (forall b, k | 0 <= b < sz && k in byname[b] :: b == Bucket(k))
    }

    constructor (hash: nat -> nat, sz: nat)
      requires sz > 0
      ensures Valid() && ll == [] && this.hash == hash && this.sz == sz
    {
      this.hash, this.sz := hash, sz;
      byname, ll := seq(sz, i => map[]), [];
    }

    /** get_dbe and get_tsdbe. */
    method Get(k: nat) returns (r: Option<V>)
      requires Valid()
      ensures r == if k in AsMap(ll) then Some(AsMap(ll)[k]) else None
    {
      if k in byname[Bucket(k)] {
        return Some(byname[Bucket(k)][k]);
      }
      return None;
    }

    /** Take the node for `k` out of the index and the list. */
    method Unlink(k: nat)
      requires Valid()
      modifies this
      ensures Valid() && ll == Dropped(old(ll), k) && AsMap(ll) == old(AsMap(ll)) - {k}
    {
      hide AsMap, DistinctKeys, Dropped;
      DroppedMap(ll, k);
      byname := byname[Bucket(k) := byname[Bucket(k)] - {k}];
      ll := Dropped(ll, k);
    }

    /** maybe_del_dbe and maybe_del_tsdbe. */
    method MaybeDel(k: nat)
      requires Valid()
      modifies this
      ensures Valid() && ll == Dropped(old(ll), k) && AsMap(ll) == old(AsMap(ll)) - {k}
    {
      DroppedMap(ll, k);
      if k in byname[Bucket(k)] {
        Unlink(k);
      }
    }

    /** ins_dbe and ins_tsdbe: the node goes to the end of the list, instead of any node with its key. */
    method Insert(n: Node<V>)
      requires Valid()
      modifies this
      ensures Valid() && ll == Dropped(old(ll), n.key) + [n] && AsMap(ll) == old(AsMap(ll))[n.key := n.value]
    {
      hide AsMap, DistinctKeys, Dropped;
      DroppedMap(ll, n.key);
      if n.key in byname[Bucket(n.key)] {
        Unlink(n.key);
      }
      Append(n);
    }

    method Append(n: Node<V>)
      requires Valid() && n.key !in AsMap(ll)
      modifies this
      ensures Valid() && ll == old(ll) + [n] && AsMap(ll) == old(AsMap(ll))[n.key := n.value]
    {
      AppendedMap(ll, n);
      hide AsMap, DistinctKeys;
      var b := Bucket(n.key);
      var bucket: map<nat, V> := byname[b][n.key := n.value];
      byname := byname[b := bucket];
      ll := ll + [n];
    }

    /** tsszstoresource and tsszstoretarget: overwrite in place, or insert at the end. */
    method Store(k: nat, v: V) returns (found: bool)
      requires Valid()
      modifies this
      ensures Valid() && (found <==> k in old(AsMap(ll))) && AsMap(ll) == old(AsMap(ll))[k := v]
      ensures ll == if found then Overwritten(old(ll), k, v) else old(ll) + [Node(k, v)]
    {
      hide AsMap, DistinctKeys, Dropped, Overwritten;
      if k !in byname[Bucket(k)] {
        DroppedMap(ll, k);
        Insert(Node(k, v));
        return false;
      }
      OverwrittenMap(ll, k, v);
      var bucket: map<nat, V> := byname[Bucket(k)][k := v];
      byname := byname[Bucket(k) := bucket];
      ll := Overwritten(ll, k, v);
      return true;
    }
  }

  lemma {:induction false} DistinctAt<V>(ll: seq<Node<V>>, i: nat)
    requires DistinctKeys(ll) && i < |ll|
    ensures DistinctKeys(ll[..i]) && ll[i].key !in AsMap(ll[..i])
    ensures ll[i].key in AsMap(ll)
    decreases |ll|
  {
    if i > 0 {
      DistinctAt(ll[1..], i - 1);
      assert ll[..i][1..] == ll[1..][..i - 1];
      assert ll[..i][0] == ll[0];
      PrefixKeys(ll[1..], i - 1);
    }
  }

  lemma {:induction false} PrefixKeys<V>(ll: seq<Node<V>>, i: nat)
    requires i <= |ll|
    ensures AsMap(ll[..i]).Keys <= AsMap(ll).Keys
    decreases |ll|
  {
    if i > 0 {
      PrefixKeys(ll[1..], i - 1);
      assert ll[..i][1..] == ll[1..][..i - 1];
    }
  }

  /** The last node of each key, in the order of these last ones. */
  function LastNodes<V>(nodes: seq<Node<V>>): seq<Node<V>>
    decreases |nodes|
  {
    if nodes == [] then [] else
    var last := nodes[|nodes| - 1];
    Dropped(LastNodes(nodes[..|nodes| - 1]), last.key) + [last]
  }

  /** A later node for a key overrides an earlier one. */
  lemma {:induction false} LastNodesMap<V>(nodes: seq<Node<V>>, k: nat)
    ensures DistinctKeys(LastNodes(nodes))
    ensures k in AsMap(LastNodes(nodes)) <==> exists i :: 0 <= i < |nodes| && nodes[i].key == k
    ensures forall i | 0 <= i < |nodes| && nodes[i].key == k && (forall j | i < j < |nodes| :: nodes[j].key != k) ::
      k in AsMap(LastNodes(nodes)) && AsMap(LastNodes(nodes))[k] == nodes[i].value
    decreases |nodes|
  {
    if nodes != [] {
      var n := |nodes| - 1;
      var front := LastNodes(nodes[..n]);
      LastNodesMap(nodes[..n], k);
      DroppedMap(front, nodes[n].key);
      AppendedMap(Dropped(front, nodes[n].key), nodes[n]);
      assert forall i | 0 <= i < n :: nodes[..n][i] == nodes[i];
    }
  }

  lemma {:induction false} LastOfDistinct<V>(nodes: seq<Node<V>>)
    requires DistinctKeys(nodes)
    ensures LastNodes(nodes) == nodes
    decreases |nodes|
  {
    if nodes != [] {
      var n := |nodes| - 1;
      DistinctAt(nodes, n);
      LastOfDistinct(nodes[..n]);
      DroppedMap(nodes[..n], nodes[n].key);
      assert nodes[..n] + [nodes[n]] == nodes;
    }
  }

  /** Loading nodes into an empty table, as the parser's callbacks do: for each key the last node stays. */
  method Load<V(==)>(hash: nat -> nat, sz: nat, nodes: seq<Node<V>>) returns (t: Table<V>)
    requires sz > 0
    ensures fresh(t) && t.Valid() && t.ll == LastNodes(nodes)
  {
    hide DistinctKeys, AsMap, Dropped;
    t := new Table(hash, sz);
    var i := 0;
    while i < |nodes|
      invariant 0 <= i <= |nodes| && fresh(t) && t.Valid() && t.ll == LastNodes(nodes[..i])
    {
      assert nodes[..i + 1][..i] == nodes[..i];
      t.Insert(nodes[i]);
      i := i + 1;
    }
    assert nodes[..i] == nodes;
  }
}
