/** The queue as the rest of the pool uses it: by chunk. Holds the list node of
    every chunk of every live region (`chunk_lru`). */
module ChunkQueues {
  import opened LruQueues

  ghost function KeysOf(q: seq<Node>): (ks: seq<Key>)
    ensures |ks| == |q| && forall i :: 0 <= i < |q| ==> ks[i] == q[i].key
  {
    seq(|q|, i requires 0 <= i < |q| => q[i].key)
  }

  /** Bytes of the chunks in `ks`, by the sizes of their nodes. */
  ghost function KeyBytes(nodes: map<Key, Node>, ks: seq<Key>): nat {
    if ks == [] then 0 else (if ks[0] in nodes then nodes[ks[0]].size else 0) + KeyBytes(nodes, ks[1..])
  }

  lemma {:induction false} KeyBytesOfNodes(nodes: map<Key, Node>, q: seq<Node>)
    requires forall n :: n in q ==> n.key in nodes && nodes[n.key] == n
    ensures KeyBytes(nodes, KeysOf(q)) == NodeBytes(q)
  {
    if q != [] {
      KeyBytesOfNodes(nodes, q[1..]);
      assert KeysOf(q)[1..] == KeysOf(q[1..]);
    }
  }

  lemma KeysWithout(q: seq<Node>, i: nat)
    requires i < |q|
    ensures KeysOf(Without(q, i)) == Without(KeysOf(q), i)
  {
  }

  class ChunkQueue {
    const list: LruQueue
    var nodes: map<Key, Node>
    /** Queued chunks, most recently used first; the first `hot` are readable. */
    ghost var keys: seq<Key>
    ghost var hot: nat

    /** The nodes, as a set. */
    ghost var owned: set<Node>

    ghost predicate Registered(n: Node)
      reads this
    {
      n.key in nodes && nodes[n.key] == n
    }

    ghost predicate Flags()
      reads this, list, owned`resident
    {
      forall k :: k in nodes ==>
        nodes[k] in owned && nodes[k].key == k && nodes[k] != list.head && (nodes[k].resident <==> nodes[k] in list.q)
    }

    ghost predicate Valid()
      reads this, list, list.head, list.q, owned
    {
      && list.Valid()
      && (forall n :: n in list.q ==> Registered(n))
      && Flags()
      && keys == KeysOf(list.q) && hot == list.hot
    }

    lemma Facts()
      requires Valid()
      ensures hot <= |keys| && Distinct(keys)
      ensures forall k :: k in keys ==> k in nodes
      ensures list.hotBytes == KeyBytes(nodes, keys[..hot])
    {
      forall n | n in list.q[..hot]
        ensures n.key in nodes && nodes[n.key] == n
      {
        assert Registered(n);
      }
      KeyBytesOfNodes(nodes, list.q[..hot]);
      assert keys[..hot] == KeysOf(list.q[..hot]);
      forall i, j | 0 <= i < j < |keys|
        ensures keys[i] != keys[j]
      {
        assert Registered(list.q[i]) && Registered(list.q[j]);
      }
      forall k | k in keys
        ensures k in nodes
      {
        var i :| 0 <= i < |keys| && keys[i] == k;
        assert Registered(list.q[i]);
      }
    }

    lemma QueuedInRepr()
      requires Valid()
      ensures forall n :: n in list.q ==> n in owned
    {
      forall n | n in list.q
        ensures n in owned
      {
        assert Registered(n);
      }
    }

    lemma QueuedIffKey(k: Key)
      requires Valid() && k in nodes
      ensures nodes[k] in list.q <==> k in keys
    {
      if nodes[k] in list.q {
        var i :| 0 <= i < |list.q| && list.q[i] == nodes[k];
        assert keys[i] == k;
      }
      if k in keys {
        var i :| 0 <= i < |keys| && keys[i] == k;
        assert Registered(list.q[i]);
      }
    }

    lemma ListMembers()
      requires list.Valid()
      ensures Distinct(list.q) && list.head !in list.q
    {
    }

    constructor ()
      ensures Valid() && keys == [] && hot == 0 && nodes == map[]
      ensures fresh(list) && fresh(list.head) && owned == {}
    {
      list := new LruQueue();
      nodes, keys, hot, owned := map[], [], 0, {};
    }

    /** Puts the node in front; only its own residence flag changes. */
    method InsertNode(k: Key)
      requires Valid() && k in nodes && k !in keys
      modifies list, list.head, owned
      ensures list.Valid() && list.q == [nodes[k]] + old(list.q) && list.hot == old(list.hot) + 1
      ensures forall j :: j in nodes ==> nodes[j].resident == (old(nodes[j].resident) || j == k)
    {
      QueuedIffKey(k);
      QueuedInRepr();
      hide LruQueue.Valid, KeysOf;
      list.InsertMru(nodes[k]);
    }

    method InsertMru(k: Key)
      requires Valid() && k in nodes && k !in keys
      modifies this, list, list.head, owned
      ensures Valid() && nodes == old(nodes) && owned == old(owned)
      ensures keys == [k] + old(keys) && hot == old(hot) + 1
    {
      hide LruQueue.Valid;
      InsertNode(k);
      keys, hot := [k] + keys, hot + 1;
    }

    /** The queue without chunk `k`, node for node. */
    lemma WithoutChunk(k: Key, i: nat)
      requires Valid() && i < |keys| && keys[i] == k
      ensures k in nodes && list.q[i] == nodes[k]
      ensures KeysOf(Without(list.q, i)) == Without(keys, i)
      ensures forall n :: n in Without(list.q, i) ==> n in list.q
      ensures forall j :: j in nodes ==> (nodes[j] in Without(list.q, i) <==> nodes[j] in list.q && j != k)
    {
      assert Registered(list.q[i]);
      ListMembers();
      WithoutMembers(list.q, i);
      KeysWithout(list.q, i);
    }

    /** Takes the node out; only its own residence flag changes. */
    method UnlinkNode(k: Key, ghost i: nat)
      requires Valid() && i < |keys| && keys[i] == k && k in nodes && list.q[i] == nodes[k]
      modifies list, list.head, owned
      ensures list.Valid() && list.q == Without(old(list.q), i)
      ensures list.hot == if i < old(list.hot) then old(list.hot) - 1 else old(list.hot)
      ensures forall j :: j in nodes ==> nodes[j].resident == (old(nodes[j].resident) && j != k)
    {
      QueuedInRepr();
      hide LruQueue.Valid, Without, KeysOf;
      list.Unlink(nodes[k], i);
    }

    method Unlink(k: Key, ghost i: nat)
      requires Valid() && i < |keys| && keys[i] == k
      modifies this, list, list.head, owned
      ensures Valid() && nodes == old(nodes) && owned == old(owned)
      ensures keys == Without(old(keys), i)
      ensures hot == if i < old(hot) then old(hot) - 1 else old(hot)
    {
      WithoutChunk(k, i);
      hide LruQueue.Valid, Without, KeysOf;
      UnlinkNode(k, i);
      keys, hot := Without(keys, i), if i < hot then hot - 1 else hot;
    }

    /** The queue half of `lru_promote`, for a chunk behind the midpoint. */
    method MoveToFront(k: Key, ghost i: nat)
      requires Valid() && i < |keys| && keys[i] == k && hot <= |keys| && k !in keys[..hot]
      modifies this, list, list.head, owned
      ensures Valid() && nodes == old(nodes) && owned == old(owned)
      ensures keys == [k] + Without(old(keys), i) && hot == old(hot) + 1 && i >= old(hot)
    {
      Facts();
      WithoutMembers(keys, i);
      assert forall j :: 0 <= j < hot ==> keys[..hot][j] == keys[j];
      hide Valid, Without, Distinct;
      Unlink(k, i);
      InsertMru(k);
    }

    method DemoteMidpoint()
      requires Valid() && hot > 0
      modifies this, list, list.head, owned
      ensures Valid() && nodes == old(nodes) && owned == old(owned)
      ensures keys == old(keys) && hot == old(hot) - 1
    {
      QueuedInRepr();
      hide LruQueue.Valid, Without, Distinct;
      list.DemoteMidpoint();
      hot := hot - 1;
    }

    // ---------------------------------------------------------------- queries

    /** Whether the node's `cold` flag is set; meaningful only while queued. */
    method IsCold(k: Key) returns (cold: bool)
      requires Valid() && k in nodes
      ensures k in keys ==> (cold <==> k !in keys[..hot])
    {
      cold := nodes[k].cold;
      if k in keys {
        ColdIsBehind(k);
      }
    }

    lemma ColdIsBehind(k: Key)
      requires Valid() && k in keys && k in nodes
      ensures nodes[k].cold <==> k !in keys[..hot]
    {
      Facts();
      var i :| 0 <= i < |keys| && keys[i] == k;
      assert Registered(list.q[i]);
      assert nodes[k].cold <==> i >= hot;
      assert i < hot ==> keys[..hot][i] == k;
    }

    /** The least recently used chunk. */
    method Tail() returns (k: Key)
      requires Valid() && keys != []
      ensures k == keys[|keys| - 1]
    {
      k := list.head.prev.key;
    }

    /** Whether the readable half holds more than just the front node. */
    method CanDemote() returns (b: bool)
      requires Valid()
      ensures hot > 0 ==> (b <==> hot != 1)
      ensures hot == 0 && keys == [] ==> !b
    {
      b := list.midpoint != list.head.next;
    }

    method MidpointKey() returns (k: Key)
      requires Valid() && hot > 0
      ensures k == keys[hot - 1]
    {
      k := list.midpoint.key;
    }

    // --------------------------------------------------------------- registry

    /** `lru_init`: nodes for a new region's chunks. */
    method Register(rid: nat, sizes: seq<nat>)
      requires Valid() && forall k :: k in nodes ==> k.rid != rid
      modifies this`nodes, this`owned
      ensures Valid() && keys == old(keys) && hot == old(hot)
      ensures fresh(owned - old(owned)) && owned >= old(owned)
      ensures forall k :: k in nodes <==> k in old(nodes) || (k.rid == rid && k.chunk < |sizes|)
      ensures forall k :: k in old(nodes) ==> nodes[k] == old(nodes)[k]
      ensures forall i :: 0 <= i < |sizes| ==> nodes[Key(rid, i)].size == sizes[i]
    {
      hide LruQueue.Valid;
      for i := 0 to |sizes|
        invariant Valid() && keys == old(keys) && hot == old(hot)
        invariant fresh(owned - old(owned)) && owned >= old(owned)
        invariant forall k :: k in nodes <==> k in old(nodes) || (k.rid == rid && k.chunk < i)
        invariant forall k :: k in old(nodes) ==> nodes[k] == old(nodes)[k]
        invariant forall j :: 0 <= j < i ==> nodes[Key(rid, j)].size == sizes[j]
      {
        var node := new Node(Key(rid, i), sizes[i]);
        nodes := nodes[Key(rid, i) := node];
        owned := owned + {node};
      }
    }

    /** Freeing a region's nodes, none of which is queued any more. */
    method Unregister(rid: nat)
      requires Valid() && forall k :: k in keys ==> k.rid != rid
      modifies this`nodes
      ensures Valid()
      ensures nodes == map k | k in old(nodes) && k.rid != rid :: old(nodes)[k]
    {
      nodes := map k | k in nodes && k.rid != rid :: nodes[k];
      forall n | n in list.q
        ensures Registered(n)
      {
        var i :| 0 <= i < |list.q| && list.q[i] == n;
        assert keys[i] == n.key;
      }
    }
  }
}
