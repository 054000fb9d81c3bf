/** The pool's recency queue: an intrusive circular list of chunk nodes with a
    sentinel, split by a midpoint into a readable and a hidden half. */
module LruQueues {

  /** Identity of a chunk: its region and its index there. */
  datatype Key = Key(rid: nat, chunk: nat)

  class Node {
    const key: Key
    const size: nat
    var next: Node?
    var prev: Node?
    var resident: bool
    var cold: bool

    constructor (key: Key, size: nat)
      ensures this.key == key && this.size == size
      ensures next == null && prev == null && !resident && !cold
    {
      this.key, this.size := key, size;
      next, prev, resident, cold := null, null, false, false;
    }
  }

  ghost predicate Distinct<T>(q: seq<T>) {
    forall i, j :: 0 <= i < j < |q| ==> q[i] != q[j]
  }

  function Without<T>(q: seq<T>, i: nat): (r: seq<T>)
    requires i < |q|
  {
    q[..i] + q[i + 1..]
  }

  lemma WithoutMembers<T>(q: seq<T>, i: nat)
    requires Distinct(q) && i < |q|
    ensures forall k :: k in Without(q, i) <==> k in q && k != q[i]
  {
    var q' := Without(q, i);
    forall k | k in q && k != q[i]
      ensures k in q'
    {
      var j :| 0 <= j < |q| && q[j] == k;
      assert j < i ==> q'[j] == k;
      assert j > i ==> q'[j - 1] == k;
    }
  }

  ghost function NodeBytes(q: seq<Node>): nat {
    if q == [] then 0 else q[0].size + NodeBytes(q[1..])
  }

  lemma {:induction false} NodeBytesSplit(a: seq<Node>, b: seq<Node>)
    ensures NodeBytes(a + b) == NodeBytes(a) + NodeBytes(b)
  {
    if a == [] {
      assert a + b == b;
    } else {
      NodeBytesSplit(a[1..], b);
      assert (a + b)[1..] == a[1..] + b;
    }
  }

  lemma NodeBytesWithout(q: seq<Node>, i: nat)
    requires i < |q|
    ensures NodeBytes(Without(q, i)) + q[i].size == NodeBytes(q)
  {
    assert q == q[..i] + ([q[i]] + q[i + 1..]);
    NodeBytesSplit(q[..i], [q[i]] + q[i + 1..]);
    NodeBytesSplit(q[..i], q[i + 1..]);
    assert ([q[i]] + q[i + 1..])[1..] == q[i + 1..];
  }

  /** The nodes of `q`, with sentinel `head` before and after, form a circle. */
  ghost predicate Linked(head: Node, q: seq<Node>)
    reads head`next, head`prev, q`next, q`prev
  {
    && head.next == (if q == [] then head else q[0])
    && head.prev == (if q == [] then head else q[|q| - 1])
    && (forall i {:trigger q[i].next} :: 0 <= i < |q| ==> q[i].next == if i + 1 < |q| then q[i + 1] else head)
    && (forall i {:trigger q[i].prev} :: 0 <= i < |q| ==> q[i].prev == if i > 0 then q[i - 1] else head)
  }

  ghost predicate Members(head: Node, q: seq<Node>) {
    Distinct(q) && head !in q
  }

  lemma MembersWithout(head: Node, q: seq<Node>, i: nat)
    requires Members(head, q) && i < |q|
    ensures Members(head, Without(q, i)) && q[i] !in Without(q, i)
    ensures forall k :: 0 <= k < |q| - 1 ==> Without(q, i)[k] == if k < i then q[k] else q[k + 1]
  {
  }

  method LinkFront(head: Node, node: Node, ghost q: seq<Node>)
    requires Members(head, q) && node !in q && node != head && Linked(head, q)
    modifies head`next, head`prev, node`next, node`prev, q`prev
    ensures Linked(head, [node] + q)
  {
    node.next := head.next;
    node.prev := head;
    head.next.prev := node;
    head.next := node;
  }

  method LinkOut(head: Node, node: Node, ghost q: seq<Node>, ghost i: nat)
    requires Members(head, q) && i < |q| && q[i] == node && Linked(head, q)
    modifies head`next, head`prev, q`next, q`prev
    ensures Linked(head, Without(q, i)) && node.next == null && node.prev == null
  {
    node.prev.next := node.next;
    node.next.prev := node.prev;
    node.next, node.prev := null, null;
  }

  class LruQueue {
    const head: Node
    /** Last node of the readable half; the sentinel when that half is empty. */
    var midpoint: Node
    var hotBytes: nat
    /** Queued nodes, most recently used first; the first `hot` are readable. */
    ghost var q: seq<Node>
    ghost var hot: nat

    /** Flags and midpoint agree with the split of the queue at `hot`. */
    ghost predicate Split()
      reads this, q`resident, q`cold
    {
      && hot <= |q|
      && midpoint == (if hot == 0 then head else q[hot - 1])
      && hotBytes == NodeBytes(q[..hot])
      && (forall i :: 0 <= i < |q| ==> q[i].resident && (q[i].cold <==> i >= hot))
    }

    ghost predicate Valid()
      reads this, head, q
    {
      Members(head, q) && Linked(head, q) && Split()
    }

    constructor ()
      ensures Valid() && q == [] && hot == 0
      ensures fresh(head) && hotBytes == 0
    {
      var h := new Node(Key(0, 0), 0);
      h.next, h.prev := h, h;
      head, midpoint, hotBytes, q, hot := h, h, 0, [], 0;
    }

    /** Bookkeeping half of `lru_insert_mru`: the node joins the readable half
        at the front, and is the midpoint if that half was empty. */
    method Admit(node: Node)
      requires Split() && node !in q && node != head && head !in q
      modifies this, node`resident, node`cold
      ensures q == [node] + old(q) && Split()
      ensures hot == old(hot) + 1
    {
      ghost var now := [node] + q;
      assert now[..hot + 1] == [node] + q[..hot];
      node.resident := true;
      node.cold := false;
      hotBytes := hotBytes + node.size;
      if midpoint == head {
        midpoint := node;
      }
      q, hot := now, hot + 1;
    }

    /** `lru_insert_mru` */
    method InsertMru(node: Node)
      requires Valid() && node !in q && node != head && !node.resident
      modifies this, head`next, head`prev, node, q`prev
      ensures Valid() && q == [node] + old(q) && hot == old(hot) + 1
      ensures node.resident
    {
      ghost var was := q;
      Admit(node);
      LinkFront(head, node, was);
    }

    /** Bookkeeping half of `lru_unlink`: the node leaves the readable half if
        it was in it, and the midpoint steps back if it was the midpoint. */
    method Retire(node: Node, ghost i: nat)
      requires Valid() && i < |q| && q[i] == node
      modifies this, node`resident
      ensures q == Without(old(q), i) && Split()
      ensures hot == if i < old(hot) then old(hot) - 1 else old(hot)
      ensures !node.resident
    {
      hide NodeBytes;
      assert node.resident;
      MembersWithout(head, q, i);
      assert hot > 0 && midpoint == node ==> i == hot - 1;
      HotBytesWithout(q, hot, i);
      if midpoint == node {
        midpoint := node.prev;
      }
      if !node.cold {
        hotBytes := hotBytes - node.size;
      }
      node.resident := false;
      q, hot := Without(q, i), if i < hot then hot - 1 else hot;
    }

    /** `lru_unlink` */
    method Unlink(node: Node, ghost i: nat)
      requires Valid() && i < |q| && q[i] == node
      modifies this, head`next, head`prev, q`next, q`prev, node`resident
      ensures Valid() && q == Without(old(q), i)
      ensures hot == if i < old(hot) then old(hot) - 1 else old(hot)
      ensures !node.resident
    {
      ghost var was := q;
      MembersWithout(head, q, i);
      Retire(node, i);
      LinkOut(head, node, was, i);
    }

    /** One step of the loop in `lru_rebalance`: the last readable node goes
        cold and the midpoint moves towards the front. */
    method DemoteMidpoint()
      requires Valid() && hot > 0
      modifies this, q`cold
      ensures Valid() && q == old(q) && hot == old(hot) - 1
    {
      var node := midpoint;
      node.cold := true;
      NodeBytesSplit(q[..hot - 1], [q[hot - 1]]);
      assert q[..hot] == q[..hot - 1] + [q[hot - 1]];
      hotBytes := hotBytes - node.size;
      midpoint := node.prev;
      hot := hot - 1;
    }
  }

  lemma HotBytesWithout(q: seq<Node>, hot: nat, i: nat)
    requires hot <= |q| && i < |q|
    ensures i < hot ==> NodeBytes(Without(q, i)[..hot - 1]) + q[i].size == NodeBytes(q[..hot])
    ensures i >= hot ==> Without(q, i)[..hot] == q[..hot]
  {
    if i < hot {
      NodeBytesWithout(q[..hot], i);
      PrefixWithout(q, hot, i);
    }
  }

  lemma PrefixWithout<T>(q: seq<T>, hot: nat, i: nat)
    requires i < hot <= |q|
    ensures Without(q, i)[..hot - 1] == Without(q[..hot], i)
  {
    assert Without(q, i)[..hot - 1] == q[..i] + q[i + 1..hot];
    assert q[..hot][..i] == q[..i];
    assert q[..hot][i + 1..] == q[i + 1..hot];
  }
}
