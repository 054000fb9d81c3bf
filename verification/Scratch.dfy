/** Scratch buffers, in the byte-counting form of `src/vm-win32.c`: disjoint
    publish and discard ranges use the buffer up, and it dies with the last. */
module Scratches {
  import opened Basics

  ghost predicate Within(off: nat, len: nat, i: nat) {
    off <= i < off + len
  }

  ghost function Span(off: nat, len: nat): set<nat> {
    set i: nat {:trigger Within(off, len, i)} | off <= i < off + len && Within(off, len, i)
  }

  lemma {:induction false} SpanSize(off: nat, len: nat)
    ensures |Span(off, len)| == len
    decreases len
  {
    if len == 0 {
      assert Span(off, len) == {};
    } else {
      SpanSize(off, len - 1);
      assert Span(off, len) == Span(off, len - 1) + {off + len - 1};
    }
  }

  /** Counting bytes is enough to notice that everything has been used. */
  lemma FullByCount(used: set<nat>, size: nat)
    requires used <= Span(0, size)
    ensures |used| <= size
    ensures |used| == size <==> used == Span(0, size)
  {
    SpanSize(0, size);
    var rest := Span(0, size) - used;
    assert Span(0, size) == used + rest;
    assert |used| + |rest| == size;
  }

  /** `vm_scratch_t`: no address once everything has been used. */
  datatype VmScratch = VmScratch(addr: Option<seq<byte>>, size: nat, consumed: nat)

  /** A scratch that was never created. */
  const NoScratch: VmScratch := VmScratch(None, 0, 0)

  /** A scratch with these contents, nothing used yet. */
  function Holding(bytes: seq<byte>): VmScratch {
    VmScratch(Some(bytes), |bytes|, 0)
  }

  /** A scratch after `len` more bytes have been published or discarded. */
  function Consumed(s: VmScratch, len: nat): VmScratch {
    VmScratch(if s.consumed + len == s.size then None else s.addr, s.size, s.consumed + len)
  }

  /** A pointer to a `vm_scratch_t`, through which it is used up. */
  class Scratch {
    var s: VmScratch
    /** Offsets published or discarded so far. */
    ghost var used: set<nat>

    ghost predicate Valid()
      reads this
    {
      && s.size > 0
      && used <= Span(0, s.size)
      && s.consumed == |used|
      && (s.addr.Some? <==> used != Span(0, s.size))
      && (s.addr.Some? ==> |s.addr.value| == s.size)
    }

    /** `vm_scratch_create`: zero-filled. */
    constructor (n: nat)
      requires n > 0
      ensures Valid() && used == {} && s == Holding(seq(n, _ => 0))
    {
      s, used := Holding(seq(n, _ => 0)), {};
      new;
      SpanSize(0, n);
    }

    /** The scratch embedded in a shared page. */
    constructor At(staging: VmScratch)
      requires staging.addr.Some? && staging == Holding(staging.addr.value) && staging.size > 0
      ensures Valid() && used == {} && s == staging
    {
      s, used := staging, {};
      new;
      SpanSize(0, staging.size);
    }

    /** The callback writing its output into the buffer. */
    method Write(off: nat, data: seq<byte>)
      requires Valid() && s.addr.Some? && off + |data| <= s.size
      modifies this`s
      ensures Valid()
      ensures s == old(s).(addr := Some(old(s).addr.value[..off] + data + old(s).addr.value[off + |data|..]))
    {
      s := s.(addr := Some(s.addr.value[..off] + data + s.addr.value[off + |data|..]));
    }

    /** `scratch_consume`: the counter reaches `size` exactly when every byte
        has been published or discarded, once. */
    method Consume(ghost off: nat, len: nat)
      requires Valid() && s.addr.Some? && 0 < len && off + len <= s.size
      requires used !! Span(off, len)
      modifies this
      ensures Valid() && used == old(used) + Span(off, len) && s == Consumed(old(s), len)
    {
      SpanSize(off, len);
      FullByCount(used + Span(off, len), s.size);
      s := s.(consumed := s.consumed + len);
      used := used + Span(off, len);
      assert s.consumed <= s.size;
      if s.consumed == s.size {
        s := s.(addr := None);
      }
    }

    /** `vm_scratch_publish`: the bytes leave the buffer for their target. */
    method Publish(off: nat, len: nat) returns (piece: seq<byte>)
      requires Valid() && s.addr.Some? && 0 < len && off + len <= s.size
      requires used !! Span(off, len)
      modifies this
      ensures Valid() && used == old(used) + Span(off, len) && s == Consumed(old(s), len)
      ensures piece == old(s).addr.value[off..off + len]
    {
      piece := s.addr.value[off..off + len];
      Consume(off, len);
    }

    /** `vm_scratch_discard` */
    method Discard(off: nat, len: nat)
      requires Valid() && s.addr.Some? && 0 < len && off + len <= s.size
      requires used !! Span(off, len)
      modifies this
      ensures Valid() && used == old(used) + Span(off, len) && s == Consumed(old(s), len)
    {
      Consume(off, len);
    }

    /** How `fill_chunk_locked` uses a buffer up: one piece published, the ends
        around it discarded. */
    method PublishMiddle(off: nat, len: nat) returns (piece: seq<byte>)
      requires Valid() && s.addr.Some? && used == {} && 0 < len && off + len <= s.size
      modifies this
      ensures Valid() && s == VmScratch(None, old(s).size, old(s).size)
      ensures piece == old(s).addr.value[off..off + len]
    {
      hide Span;
      ghost var size := s.size;
      piece := Publish(off, len);
      if off > 0 {
        SpanMember(off, len, 0);
        SpanMember(0, size, 0);
        SpanDisjoint(0, off, off, len);
        Discard(0, off);
      }
      ghost var end := off + len;
      if off + len < s.size {
        SpanMember(off, len, end);
        SpanMember(0, off, end);
        SpanMember(0, size, end);
        SpanDisjoint(off, len, end, size - end);
        SpanDisjoint(0, off, end, size - end);
        Discard(off + len, s.size - (off + len));
      }
      SpanJoin(off, len, size);
      SpanSize(0, size);
    }
  }

  lemma SpanMember(off: nat, len: nat, i: nat)
    ensures i in Span(off, len) <==> off <= i < off + len
  {
  }

  lemma SpanDisjoint(a: nat, n: nat, b: nat, m: nat)
    requires a + n <= b || b + m <= a
    ensures Span(a, n) !! Span(b, m)
  {
  }

  lemma SpanJoin(off: nat, len: nat, size: nat)
    requires off + len <= size
    ensures Span(0, size) == Span(off, len) + (if off > 0 then Span(0, off) else {})
                             + (if off + len < size then Span(off + len, size - (off + len)) else {})
  {
  }
}
