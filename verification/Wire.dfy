/** Messages of the resolve/attach handshake (`src/wire.h`), byte for byte, and
    the code on both ends that builds and parses them. */
module Wire {
  import opened Basics
  import opened Layouts

  type Bytes = seq<byte>

  const MSG_MAX: nat := 0x10_0000
  const RESOLVE_HDR: nat := 8
  const REPLY_HDR: nat := 12
  const ATTACH_HDR: nat := 16

  // ---------------------------------------------------------------- integers

  function Pow256(w: nat): (p: nat)
    ensures p > 0
  {
    if w == 0 then 1 else 256 * Pow256(w - 1)
  }

  /** `v` in `w` bytes, least significant first. */
  function LE(v: nat, w: nat): (b: Bytes)
    ensures |b| == w
    decreases w
  {
    if w == 0 then [] else [(v % 256) as byte] + LE(v / 256, w - 1)
  }

  function UnLE(b: Bytes): nat {
    if b == [] then 0 else b[0] as nat + 256 * UnLE(b[1..])
  }

  lemma {:induction false} IntegerRoundTrip(v: nat, w: nat)
    requires v < Pow256(w)
    ensures UnLE(LE(v, w)) == v
    decreases w
  {
    if w > 0 {
      IntegerRoundTrip(v / 256, w - 1);
      assert LE(v, w)[1..] == LE(v / 256, w - 1);
    }
  }

  lemma Widths()
    ensures Pow256(4) == UINT32_LIMIT && Pow256(8) == SIZE_LIMIT
  {
    assert Pow256(1) == 0x100;
    assert Pow256(2) == 0x1_0000;
    assert Pow256(3) == 0x100_0000;
    assert Pow256(4) == 0x1_0000_0000;
    assert Pow256(5) == 0x100_0000_0000;
    assert Pow256(6) == 0x1_0000_0000_0000;
    assert Pow256(7) == 0x100_0000_0000_0000;
  }

  lemma RoundTrip32(v: nat)
    requires v < UINT32_LIMIT
    ensures UnLE(LE(v, 4)) == v
  {
    Widths();
    IntegerRoundTrip(v, 4);
  }

  lemma RoundTrip64(v: nat)
    requires v < SIZE_LIMIT
    ensures UnLE(LE(v, 8)) == v
  {
    Widths();
    IntegerRoundTrip(v, 8);
  }

  // ---------------------------------------------------------------- messages

  function ResolveReq(desc: Bytes): Bytes {
    LE(|desc|, 4) + LE(0, 4) + desc
  }

  function AttachReq(base: nat, desc: Bytes): Bytes {
    LE(base, 8) + LE(|desc|, 4) + LE(0, 4) + desc
  }

  function SizesBytes(sizes: seq<nat>): (b: Bytes)
    ensures |b| == 8 * |sizes|
  {
    if sizes == [] then [] else SizesBytes(sizes[..|sizes| - 1]) + LE(sizes[|sizes| - 1], 8)
  }

  function ReplyHdr(status: nat, nchunks: nat, errorLen: nat): (b: Bytes)
    ensures |b| == REPLY_HDR
  {
    LE(status, 4) + LE(nchunks, 4) + LE(errorLen, 4)
  }

  const REJECTED_STATUS: nat := 0xFFFF_FFFF

  function AcceptReply(sizes: seq<nat>): (b: Bytes)
    ensures |b| == REPLY_HDR + 8 * |sizes|
  {
    ReplyHdr(0, |sizes|, 0) + SizesBytes(sizes)
  }

  function RejectReply(error: Bytes): (b: Bytes)
    ensures |b| == REPLY_HDR + |error|
  {
    ReplyHdr(REJECTED_STATUS, 0, |error|) + error
  }

  /** A receive buffer holds at most `MSG_MAX` bytes of a message. */
  function Received(msg: Bytes): (b: Bytes)
    ensures |b| <= MSG_MAX
  {
    if |msg| <= MSG_MAX then msg else msg[..MSG_MAX]
  }

  // ----------------------------------------------------------------- parsing

  function ParseResolveReq(msg: Bytes): Option<Bytes> {
    if |msg| >= RESOLVE_HDR && |msg| == RESOLVE_HDR + UnLE(msg[..4]) then Some(msg[RESOLVE_HDR..]) else None
  }

  datatype Attach = Attach(base: nat, desc: Bytes)

  /** An attach request needs its descriptor in full and a file descriptor. */
  function ParseAttachReq(msg: Bytes, hasFd: bool): Option<Attach> {
    if |msg| >= ATTACH_HDR && hasFd && |msg| == ATTACH_HDR + UnLE(msg[8..12])
    then Some(Attach(UnLE(msg[..8]), msg[ATTACH_HDR..])) else None
  }

  datatype Reply = Malformed | Rejected(error: Bytes) | Accepted(sizes: seq<nat>)

  function SizesOf(b: Bytes, n: nat): (s: seq<nat>)
    requires 8 * n <= |b|
    ensures |s| == n
  {
    if n == 0 then [] else SizesOf(b, n - 1) + [UnLE(b[8 * (n - 1)..8 * n])]
  }

  function ParseReply(msg: Bytes): Reply {
    if |msg| < REPLY_HDR then Malformed
    else
      var status, n, errorLen := UnLE(msg[..4]), UnLE(msg[4..8]), UnLE(msg[8..12]);
      if status == 0 then
        if n > 0 && |msg| == REPLY_HDR + 8 * n then Accepted(SizesOf(msg[REPLY_HDR..], n)) else Malformed
      else
        if |msg| == REPLY_HDR + errorLen then Reply.Rejected(msg[REPLY_HDR..]) else Malformed
  }

  /** Byte `i` of an integer is its `i`-th least significant one. */
  lemma {:induction false} LittleEndian(v: nat, w: nat, i: nat)
    requires i < w
    ensures LE(v, w)[i] as nat == v / Pow256(i) % 256
    decreases w
  {
    if i > 0 {
      LittleEndian(v / 256, w - 1, i - 1);
      DivDiv(v, Pow256(i - 1));
    }
  }

  lemma DivDiv(v: nat, b: nat)
    requires b > 0
    ensures v / 256 / b == v / (256 * b)
  {
    var q, r := v / 256, v % 256;
    var q', r' := q / b, q % b;
    var p := b * q';
    assert q == p + r';
    assert (256 * b) * q' == 256 * p;
    QuotientIs(v, 256 * b, q', 256 * r' + r);
  }

  lemma QuotientIs(v: nat, d: nat, q: nat, r: nat)
    requires d > 0 && r < d && v == d * q + r
    ensures v / d == q
  {
    var q', r' := v / d, v % d;
    assert v == d * q' + r';
    assert q' < q ==> d * q >= d * (q' + 1);
    assert q < q' ==> d * q' >= d * (q + 1);
  }

  /** Where each field is, as `src/wire.h` lays the three messages out. */
  lemma RequestLayout(base: nat, desc: Bytes)
    ensures var m := ResolveReq(desc);
            && |m| == RESOLVE_HDR + |desc| && m[0..4] == LE(|desc|, 4) && m[4..8] == LE(0, 4) && m[8..] == desc
    ensures var m := AttachReq(base, desc);
            && |m| == ATTACH_HDR + |desc| && m[0..8] == LE(base, 8) && m[8..12] == LE(|desc|, 4)
            && m[12..16] == LE(0, 4) && m[16..] == desc
  {
    hide LE;
  }

  lemma ReplyLayout(sizes: seq<nat>)
    ensures var m := AcceptReply(sizes);
            && m[0..4] == LE(0, 4) && m[4..8] == LE(|sizes|, 4) && m[8..12] == LE(0, 4)
            && forall i :: 0 <= i < |sizes| ==> SizeAt(m, i) == LE(sizes[i], 8)
  {
    hide LE, SizesBytes;
    var m, tail := AcceptReply(sizes), SizesBytes(sizes);
    HeaderLayout(0, |sizes|, 0, tail);
    forall i | 0 <= i < |sizes|
      ensures SizeAt(m, i) == LE(sizes[i], 8)
    {
      SizesLayout(sizes, i);
    }
  }

  lemma RefusalLayout(error: Bytes)
    ensures var m := RejectReply(error);
            && m[0..4] == [0xFF, 0xFF, 0xFF, 0xFF] && m[4..8] == LE(0, 4) && m[8..12] == LE(|error|, 4)
            && m[12..] == error
  {
    MinusOne();
    hide LE;
    HeaderLayout(REJECTED_STATUS, 0, |error|, error);
  }

  /** The status of a refusal is -1 in 32 bits. */
  lemma MinusOne()
    ensures LE(REJECTED_STATUS, 4) == [0xFF, 0xFF, 0xFF, 0xFF]
  {
    assert LE(0xFF, 1) == [0xFF] + LE(0, 0);
    assert LE(0xFFFF, 2) == [0xFF] + LE(0xFF, 1);
    assert LE(0xFF_FFFF, 3) == [0xFF] + LE(0xFFFF, 2);
    assert LE(0xFFFF_FFFF, 4) == [0xFF] + LE(0xFF_FFFF, 3);
  }

  lemma HeaderLayout(status: nat, n: nat, e: nat, tail: Bytes)
    ensures var m := ReplyHdr(status, n, e) + tail;
            m[0..4] == LE(status, 4) && m[4..8] == LE(n, 4) && m[8..12] == LE(e, 4) && m[12..] == tail
  {
    hide LE;
  }

  /** The `i`-th size of an accepting reply. */
  function SizeAt(m: Bytes, i: nat): Bytes {
    if REPLY_HDR + 8 * (i + 1) <= |m| then m[REPLY_HDR..][8 * i..8 * (i + 1)] else []
  }

  lemma {:induction false} SizesLayout(sizes: seq<nat>, i: nat)
    requires i < |sizes|
    ensures SizesBytes(sizes)[8 * i..8 * (i + 1)] == LE(sizes[i], 8)
    decreases |sizes|
  {
    hide LE;
    var n := |sizes| - 1;
    if i < n {
      SizesLayout(sizes[..n], i);
      assert SizesBytes(sizes)[8 * i..8 * (i + 1)] == SizesBytes(sizes[..n])[8 * i..8 * (i + 1)];
    }
  }

  lemma ResolveReqRoundTrip(desc: Bytes)
    requires |desc| < UINT32_LIMIT
    ensures ParseResolveReq(ResolveReq(desc)) == Some(desc)
  {
    RoundTrip32(|desc|);
    assert ResolveReq(desc)[..4] == LE(|desc|, 4);
    assert ResolveReq(desc)[RESOLVE_HDR..] == desc;
  }

  lemma AttachReqRoundTrip(base: nat, desc: Bytes)
    requires |desc| < UINT32_LIMIT && base < SIZE_LIMIT
    ensures ParseAttachReq(AttachReq(base, desc), true) == Some(Attach(base, desc))
  {
    RoundTrip32(|desc|);
    RoundTrip64(base);
    var m := AttachReq(base, desc);
    assert m[..8] == LE(base, 8);
    assert m[8..12] == LE(|desc|, 4);
    assert m[ATTACH_HDR..] == desc;
  }

  lemma ReplyHdrFields(status: nat, n: nat, e: nat, rest: Bytes)
    requires status < UINT32_LIMIT && n < UINT32_LIMIT && e < UINT32_LIMIT
    ensures var m := ReplyHdr(status, n, e) + rest;
            UnLE(m[..4]) == status && UnLE(m[4..8]) == n && UnLE(m[8..12]) == e && m[REPLY_HDR..] == rest
  {
    RoundTrip32(status);
    RoundTrip32(n);
    RoundTrip32(e);
    var m := ReplyHdr(status, n, e) + rest;
    assert m[..4] == LE(status, 4);
    assert m[4..8] == LE(n, 4);
    assert m[8..12] == LE(e, 4);
  }

  lemma {:induction false} SizesRoundTrip(sizes: seq<nat>, tail: Bytes)
    requires forall i :: 0 <= i < |sizes| ==> sizes[i] < SIZE_LIMIT
    ensures SizesOf(SizesBytes(sizes) + tail, |sizes|) == sizes
    decreases |sizes|
  {
    hide LE, UnLE;
    if sizes != [] {
      var n := |sizes|;
      var last := LE(sizes[n - 1], 8);
      SizesRoundTrip(sizes[..n - 1], last + tail);
      assert SizesBytes(sizes) + tail == SizesBytes(sizes[..n - 1]) + (last + tail);
      RoundTrip64(sizes[n - 1]);
      assert (SizesBytes(sizes) + tail)[8 * (n - 1)..8 * n] == last;
    }
  }

  lemma RejectRoundTrip(error: Bytes)
    requires |error| < UINT32_LIMIT
    ensures ParseReply(RejectReply(error)) == Reply.Rejected(error)
  {
    ReplyHdrFields(REJECTED_STATUS, 0, |error|, error);
  }

  /** An accepted layout survives the wire exactly when its reply fits the
      receive buffer; one that does not fit is taken for a malformed reply. */
  lemma AcceptRoundTrip(sizes: seq<nat>)
    requires 0 < |sizes| < UINT32_LIMIT && forall i :: 0 <= i < |sizes| ==> sizes[i] < SIZE_LIMIT
    ensures |AcceptReply(sizes)| <= MSG_MAX <==> ParseReply(Received(AcceptReply(sizes))) == Accepted(sizes)
    ensures |AcceptReply(sizes)| > MSG_MAX <==> ParseReply(Received(AcceptReply(sizes))) == Malformed
  {
    hide LE, UnLE, SizesBytes, SizesOf, ReplyHdr;
    var m := AcceptReply(sizes);
    if |m| <= MSG_MAX {
      ReplyHdrFields(0, |sizes|, 0, SizesBytes(sizes));
      SizesRoundTrip(sizes, []);
      assert SizesBytes(sizes) + [] == SizesBytes(sizes);
    } else {
      var cut := SizesBytes(sizes)[..MSG_MAX - REPLY_HDR];
      assert Received(m) == ReplyHdr(0, |sizes|, 0) + cut;
      ReplyHdrFields(0, |sizes|, 0, cut);
    }
  }

  /** The client's loop copying the sizes out of the reply. */
  method ReadSizes(b: Bytes, n: nat) returns (sizes: seq<nat>)
    requires 8 * n <= |b|
    ensures sizes == SizesOf(b, n)
  {
    sizes := [];
    for i := 0 to n
      invariant sizes == SizesOf(b, i)
    {
      sizes := sizes + [UnLE(b[8 * i..8 * i + 8])];
    }
  }

  /** `resolve_descriptor` on the reply. */
  method ReadReply(msg: Bytes) returns (r: Reply)
    ensures r == ParseReply(msg)
  {
    if |msg| < REPLY_HDR {
      return Malformed;
    }
    var status, n, errorLen := UnLE(msg[..4]), UnLE(msg[4..8]), UnLE(msg[8..12]);
    var ok := if status == 0 then n > 0 && |msg| == REPLY_HDR + 8 * n else |msg| == REPLY_HDR + errorLen;
    if !ok {
      return Malformed;
    }
    if status != 0 {
      return Reply.Rejected(msg[REPLY_HDR..]);
    }
    var sizes := ReadSizes(msg[REPLY_HDR..], n);
    return Accepted(sizes);
  }

  // -------------------------------------------------------------- the layout

  /** Chunk sizes as the server reports them: differences of its prefix sums. */
  function LayoutSizes(starts: seq<nat>, n: nat): (s: seq<nat>)
    requires n < |starts| && forall i, j :: 0 <= i < j < |starts| ==> starts[i] < starts[j]
    ensures |s| == n && forall i :: 0 <= i < n ==> s[i] == starts[i + 1] - starts[i]
  {
    seq(n, i requires 0 <= i < n => starts[i + 1] - starts[i])
  }

  /** The server's loop filling `reply_sizes`. */
  method WriteSizes(l: Layout) returns (sizes: seq<nat>)
    requires l.Valid()
    ensures sizes == LayoutSizes(l.starts, l.N())
  {
    sizes := [];
    for i := 0 to l.N()
      invariant |sizes| == i && forall k :: 0 <= k < i ==> sizes[k] == l.starts[k + 1] - l.starts[k]
    {
      sizes := sizes + [l.starts[i + 1] - l.starts[i]];
    }
  }

  lemma {:induction false} SumsOfDifferences(l: Layout, k: nat)
    requires l.Valid() && k <= l.N()
    ensures PrefixSum(LayoutSizes(l.starts, l.N()), k) == l.starts[k]
  {
    if k > 0 {
      SumsOfDifferences(l, k - 1);
    }
  }

  /** Layout round trip: prefix sums of the reported sizes are the server's
      layout again, and the client accepts them. */
  lemma LayoutRoundTrip(l: Layout)
    requires l.Valid() && l.Total() < SIZE_LIMIT
    ensures var sizes := LayoutSizes(l.starts, l.N());
            && !Layouts.Rejected(sizes)
            && (forall i :: 0 <= i < |sizes| ==> 0 < sizes[i] < SIZE_LIMIT)
            && forall l' :: IsLayoutOf(l', l.ps, sizes) ==> l' == l
  {
    hide PrefixSum, IsLayoutOf;
    var sizes := LayoutSizes(l.starts, l.N());
    forall k | 0 <= k <= l.N()
      ensures PrefixSum(sizes, k) == l.starts[k] <= l.Total()
    {
      SumsOfDifferences(l, k);
    }
    forall l' | IsLayoutOf(l', l.ps, sizes)
      ensures l' == l
    {
      SameSums(l, l', sizes);
    }
  }

  lemma SameSums(l: Layout, l': Layout, sizes: seq<nat>)
    requires l.Valid() && l.N() == |sizes| && IsLayoutOf(l', l.ps, sizes)
    requires forall k :: 0 <= k <= l.N() ==> PrefixSum(sizes, k) == l.starts[k]
    ensures l' == l
  {
    hide PrefixSum;
    assert l'.starts == l.starts;
  }
}
