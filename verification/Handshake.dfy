/** Region creation across two processes: the server's descriptor list, its
    per-connection state machine, and the client's call. */
module Handshake {
  import opened Basics
  import opened Pages
  import opened Layouts
  import opened Wire

  datatype Mapping = Mapping(uffd: nat, base: nat)

  datatype SRegion = SRegion(desc: Bytes, l: Layout, mappings: seq<Mapping>)

  type Regions = seq<SRegion>

  /** What the factory says about a descriptor it has not seen. */
  datatype Answer = Refuse(error: Bytes) | Recipe(sizes: seq<nat>)

  datatype Conn = WaitResolve | WaitAttach

  function Ascii(s: string): Bytes {
    seq(|s|, i requires 0 <= i < |s| => (s[i] as int % 256) as byte)
  }

  const INVALID_LAYOUT: Bytes := Ascii("factory returned an invalid chunk layout")

  // ------------------------------------------------------------ region list

  function Find(regs: Regions, desc: Bytes): (r: Option<nat>)
    ensures r.Some? ==> r.value < |regs| && regs[r.value].desc == desc
    ensures r.None? ==> forall i :: 0 <= i < |regs| ==> regs[i].desc != desc
  {
    if regs == [] then None
    else if regs[0].desc == desc then Some(0)
    else match Find(regs[1..], desc) case None => None case Some(i) => Some(i + 1)
  }

  ghost predicate Unique(regs: Regions) {
    forall i, j :: 0 <= i < j < |regs| ==> regs[i].desc != regs[j].desc
  }

  /** Descriptors are a region's identity; layouts are ones the server accepted. */
  ghost predicate RegionsOk(ps: PageSize, regs: Regions) {
    && Unique(regs)
    && forall i :: 0 <= i < |regs| ==> RegionOk(ps, regs[i])
  }

  /** Mapping `k` of region `i` is the one with this file descriptor. */
  ghost predicate MappedAs(regs: Regions, fd: nat, i: nat, k: nat) {
    i < |regs| && k < |regs[i].mappings| && regs[i].mappings[k].uffd == fd
  }

  /** A descriptor the kernel may hand out: no mapping has it open. */
  ghost predicate FreshFd(regs: Regions, fd: nat) {
    forall i: nat, k: nat :: !MappedAs(regs, fd, i, k)
  }

  ghost predicate FdsUnique(regs: Regions) {
    forall fd: nat, i: nat, j: nat, a: nat, b: nat ::
      MappedAs(regs, fd, i, a) && MappedAs(regs, fd, j, b) ==> i == j && a == b
  }

  ghost predicate RegionOk(ps: PageSize, r: SRegion) {
    r.l.Valid() && r.l.ps == ps && r.l.Total() < SIZE_LIMIT && r.l.N() < UINT32_LIMIT
  }

  ghost predicate AnswerOk(a: Answer) {
    match a
    case Refuse(e) => |e| < UINT32_LIMIT
    case Recipe(sizes) => |sizes| + 1 < UINT32_LIMIT && forall i :: 0 <= i < |sizes| ==> sizes[i] < SIZE_LIMIT
  }

  ghost function SizesFor(l: Layout): seq<nat>
    requires l.Valid()
  {
    Wire.LayoutSizes(l.starts, l.N())
  }

  // ---------------------------------------------------------------- handlers

  datatype Handled = Handled(regions: Regions, reply: Bytes, ok: bool)

  ghost function ResolveSpec(ps: PageSize, regs: Regions, msg: Bytes, answer: Answer): Handled
    requires RegionsOk(ps, regs) && AnswerOk(answer)
  {
    match ParseResolveReq(Received(msg))
    case None => Handled(regs, RejectReply([]), false)
    case Some(desc) =>
      match Find(regs, desc)
      case Some(i) => Handled(regs, AcceptReply(SizesFor(regs[i].l)), true)
      case None =>
        match answer
        case Refuse(e) => Handled(regs, RejectReply(e), false)
        case Recipe(sizes) =>
          if sizes == [] || Layouts.Rejected(sizes) then Handled(regs, RejectReply(INVALID_LAYOUT), false)
          else
            RecipeLayout(ps, sizes);
            Handled([SRegion(desc, LayoutOf(ps, sizes), [])] + regs, AcceptReply(SizesFor(LayoutOf(ps, sizes))), true)
  }

  lemma RecipeLayout(ps: PageSize, sizes: seq<nat>)
    requires sizes != [] && !Layouts.Rejected(sizes)
    ensures IsLayoutOf(LayoutOf(ps, sizes), ps, sizes)
    ensures LayoutOf(ps, sizes).Total() < SIZE_LIMIT
    ensures SizesFor(LayoutOf(ps, sizes)) == sizes
  {
    var l := LayoutOf(ps, sizes);
    AcceptedIsLayout(ps, sizes, l.starts);
    AcceptedTotal(sizes);
    SizesAreDifferences(l, sizes);
  }

  lemma AcceptedTotal(sizes: seq<nat>)
    requires sizes != [] && !Layouts.Rejected(sizes)
    ensures PrefixSum(sizes, |sizes|) < SIZE_LIMIT
  {
    var i := |sizes| - 1;
    assert !(PrefixSum(sizes, i + 1) >= SIZE_LIMIT);
  }

  lemma SizesAreDifferences(l: Layout, sizes: seq<nat>)
    requires l.Valid() && l.N() == |sizes|
    requires forall i :: 0 <= i <= |sizes| ==> l.starts[i] == PrefixSum(sizes, i)
    ensures SizesFor(l) == sizes
  {
    var d := SizesFor(l);
    forall i | 0 <= i < |sizes|
      ensures d[i] == sizes[i]
    {
      assert l.starts[i + 1] == PrefixSum(sizes, i + 1) == PrefixSum(sizes, i) + sizes[i];
    }
  }

  ghost function AttachSpec(regs: Regions, msg: Bytes, fd: Option<nat>): Handled {
    match ParseAttachReq(Received(msg), fd.Some?)
    case None => Handled(regs, [1], false)
    case Some(a) =>
      match Find(regs, a.desc)
      case None => Handled(regs, [1], false)
      case Some(i) =>
        var uffd := if fd.Some? then fd.value else 0;
        Handled(regs[i := regs[i].(mappings := [Mapping(uffd, a.base)] + regs[i].mappings)], [0], true)
  }

  lemma ResolveKeeps(ps: PageSize, regs: Regions, msg: Bytes, answer: Answer)
    requires RegionsOk(ps, regs) && AnswerOk(answer)
    ensures RegionsOk(ps, ResolveSpec(ps, regs, msg, answer).regions)
  {
    hide Layouts.Rejected, LayoutOf, IsLayoutOf, SizesFor, ParseResolveReq, Received, AcceptReply, RejectReply;
    var r := ResolveSpec(ps, regs, msg, answer).regions;
    if r != regs {
      assert answer.Recipe? && answer.sizes != [] && !Layouts.Rejected(answer.sizes);
      RecipeIsRegion(ps, r[0].desc, answer.sizes);
    }
  }

  lemma RecipeIsRegion(ps: PageSize, desc: Bytes, sizes: seq<nat>)
    requires sizes != [] && !Layouts.Rejected(sizes) && |sizes| + 1 < UINT32_LIMIT
    ensures RegionOk(ps, SRegion(desc, LayoutOf(ps, sizes), []))
  {
    hide Layouts.Rejected;
    RecipeLayout(ps, sizes);
  }

  lemma AttachKeeps(ps: PageSize, regs: Regions, msg: Bytes, fd: Option<nat>)
    requires RegionsOk(ps, regs)
    ensures RegionsOk(ps, AttachSpec(regs, msg, fd).regions)
  {
  }

  /** A resolve opens no mapping; an attach with a fresh descriptor keeps
      descriptors apart. */
  lemma FdsKept(ps: PageSize, regs: Regions, msg: Bytes, answer: Answer, fd: Option<nat>)
    requires RegionsOk(ps, regs) && AnswerOk(answer) && FdsUnique(regs)
    ensures FdsUnique(ResolveSpec(ps, regs, msg, answer).regions)
    ensures (fd.Some? ==> FreshFd(regs, fd.value)) ==> FdsUnique(AttachSpec(regs, msg, fd).regions)
  {
    hide Layouts.Rejected, LayoutOf, SizesFor, ParseResolveReq, ParseAttachReq, Received, AcceptReply, RejectReply,
         RegionsOk;
    ResolvedFds(ps, regs, msg, answer);
    if fd.None? {
      NoFdNoAttach(regs, msg);
    } else if FreshFd(regs, fd.value) {
      AttachedFds(regs, msg, fd);
    }
  }

  lemma NoFdNoAttach(regs: Regions, msg: Bytes)
    ensures AttachSpec(regs, msg, None) == Handled(regs, [1], false)
  {
  }

  lemma ResolvedFds(ps: PageSize, regs: Regions, msg: Bytes, answer: Answer)
    requires RegionsOk(ps, regs) && AnswerOk(answer) && FdsUnique(regs)
    ensures FdsUnique(ResolveSpec(ps, regs, msg, answer).regions)
  {
    hide Layouts.Rejected, LayoutOf, SizesFor, ParseResolveReq, Received, AcceptReply, RejectReply, RegionsOk;
    var r := ResolveSpec(ps, regs, msg, answer).regions;
    if r != regs {
      forall fd: nat, i: nat, j: nat, a: nat, b: nat | MappedAs(r, fd, i, a) && MappedAs(r, fd, j, b)
        ensures i == j && a == b
      {
        assert MappedAs(regs, fd, i - 1, a) && MappedAs(regs, fd, j - 1, b);
      }
    }
  }

  lemma AttachedFds(regs: Regions, msg: Bytes, fd: Option<nat>)
    requires FdsUnique(regs) && fd.Some? && FreshFd(regs, fd.value)
    ensures FdsUnique(AttachSpec(regs, msg, fd).regions)
  {
    hide ParseAttachReq, Received;
    var r := AttachSpec(regs, msg, fd).regions;
    if r != regs {
      var t := Find(regs, ParseAttachReq(Received(msg), true).value.desc).value;
      forall f: nat, i: nat, j: nat, a: nat, b: nat | MappedAs(r, f, i, a) && MappedAs(r, f, j, b)
        ensures i == j && a == b
      {
        assert (i == t && a == 0) || MappedAs(regs, f, i, if i == t then a - 1 else a);
        assert (j == t && b == 0) || MappedAs(regs, f, j, if j == t then b - 1 else b);
      }
    }
  }

  /** The region a descriptor names, layout only. */
  ghost predicate Names(regs: Regions, desc: Bytes, l: Layout) {
    Find(regs, desc).Some? && regs[Find(regs, desc).value].l == l
  }

  lemma {:induction false} FindUnique(regs: Regions, desc: Bytes, i: nat)
    requires Unique(regs) && i < |regs| && regs[i].desc == desc
    ensures Find(regs, desc) == Some(i)
  {
    if i > 0 {
      FindUnique(regs[1..], desc, i - 1);
    }
  }

  /** Whatever other connections resolve or attach, a descriptor that names a
      region keeps naming that same region. */
  lemma NamesForever(ps: PageSize, regs: Regions, desc: Bytes, l: Layout, msg: Bytes, answer: Answer, fd: Option<nat>)
    requires RegionsOk(ps, regs) && AnswerOk(answer) && Names(regs, desc, l)
    ensures Names(ResolveSpec(ps, regs, msg, answer).regions, desc, l)
    ensures Names(AttachSpec(regs, msg, fd).regions, desc, l)
  {
    hide Layouts.Rejected, LayoutOf, SizesFor, ParseResolveReq, ParseAttachReq, Received, AcceptReply, RejectReply,
         RegionOk;
    var i := Find(regs, desc).value;
    ResolveKeeps(ps, regs, msg, answer);
    AttachKeeps(ps, regs, msg, fd);
    var a, r := AttachSpec(regs, msg, fd).regions, ResolveSpec(ps, regs, msg, answer).regions;
    FindUnique(a, desc, i);
    if r == regs {
    } else {
      FindUnique(r, desc, i + 1);
    }
  }

  /** A region creation that a client finished: it mapped layout `l` at `base`,
      and the server holds its userfaultfd as `fd`. */
  datatype Finished = Finished(desc: Bytes, base: nat, fd: nat, l: Layout)

  /** The server still has the creation's mapping, under the region its
      descriptor names, with the layout the client mapped. */
  ghost predicate Hooked(regs: Regions, f: Finished) {
    Names(regs, f.desc, f.l) && Mapping(f.fd, f.base) in regs[Find(regs, f.desc).value].mappings
  }

  lemma HookedForever(ps: PageSize, regs: Regions, f: Finished, msg: Bytes, answer: Answer, fd: Option<nat>)
    requires RegionsOk(ps, regs) && AnswerOk(answer) && Hooked(regs, f)
    ensures Hooked(ResolveSpec(ps, regs, msg, answer).regions, f)
    ensures Hooked(AttachSpec(regs, msg, fd).regions, f)
  {
    hide Layouts.Rejected, LayoutOf, SizesFor, ParseResolveReq, ParseAttachReq, Received, AcceptReply, RejectReply,
         RegionOk;
    var i := Find(regs, f.desc).value;
    NamesForever(ps, regs, f.desc, f.l, msg, answer, fd);
    ResolveKeeps(ps, regs, msg, answer);
    AttachKeeps(ps, regs, msg, fd);
    var a, r := AttachSpec(regs, msg, fd).regions, ResolveSpec(ps, regs, msg, answer).regions;
    FindUnique(a, f.desc, i);
    FindUnique(r, f.desc, if r == regs then i else i + 1);
  }

  // ------------------------------------------------------------- the server

  class Server {
    const ps: PageSize
    var regions: Regions

    ghost predicate Valid()
      reads this
    {
      RegionsOk(ps, regions) && FdsUnique(regions)
    }

    constructor (ps: PageSize)
      ensures Valid() && regions == [] && this.ps == ps
    {
      this.ps, regions := ps, [];
    }

    /** `find_region` */
    method FindRegion(desc: Bytes) returns (r: Option<nat>)
      ensures r == Find(regions, desc)
    {
      var i := 0;
      while i < |regions|
        invariant 0 <= i <= |regions|
        invariant Find(regions, desc) == (match Find(regions[i..], desc) case None => None case Some(k) => Some(k + i))
      {
        if regions[i].desc == desc {
          return Some(i);
        }
        i := i + 1;
      }
      return None;
    }

    /** `handle_resolve`: finds the region, or makes one from the recipe. */
    method HandleResolve(msg: Bytes, answer: Answer) returns (reply: Bytes, ok: bool)
      requires Valid() && AnswerOk(answer)
      modifies this
      ensures Valid()
      ensures Handled(regions, reply, ok) == ResolveSpec(ps, old(regions), msg, answer)
    {
      ResolveKeeps(ps, regions, msg, answer);
      ResolvedFds(ps, regions, msg, answer);
      hide FdsUnique;
      var req := ParseResolveReq(Received(msg));
      if req.None? {
        return RejectReply([]), false;
      }
      var found := FindRegion(req.value);
      if found.Some? {
        var sizes := WriteSizes(regions[found.value].l);
        return AcceptReply(sizes), true;
      }
      if answer.Refuse? {
        return RejectReply(answer.error), false;
      }
      if answer.sizes == [] {
        return RejectReply(INVALID_LAYOUT), false;
      }
      var l := CreateLayout(ps, answer.sizes);
      if l.None? {
        return RejectReply(INVALID_LAYOUT), false;
      }
      LayoutIsUnique(l.value, ps, answer.sizes);
      regions := [SRegion(req.value, l.value, [])] + regions;
      var sizes := WriteSizes(l.value);
      return AcceptReply(sizes), true;
    }

    /** `handle_attach`: hooks a mapping to the region just resolved. */
    method HandleAttach(msg: Bytes, fd: Option<nat>) returns (ack: Bytes, ok: bool)
      requires Valid() && (fd.Some? ==> FreshFd(regions, fd.value))
      modifies this
      ensures Valid()
      ensures Handled(regions, ack, ok) == AttachSpec(old(regions), msg, fd)
    {
      AttachKeeps(ps, regions, msg, fd);
      FdsKept(ps, regions, msg, Refuse([]), fd);
      hide FdsUnique, FreshFd;
      var req := ParseAttachReq(Received(msg), fd.Some?);
      if req.None? {
        return [1], false;
      }
      var found := FindRegion(req.value.desc);
      if found.None? {
        return [1], false;
      }
      var i := found.value;
      var m := Mapping(fd.value, req.value.base);
      regions := regions[i := regions[i].(mappings := [m] + regions[i].mappings)];
      return [0], true;
    }

    /** The scan in `fc_server_run` for the mapping a fault came from. */
    method FindMapping(fd: nat) returns (r: Option<(nat, nat)>)
      ensures r.Some? ==> MappedAs(regions, fd, r.value.0, r.value.1)
      ensures r.None? ==> FreshFd(regions, fd)
    {
      for i := 0 to |regions|
        invariant forall j: nat, k: nat :: j < i ==> !MappedAs(regions, fd, j, k)
      {
        for k := 0 to |regions[i].mappings|
          invariant forall n: nat :: n < k ==> !MappedAs(regions, fd, i, n)
        {
          if regions[i].mappings[k].uffd == fd {
            return Some((i, k));
          }
        }
      }
      return None;
    }
  }

  // ---------------------------------------------------------- one connection

  datatype Packet = Packet(bytes: Bytes, hasFd: bool)

  datatype Client =
    | NoCall
    | AskedResolve(desc: Bytes)
    | AskedAttach(desc: Bytes, base: nat, l: Layout)
    | Aborted

  /** `lastFd` is the descriptor the server received last; `done` are the
      creations that have returned a region. */
  datatype Link = Link(
    regions: Regions,
    conn: Conn,
    client: Client,
    toServer: Option<Packet>,
    toClient: Option<Bytes>,
    lastFd: nat,
    lastCallOk: bool,
    done: seq<Finished>)

  datatype Step =
    | Call(desc: Bytes)
    | Serve(answer: Answer, fd: nat)
    | Hear(base: nat)
    | OtherResolve(msg: Bytes, otherAnswer: Answer)
    | OtherAttach(msg: Bytes, otherFd: Option<nat>)

  ghost predicate Enabled(ps: PageSize, w: Link, step: Step) {
    match step
    case Call(_) => w.client == NoCall
    case Serve(answer, fd) => w.toServer.Some? && AnswerOk(answer) && FreshFd(w.regions, fd)
    case Hear(base) => w.toClient.Some? && w.client != NoCall && base < SIZE_LIMIT
    case OtherResolve(_, answer) => AnswerOk(answer)
    case OtherAttach(_, fd) => fd.Some? ==> FreshFd(w.regions, fd.value)
  }

  ghost function Next(ps: PageSize, w: Link, step: Step): Link
    requires RegionsOk(ps, w.regions) && Enabled(ps, w, step)
  {
    match step
    case Call(desc) => Called(w, desc)
    case Serve(answer, fd) => Served(ps, w, answer, fd)
    case Hear(base) => Heard(ps, w, base)
    case OtherResolve(msg, answer) => w.(regions := ResolveSpec(ps, w.regions, msg, answer).regions)
    case OtherAttach(msg, fd) => w.(regions := AttachSpec(w.regions, msg, fd).regions)
  }

  /** A descriptor too long for a resolve request never reaches the server. */
  ghost function Called(w: Link, desc: Bytes): Link {
    if RESOLVE_HDR + |desc| > MSG_MAX then w.(lastCallOk := false)
    else w.(client := AskedResolve(desc), toServer := Some(Packet(ResolveReq(desc), false)))
  }

  /** One round of `fc_server_run` on the connection; an attached file
      descriptor arrives as `fd`. */
  ghost function Served(ps: PageSize, w: Link, answer: Answer, fd: nat): Link
    requires RegionsOk(ps, w.regions) && w.toServer.Some? && AnswerOk(answer)
  {
    var p := w.toServer.value;
    match w.conn
    case WaitResolve =>
      var h := ResolveSpec(ps, w.regions, p.bytes, answer);
      w.(regions := h.regions, conn := if h.ok then WaitAttach else WaitResolve,
         toServer := None, toClient := Some(h.reply))
    case WaitAttach =>
      var h := AttachSpec(w.regions, p.bytes, if p.hasFd then Some(fd) else None);
      w.(regions := h.regions, conn := WaitResolve, toServer := None, toClient := Some(h.reply), lastFd := fd)
  }

  /** The client's side of a reply, in `fc_client_region_create`. One whose
      attach request would not fit aborts. */
  ghost function Heard(ps: PageSize, w: Link, base: nat): Link
    requires w.toClient.Some?
  {
    match w.client
    case AskedResolve(desc) =>
      (match LayoutHeard(ps, w.toClient.value)
       case Some(l) =>
         if ATTACH_HDR + |desc| > MSG_MAX then w.(client := Aborted, toClient := None)
         else w.(client := AskedAttach(desc, base, l), toClient := None,
                 toServer := Some(Packet(AttachReq(base, desc), true)))
       case None => w.(client := NoCall, toClient := None, lastCallOk := false))
    case AskedAttach(desc, base, l) =>
      var ok := w.toClient.value != [] && w.toClient.value[0] == 0;
      w.(client := NoCall, toClient := None, lastCallOk := ok,
         done := if ok then w.done + [Finished(desc, base, w.lastFd, l)] else w.done)
    case _ => w
  }


  lemma {:induction false} UnLEBound(b: Bytes)
    ensures UnLE(b) < Pow256(|b|)
  {
    if b != [] {
      UnLEBound(b[1..]);
    }
  }

  lemma SizesBounded(b: Bytes, n: nat)
    requires 8 * n <= |b|
    ensures forall i :: 0 <= i < n ==> SizesOf(b, n)[i] < SIZE_LIMIT
  {
    if n > 0 {
      SizesBounded(b, n - 1);
      UnLEBound(b[8 * (n - 1)..8 * n]);
      Widths();
    }
  }

  /** What the client makes of a reply: a layout, or a failed call. */
  ghost function LayoutHeard(ps: PageSize, reply: Bytes): Option<Layout> {
    match ParseReply(Received(reply))
    case Accepted(sizes) => if Layouts.Rejected(sizes) then None else Some(LayoutOf(ps, sizes))
    case _ => None
  }

  /** The client from the reply to its own prefix sums. */
  method ReadLayout(ps: PageSize, reply: Bytes) returns (l: Option<Layout>)
    ensures l == LayoutHeard(ps, reply)
  {
    hide Layouts.Rejected, LayoutOf, IsLayoutOf, Layout.Valid;
    var r := ReadReply(Received(reply));
    if !r.Accepted? {
      return None;
    }
    SizesBounded(Received(reply)[REPLY_HDR..], |r.sizes|);
    l := CreateLayout(ps, r.sizes);
    if l.Some? {
      LayoutIsUnique(l.value, ps, r.sizes);
    }
  }

  /** One readiness event on a connection in `fc_server_run`. */
  method ServeConnection(s: Server, ghost w: Link, conn: Conn, p: Packet, answer: Answer, fd: nat)
    returns (conn': Conn, reply: Bytes)
    requires s.Valid() && AnswerOk(answer) && FreshFd(s.regions, fd)
    requires w.regions == s.regions && w.conn == conn && w.toServer == Some(p)
    modifies s
    ensures s.Valid()
    ensures Served(s.ps, w, answer, fd)
         == w.(regions := s.regions, conn := conn', toServer := None, toClient := Some(reply),
               lastFd := if conn == WaitAttach then fd else w.lastFd)
  {
    hide ResolveSpec, AttachSpec, RegionsOk;
    var ok: bool;
    if conn == WaitResolve {
      reply, ok := s.HandleResolve(p.bytes, answer);
      conn' := if ok then WaitAttach else WaitResolve;
    } else {
      reply, ok := s.HandleAttach(p.bytes, if p.hasFd then Some(fd) else None);
      conn' := WaitResolve;
    }
  }
}
