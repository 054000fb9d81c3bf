/** Whether client and server ever disagree about which message comes next, and
    what a finished creation is worth for as long as it lives. */
module HandshakeRuns {
  import opened Basics
  import opened Pages
  import opened Layouts
  import opened ServerGroups
  import opened Wire
  import opened Handshake

  // ----------------------------------------------------------------- in step

  /** Client and server agree on what is on the wire and what comes next. */
  ghost predicate InStep(ps: PageSize, w: Link) {
    && RegionsOk(ps, w.regions)
    && match w.client
       case NoCall => w.conn == WaitResolve && w.toServer.None? && w.toClient.None?
       case AskedResolve(desc) =>
         && RESOLVE_HDR + |desc| <= MSG_MAX
         && (ResolveSent(w, desc) || ResolveRefused(w) || ResolveAccepted(w, desc))
       case AskedAttach(desc, base, l) =>
         && ATTACH_HDR + |desc| <= MSG_MAX && base < SIZE_LIMIT && Names(w.regions, desc, l)
         && (AttachSent(w, desc, base) || (AttachAcked(w) && Hooked(w.regions, Finished(desc, base, w.lastFd, l))))
       case Aborted => w.toServer.None? && w.toClient.None?
  }

  ghost predicate ResolveSent(w: Link, desc: Bytes) {
    w.conn == WaitResolve && w.toServer == Some(Packet(ResolveReq(desc), false)) && w.toClient.None?
  }

  ghost predicate ResolveRefused(w: Link) {
    && w.conn == WaitResolve && w.toServer.None? && w.toClient.Some?
    && !ParseReply(Received(w.toClient.value)).Accepted?
  }

  ghost predicate ResolveAccepted(w: Link, desc: Bytes) {
    && w.conn == WaitAttach && w.toServer.None? && Find(w.regions, desc).Some?
    && var l := w.regions[Find(w.regions, desc).value].l;
       l.Valid() && w.toClient == Some(AcceptReply(SizesFor(l))) && |AcceptReply(SizesFor(l))| <= MSG_MAX
  }

  /** An accepted layout whose reply is longer than the receive buffer. */
  ghost predicate Oversized(ps: PageSize, w: Link) {
    && RegionsOk(ps, w.regions) && w.client.AskedResolve? && RESOLVE_HDR + |w.client.desc| <= MSG_MAX
    && w.conn == WaitAttach && w.toServer.None? && Find(w.regions, w.client.desc).Some?
    && var l := w.regions[Find(w.regions, w.client.desc).value].l;
       l.Valid() && w.toClient == Some(AcceptReply(SizesFor(l))) && |AcceptReply(SizesFor(l))| > MSG_MAX
  }

  /** Out of step: the server waits for an attach the client will not send. */
  ghost predicate Behind(ps: PageSize, w: Link) {
    && RegionsOk(ps, w.regions) && w.conn == WaitAttach && w.toClient.None?
    && match w.client
       case NoCall => w.toServer.None?
       case AskedResolve(desc) =>
         RESOLVE_HDR + |desc| <= MSG_MAX && w.toServer == Some(Packet(ResolveReq(desc), false))
       case _ => false
  }

  ghost predicate AttachSent(w: Link, desc: Bytes, base: nat) {
    && w.conn == WaitAttach && w.toClient.None?
    && w.toServer == Some(Packet(AttachReq(base, desc), true))
  }

  ghost predicate AttachAcked(w: Link) {
    w.conn == WaitResolve && w.toServer.None? && w.toClient == Some([0])
  }

  lemma RefusalNeverAccepted(e: Bytes)
    requires |e| < UINT32_LIMIT
    ensures !ParseReply(Received(RejectReply(e))).Accepted?
  {
    if |RejectReply(e)| <= MSG_MAX {
      RejectRoundTrip(e);
    } else {
      var cut := e[..MSG_MAX - REPLY_HDR];
      assert Received(RejectReply(e)) == ReplyHdr(REJECTED_STATUS, 0, |e|) + cut;
      ReplyHdrFields(REJECTED_STATUS, 0, |e|, cut);
    }
  }

  lemma ResolveArrives(desc: Bytes)
    requires RESOLVE_HDR + |desc| <= MSG_MAX
    ensures ParseResolveReq(Received(ResolveReq(desc))) == Some(desc)
  {
    ResolveReqRoundTrip(desc);
  }

  /** What a resolve comes to: an accepted descriptor names the region whose
      sizes are sent; a refusal changes nothing and is never read as a layout. */
  lemma ResolveOutcome(ps: PageSize, regs: Regions, desc: Bytes, answer: Answer)
    requires RegionsOk(ps, regs) && AnswerOk(answer) && RESOLVE_HDR + |desc| <= MSG_MAX
    ensures var h := ResolveSpec(ps, regs, ResolveReq(desc), answer);
            && RegionsOk(ps, h.regions)
            && (h.ok ==> Find(h.regions, desc).Some?
                         && h.reply == AcceptReply(SizesFor(h.regions[Find(h.regions, desc).value].l)))
            && (!h.ok ==> h.regions == regs && !ParseReply(Received(h.reply)).Accepted?)
            && (h.ok <==> Find(regs, desc).Some?
                          || (answer.Recipe? && answer.sizes != [] && !Layouts.Rejected(answer.sizes)))
  {
    hide Layouts.Rejected, LayoutOf, IsLayoutOf, SizesFor, ParseResolveReq, AcceptReply, RejectReply, ParseReply,
         ResolveReq, Received;
    ResolveArrives(desc);
    ResolveKeeps(ps, regs, ResolveReq(desc), answer);
    RefusalNeverAccepted([]);
    RefusalNeverAccepted(INVALID_LAYOUT);
    if answer.Refuse? {
      RefusalNeverAccepted(answer.error);
    }
  }

  /** A new descriptor with a recipe the server accepts becomes a region of
      exactly those chunks, in front of the list, with no mapping yet, and the
      reply says so. */
  lemma ResolveCreates(ps: PageSize, regs: Regions, desc: Bytes, sizes: seq<nat>)
    requires RegionsOk(ps, regs) && AnswerOk(Recipe(sizes)) && RESOLVE_HDR + |desc| <= MSG_MAX
    requires Find(regs, desc).None? && sizes != [] && !Layouts.Rejected(sizes)
    ensures var h := ResolveSpec(ps, regs, ResolveReq(desc), Recipe(sizes));
            && h.ok && |h.regions| == |regs| + 1 && h.regions[1..] == regs
            && h.regions[0].desc == desc && h.regions[0].mappings == [] && IsLayoutOf(h.regions[0].l, ps, sizes)
            && |h.reply| == REPLY_HDR + 8 * |sizes|
            && (|h.reply| <= MSG_MAX ==> ParseReply(Received(h.reply)) == Accepted(sizes))
            && (|h.reply| <= MSG_MAX ==> LayoutHeard(ps, h.reply) == Some(h.regions[0].l))
  {
    hide Layouts.Rejected, ParseResolveReq, AcceptReply, ParseReply, ResolveReq, Received, SizesFor, LayoutOf,
         IsLayoutOf;
    ResolveArrives(desc);
    RecipeLayout(ps, sizes);
    RecipeIsRegion(ps, desc, sizes);
    AcceptedSizes(sizes);
  }

  lemma AcceptedSizes(sizes: seq<nat>)
    requires AnswerOk(Recipe(sizes)) && sizes != []
    ensures |AcceptReply(sizes)| == REPLY_HDR + 8 * |sizes|
    ensures |AcceptReply(sizes)| <= MSG_MAX ==> ParseReply(Received(AcceptReply(sizes))) == Accepted(sizes)
  {
    AcceptRoundTrip(sizes);
  }

  /** A descriptor the server knows is answered with its region's sizes, and
      asking again makes nothing new. */
  lemma ResolveFinds(ps: PageSize, regs: Regions, desc: Bytes, answer: Answer)
    requires RegionsOk(ps, regs) && AnswerOk(answer) && RESOLVE_HDR + |desc| <= MSG_MAX && Find(regs, desc).Some?
    ensures var h, l := ResolveSpec(ps, regs, ResolveReq(desc), answer), regs[Find(regs, desc).value].l;
            && h.ok && h.regions == regs && |h.reply| == REPLY_HDR + 8 * l.N()
            && (|h.reply| <= MSG_MAX ==> LayoutHeard(ps, h.reply) == Some(l))
  {
    hide Layouts.Rejected, ParseResolveReq, AcceptReply, ParseReply, ResolveReq, Received, SizesFor, LayoutOf,
         LayoutHeard;
    ResolveArrives(desc);
    LayoutHeardExactly(ps, regs[Find(regs, desc).value].l);
  }

  /** A refusal reaches the client with the factory's own message, a bad recipe
      with the server's, and a message that is no resolve request with none. */
  lemma ResolveRefuses(ps: PageSize, regs: Regions, desc: Bytes, answer: Answer)
    requires RegionsOk(ps, regs) && AnswerOk(answer) && RESOLVE_HDR + |desc| <= MSG_MAX && Find(regs, desc).None?
    requires answer.Recipe? ==> answer.sizes == [] || Layouts.Rejected(answer.sizes)
    ensures var h := ResolveSpec(ps, regs, ResolveReq(desc), answer);
            var e := if answer.Refuse? then answer.error else INVALID_LAYOUT;
            && !h.ok && h.regions == regs && |h.reply| == REPLY_HDR + |e|
            && (|h.reply| <= MSG_MAX ==> ParseReply(Received(h.reply)) == Reply.Rejected(e))
  {
    hide Layouts.Rejected, ParseResolveReq, RejectReply, ParseReply, ResolveReq;
    ResolveArrives(desc);
    var e := if answer.Refuse? then answer.error else INVALID_LAYOUT;
    RejectRoundTrip(e);
  }

  lemma NoRequest(ps: PageSize, regs: Regions, msg: Bytes, answer: Answer)
    requires RegionsOk(ps, regs) && AnswerOk(answer) && ParseResolveReq(Received(msg)) == None
    ensures var h := ResolveSpec(ps, regs, msg, answer);
            !h.ok && h.regions == regs && ParseReply(Received(h.reply)) == Reply.Rejected([])
  {
    hide ParseResolveReq;
    RejectRoundTrip([]);
    assert |RejectReply([])| == REPLY_HDR;
  }

  lemma ServeResolveInStep(ps: PageSize, w: Link, desc: Bytes, answer: Answer, fd: nat)
    requires InStep(ps, w) && w.client == AskedResolve(desc) && ResolveSent(w, desc) && AnswerOk(answer)
    ensures InStep(ps, Served(ps, w, answer, fd)) || Oversized(ps, Served(ps, w, answer, fd))
  {
    hide ResolveSpec, SizesFor, AcceptReply, ParseReply, ResolveReq, Received, AttachReq, Unique, Hooked;
    ResolveOutcome(ps, w.regions, desc, answer);
  }

  lemma AttachArrives(base: nat, desc: Bytes)
    requires ATTACH_HDR + |desc| <= MSG_MAX && base < SIZE_LIMIT
    ensures ParseAttachReq(Received(AttachReq(base, desc)), true) == Some(Attach(base, desc))
  {
    AttachReqRoundTrip(base, desc);
  }

  /** An attach after an accepted resolve finds that same region and hooks the
      client's mapping to it, whatever other connections did in between. */
  lemma ServeAttachInStep(ps: PageSize, w: Link, desc: Bytes, base: nat, l: Layout, answer: Answer, fd: nat)
    requires InStep(ps, w) && w.client == AskedAttach(desc, base, l) && AttachSent(w, desc, base) && AnswerOk(answer)
    ensures var w' := Served(ps, w, answer, fd);
            InStep(ps, w') && AttachAcked(w') && w'.lastFd == fd && Hooked(w'.regions, Finished(desc, base, fd, l))
  {
    hide ParseAttachReq, AttachReq, Received, ResolveSpec, SizesFor, AcceptReply;
    AttachArrives(base, desc);
    NamesForever(ps, w.regions, desc, l, AttachReq(base, desc), answer, Some(fd));
    AttachKeeps(ps, w.regions, AttachReq(base, desc), Some(fd));
    FindUnique(Served(ps, w, answer, fd).regions, desc, Find(w.regions, desc).value);
  }

  /** A reply that fits is read back as the server's own layout; one that does
      not is read as no layout at all. */
  lemma LayoutArrives(ps: PageSize, l: Layout)
    requires l.Valid() && l.ps == ps && l.Total() < SIZE_LIMIT && l.N() < UINT32_LIMIT
    ensures var sizes, reply := SizesFor(l), AcceptReply(SizesFor(l));
            && |reply| == REPLY_HDR + 8 * l.N()
            && (|reply| <= MSG_MAX ==> ParseReply(Received(reply)) == Accepted(sizes)
                                       && !Layouts.Rejected(sizes) && LayoutOf(ps, sizes) == l)
            && (|reply| > MSG_MAX ==> ParseReply(Received(reply)) == Malformed)
  {
    hide AcceptReply, ParseReply, Received, Layouts.Rejected;
    LayoutRoundTrip(l);
    AcceptRoundTrip(SizesFor(l));
    RecipeLayout(ps, SizesFor(l));
  }

  /** Once the client has heard an accepted resolve, the ends are in step if
      and only if the reply fitted the receive buffer. */
  lemma InStepExactly(ps: PageSize, w: Link, desc: Bytes, base: nat)
    requires w.client == AskedResolve(desc) && base < SIZE_LIMIT
    requires (InStep(ps, w) && ResolveAccepted(w, desc)) || Oversized(ps, w)
    ensures var l := w.regions[Find(w.regions, desc).value].l;
            var w' := Heard(ps, w, base);
            && (InStep(ps, w') <==> REPLY_HDR + 8 * l.N() <= MSG_MAX)
            && (InStep(ps, w') <==> !Oversized(ps, w))
            && (InStep(ps, w') ==>
                  w'.client == if ATTACH_HDR + |desc| <= MSG_MAX then AskedAttach(desc, base, l) else Aborted)
            && (!InStep(ps, w') ==> Behind(ps, w') && w'.client == NoCall && !w'.lastCallOk && w'.regions == w.regions)
  {
    hide AcceptReply, LayoutHeard, Received, SizesFor, ResolveReq, AttachReq, Unique, Hooked;
    var l := w.regions[Find(w.regions, desc).value].l;
    LayoutHeardExactly(ps, l);
  }

  lemma LayoutHeardExactly(ps: PageSize, l: Layout)
    requires l.Valid() && l.ps == ps && l.Total() < SIZE_LIMIT && l.N() < UINT32_LIMIT
    ensures var reply := AcceptReply(SizesFor(l));
            && |reply| == REPLY_HDR + 8 * l.N()
            && LayoutHeard(ps, reply) == if |reply| <= MSG_MAX then Some(l) else None
  {
    hide AcceptReply, ParseReply, Received, Layouts.Rejected, SizesFor, LayoutOf;
    LayoutArrives(ps, l);
  }

  /** Out of step, the server reads the client's next resolve as an attach
      without a file descriptor and nacks it, whatever its descriptor: that call
      fails, changes nothing, and leaves the ends in step again. */
  lemma BehindRecovers(ps: PageSize, w: Link, desc: Bytes, answer: Answer, fd: nat, base: nat)
    requires Behind(ps, w) && w.client == NoCall && RESOLVE_HDR + |desc| <= MSG_MAX && AnswerOk(answer)
    ensures var asked := Next(ps, w, Call(desc));
            && Behind(ps, asked) && asked.toServer.Some?
            && var nacked := Served(ps, asked, answer, fd);
               var heard := Heard(ps, nacked, base);
               && InStep(ps, nacked) && InStep(ps, heard)
               && heard.client == NoCall && !heard.lastCallOk && heard.regions == w.regions && heard.done == w.done
  {
    hide ResolveReq, AttachReq, AcceptReply, Unique, Hooked;
  }

  // -------------------------------------------------------------- whole runs

  ghost predicate Phase(ps: PageSize, w: Link) {
    InStep(ps, w) || Oversized(ps, w) || Behind(ps, w)
  }

  lemma StepPhase(ps: PageSize, w: Link, step: Step)
    requires Phase(ps, w) && Enabled(ps, w, step)
    ensures Phase(ps, Next(ps, w, step))
    ensures InStep(ps, w) ==> InStep(ps, Next(ps, w, step)) || Oversized(ps, Next(ps, w, step))
  {
    hide ResolveSpec, AttachSpec, SizesFor, ResolveReq, AttachReq, AcceptReply, ParseReply, Received, LayoutOf,
         Layouts.Rejected, Unique, Names, Find, Hooked, FreshFd;
    match step
    case Call(desc) =>
    case Serve(answer, fd) => ServePhase(ps, w, answer, fd);
    case Hear(base) =>
      if w.client.AskedResolve? && (Oversized(ps, w) || ResolveAccepted(w, w.client.desc)) {
        InStepExactly(ps, w, w.client.desc, base);
      } else {
        SettledInStep(ps, w, base);
      }
    case OtherResolve(msg, answer) => OthersPhase(ps, w, msg, answer, None);
    case OtherAttach(msg, fd) => OthersPhase(ps, w, msg, Refuse([]), fd);
  }

  lemma ServePhase(ps: PageSize, w: Link, answer: Answer, fd: nat)
    requires Phase(ps, w) && w.toServer.Some? && AnswerOk(answer)
    ensures Phase(ps, Served(ps, w, answer, fd))
    ensures InStep(ps, w) ==> InStep(ps, Served(ps, w, answer, fd)) || Oversized(ps, Served(ps, w, answer, fd))
  {
    hide ResolveSpec, AttachSpec, SizesFor, ResolveReq, AttachReq, AcceptReply, LayoutOf, Layouts.Rejected, Unique,
         Names,
         Find, Hooked;
    if Behind(ps, w) {
      NackedInStep(ps, w, answer, fd);
    } else if w.client.AskedResolve? {
      ServeResolveInStep(ps, w, w.client.desc, answer, fd);
    } else {
      ServeAttachInStep(ps, w, w.client.desc, w.client.base, w.client.l, answer, fd);
    }
  }

  /** A refusal or an ack ends the call. */
  lemma SettledInStep(ps: PageSize, w: Link, base: nat)
    requires InStep(ps, w) && w.toClient.Some? && w.client != NoCall
    requires ResolveRefused(w) || w.client.AskedAttach?
    ensures var w' := Heard(ps, w, base);
            && InStep(ps, w') && w'.client == NoCall && w'.lastCallOk == w.client.AskedAttach?
            && w'.done == w.done + if w.client.AskedAttach?
                                   then [Finished(w.client.desc, w.client.base, w.lastFd, w.client.l)] else []
  {
    hide AttachReq, Unique, ParseReply, Received, Layouts.Rejected, Hooked;
  }

  /** What a call reports is what happened: it succeeds exactly when its creation
      is now among the finished ones, and a failed call leaves those as they were. */
  lemma CallReports(ps: PageSize, w: Link, base: nat)
    requires w.toClient.Some? && (w.client.AskedResolve? || w.client.AskedAttach?)
    ensures var w' := Heard(ps, w, base);
            && w'.regions == w.regions && w'.toClient == None
            && (w'.client == NoCall ==> w'.lastCallOk == (|w'.done| == |w.done| + 1))
            && (w'.client != NoCall || !w'.lastCallOk ==> w'.done == w.done)
  {
    hide LayoutHeard, AttachReq;
  }

  lemma NackedInStep(ps: PageSize, w: Link, answer: Answer, fd: nat)
    requires Behind(ps, w) && w.toServer.Some? && AnswerOk(answer)
    ensures InStep(ps, Served(ps, w, answer, fd))
  {
    hide ResolveReq, AttachReq, AcceptReply, Unique, Hooked;
  }

  lemma OthersPhase(ps: PageSize, w: Link, msg: Bytes, answer: Answer, fd: Option<nat>)
    requires Phase(ps, w) && AnswerOk(answer)
    ensures var w' := w.(regions := ResolveSpec(ps, w.regions, msg, answer).regions);
            Phase(ps, w') && (InStep(ps, w) ==> InStep(ps, w'))
    ensures var w' := w.(regions := AttachSpec(w.regions, msg, fd).regions);
            Phase(ps, w') && (InStep(ps, w) ==> InStep(ps, w'))
  {
    hide ResolveSpec, AttachSpec, SizesFor, ResolveReq, AttachReq, AcceptReply, ParseReply, Received, Unique, Hooked;
    ResolveKeeps(ps, w.regions, msg, answer);
    AttachKeeps(ps, w.regions, msg, fd);
    if w.client.AskedAttach? && InStep(ps, w) && AttachAcked(w) {
      HookedForever(ps, w.regions, Finished(w.client.desc, w.client.base, w.lastFd, w.client.l), msg, answer, fd);
    }
    if (w.client.AskedAttach? || w.client.AskedResolve?) && Find(w.regions, w.client.desc).Some? {
      NamesForever(ps, w.regions, w.client.desc, w.regions[Find(w.regions, w.client.desc).value].l, msg, answer, fd);
    }
  }

  /** A run of one connection, with the other connections' calls in between. */
  ghost predicate Run(ps: PageSize, ws: seq<Link>, steps: seq<Step>) {
    && |ws| == |steps| + 1
    && Start(ps, ws[0])
    && forall i: nat :: i < |steps| ==>
       RegionsOk(ps, ws[i].regions) && Enabled(ps, ws[i], steps[i]) && ws[i + 1] == Next(ps, ws[i], steps[i])
  }

  /** A new connection to a server that may have served others before. */
  ghost predicate Start(ps: PageSize, w: Link) {
    && RegionsOk(ps, w.regions) && FdsUnique(w.regions) && w.done == []
    && w.client == NoCall && w.conn == WaitResolve && w.toServer.None? && w.toClient.None?
  }

  /** Over any run whatsoever the connection is in step, about to fall out of
      step, or one call behind. */
  lemma {:induction false} RunPhase(ps: PageSize, ws: seq<Link>, steps: seq<Step>, i: nat)
    requires Run(ps, ws, steps) && i < |ws|
    ensures Phase(ps, ws[i])
  {
    hide Phase, InStep, Enabled, Next, Oversized, RegionsOk;
    if i == 0 {
      StartsInStep(ps, ws[0]);
    } else {
      RunPhase(ps, ws, steps, i - 1);
      StepPhase(ps, ws[i - 1], steps[i - 1]);
    }
  }

  lemma StartsInStep(ps: PageSize, w: Link)
    requires Start(ps, w)
    ensures InStep(ps, w) && Phase(ps, w)
  {
    hide FdsUnique, Hooked;
  }

  /** Over any run of accepted, refused and nacked creations, the two ends never
      disagree about what comes next unless some accepted layout of this client
      was too long for one message. */
  lemma {:induction false} RunInStep(ps: PageSize, ws: seq<Link>, steps: seq<Step>, i: nat)
    requires Run(ps, ws, steps) && i < |ws|
    requires forall k: nat :: k <= i ==> !Oversized(ps, ws[k])
    ensures InStep(ps, ws[i])
  {
    hide Phase, InStep, Enabled, Next, Oversized, RegionsOk;
    if i == 0 {
      StartsInStep(ps, ws[0]);
    } else {
      RunInStep(ps, ws, steps, i - 1);
      RunPhase(ps, ws, steps, i - 1);
      StepPhase(ps, ws[i - 1], steps[i - 1]);
    }
  }

  // ------------------------------------------------------ a mapping's lifetime

  /** Every finished creation is still hooked, and no two mappings share a file
      descriptor. */
  ghost predicate DoneOk(w: Link) {
    FdsUnique(w.regions) && forall f :: f in w.done ==> Hooked(w.regions, f)
  }

  lemma StepDone(ps: PageSize, w: Link, step: Step)
    requires Phase(ps, w) && Enabled(ps, w, step) && DoneOk(w)
    ensures DoneOk(Next(ps, w, step))
  {
    hide ResolveSpec, AttachSpec, FdsUnique, FreshFd, Hooked, RegionsOk, AnswerOk, LayoutHeard;
    assert RegionsOk(ps, w.regions);
    match step
    case Call(_) =>
    case Serve(answer, fd) =>
      var p := w.toServer.value;
      MessageDone(ps, w, p.bytes, answer, if p.hasFd then Some(fd) else None);
    case Hear(base) =>
    case OtherResolve(msg, answer) => MessageDone(ps, w, msg, answer, None);
    case OtherAttach(msg, fd) => RefusalOk(); MessageDone(ps, w, msg, Refuse([]), fd);
  }

  lemma RefusalOk()
    ensures AnswerOk(Refuse([]))
  {
  }

  lemma MessageDone(ps: PageSize, w: Link, msg: Bytes, answer: Answer, fd: Option<nat>)
    requires RegionsOk(ps, w.regions) && AnswerOk(answer) && DoneOk(w) && (fd.Some? ==> FreshFd(w.regions, fd.value))
    ensures DoneOk(w.(regions := ResolveSpec(ps, w.regions, msg, answer).regions))
    ensures DoneOk(w.(regions := AttachSpec(w.regions, msg, fd).regions))
  {
    hide ResolveSpec, AttachSpec, FdsUnique, FreshFd, Hooked, RegionsOk, AnswerOk;
    FdsKept(ps, w.regions, msg, answer, fd);
    forall f | f in w.done
      ensures Hooked(ResolveSpec(ps, w.regions, msg, answer).regions, f)
      ensures Hooked(AttachSpec(w.regions, msg, fd).regions, f)
    {
      HookedForever(ps, w.regions, f, msg, answer, fd);
    }
  }

  /** Over any run, a finished creation stays what it was: its descriptor names
      the layout the client mapped, and its mapping is in that region's list. */
  lemma {:induction false} RunDone(ps: PageSize, ws: seq<Link>, steps: seq<Step>, i: nat)
    requires Run(ps, ws, steps) && i < |ws|
    ensures DoneOk(ws[i])
  {
    hide Phase, Enabled, Next, DoneOk, RegionsOk;
    if i == 0 {
      StartsDone(ps, ws[0]);
    } else {
      RunDone(ps, ws, steps, i - 1);
      RunPhase(ps, ws, steps, i - 1);
      StepDone(ps, ws[i - 1], steps[i - 1]);
    }
  }

  lemma StartsDone(ps: PageSize, w: Link)
    requires Start(ps, w)
    ensures DoneOk(w)
  {
  }

  /** The pages the server copies for a fault at byte `off` of region `r`, in
      the faulting client's addresses. */
  function CopyFrom(r: SRegion, m: Mapping, off: nat): nat
    requires r.l.Valid()
  {
    m.base + PageLo(r.l, GroupLo(r.l, r.l.Owner(off)))
  }

  function CopyTo(r: SRegion, m: Mapping, off: nat): nat
    requires r.l.Valid()
  {
    m.base + PageHi(r.l, GroupHi(r.l, r.l.Owner(off)))
  }

  lemma HookedIsFound(regs: Regions, f: Finished, i: nat, k: nat)
    requires FdsUnique(regs) && Hooked(regs, f) && MappedAs(regs, f.fd, i, k)
    ensures regs[i].desc == f.desc && regs[i].l == f.l && regs[i].mappings[k] == Mapping(f.fd, f.base)
  {
    var j := Find(regs, f.desc).value;
    var a :| 0 <= a < |regs[j].mappings| && regs[j].mappings[a] == Mapping(f.fd, f.base);
    assert MappedAs(regs, f.fd, j, a);
  }

  /** At every point of every run, for every creation that has finished: a fault
      in its mapping leads the server to that creation's region and base, and
      the range it copies covers the faulting page and lies inside what the
      client registered. */
  lemma CopyStaysInMapping(ps: PageSize, ws: seq<Link>, steps: seq<Step>, n: nat, f: Finished, addr: nat,
                           i: nat, k: nat)
    requires Run(ps, ws, steps) && n < |ws| && f in ws[n].done && MappedAs(ws[n].regions, f.fd, i, k)
    requires f.base <= addr < f.base + (if f.l.Valid() then f.l.Mapped() else 0)
    ensures var r, m := ws[n].regions[i], ws[n].regions[i].mappings[k];
            && r.desc == f.desc && r.l == f.l && r.l.Valid() && r.l.ps == ps && m == Mapping(f.fd, f.base)
            && f.base <= CopyFrom(r, m, addr - m.base) <= f.base + PageFloor(addr - f.base, ps)
            && f.base + PageFloor(addr - f.base, ps) + ps <= CopyTo(r, m, addr - m.base) <= f.base + f.l.Mapped()
  {
    hide Phase, Run, FdsUnique, Hooked, PageFloor, GroupLo, GroupHi, PageLo, PageHi, Layout.Owner, Layout.Mapped,
         Unique;
    RunDone(ps, ws, steps, n);
    RunPhase(ps, ws, steps, n);
    PhaseRegions(ps, ws[n]);
    HookedIsFound(ws[n].regions, f, i, k);
    CopyCoversFault(f.l, addr - f.base);
  }

  lemma PhaseRegions(ps: PageSize, w: Link)
    requires Phase(ps, w)
    ensures RegionsOk(ps, w.regions)
  {
  }

  /** And the scan for the mapping never misses it. */
  lemma MappingIsFound(ps: PageSize, ws: seq<Link>, steps: seq<Step>, n: nat, f: Finished)
    requires Run(ps, ws, steps) && n < |ws| && f in ws[n].done
    ensures !FreshFd(ws[n].regions, f.fd)
  {
    hide Run, FdsUnique;
    RunDone(ps, ws, steps, n);
    var regs := ws[n].regions;
    assert Hooked(regs, f);
    var j := Find(regs, f.desc).value;
    var a :| 0 <= a < |regs[j].mappings| && regs[j].mappings[a] == Mapping(f.fd, f.base);
    assert MappedAs(regs, f.fd, j, a);
  }

  // ------------------------------------------------- a creation from its start

  /** From a connection in step: a descriptor that fits, a recipe the server
      accepts with a reply that fits, and nobody else in between. Five steps
      later the call has succeeded, and its creation is recorded with exactly
      the chunks of the recipe. */
  lemma CreationCompletes(ps: PageSize, w: Link, desc: Bytes, sizes: seq<nat>, fd0: nat, fd: nat, base: nat, base0: nat)
    requires InStep(ps, w) && w.client == NoCall && ATTACH_HDR + |desc| <= MSG_MAX
    requires base < SIZE_LIMIT && base0 < SIZE_LIMIT
    requires Find(w.regions, desc).None? && AnswerOk(Recipe(sizes)) && sizes != [] && !Layouts.Rejected(sizes)
    requires REPLY_HDR + 8 * |sizes| <= MSG_MAX
    ensures var asked := Called(w, desc);
            && RegionsOk(ps, asked.regions) && asked.toServer.Some?
            && var resolved := Served(ps, asked, Recipe(sizes), fd0);
               && RegionsOk(ps, resolved.regions) && resolved.toClient.Some?
               && var attaching := Heard(ps, resolved, base);
                  && RegionsOk(ps, attaching.regions) && attaching.toServer.Some?
                  && var attached := Served(ps, attaching, Recipe(sizes), fd);
                     && attached.toClient.Some?
                     && var done := Heard(ps, attached, base0);
                        && InStep(ps, done) && done.client == NoCall && done.lastCallOk
                        && done.done == w.done + [Finished(desc, base, fd, LayoutOf(ps, sizes))]
                        && IsLayoutOf(LayoutOf(ps, sizes), ps, sizes)
                        && Hooked(done.regions, Finished(desc, base, fd, LayoutOf(ps, sizes)))
  {
    hide ResolveSpec, AttachSpec, LayoutHeard, AcceptReply, ResolveReq, AttachReq, Received, ParseReply, SizesFor,
         LayoutOf, IsLayoutOf, Layouts.Rejected, Unique, Hooked;
    var asked := Called(w, desc);
    assert ResolveSent(asked, desc);
    RecipeLayout(ps, sizes);
    ServeResolveInStep(ps, asked, desc, Recipe(sizes), fd0);
    ResolveCreates(ps, w.regions, desc, sizes);
    LayoutIsUnique(ResolveSpec(ps, w.regions, ResolveReq(desc), Recipe(sizes)).regions[0].l, ps, sizes);
    var resolved := Served(ps, asked, Recipe(sizes), fd0);
    FrontFound(resolved.regions, desc);
    var l := LayoutOf(ps, sizes);
    SizesForRecipe(ps, sizes);
    assert ResolveAccepted(resolved, desc);
    InStepExactly(ps, resolved, desc, base);
    var attaching := Heard(ps, resolved, base);
    ServeAttachInStep(ps, attaching, desc, base, l, Recipe(sizes), fd);
    SettledInStep(ps, Served(ps, attaching, Recipe(sizes), fd), base0);
  }

  lemma SizesForRecipe(ps: PageSize, sizes: seq<nat>)
    requires sizes != [] && !Layouts.Rejected(sizes)
    ensures LayoutOf(ps, sizes).Valid() && SizesFor(LayoutOf(ps, sizes)) == sizes
    ensures |AcceptReply(sizes)| == REPLY_HDR + 8 * |sizes|
  {
    RecipeLayout(ps, sizes);
  }

  lemma FrontFound(regs: Regions, desc: Bytes)
    requires regs != [] && regs[0].desc == desc
    ensures Find(regs, desc) == Some(0)
  {
  }

  // --------------------------------------------------- falling out of step

  ghost function Fresh(): Link {
    Link([], WaitResolve, NoCall, None, None, 0, false, [])
  }

  /** The bad state is reached: on a new server, the first call whose recipe
      needs a reply longer than a message. */
  lemma OversizedIsReached(ps: PageSize, desc: Bytes, sizes: seq<nat>, fd: nat)
    requires RESOLVE_HDR + |desc| <= MSG_MAX && AnswerOk(Recipe(sizes))
    requires sizes != [] && !Layouts.Rejected(sizes) && REPLY_HDR + 8 * |sizes| > MSG_MAX
    ensures Start(ps, Fresh()) && Enabled(ps, Fresh(), Call(desc))
    ensures var asked := Next(ps, Fresh(), Call(desc));
            && RegionsOk(ps, asked.regions) && Enabled(ps, asked, Serve(Recipe(sizes), fd))
            && Oversized(ps, Next(ps, asked, Serve(Recipe(sizes), fd)))
  {
    hide AcceptReply, ResolveReq, Received, ParseResolveReq, Layouts.Rejected, LayoutOf, SizesFor;
    ResolveArrives(desc);
    RecipeLayout(ps, sizes);
    RecipeIsRegion(ps, desc, sizes);
    assert SizesFor(LayoutOf(ps, sizes)) == sizes;
  }

  function Ones(n: nat): (s: seq<nat>) {
    seq(n, _ => 1)
  }

  lemma {:induction false} OnesSum(n: nat, k: nat)
    requires k <= n
    ensures PrefixSum(Ones(n), k) == k
  {
    if k > 0 {
      OnesSum(n, k - 1);
    }
  }

  /** For instance 131071 chunks of one byte. */
  lemma OneByteChunksOverflow(ps: PageSize, fd: nat)
    ensures AnswerOk(Recipe(Ones(131071))) && !Layouts.Rejected(Ones(131071))
    ensures var asked := Next(ps, Fresh(), Call([]));
            && Enabled(ps, asked, Serve(Recipe(Ones(131071)), fd)) && RegionsOk(ps, asked.regions)
            && Oversized(ps, Next(ps, asked, Serve(Recipe(Ones(131071)), fd)))
  {
    OnesAccepted(131071);
    hide Layouts.Rejected, Ones, Oversized, Next;
    OversizedIsReached(ps, [], Ones(131071), fd);
  }

  lemma OnesAccepted(n: nat)
    requires 0 < n && n + 1 < UINT32_LIMIT
    ensures |Ones(n)| == n && AnswerOk(Recipe(Ones(n))) && !Layouts.Rejected(Ones(n))
  {
    forall k: nat | k <= n
      ensures PrefixSum(Ones(n), k) == k
    {
      OnesSum(n, k);
    }
  }

  /** One chunk fewer fits: the reply for 131070 is read back as the layout. */
  lemma OneByteChunksFit(ps: PageSize, regs: Regions, desc: Bytes)
    requires RegionsOk(ps, regs) && Find(regs, desc).None? && RESOLVE_HDR + |desc| <= MSG_MAX
    ensures AnswerOk(Recipe(Ones(131070))) && !Layouts.Rejected(Ones(131070))
    ensures var h := ResolveSpec(ps, regs, ResolveReq(desc), Recipe(Ones(131070)));
            h.ok && LayoutHeard(ps, h.reply) == Some(LayoutOf(ps, Ones(131070)))
  {
    OnesAccepted(131070);
    hide Layouts.Rejected, Ones, ResolveSpec, LayoutHeard, LayoutOf, IsLayoutOf, ParseReply, ResolveReq, Received;
    ResolveCreates(ps, regs, desc, Ones(131070));
    LayoutIsUnique(ResolveSpec(ps, regs, ResolveReq(desc), Recipe(Ones(131070))).regions[0].l, ps, Ones(131070));
  }
}
