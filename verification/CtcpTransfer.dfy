/** A one-way transfer between two connections that both run the code of lab3/ctcp.c,
    over a channel that may delay, duplicate and damage data segments and may lose,
    duplicate and reorder acknowledgments. At the receiver, writes to the output may be
    partial, so that conn_drain calls ctcp_output back at any time once something has been
    output, and they may fail.

    What the channel must not do to data: lose the first copy of a segment, let one
    first copy overtake another, or let a later copy of a segment arrive before its
    first one. The run ends before the FIN is delivered, the output buffer has room for
    each first copy, and 1 plus the number of bytes read stays below 2^32. The sender
    outputs nothing, so nothing calls it back. */
module CtcpTransfer {
  import opened Machine
  import opened Ctcp
  import opened CtcpSender
  import opened CtcpOrder

  /** Sender, receiver, and how many first copies have arrived. Acknowledgments under way
      are any of those the receiver ever sent. As history: how many first copies arrived
      while the output was open, and how often ctcp_output was called back. */
  datatype System = System(a: Conn, b: Conn, delivered: nat, written: nat, drains: nat)

  datatype Event =
    | SenderReads(chunks: seq<Chunk>, atEof: bool, sends: nat -> SendEnv)
    | SenderTimer(ticks: nat -> Tick, finalNow: int)
    | FirstCopyArrives(acks: nat -> AckEnv, space: nat)
    | LaterCopyArrives(k: nat, acks: nat -> AckEnv, space: nat)
    | AckArrives(i: nat, acks: nat -> AckEnv, space: nat)
    | DamagedArrives(seg: Segment, atSender: bool, acks: nat -> AckEnv, space: nat)
    | ReceiverDrains(space: nat)
    | ReceiverWriteFails

  /** The next first copy can arrive and finds room. */
  ghost predicate Arrives(y: System, e: Event) {
    && e.FirstCopyArrives?
    && y.delivered < |y.a.h.firstCopies| && |y.a.h.firstCopies[y.delivered].data| <= e.space
  }

  /** conn_drain can have written something only if something had been queued. */
  ghost predicate CallsBack(y: System, e: Event) {
    e.ReceiverDrains? && y.b.h.output != []
  }

  /** A step; an event the assumptions exclude changes nothing. */
  ghost function Next(y: System, e: Event): System {
    match e
    case SenderReads(chunks, atEof, sends) =>
      if INIT_SEQ_NUM + |y.a.h.read| + |Flat(chunks)| < TWO_32
      then y.(a := Step(y.a, InputReady(chunks, atEof, sends)))
      else y
    case SenderTimer(ticks, finalNow) =>
      if ClockPast(ticks, y.a.rtTimeout) then y.(a := Step(y.a, TimerFires(ticks, finalNow))) else y
    case FirstCopyArrives(acks, space) =>
      if Arrives(y, e)
      then y.(b := Step(y.b, SegmentArrives(y.a.h.firstCopies[y.delivered], true, acks, space)),
              delivered := y.delivered + 1,
              written := if y.b.h.outputClosed then y.written else y.delivered + 1)
      else y
    case LaterCopyArrives(k, acks, space) =>
      if k < y.delivered <= |y.a.h.firstCopies|
      then y.(b := Step(y.b, SegmentArrives(y.a.h.firstCopies[k], true, acks, space)))
      else y
    case AckArrives(i, acks, space) =>
      if i < |y.b.h.controls|
      then y.(a := Step(y.a, SegmentArrives(y.b.h.controls[i], true, acks, space)))
      else y
    case DamagedArrives(seg, atSender, acks, space) =>
      if atSender then y.(a := Step(y.a, SegmentArrives(seg, false, acks, space)))
      else y.(b := Step(y.b, SegmentArrives(seg, false, acks, space)))
    case ReceiverDrains(space) =>
      if CallsBack(y, e) then y.(b := Step(y.b, OutputDrains(space)), drains := y.drains + 1) else y
    case ReceiverWriteFails =>
      y.(b := Step(y.b, OutputFails))
  }

  ghost function Transfer(y: System, events: seq<Event>): System
    decreases |events|
  {
    if events == [] then y else Next(Transfer(y, events[..|events| - 1]), events[|events| - 1])
  }

  // ---------------------------------------------------------------- invariant

  ghost predicate PureAck(seg: Segment) {
    seg.ack && !seg.fin && seg.data == []
  }

  /** ackno acknowledges some leading part of the first d segments. */
  ghost predicate Cumulative(segs: seq<Segment>, d: nat, ackno: uint32)
    requires d <= |segs|
  {
    exists j | 0 <= j <= d :: ackno == INIT_SEQ_NUM + |Data(segs[..j])|
  }

  /** All that was sent back are acknowledgments of arrived segments, and all of these have
      been acknowledged. */
  ghost predicate Acknowledged(controls: seq<Segment>, segs: seq<Segment>, d: nat) {
    && d <= |segs|
    && (forall i | 0 <= i < |controls| :: PureAck(controls[i]) && Cumulative(segs, d, controls[i].ackno))
    && (d > 0 ==> exists i | 0 <= i < |controls| :: controls[i].ackno == INIT_SEQ_NUM + |Data(segs[..d])|)
  }

  /** One cumulative acknowledgment for each of the first d segments, and no other. */
  ghost predicate AcksEach(controls: seq<Segment>, segs: seq<Segment>, d: nat) {
    && |controls| == d <= |segs|
    && forall i | 0 <= i < d :: controls[i].ackno == INIT_SEQ_NUM + |Data(segs[..i + 1])|
  }

  /** The receiver has taken the first d segments, and output the w of them that found the
      output open. */
  ghost predicate Received(b: Conn, segs: seq<Segment>, d: nat, w: nat) {
    && b.alive && !b.finReceived && b.unacked == [] && b.toSend == [] && b.pending == []
    && w <= d <= |segs| && (!b.h.outputClosed ==> w == d)
    && b.prevAckno == INIT_SEQ_NUM + |Data(segs[..d])|
    && Cumulative(segs, d, b.currAckno)
    && b.h.output == Data(segs[..w])
  }

  ghost predicate Answered(controls: seq<Segment>, segs: seq<Segment>, d: nat, drains: nat) {
    && Acknowledged(controls, segs, d)
    && |controls| == d + drains
    && (drains == 0 ==> AcksEach(controls, segs, d))
  }

  ghost predicate ReceiverInv(b: Conn, segs: seq<Segment>, d: nat, w: nat, drains: nat) {
    Received(b, segs, d, w) && Answered(b.h.controls, segs, d, drains)
  }

  ghost predicate SystemInv(y: System) {
    && SInv(y.a) && Fits(y.a) && !y.a.finReceived
    && ReceiverInv(y.b, Segs(All(y.a)), y.delivered, y.written, y.drains)
    && |y.a.h.removed| <= y.delivered <= |y.a.h.firstCopies|
  }

  /** What the receiver has depends on the first d segments only. */
  lemma SamePrefix(b: Conn, segs: seq<Segment>, segs1: seq<Segment>, d: nat, w: nat, drains: nat)
    requires ReceiverInv(b, segs, d, w, drains) && d <= |segs1| && segs1[..d] == segs[..d]
    ensures ReceiverInv(b, segs1, d, w, drains)
  {
    hide Data;
    assert forall j | 0 <= j <= d :: segs1[..j] == segs1[..d][..j] && segs[..j] == segs[..d][..j];
  }

  lemma ExtendsParts(c: Conn, c1: Conn, d: nat)
    requires Extends(c, c1) && d <= |c.h.firstCopies| && d <= |Segs(All(c))|
    ensures d <= |Segs(All(c1))| && Segs(All(c1))[..d] == Segs(All(c))[..d]
    ensures d <= |c1.h.firstCopies| && c1.finReceived == c.finReceived
  {
    hide Segs, All;
  }

  /** A sender step that keeps what SystemInv says about the sender. */
  lemma SenderStep(y: System, a1: Conn)
    requires SystemInv(y)
    requires SInv(a1) && Fits(a1) && Extends(y.a, a1) && |a1.h.removed| <= y.delivered
    ensures SystemInv(y.(a := a1))
  {
    ReceiverHas(y);
    hide SInv, ReceiverInv, Fits, Segs, All, Extends;
    ExtendsParts(y.a, a1, y.delivered);
    SamePrefix(y.b, Segs(All(y.a)), Segs(All(a1)), y.delivered, y.written, y.drains);
  }

  // ---------------------------------------------------------------- sender steps

  lemma ReadsKeep(y: System, chunks: seq<Chunk>, atEof: bool, sends: nat -> SendEnv)
    requires SystemInv(y) && y.a.alive && INIT_SEQ_NUM + |y.a.h.read| + |Flat(chunks)| < TWO_32
    ensures SystemInv(y.(a := ReadInput(y.a, chunks, atEof, sends)))
  {
    hide SInv, ReceiverInv, Extends, ReadChunks;
    if !y.a.eof {
      var a1, a2 := ReadChunks(y.a, chunks, sends, 0), ReadInput(y.a, chunks, atEof, sends);
      ReadChunksInOrder(y.a, chunks, sends, 0);
      ReceiverPartInOrder(a1, a2);
      ExtendsTrans(y.a, a1, a2);
      SenderStep(y, a2);
    }
  }

  lemma TimerKeeps(y: System, ticks: nat -> Tick, finalNow: int)
    requires SystemInv(y) && y.a.alive && ClockPast(ticks, y.a.rtTimeout)
    ensures SystemInv(y.(a := TimerPass(y.a, ticks, finalNow)))
  {
    hide SInv, ReceiverInv, Extends, TimerFrom;
    var a1, a2 := TimerFrom(y.a, 0, ticks), TimerPass(y.a, ticks, finalNow);
    SInvParts(y.a);
    TimerFromInOrder(y.a, 0, ticks);
    ReceiverPartInOrder(a1, a2);
    ExtendsTrans(y.a, a1, a2);
    SenderStep(y, a2);
  }

  lemma AckKeeps(y: System, i: nat, acks: nat -> AckEnv, space: nat)
    requires SystemInv(y) && y.a.alive && i < |y.b.h.controls|
    ensures SystemInv(y.(a := Receive(y.a, y.b.h.controls[i], true, acks, space)))
  {
    var seg, segs := y.b.h.controls[i], Segs(All(y.a));
    assert PureAck(seg) && Cumulative(segs, y.delivered, seg.ackno);
    var d :| 0 <= d <= y.delivered && seg.ackno == INIT_SEQ_NUM + |Data(segs[..d])|;
    hide SInv, ReceiverInv, Extends, AckLoop, Data;
    SInvParts(y.a);
    var a1 := AckLoop(y.a, seg.ackno, acks, 0);
    LateAck(y.a, seg.ackno, d, y.delivered, acks);
    var a2 := Accept(a1, seg, space);
    assert !a1.finReceived by { ExtendsFin(y.a, a1); }
    ReceiverPartInOrder(a1, a2);
    ExtendsTrans(y.a, a1, a2);
    SenderStep(y, a2);
  }

  lemma ExtendsFin(c: Conn, c1: Conn)
    requires Extends(c, c1)
    ensures c1.finReceived == c.finReceived
  {
  }

  /** An acknowledgment of d segments leaves at most max(d, what was gone before) removed. */
  lemma LateAck(c: Conn, ackno: uint32, d: nat, delivered: nat, env: nat -> AckEnv)
    requires SInv(c) && Fits(c) && Honest(c, ackno, d) && d <= delivered && |c.h.removed| <= delivered
    ensures var c1 := AckLoop(c, ackno, env, 0);
            SInv(c1) && Fits(c1) && Extends(c, c1) && |c1.h.removed| <= delivered
  {
    hide SInv, Extends, Honest;
    if |c.h.removed| <= d {
      HonestAckLoop(c, ackno, d, env, 0);
    } else {
      OldAck(c, ackno, d, env);
      ExtendsSelf(c);
    }
  }

  lemma OldAck(c: Conn, ackno: uint32, d: nat, env: nat -> AckEnv)
    requires SInv(c) && Fits(c) && Honest(c, ackno, d) && d < |c.h.removed|
    ensures AckLoop(c, ackno, env, 0) == c
  {
    hide Inv, FirstInv, AckOne;
    if c.unacked != [] && c.unacked[0].seg.seqno < ackno { AckedWasSent(c, ackno, d); }
  }

  // ---------------------------------------------------------------- receiver steps

  lemma NextSegment(c: Conn, d: nat)
    requires SInv(c) && Fits(c) && d < |c.h.firstCopies|
    ensures d < |Segs(All(c))| && c.h.firstCopies[d] == Segs(All(c))[d]
    ensures var seg, segs := c.h.firstCopies[d], Segs(All(c));
            && seg.ack && !seg.fin && seg.data != []
            && seg.seqno == INIT_SEQ_NUM + |Data(segs[..d])|
            && Data(segs[..d + 1]) == Data(segs[..d]) + seg.data
            && INIT_SEQ_NUM + |Data(segs[..d + 1])| < TWO_32
  {
    hide Data, Segs, All, FirstInv, Inv, Numbered, SeqnoAt;
    var segs := Segs(All(c));
    FirstCopiesAre(c);
    StreamNumbered(c);
    SegmentAt(segs, d);
    DataNext(segs, d);
    FitsAt(c, d);
    FitsAt(c, d + 1);
  }

  lemma SegmentAt(segs: seq<Segment>, k: nat)
    requires Numbered(segs) && k < |segs|
    ensures segs[k].ack && !segs[k].fin && segs[k].data != [] && segs[k].seqno == SeqnoAt(segs, k)
  {
    hide SeqnoAt;
  }

  lemma FitsAt(c: Conn, k: nat)
    requires Inv(c) && Fits(c) && k <= |Segs(All(c))|
    ensures SeqnoAt(Segs(All(c)), k) == INIT_SEQ_NUM + |Data(Segs(All(c))[..k])| < TWO_32
  {
    hide Inv, Data, SeqnoAt, All;
    PlainSeqno(c, k);
  }

  lemma NewAck(controls: seq<Segment>, segs: seq<Segment>, d: nat, drains: nat, ack: Segment)
    requires Answered(controls, segs, d, drains) && d < |segs|
    requires PureAck(ack) && ack.ackno == INIT_SEQ_NUM + |Data(segs[..d + 1])|
    ensures Answered(controls + [ack], segs, d + 1, drains)
  {
    hide Data;
    var controls1 := controls + [ack];
    forall i | 0 <= i < |controls1| ensures PureAck(controls1[i]) && Cumulative(segs, d + 1, controls1[i].ackno) {
      if i < |controls| { assert Cumulative(segs, d, controls[i].ackno); }
    }
    assert controls1[|controls|] == ack;
  }

  lemma ExtraAck(controls: seq<Segment>, segs: seq<Segment>, d: nat, drains: nat, ack: Segment)
    requires Answered(controls, segs, d, drains)
    requires PureAck(ack) && Cumulative(segs, d, ack.ackno)
    ensures Answered(controls + [ack], segs, d, drains + 1)
  {
    hide Data, Cumulative;
    var controls1 := controls + [ack];
    assert forall i | 0 <= i < |controls| :: controls1[i] == controls[i];
  }

  /** A first copy at the receiver. */
  lemma TakesNew(b: Conn, seg: Segment, acks: nat -> AckEnv, space: nat)
    requires b.alive && !b.finReceived && b.unacked == [] && b.toSend == [] && b.pending == []
    requires seg.ack && !seg.fin && 0 < |seg.data| <= space && seg.seqno == b.prevAckno
    requires seg.seqno + |seg.data| < TWO_32
    ensures var b1, ackno := Receive(b, seg, true, acks, space), seg.seqno + |seg.data|;
            && b1.h.controls == b.h.controls + [Segment(0, b.currSeqno, ackno, true, false, [])]
            && b1 == b.(prevAckno := ackno, currAckno := ackno,
                        h := b.h.(controls := b1.h.controls,
                                  output := if b.h.outputClosed then b.h.output else b.h.output + seg.data))
  {
    assert AckLoop(b, seg.ackno, acks, 0) == b;
  }

  lemma FirstCopyKeeps(y: System, acks: nat -> AckEnv, space: nat)
    requires SystemInv(y) && y.delivered < |y.a.h.firstCopies|
    requires |y.a.h.firstCopies[y.delivered].data| <= space
    ensures SystemInv(y.(b := Receive(y.b, y.a.h.firstCopies[y.delivered], true, acks, space),
                         delivered := y.delivered + 1,
                         written := if y.b.h.outputClosed then y.written else y.delivered + 1))
  {
    hide SInv, Fits, Data, ReceiverInv, Receive, Segs, All;
    ReceiverHas(y);
    NextSegment(y.a, y.delivered);
    NewCopyReceived(y.b, Segs(All(y.a)), y.delivered, y.written, y.drains, acks, space);
  }

  lemma NewCopyReceived(b: Conn, segs: seq<Segment>, d: nat, w: nat, drains: nat, acks: nat -> AckEnv, space: nat)
    requires ReceiverInv(b, segs, d, w, drains) && d < |segs|
    requires segs[d].ack && !segs[d].fin && 0 < |segs[d].data| <= space
    requires segs[d].seqno == INIT_SEQ_NUM + |Data(segs[..d])|
    requires Data(segs[..d + 1]) == Data(segs[..d]) + segs[d].data && INIT_SEQ_NUM + |Data(segs[..d + 1])| < TWO_32
    ensures ReceiverInv(Receive(b, segs[d], true, acks, space), segs, d + 1,
                        if b.h.outputClosed then w else d + 1, drains)
  {
    hide Data, Answered, Receive, Cumulative;
    TakesNew(b, segs[d], acks, space);
    var b1 := Receive(b, segs[d], true, acks, space);
    NewAck(b.h.controls, segs, d, drains, b1.h.controls[|b.h.controls|]);
    IsCumulative(segs, d + 1, d + 1);
  }

  /** A copy of something the receiver has taken before. */
  lemma IgnoresOld(b: Conn, seg: Segment, acks: nat -> AckEnv, space: nat)
    requires b.alive && !b.finReceived && b.unacked == [] && b.toSend == []
    requires seg.ack && !seg.fin && seg.seqno < b.prevAckno
    ensures Receive(b, seg, true, acks, space) == b.(currAckno := (seg.seqno + |seg.data|) % TWO_32)
  {
    assert AckLoop(b, seg.ackno, acks, 0) == b;
  }

  lemma OldCopyReceived(b: Conn, segs: seq<Segment>, d: nat, w: nat, drains: nat, k: nat,
                        acks: nat -> AckEnv, space: nat)
    requires ReceiverInv(b, segs, d, w, drains) && k < d
    requires segs[k].ack && !segs[k].fin && segs[k].data != [] && segs[k].seqno == INIT_SEQ_NUM + |Data(segs[..k])|
    requires Data(segs[..k + 1]) == Data(segs[..k]) + segs[k].data && INIT_SEQ_NUM + |Data(segs[..k + 1])| < TWO_32
    ensures ReceiverInv(Receive(b, segs[k], true, acks, space), segs, d, w, drains)
  {
    hide Data, Answered, Receive, Cumulative;
    DataPrefix(segs, k + 1, d);
    IgnoresOld(b, segs[k], acks, space);
    IsCumulative(segs, k + 1, d);
  }

  lemma IsCumulative(segs: seq<Segment>, j: nat, d: nat)
    requires j <= d <= |segs| && INIT_SEQ_NUM + |Data(segs[..j])| < TWO_32
    ensures Cumulative(segs, d, INIT_SEQ_NUM + |Data(segs[..j])|)
  {
    hide Data;
  }

  lemma LaterCopyKeeps(y: System, k: nat, acks: nat -> AckEnv, space: nat)
    requires SystemInv(y) && k < y.delivered
    ensures SystemInv(y.(b := Receive(y.b, y.a.h.firstCopies[k], true, acks, space)))
  {
    var segs := Segs(All(y.a));
    ReceiverHas(y);
    NextSegment(y.a, k);
    hide SInv, Fits, Data, ReceiverInv, Receive, Segs, All;
    OldCopyReceived(y.b, segs, y.delivered, y.written, y.drains, k, acks, space);
  }

  /** A callback finds nothing pending: it repeats the last acknowledgment number and ends
      the output. */
  lemma DrainKeeps(y: System, space: nat)
    requires SystemInv(y)
    ensures SystemInv(y.(b := OutputPending(y.b, space), drains := y.drains + 1))
    ensures OutputPending(y.b, space).h.outputClosed
  {
    hide SInv, Fits, Data, Answered, Segs, All, Cumulative;
    var b1 := OutputPending(y.b, space);
    ExtraAck(y.b.h.controls, Segs(All(y.a)), y.delivered, y.drains, b1.h.controls[|y.b.h.controls|]);
  }

  lemma FailKeeps(y: System)
    requires SystemInv(y)
    ensures SystemInv(y.(b := Step(y.b, OutputFails)))
  {
    hide SInv, Fits, Data, Answered, Segs, All, Cumulative;
  }

  // ---------------------------------------------------------------- the theorem

  lemma NextKeeps(y: System, e: Event)
    requires SystemInv(y)
    ensures SystemInv(Next(y, e))
  {
    hide SystemInv, ReadInput, TimerPass, Receive;
    assert y.b.alive by { ReceiverAlive(y); }
    match e
    case SenderReads(chunks, atEof, sends) =>
      if y.a.alive && INIT_SEQ_NUM + |y.a.h.read| + |Flat(chunks)| < TWO_32 { ReadsKeep(y, chunks, atEof, sends); }
    case SenderTimer(ticks, finalNow) =>
      if y.a.alive && ClockPast(ticks, y.a.rtTimeout) { TimerKeeps(y, ticks, finalNow); }
    case FirstCopyArrives(acks, space) =>
      if Arrives(y, e) { FirstCopyKeeps(y, acks, space); }
    case LaterCopyArrives(k, acks, space) =>
      if k < y.delivered { LaterCopyKeeps(y, k, acks, space); }
    case AckArrives(i, acks, space) =>
      if y.a.alive && i < |y.b.h.controls| { AckKeeps(y, i, acks, space); }
    case DamagedArrives(seg, atSender, acks, space) =>
      assert Receive(y.a, seg, false, acks, space) == y.a by { DamagedIgnored(y.a, seg, acks, space); }
      assert Receive(y.b, seg, false, acks, space) == y.b by { DamagedIgnored(y.b, seg, acks, space); }
      assert Next(y, e) == y;
    case ReceiverDrains(space) =>
      if CallsBack(y, e) { DrainKeeps(y, space); }
    case ReceiverWriteFails => FailKeeps(y);
  }

  lemma ReceiverAlive(y: System)
    requires SystemInv(y)
    ensures y.b.alive && y.delivered <= |y.a.h.firstCopies|
  {
  }

  lemma DamagedIgnored(c: Conn, seg: Segment, acks: nat -> AckEnv, space: nat)
    ensures Receive(c, seg, false, acks, space) == c
  {
  }

  function Start(sendWindow: uint16, rtTimeout: int, sendWindow1: uint16, rtTimeout1: int): System {
    System(Ctcp.Init(sendWindow, rtTimeout), Ctcp.Init(sendWindow1, rtTimeout1), 0, 0, 0)
  }

  lemma {:induction false} TransferKeeps(y: System, events: seq<Event>)
    requires SystemInv(y)
    ensures SystemInv(Transfer(y, events))
    decreases |events|
  {
    hide SystemInv, Next;
    if events != [] {
      TransferKeeps(y, events[..|events| - 1]);
      NextKeeps(Transfer(y, events[..|events| - 1]), events[|events| - 1]);
    }
  }

  /** In every run: the output is a prefix of the input, each byte once and in place,
      precisely the data of the first copies that found the output open. Only segments
      whose first copy has arrived leave the unacked list; if none arrived after the output
      had closed, they have been output. Only arrived segments are acknowledged; each was,
      exactly once if and only if ctcp_output was never called back. Later copies are not
      acknowledged again, so a lost acknowledgment is only made up for by a later one. */
  ghost predicate Safe(y: System) {
    && y.b.h.output <= y.a.h.read
    && y.written <= y.delivered <= |y.a.h.firstCopies|
    && y.b.h.output == Data(y.a.h.firstCopies[..y.written])
    && Data(Segs(y.a.h.removed)) <= Data(y.a.h.firstCopies[..y.delivered])
    && (y.written == y.delivered ==> Data(Segs(y.a.h.removed)) <= y.b.h.output)
    && Acknowledged(y.b.h.controls, y.a.h.firstCopies, y.delivered)
    && (AcksEach(y.b.h.controls, y.a.h.firstCopies, y.delivered) <==> y.drains == 0)
  }

  lemma InvIsSafe(y: System)
    requires SystemInv(y)
    ensures Safe(y)
  {
    hide SInv, Fits, ReceiverInv, Data, Segs, All, Acknowledged, AcksEach;
    ReceiverHas(y);
    SafeParts(y.a, y.delivered);
    SamePrefix(y.b, Segs(All(y.a)), y.a.h.firstCopies, y.delivered, y.written, y.drains);
    SafeReceiver(y.b, y.a.h.firstCopies, y.delivered, y.written, y.drains);
  }

  lemma SafeReceiver(b: Conn, segs: seq<Segment>, d: nat, w: nat, drains: nat)
    requires ReceiverInv(b, segs, d, w, drains)
    ensures w <= d <= |segs| && b.h.output == Data(segs[..w]) <= Data(segs[..d])
    ensures Acknowledged(b.h.controls, segs, d)
    ensures AcksEach(b.h.controls, segs, d) <==> drains == 0
  {
    hide Data, Acknowledged, Cumulative;
    DataPrefix(segs, w, d);
  }

  lemma ReceiverHas(y: System)
    requires SystemInv(y)
    ensures y.delivered <= |y.a.h.firstCopies| <= |Segs(All(y.a))|
  {
    assert FirstInv(y.a);
    FirstCopiesAre(y.a);
    hide FirstInv, Inv, SInv, Fits, Data, Segs, All, ReceiverInv;
  }

  lemma PrefixesNest(removed: seq<Segment>, first: seq<Segment>, segs: seq<Segment>, d: nat)
    requires removed <= segs && first <= segs && |removed| <= d <= |first|
    ensures first[..d] == segs[..d] && Data(removed) <= Data(segs[..d]) <= Data(segs)
  {
    hide Data;
    assert removed == segs[..|removed|] && segs == segs[..|segs|];
    DataPrefix(segs, |removed|, d);
    DataPrefix(segs, d, |segs|);
  }

  lemma SafeParts(c: Conn, delivered: nat)
    requires SInv(c) && |c.h.removed| <= delivered <= |c.h.firstCopies|
    ensures delivered <= |Segs(All(c))| && c.h.firstCopies[..delivered] == Segs(All(c))[..delivered]
    ensures Data(Segs(c.h.removed)) <= Data(Segs(All(c))[..delivered]) <= c.h.read
  {
    hide Data, Segs, All, FirstInv, Inv;
    StreamNumbered(c);
    FirstCopiesAre(c);
    RemovedAreFirst(c);
    PrefixesNest(Segs(c.h.removed), c.h.firstCopies, Segs(All(c)), delivered);
  }

  lemma RemovedAreFirst(c: Conn)
    ensures Segs(c.h.removed) <= Segs(All(c))
  {
  }

  lemma FirstCopiesAre(c: Conn)
    requires FirstInv(c)
    ensures c.h.firstCopies <= Segs(All(c))
  {
  }

  /** Safety of the transfer, for every run, with any callbacks and write errors. */
  lemma TransferIsSafe(sendWindow: uint16, rtTimeout: int, sendWindow1: uint16, rtTimeout1: int, events: seq<Event>)
    ensures Safe(Transfer(Start(sendWindow, rtTimeout, sendWindow1, rtTimeout1), events))
  {
    var y := Start(sendWindow, rtTimeout, sendWindow1, rtTimeout1);
    StartInv(y.a, y.b);
    TransferKeeps(y, events);
    hide Transfer, SystemInv;
    InvIsSafe(Transfer(y, events));
  }

  lemma StartInv(a: Conn, b: Conn)
    requires a == Ctcp.Init(a.sendWindow, a.rtTimeout) && b == Ctcp.Init(b.sendWindow, b.rtTimeout)
    ensures SystemInv(System(a, b, 0, 0, 0))
  {
    assert All(a) == [] && Segs(All(a)) == [];
    RunKeeps(a.sendWindow, a.rtTimeout, []);
  }
}
