/** What becomes of a cTCP sender (lab3/ctcp.c) at the wrap of its sequence numbers when every
    acknowledgment number is one its stream does have: it never gets past the wrap. */
module CtcpStall {
  import opened Machine
  import opened Ctcp
  import opened CtcpSender
  import opened CtcpOrder
  import opened CtcpWrap
  import CtcpLimits

  /** Room before the second wrap for the segment that covers the first one. */
  const LIMIT := 2 * TWO_32 - MAX_SEG_DATA_SIZE

  /** Nothing up to the wrap or beyond has been taken off the list. */
  ghost predicate BeforeWrap(c: Conn) {
    INIT_SEQ_NUM + |Data(Segs(c.h.removed))| < TWO_32
  }

  /** ackno is the number after some leading part of the stream. */
  ghost predicate Acks(c: Conn, ackno: uint32, d: nat) {
    d <= |Segs(All(c))| && ackno == SeqnoAt(Segs(All(c)), d)
  }

  lemma SeqnoMod(segs: seq<Segment>, d: nat)
    requires d <= |segs| && INIT_SEQ_NUM + |Data(segs[..d])| <= LIMIT
    ensures var x := INIT_SEQ_NUM + |Data(segs[..d])|;
            SeqnoAt(segs, d) == if x < TWO_32 then x else x - TWO_32
  {
  }

  /** Segment p starts before the wrap. If its number is below an acknowledgment of the first
      d segments, then it is one of these and ends before the wrap too. */
  lemma BelowIsBeforeWrap(segs: seq<Segment>, p: nat, d: nat)
    requires Numbered(segs) && p < |segs| && d <= |segs|
    requires INIT_SEQ_NUM + |Data(segs[..p])| < TWO_32 && INIT_SEQ_NUM + |Data(segs[..d])| <= LIMIT
    requires segs[p].seqno < SeqnoAt(segs, d)
    ensures p < d && INIT_SEQ_NUM + |Data(segs[..p + 1])| < TWO_32
  {
    SegmentOf(segs, p);
    SeqnoMod(segs, p);
    SeqnoMod(segs, d);
    hide Numbered, SeqnoAt, Data;
    DataNext(segs, p);
    if d <= p { DataPrefix(segs, d, p); } else { DataPrefix(segs, p + 1, d); }
  }

  lemma RemovedData(c: Conn, k: nat)
    requires Inv(c) && |c.h.removed| == k
    ensures k <= |Segs(All(c))| && Segs(c.h.removed) == Segs(All(c))[..k]
  {
    hide Inv;
  }

  lemma HeadOfStream(c: Conn)
    requires c.unacked != []
    ensures |c.h.removed| < |Segs(All(c))| && Segs(All(c))[|c.h.removed|] == c.unacked[0].seg
  {
  }

  lemma ReadBounds(c: Conn, d: nat)
    requires Inv(c) && d <= |Segs(All(c))|
    ensures |Data(Segs(All(c))[..d])| <= |c.h.read|
  {
    hide Inv, Data, All;
    StreamNumbered(c);
    var segs := Segs(All(c));
    assert segs[..|segs|] == segs;
    DataPrefix(segs, d, |segs|);
  }

  /** One round of the ACK loop. */
  lemma RoundBeforeWrap(c: Conn, ackno: uint32, d: nat, e: AckEnv)
    requires Inv(c) && BeforeWrap(c) && Acks(c, ackno, d) && INIT_SEQ_NUM + |c.h.read| <= LIMIT
    requires c.unacked != [] && c.unacked[0].seg.seqno < ackno
    ensures var c1 := AckOne(c, e);
            && Inv(c1) && BeforeWrap(c1) && Acks(c1, ackno, d) && c1.h.read == c.h.read
            && |c1.h.removed| == |c.h.removed| + 1 <= d
  {
    hide Inv, AckOne, Data, SeqnoAt, All, Segs, Numbered, CtcpLimits.Rest;
    var c1, segs, p := AckOne(c, e), Segs(All(c)), |c.h.removed|;
    AckOneKeeps(c, e);
    StreamNumbered(c);
    HeadOfStream(c);
    RemovedData(c, p);
    ReadBounds(c, d);
    BelowIsBeforeWrap(segs, p, d);
    CtcpLimits.HeadOfRest(c);
    CtcpLimits.AckOneMoves(c, e);
    CtcpLimits.RemovedOne(c, c1, CtcpLimits.Rest(c)[0]);
    RemovedData(c1, p + 1);
  }

  /** An acknowledgment of the first d segments of the stream removes at most these, and
      nothing up to the wrap or beyond, although d may lie beyond it and the loop sends. */
  lemma {:induction false} LoopBeforeWrap(c: Conn, ackno: uint32, d: nat, env: nat -> AckEnv, round: nat)
    requires Inv(c) && BeforeWrap(c) && Acks(c, ackno, d) && INIT_SEQ_NUM + |c.h.read| <= LIMIT
    ensures var c1 := AckLoop(c, ackno, env, round);
            && BeforeWrap(c1)
            && |c1.h.removed| <= if |c.h.removed| <= d then d else |c.h.removed|
    decreases |c.unacked| + |c.toSend|
  {
    hide Inv, BeforeWrap, Acks, AckOne, AckLoop;
    AckLoopStep(c, ackno, env, round);
    if c.unacked != [] && c.unacked[0].seg.seqno < ackno {
      RoundBeforeWrap(c, ackno, d, env(round));
      if |c.unacked| > 1 { LoopBeforeWrap(AckOne(c, env(round)), ackno, d, env, round + 1); }
    }
  }

  // ---------------------------------------------------------------- the other steps

  /** A step that removes nothing and forgets nothing that was read. */
  ghost predicate Quiet(c: Conn, c1: Conn) {
    c1.h.removed == c.h.removed && |c1.h.read| >= |c.h.read|
  }

  lemma SendWindowQuiet(c: Conn, e: SendEnv)
    requires Inv(c)
    ensures Quiet(c, SendWindow(c, e))
  {
    hide Inv, SendWindow;
    CtcpLimits.SendWindowMoves(c, e);
    SendWindowKeeps(c, e);
  }

  lemma {:induction false} ReadChunksQuiet(c: Conn, chunks: seq<Chunk>, env: nat -> SendEnv, round: nat)
    requires Inv(c) && c.alive
    ensures Quiet(c, ReadChunks(c, chunks, env, round))
    decreases |chunks|
  {
    hide Inv, SendWindow;
    if chunks != [] {
      PrepareKeeps(c, chunks[0]);
      var p := Prepare(c, chunks[0]);
      SendWindowKeeps(p, env(round));
      SendWindowQuiet(p, env(round));
      ReadChunksQuiet(SendWindow(p, env(round)), chunks[1..], env, round + 1);
    }
  }

  lemma {:induction false} TimerFromQuiet(c: Conn, i: nat, ticks: nat -> Tick)
    ensures Quiet(c, TimerFrom(c, i, ticks))
    decreases |c.unacked| - i
  {
    if i < |c.unacked| {
      var c1 := if TimedOut(c.unacked[i], c.rtTimeout, ticks(i).check) then ResendOne(c, i, ticks(i)) else c;
      if c1.unacked[i].retransmits < MAX_NUM_RETRANSMIT { TimerFromQuiet(c1, i + 1, ticks); }
    }
  }

  /** The event brings an intact segment with an acknowledgment number. */
  predicate BringsAck(e: Event) {
    e.SegmentArrives? && e.intact && e.seg.ack
  }

  lemma OtherStepQuiet(c: Conn, e: Event)
    requires Inv(c) && !BringsAck(e)
    ensures Quiet(c, Step(c, e))
  {
    hide Inv, ReadChunks, TimerFrom, AckLoop;
    if c.alive {
      match e
      case InputReady(chunks, atEof, sends) => ReadChunksQuiet(c, chunks, sends, 0);
      case TimerFires(ticks, finalNow) => TimerFromQuiet(c, 0, ticks);
      case _ =>
    }
  }

  lemma AckStep(c: Conn, e: Event)
    requires BringsAck(e)
    ensures Step(c, e).h.removed == c.h.removed
         || Step(c, e).h.removed == AckLoop(c, e.seg.ackno, e.acks, 0).h.removed
  {
    hide AckLoop;
  }

  // ---------------------------------------------------------------- whole runs

  /** Every acknowledgment number that arrives is the number after some leading part of what
      the stream is at that time. */
  ghost predicate HonestRun(c: Conn, events: seq<Event>)
    decreases |events|
  {
    events == [] || var n := |events| - 1;
      && HonestRun(c, events[..n])
      && (BringsAck(events[n]) ==> exists d :: Acks(Run(c, events[..n]), events[n].seg.ackno, d))
  }

  lemma StepReadsOn(c: Conn, e: Event)
    requires Inv(c)
    ensures |Step(c, e).h.read| >= |c.h.read|
  {
    hide Inv, Receive;
    if BringsAck(e) {
      if c.alive { ReceiveKeeps(c, e.seg, e.intact, e.acks, e.space); }
    } else {
      OtherStepQuiet(c, e);
    }
  }

  lemma StepBeforeWrap(c: Conn, e: Event)
    requires Inv(c) && BeforeWrap(c) && INIT_SEQ_NUM + |c.h.read| <= LIMIT
    requires BringsAck(e) ==> exists d :: Acks(c, e.seg.ackno, d)
    ensures BeforeWrap(Step(c, e))
  {
    hide Inv, Step, Acks, AckLoop, Data, Segs;
    if BringsAck(e) {
      var d :| Acks(c, e.seg.ackno, d);
      LoopBeforeWrap(c, e.seg.ackno, d, e.acks, 0);
      AckStep(c, e);
    } else {
      OtherStepQuiet(c, e);
    }
  }

  /** In every run in which all acknowledgment numbers are honest the sender never takes off
      the segment that reaches the wrap, nor any after it, although up to nearly 2^33 bytes
      may have been read: no honest number exceeds that segment's own. */
  lemma {:induction false} NothingPastTheWrap(sendWindow: uint16, rtTimeout: int, events: seq<Event>)
    requires HonestRun(Init(sendWindow, rtTimeout), events)
    requires INIT_SEQ_NUM + |Run(Init(sendWindow, rtTimeout), events).h.read| <= LIMIT
    ensures BeforeWrap(Run(Init(sendWindow, rtTimeout), events))
    decreases |events|
  {
    var c := Init(sendWindow, rtTimeout);
    if events == [] {
      assert Segs([]) == [];
    } else {
      hide Inv, Step, BeforeWrap, BringsAck, Acks;
      var before, e := events[..|events| - 1], events[|events| - 1];
      RunKeeps(sendWindow, rtTimeout, before);
      StepReadsOn(Run(c, before), e);
      NothingPastTheWrap(sendWindow, rtTimeout, before);
      StepBeforeWrap(Run(c, before), e);
    }
  }
}
