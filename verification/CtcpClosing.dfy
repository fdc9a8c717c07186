/** What becomes of the transfer when the receiver's output closes early: conn_drain calls
    ctcp_output back with nothing pending, which ends the stream, or a write fails. What
    arrives afterwards is acknowledged but not output. */
module CtcpClosing {
  import opened Machine
  import opened Ctcp
  import opened CtcpSender
  import opened CtcpOrder
  import opened CtcpTransfer
  import CtcpLimits

  // ---------------------------------------------------------------- the condition

  /** This event closes the output: a callback (which never finds anything pending while
      the output has room), or a write error. */
  ghost predicate Closes(y: System, e: CtcpTransfer.Event) {
    CallsBack(y, e) || e.ReceiverWriteFails?
  }

  /** Some event of the run closed the output. */
  ghost predicate Closed(start: System, events: seq<CtcpTransfer.Event>)
    decreases |events|
  {
    events != [] && var n := |events| - 1;
      Closed(start, events[..n]) || Closes(Transfer(start, events[..n]), events[n])
  }

  /** No first copy arrives after the output has closed. */
  ghost predicate NoLateCopy(start: System, events: seq<CtcpTransfer.Event>)
    decreases |events|
  {
    events == [] || var n := |events| - 1;
      && NoLateCopy(start, events[..n])
      && !(Closed(start, events[..n]) && Arrives(Transfer(start, events[..n]), events[n]))
  }

  ghost predicate Follows(y: System, closed: bool, noLateCopy: bool) {
    (y.b.h.outputClosed <==> closed) && (y.written == y.delivered <==> noLateCopy)
  }

  lemma OutputSwitch(y: System, e: CtcpTransfer.Event, closed: bool, noLateCopy: bool)
    requires SystemInv(y) && Follows(y, closed, noLateCopy)
    ensures Follows(Next(y, e), closed || Closes(y, e), noLateCopy && !(closed && Arrives(y, e)))
  {
    ReceiverStays(y, e);
    hide SystemInv, Next, Closes, Arrives;
  }

  /** How a step moves the counters and the switch. */
  ghost predicate Moves(y: System, e: CtcpTransfer.Event, y1: System) {
    && (y1.b.h.outputClosed <==> y.b.h.outputClosed || Closes(y, e))
    && y1.delivered == (if Arrives(y, e) then y.delivered + 1 else y.delivered)
    && y1.written == if Arrives(y, e) && !y.b.h.outputClosed then y.delivered + 1 else y.written
  }

  lemma ReceiverStays(y: System, e: CtcpTransfer.Event)
    requires SystemInv(y)
    ensures y.written <= y.delivered && Moves(y, e, Next(y, e))
  {
    ReceiverState(y);
    hide SystemInv, Next, Moves, Arrives;
    match e
    case FirstCopyArrives(acks, space) => FirstCopyMoves(y, acks, space);
    case LaterCopyArrives(k, acks, space) => LaterCopyMoves(y, k, acks, space);
    case ReceiverDrains(space) => DrainMoves(y, space);
    case ReceiverWriteFails => FailMoves(y);
    case _ => SenderMoves(y, e);
  }

  lemma SenderMoves(y: System, e: CtcpTransfer.Event)
    requires e.SenderReads? || e.SenderTimer? || e.AckArrives? || e.DamagedArrives?
    ensures Moves(y, e, Next(y, e))
  {
    hide ReadInput, TimerPass, OutputPending, AckLoop, Accept, Flat;
  }

  lemma StepReceives(c: Conn, seg: Segment, acks: nat -> AckEnv, space: nat)
    requires c.alive
    ensures Step(c, SegmentArrives(seg, true, acks, space)) == Ctcp.Receive(c, seg, true, acks, space)
  {
    hide Ctcp.Receive, ReadInput, TimerPass, OutputPending;
  }

  lemma SenderUntouched(y: System, e: CtcpTransfer.Event)
    requires e.FirstCopyArrives? || e.ReceiverDrains?
    ensures Next(y, e).a == y.a
  {
    hide Step, Arrives, CallsBack;
  }

  lemma NextReads(y: System, chunks: seq<Chunk>, atEof: bool, sends: nat -> SendEnv)
    requires y.a.alive && INIT_SEQ_NUM + |y.a.h.read| + |Flat(chunks)| < TWO_32
    ensures Next(y, SenderReads(chunks, atEof, sends)) == y.(a := ReadInput(y.a, chunks, atEof, sends))
  {
    hide ReadInput, Ctcp.Receive, TimerPass, OutputPending, Flat;
  }

  lemma OnlyReceiverCloses(y: System, e: CtcpTransfer.Event)
    requires !e.ReceiverDrains? && !e.ReceiverWriteFails?
    ensures !Closes(y, e)
  {
  }

  lemma FirstCopyMoves(y: System, acks: nat -> AckEnv, space: nat)
    requires SystemInv(y)
    ensures Moves(y, FirstCopyArrives(acks, space), Next(y, FirstCopyArrives(acks, space)))
  {
    hide SystemInv, Step, Ctcp.Receive, Closes;
    ReceiverState(y);
    OnlyReceiverCloses(y, FirstCopyArrives(acks, space));
    if Arrives(y, FirstCopyArrives(acks, space)) { ArrivalKeepsSwitch(y, y.delivered, acks, space); }
    if y.delivered < |y.a.h.firstCopies| { StepReceives(y.b, y.a.h.firstCopies[y.delivered], acks, space); }
  }

  lemma LaterCopyMoves(y: System, k: nat, acks: nat -> AckEnv, space: nat)
    requires SystemInv(y)
    ensures Moves(y, LaterCopyArrives(k, acks, space), Next(y, LaterCopyArrives(k, acks, space)))
  {
    hide SystemInv, Step, Ctcp.Receive, Closes;
    ReceiverState(y);
    OnlyReceiverCloses(y, LaterCopyArrives(k, acks, space));
    if k < y.delivered {
      ArrivalKeepsSwitch(y, k, acks, space);
      StepReceives(y.b, y.a.h.firstCopies[k], acks, space);
    }
  }

  lemma DrainMoves(y: System, space: nat)
    requires y.b.alive && y.b.pending == []
    ensures Moves(y, ReceiverDrains(space), Next(y, ReceiverDrains(space)))
  {
    hide Ctcp.Receive, ReadInput, TimerPass;
  }

  lemma FailMoves(y: System)
    requires y.b.alive
    ensures Moves(y, ReceiverWriteFails, Next(y, ReceiverWriteFails))
  {
    hide Ctcp.Receive, ReadInput, TimerPass, OutputPending;
  }

  lemma ReceiverState(y: System)
    requires SystemInv(y)
    ensures y.b.alive && y.b.pending == [] && y.written <= y.delivered <= |y.a.h.firstCopies|
  {
    hide SInv, Fits, Answered, Data, Cumulative, Segs, All;
  }

  lemma ArrivalKeepsSwitch(y: System, k: nat, acks: nat -> AckEnv, space: nat)
    requires SystemInv(y) && k <= y.delivered && k < |y.a.h.firstCopies|
    requires k == y.delivered ==> |y.a.h.firstCopies[k].data| <= space
    ensures Ctcp.Receive(y.b, y.a.h.firstCopies[k], true, acks, space).h.outputClosed == y.b.h.outputClosed
  {
    var segs, seg := Segs(All(y.a)), y.a.h.firstCopies[k];
    ReceiverHas(y);
    NextSegment(y.a, k);
    hide SInv, Fits, Data, Answered, Cumulative, Ctcp.Receive, Segs, All;
    if k < y.delivered {
      DataPrefix(segs, k + 1, y.delivered);
      IgnoresOld(y.b, seg, acks, space);
    } else {
      TakesNew(y.b, seg, acks, space);
    }
  }

  lemma {:induction false} RunFollows(start: System, events: seq<CtcpTransfer.Event>)
    requires SystemInv(start) && Follows(start, false, true)
    ensures SystemInv(Transfer(start, events))
    ensures Follows(Transfer(start, events), Closed(start, events), NoLateCopy(start, events))
    decreases |events|
  {
    hide SystemInv, Next, Follows, Closes, Arrives;
    if events != [] {
      var n := |events| - 1;
      RunFollows(start, events[..n]);
      var y := Transfer(start, events[..n]);
      NextKeeps(y, events[n]);
      OutputSwitch(y, events[n], Closed(start, events[..n]), NoLateCopy(start, events[..n]));
    }
  }

  // ---------------------------------------------------------------- the exact condition

  /** What the sender has taken off its unacked list has been output. */
  ghost predicate RemovedWasOutput(y: System) {
    Data(Segs(y.a.h.removed)) <= y.b.h.output
  }

  /** Sequence numbers below the acknowledged place. */
  lemma NumberBelow(c: Conn, k: nat, d: nat, ackno: uint32)
    requires SInv(c) && Fits(c) && k < d <= |c.h.firstCopies|
    requires d <= |Segs(All(c))| && ackno == INIT_SEQ_NUM + |Data(Segs(All(c))[..d])|
    ensures Segs(All(c))[k].seqno < ackno
  {
    NextSegment(c, k);
    hide SInv, Fits, Data, Segs, All;
    DataPrefix(Segs(All(c)), k + 1, d);
  }

  lemma AckCovers(c: Conn, d: nat, ackno: uint32)
    requires SInv(c) && Fits(c) && |c.h.removed| <= d <= |c.h.firstCopies|
    requires d <= |Segs(All(c))| && ackno == INIT_SEQ_NUM + |Data(Segs(All(c))[..d])|
    ensures CtcpLimits.Below(CtcpLimits.Rest(c), d - |c.h.removed|, ackno)
  {
    var rest, r := CtcpLimits.Rest(c), |c.h.removed|;
    CtcpLimits.RestIsStream(c);
    hide SInv, Fits, Data, Segs, All, CtcpLimits.Rest;
    forall i | 0 <= i < d - r ensures rest[i].seqno < ackno { NumberBelow(c, r + i, d, ackno); }
  }

  lemma FirstCopiesAreUnacked(c: Conn)
    requires SInv(c)
    ensures |c.h.firstCopies| <= |c.h.removed| + |c.unacked|
  {
    hide Inv, Segs, Fresh;
  }

  lemma NextAck(y: System, i: nat, acks: nat -> AckEnv, space: nat)
    requires y.a.alive && i < |y.b.h.controls|
    ensures Next(y, AckArrives(i, acks, space)) == y.(a := Ctcp.Receive(y.a, y.b.h.controls[i], true, acks, space))
  {
    StepReceives(y.a, y.b.h.controls[i], acks, space);
    hide Step, Ctcp.Receive;
  }

  lemma PureAckReceived(c: Conn, ack: Segment, acks: nat -> AckEnv, space: nat)
    requires PureAck(ack) && !c.finReceived
    ensures Ctcp.Receive(c, ack, true, acks, space).h.removed == AckLoop(c, ack.ackno, acks, 0).h.removed
  {
    hide AckLoop;
  }

  /** An acknowledgment of all arrived segments takes all of them off. */
  lemma FullAckRemoves(y: System, i: nat, acks: nat -> AckEnv, space: nat)
    requires SystemInv(y) && y.a.alive && i < |y.b.h.controls|
    requires PureAck(y.b.h.controls[i])
    requires y.delivered <= |Segs(All(y.a))|
    requires y.b.h.controls[i].ackno == INIT_SEQ_NUM + |Data(Segs(All(y.a))[..y.delivered])|
    ensures |Next(y, AckArrives(i, acks, space)).a.h.removed| >= y.delivered
  {
    var ack := y.b.h.controls[i];
    NextAck(y, i, acks, space);
    hide Next, SInv, Fits, ReceiverInv, Data, Segs, All, AckLoop, Ctcp.Receive, CtcpLimits.Below, CtcpLimits.Rest;
    FirstCopiesAreUnacked(y.a);
    AckCovers(y.a, y.delivered, ack.ackno);
    CtcpLimits.TakesAtLeast(y.a, ack.ackno, acks, 0, y.delivered - |y.a.h.removed|);
    PureAckReceived(y.a, ack, acks, space);
  }

  lemma LongerIsNoPrefix(removed: seq<Segment>, segs: seq<Segment>, w: nat, d: nat)
    requires w < d <= |removed| && removed <= segs && segs[w].data != []
    ensures !(Data(removed) <= Data(segs[..w]))
  {
    assert Data(segs[..w + 1]) == Data(segs[..w]) + segs[w].data by { assert segs[..w + 1][..w] == segs[..w]; }
    hide Data;
    assert removed == segs[..|removed|];
    DataPrefix(segs, w + 1, |removed|);
  }

  lemma ShorterIffPrefix(removed: seq<Segment>, segs: seq<Segment>, w: nat)
    requires removed <= segs && w <= |segs| && (w < |removed| ==> segs[w].data != [])
    ensures Data(removed) <= Data(segs[..w]) <==> |removed| <= w
  {
    hide Data;
    if w < |removed| {
      LongerIsNoPrefix(removed, segs, w, |removed|);
    } else {
      assert removed == segs[..|removed|];
      DataPrefix(segs, |removed|, w);
    }
  }

  lemma OutputIs(y: System)
    requires SystemInv(y)
    ensures y.written <= |y.a.h.firstCopies| && y.b.h.output == Data(Segs(All(y.a))[..y.written])
    ensures |y.a.h.removed| <= |y.a.h.firstCopies| <= |Segs(All(y.a))| && SInv(y.a) && Fits(y.a)
  {
    ReceiverHas(y);
    hide SInv, Fits, Data, Segs, All, Answered, Cumulative;
  }

  /** Removed segments have been output exactly if they are among the first that were. */
  lemma OutputCovers(y: System)
    requires SystemInv(y)
    ensures RemovedWasOutput(y) <==> |y.a.h.removed| <= y.written
  {
    OutputIs(y);
    hide SystemInv, SInv, Fits, Data, Segs, All;
    RemovedAreFirst(y.a);
    if y.written < |y.a.h.removed| { NextSegment(y.a, y.written); }
    SegsLength(y.a.h.removed);
    ShorterIffPrefix(Segs(y.a.h.removed), Segs(All(y.a)), y.written);
  }

  lemma SegsLength(infos: seq<SegInfo>)
    ensures |Segs(infos)| == |infos|
  {
  }

  /** A system whose sender has let go of more than was output. */
  lemma ForgottenIsLost(y: System)
    requires SystemInv(y) && y.written < y.delivered <= |y.a.h.removed|
    ensures !RemovedWasOutput(y)
  {
    hide SystemInv, RemovedWasOutput;
    OutputCovers(y);
  }

  /** Control segment i acknowledges everything that has arrived. */
  ghost predicate FullAck(y: System, i: nat) {
    && i < |y.b.h.controls| && PureAck(y.b.h.controls[i])
    && y.delivered <= |Segs(All(y.a))|
    && y.b.h.controls[i].ackno == INIT_SEQ_NUM + |Data(Segs(All(y.a))[..y.delivered])|
  }

  lemma FullAckSent(y: System) returns (i: nat)
    requires SystemInv(y) && y.delivered > 0
    ensures FullAck(y, i)
  {
    hide SInv, Fits, Data, Segs, All, Cumulative;
    assert Acknowledged(y.b.h.controls, Segs(All(y.a)), y.delivered);
    i :| 0 <= i < |y.b.h.controls| && y.b.h.controls[i].ackno == INIT_SEQ_NUM + |Data(Segs(All(y.a))[..y.delivered])|;
  }

  lemma FullAckLoses(y: System, i: nat, acks: nat -> AckEnv, space: nat)
    requires SystemInv(y) && y.a.alive && y.written < y.delivered && FullAck(y, i)
    ensures !RemovedWasOutput(Next(y, AckArrives(i, acks, space)))
  {
    hide SystemInv, Data, Segs, All, RemovedWasOutput, Ctcp.Receive;
    FullAckRemoves(y, i, acks, space);
    NextAck(y, i, acks, space);
    hide Next;
    NextKeeps(y, AckArrives(i, acks, space));
    ForgottenIsLost(Next(y, AckArrives(i, acks, space)));
  }

  /** After a late copy an acknowledgment that was already sent makes the sender forget
      data that never will be output. */
  lemma LateCopyIsLost(y: System)
    requires SystemInv(y) && y.a.alive && y.written < y.delivered
    ensures exists i: nat, acks, space :: !RemovedWasOutput(Next(y, AckArrives(i, acks, space)))
  {
    hide SystemInv, FullAck, RemovedWasOutput, Next;
    var i := FullAckSent(y);
    FullAckLoses(y, i, k => AckEnv(0, SendEnv(true, j => Pace(0, 0))), 0);
  }

  lemma StaysDestroyed(y: System, i: nat, acks: nat -> AckEnv, space: nat)
    requires !y.a.alive
    ensures Next(y, AckArrives(i, acks, space)) == y
  {
    hide ReadInput, Ctcp.Receive, TimerPass, OutputPending;
  }

  lemma WrittenAtMost(y: System)
    requires SystemInv(y)
    ensures y.written <= y.delivered
  {
    ReceiverState(y);
  }

  lemma SafeMeansOutput(y: System)
    requires Safe(y) && y.written == y.delivered
    ensures RemovedWasOutput(y)
  {
    hide Data, Segs, Acknowledged, AcksEach;
  }

  lemma AckIsSafe(y: System, i: nat, acks: nat -> AckEnv, space: nat)
    requires SystemInv(y) && y.written == y.delivered
    ensures RemovedWasOutput(Next(y, AckArrives(i, acks, space)))
  {
    var e := AckArrives(i, acks, space);
    NextKeeps(y, e);
    ReceiverStays(y, e);
    hide SystemInv, Next, Safe, RemovedWasOutput;
    InvIsSafe(Next(y, e));
    SafeMeansOutput(Next(y, e));
  }

  /** Whatever acknowledgment arrives next, what the sender has then taken off its unacked
      list has been output. */
  ghost predicate AlwaysOutput(y: System) {
    forall i: nat, acks, space :: RemovedWasOutput(Next(y, AckArrives(i, acks, space)))
  }

  lemma LivingSender(y: System)
    requires SystemInv(y) && y.a.alive
    ensures AlwaysOutput(y) <==> y.written == y.delivered
  {
    hide SystemInv, Next, RemovedWasOutput;
    if y.written == y.delivered {
      forall i: nat, acks, space ensures RemovedWasOutput(Next(y, AckArrives(i, acks, space))) {
        AckIsSafe(y, i, acks, space);
      }
    } else {
      WrittenAtMost(y);
      LateCopyIsLost(y);
    }
  }

  lemma DestroyedSender(y: System)
    requires SystemInv(y) && !y.a.alive
    ensures AlwaysOutput(y) <==> |y.a.h.removed| <= y.written
  {
    hide SystemInv, Next, RemovedWasOutput;
    OutputCovers(y);
    StaysDestroyed(y, 0, k => AckEnv(0, SendEnv(true, j => Pace(0, 0))), 0);
    forall i: nat, acks, space ensures Next(y, AckArrives(i, acks, space)) == y { StaysDestroyed(y, i, acks, space); }
  }

  /** The exact condition, for every run: whatever acknowledgment arrives next, everything
      the sender has taken off its list has been output, if and only if no first copy
      arrived after the output had closed. A destroyed sender takes nothing off any more;
      then what it had taken off must be among the segments that were output. */
  lemma RemovalIffNoLateCopy(sendWindow: uint16, rtTimeout: int, sendWindow1: uint16, rtTimeout1: int,
                             events: seq<CtcpTransfer.Event>)
    ensures var start := Start(sendWindow, rtTimeout, sendWindow1, rtTimeout1);
            var y := Transfer(start, events);
            AlwaysOutput(y) <==> if y.a.alive then NoLateCopy(start, events) else |y.a.h.removed| <= y.written
  {
    var start := Start(sendWindow, rtTimeout, sendWindow1, rtTimeout1);
    StartInv(start.a, start.b);
    RunFollows(start, events);
    var y := Transfer(start, events);
    hide SystemInv, Closed, NoLateCopy, Transfer, Start, AlwaysOutput;
    if y.a.alive { LivingSender(y); } else { DestroyedSender(y); }
  }
}
