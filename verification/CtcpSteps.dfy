/** That the loops of lab3/ctcp.c leave nothing out: what is read becomes segments, the window is
    filled, everything in it is sent, everything that timed out is sent again. And two ways
    in which data is lost although it was received or sent. */
module CtcpSteps {
  import opened Machine
  import opened Ctcp
  import opened CtcpSender
  import CtcpOrder
  import CtcpEnd
  import CtcpWrap

  // ---------------------------------------------------------------- the window

  /** The first n waiting segments have moved behind the unacknowledged ones, and the window
      counter by their lengths; each found it below the send window. */
  ghost predicate Slid(c: Conn, c1: Conn, n: nat) {
    && n <= |c.toSend| && c1.unacked == c.unacked + c.toSend[..n] && c1.toSend == c.toSend[n..]
    && c1.window == (c.window + TotalLength(c.toSend[..n])) % TWO_16 && c1.sendWindow == c.sendWindow
    && forall k | 0 <= k < n :: (c.window + TotalLength(c.toSend[..k])) % TWO_16 < c.sendWindow
  }

  lemma CounterAfter(c: Conn, k: nat)
    requires c.toSend != [] && k < |c.toSend|
    ensures var m := MoveOne(c);
            (m.window + TotalLength(m.toSend[..k])) % TWO_16 == (c.window + TotalLength(c.toSend[..k + 1])) % TWO_16
  {
    var m, head := MoveOne(c), c.toSend[0];
    assert c.toSend[..k + 1] == [head] + m.toSend[..k];
    TotalLengthSplit(head, m.toSend[..k]);
    hide TotalLength, Length;
    WrapAdd16(c.window + Length(head.seg), TotalLength(m.toSend[..k]));
  }

  lemma MoveOneIs(c: Conn)
    requires c.toSend != []
    ensures var m := MoveOne(c);
            m.unacked == c.unacked + [c.toSend[0]] && m.toSend == c.toSend[1..] && m.sendWindow == c.sendWindow
  {
  }

  lemma SlidOneMore(c: Conn, c1: Conn, n: nat)
    requires c.toSend != [] && c.window < c.sendWindow && Slid(MoveOne(c), c1, n)
    ensures Slid(c, c1, n + 1)
  {
    hide TotalLength, MoveOne;
    MoveOneIs(c);
    CounterAfter(c, n);
    NoLength(c);
    assert c.toSend[..n + 1] == [c.toSend[0]] + MoveOne(c).toSend[..n];
    forall k | 0 <= k < n + 1 ensures (c.window + TotalLength(c.toSend[..k])) % TWO_16 < c.sendWindow {
      if k > 0 { CounterAfter(c, k - 1); }
    }
  }

  lemma NoLength(c: Conn)
    ensures (c.window + TotalLength(c.toSend[..0])) % TWO_16 == c.window
  {
  }

  /** The window sender moves waiting segments until none is left or the counter has reached
      the send window, and no further. */
  lemma {:induction false} WindowIsFilled(c: Conn) returns (n: nat)
    ensures var c1 := MoveWindow(c);
            Slid(c, c1, n) && (c1.toSend == [] || c1.window >= c1.sendWindow) && c1.h == c.h
    decreases |c.toSend|
  {
    n := 0;
    if c.window < c.sendWindow && c.toSend != [] {
      hide Slid;
      n := WindowIsFilled(MoveOne(c));
      SlidOneMore(c, MoveWindow(c), n);
      n := n + 1;
    } else {
      NoLength(c);
    }
  }

  // ---------------------------------------------------------------- sending

  /** One transmission for each segment from i on that is not in flight, in list order. */
  function Unsent(infos: seq<SegInfo>, i: nat, pace: nat -> Pace): seq<Tx>
    decreases |infos| - i
  {
    if i >= |infos| then []
    else
      (if infos[i].inFlight then [] else [Tx(infos[i].seg.id, pace(i).stamp, pace(i).stamp + pace(i).wait, false)])
        + Unsent(infos, i + 1, pace)
  }

  lemma {:induction false} UnsentSame(a: seq<SegInfo>, b: seq<SegInfo>, i: nat, pace: nat -> Pace)
    requires |a| == |b| && forall k | i <= k < |a| :: a[k] == b[k]
    ensures Unsent(a, i, pace) == Unsent(b, i, pace)
    decreases |a| - i
  {
    if i < |a| { UnsentSame(a, b, i + 1, pace); }
  }

  /** From position i on everything is in flight, with its own time stamp, and nothing else
      has changed. */
  ghost predicate InFlightFrom(was: seq<SegInfo>, now: seq<SegInfo>, i: nat, pace: nat -> Pace) {
    && |now| == |was|
    && (forall k | 0 <= k < |was| && (k < i || was[k].inFlight) :: now[k] == was[k])
    && (forall k | i <= k < |was| && !was[k].inFlight ::
          now[k] == was[k].(prevSent := pace(k).stamp, inFlight := true))
  }

  lemma OneSent(c: Conn, i: nat, pace: nat -> Pace)
    requires i < |c.unacked|
    ensures var m := if c.unacked[i].inFlight then c else SendOne(c, i, pace(i));
            && |m.unacked| == |c.unacked| && (forall k | 0 <= k < |c.unacked| && k != i :: m.unacked[k] == c.unacked[k])
            && m.unacked[i] == (if c.unacked[i].inFlight then c.unacked[i]
                                else c.unacked[i].(prevSent := pace(i).stamp, inFlight := true))
            && m.h.log + Unsent(c.unacked, i + 1, pace) == c.h.log + Unsent(c.unacked, i, pace)
  {
  }

  lemma SendFromStep(c: Conn, i: nat, pace: nat -> Pace)
    requires i < |c.unacked|
    ensures SendFrom(c, i, pace)
         == SendFrom(if c.unacked[i].inFlight then c else SendOne(c, i, pace(i)), i + 1, pace)
  {
  }

  /** The window sender transmits everything in the window that is not in flight, each once
      and in order. */
  lemma {:induction false} AllIsSent(c: Conn, i: nat, pace: nat -> Pace)
    ensures var c1 := SendFrom(c, i, pace);
            InFlightFrom(c.unacked, c1.unacked, i, pace) && c1.h.log == c.h.log + Unsent(c.unacked, i, pace)
    decreases |c.unacked| - i
  {
    if i < |c.unacked| {
      var m := if c.unacked[i].inFlight then c else SendOne(c, i, pace(i));
      SendFromStep(c, i, pace);
      OneSent(c, i, pace);
      AllIsSent(m, i + 1, pace);
      hide SendFrom, SendOne;
      UnsentSame(c.unacked, m.unacked, i + 1, pace);
      hide Unsent;
    }
  }

  lemma NothingUnsent(c: Conn, e: SendEnv)
    requires !e.blocked
    ensures forall k | 0 <= k < |SendWindow(c, e).unacked| :: SendWindow(c, e).unacked[k].inFlight
  {
    AllIsSent(MoveWindow(c), 0, e.pace);
  }

  // ---------------------------------------------------------------- sending again

  /** A segment whose last time stamp is more than the timeout ago and that was sent again
      fewer than five times so far. */
  predicate Due(s: SegInfo, rtTimeout: int, now: int) {
    now > s.prevSent + rtTimeout && s.retransmits <= 4
  }

  /** The first n segments have been looked at: those that were due have a new time stamp and
      one retransmission more, the others are as before. */
  ghost predicate LookedAt(was: seq<SegInfo>, now: seq<SegInfo>, rtTimeout: int, from: nat, n: nat,
                           ticks: nat -> Tick) {
    && |now| == |was| && from <= n <= |was|
    && (forall k | 0 <= k < |was| && !(from <= k < n && Due(was[k], rtTimeout, ticks(k).check)) :: now[k] == was[k])
    && (forall k | from <= k < n && Due(was[k], rtTimeout, ticks(k).check) ::
          now[k] == was[k].(prevSent := ticks(k).check + ticks(k).delay, retransmits := was[k].retransmits + 1))
  }

  /** What the look at one segment makes of it. */
  function Looked(s: SegInfo, rtTimeout: int, t: Tick): SegInfo {
    if Due(s, rtTimeout, t.check) then s.(prevSent := t.check + t.delay, retransmits := s.retransmits + 1) else s
  }

  /** The timer has looked at the segments from i to n - 1, and n is the end of the list or
      the last of them has now been sent again five times. */
  ghost predicate Resent(was: seq<SegInfo>, c1: Conn, rtTimeout: int, i: nat, n: nat, ticks: nat -> Tick) {
    && LookedAt(was, c1.unacked, rtTimeout, i, n, ticks)
    && (forall k | i <= k < n - 1 :: c1.unacked[k].retransmits < 5)
    && if c1.alive then n == |was| && (n > i ==> c1.unacked[n - 1].retransmits < 5)
       else i < n && c1.unacked[n - 1].retransmits >= 5
  }

  lemma OneLookedAt(c: Conn, i: nat, ticks: nat -> Tick)
    requires i < |c.unacked|
    ensures var m := if TimedOut(c.unacked[i], c.rtTimeout, ticks(i).check) then ResendOne(c, i, ticks(i)) else c;
            && m.unacked == c.unacked[i := Looked(c.unacked[i], c.rtTimeout, ticks(i))]
            && m.alive == c.alive && m.rtTimeout == c.rtTimeout
            && TimerFrom(c, i, ticks)
               == if m.unacked[i].retransmits >= 5 then m.(alive := false) else TimerFrom(m, i + 1, ticks)
  {
  }

  lemma OneMoreResent(was: seq<SegInfo>, c1: Conn, rt: int, i: nat, n: nat, ticks: nat -> Tick)
    requires i < |was| && Looked(was[i], rt, ticks(i)).retransmits < 5
    requires Resent(was[i := Looked(was[i], rt, ticks(i))], c1, rt, i + 1, n, ticks)
    ensures Resent(was, c1, rt, i, n, ticks)
  {
    var s := Looked(was[i], rt, ticks(i));
    hide Due;
    assert c1.unacked[i] == s;
    assert forall k | 0 <= k < |was| && k != i :: was[i := s][k] == was[k];
  }

  lemma LastResent(was: seq<SegInfo>, c1: Conn, rt: int, i: nat, ticks: nat -> Tick)
    requires i < |was| && Looked(was[i], rt, ticks(i)).retransmits >= 5 && !c1.alive
    requires c1.unacked == was[i := Looked(was[i], rt, ticks(i))]
    ensures Resent(was, c1, rt, i, i + 1, ticks)
  {
    hide Due;
  }

  lemma NoneResent(c: Conn, ticks: nat -> Tick)
    requires c.alive
    ensures Resent(c.unacked, c, c.rtTimeout, |c.unacked|, |c.unacked|, ticks)
  {
    hide Due;
  }

  /** The timer looks at every segment in list order, or at all up to the first that has now
      been sent again five times, with which it destroys the connection. */
  lemma {:induction false} AllIsResent(c: Conn, i: nat, ticks: nat -> Tick) returns (n: nat)
    requires i <= |c.unacked| && c.alive
    ensures Resent(c.unacked, TimerFrom(c, i, ticks), c.rtTimeout, i, n, ticks)
    decreases |c.unacked| - i
  {
    hide ResendOne, TimedOut, Resent, Looked;
    n := i;
    if i == |c.unacked| {
      NoneResent(c, ticks);
    } else {
      var m := if TimedOut(c.unacked[i], c.rtTimeout, ticks(i).check) then ResendOne(c, i, ticks(i)) else c;
      OneLookedAt(c, i, ticks);
      if m.unacked[i].retransmits < 5 {
        n := AllIsResent(m, i + 1, ticks);
        OneMoreResent(c.unacked, TimerFrom(c, i, ticks), c.rtTimeout, i, n, ticks);
      } else {
        n := i + 1;
        LastResent(c.unacked, TimerFrom(c, i, ticks), c.rtTimeout, i, ticks);
      }
    }
  }

  // ---------------------------------------------------------------- reading

  /** d is the segments a and behind them one for each chunk, in order, with this
      acknowledgment number. */
  ghost predicate Continued(a: seq<Segment>, d: seq<Segment>, chunks: seq<Chunk>, ackno: uint32) {
    && |d| == |a| + |chunks| && a == d[..|a|]
    && forall k | 0 <= k < |chunks| :: d[|a| + k].data == chunks[k] && d[|a| + k].ackno == ackno
  }

  lemma ContinuedOnce(a: seq<Segment>, s: Segment, d: seq<Segment>, chunks: seq<Chunk>, ackno: uint32)
    requires chunks != [] && s.data == chunks[0] && s.ackno == ackno && Continued(a + [s], d, chunks[1..], ackno)
    ensures Continued(a, d, chunks, ackno)
  {
    var b := a + [s];
    assert a == b[..|a|] && b[|a|] == s && d[|a|] == b[|a|];
    forall k | 0 <= k < |chunks| ensures d[|a| + k].data == chunks[k] && d[|a| + k].ackno == ackno {
      if k > 0 { assert chunks[1..][k - 1] == chunks[k] && |b| + (k - 1) == |a| + k; }
    }
    assert a == d[..|a|];
  }

  /** The chunks have become the last segments of the stream, with the acknowledgment number
      of the time. */
  ghost predicate BecameSegments(c: Conn, c1: Conn, chunks: seq<Chunk>) {
    && c1.h.read == c.h.read + CtcpOrder.Flat(chunks)
    && Continued(Segs(All(c)), Segs(All(c1)), chunks, c.currAckno)
  }

  lemma OnePrepared(c: Conn, data: Chunk)
    ensures var p := Prepare(c, data);
            && Segs(All(p)) == Segs(All(c)) + [Segment(c.prepared, c.currSeqno, c.currAckno, true, false, data)]
            && p.currAckno == c.currAckno && p.alive == c.alive && p.h.read == c.h.read + data
  {
    var p := Prepare(c, data);
    var added := p.toSend[|c.toSend|];
    assert All(p) == All(c) + [added];
    assert Segs(All(p)) == Segs(All(c)) + [added.seg];
  }

  lemma OneBecomesSegment(c: Conn, data: Chunk, e: SendEnv)
    requires Inv(c) && c.alive
    ensures var c1 := SendWindow(Prepare(c, data), e);
            && Inv(c1) && c1.alive && c1.currAckno == c.currAckno && c1.h.read == c.h.read + data
            && Segs(All(c1)) == Segs(All(c)) + [Segment(c.prepared, c.currSeqno, c.currAckno, true, false, data)]
  {
    hide Inv, SendWindow;
    PrepareKeeps(c, data);
    var p := Prepare(c, data);
    OnePrepared(c, data);
    hide All, Segs;
    SendWindowKeeps(p, e);
    CtcpEnd.SendWindowSame(p, e);
  }

  lemma ReadTogether(was: seq<byte>, chunks: seq<Chunk>)
    requires chunks != []
    ensures was + chunks[0] + CtcpOrder.Flat(chunks[1..]) == was + CtcpOrder.Flat(chunks)
  {
  }

  /** Everything conn_input hands out becomes a segment of the stream. */
  lemma {:induction false} AllIsRead(c: Conn, chunks: seq<Chunk>, env: nat -> SendEnv, round: nat)
    requires Inv(c) && c.alive
    ensures BecameSegments(c, ReadChunks(c, chunks, env, round), chunks)
    decreases |chunks|
  {
    hide Inv, SendWindow, Prepare, Segs, All, Continued, CtcpOrder.Flat;
    if chunks == [] {
      NothingRead(c);
    } else {
      var m := SendWindow(Prepare(c, chunks[0]), env(round));
      OneBecomesSegment(c, chunks[0], env(round));
      AllIsRead(m, chunks[1..], env, round + 1);
      ReadTogether(c.h.read, chunks);
      var s := Segment(c.prepared, c.currSeqno, c.currAckno, true, false, chunks[0]);
      ContinuedOnce(Segs(All(c)), s, Segs(All(ReadChunks(c, chunks, env, round))), chunks, c.currAckno);
    }
  }

  lemma NothingRead(c: Conn)
    ensures BecameSegments(c, c, [])
  {
    hide Segs, All;
    assert c.h.read + CtcpOrder.Flat([]) == c.h.read;
  }

  // ---------------------------------------------------------------- output without room

  /** Data that finds no room stays pending and is neither acknowledged nor output; with
      room both happen. */
  lemma RoomDecides(c: Conn, space: nat)
    requires c.pending != [] && !c.h.outputClosed
    ensures var c1 := OutputPending(c, space);
            if space < |c.pending| then c1 == c
            else c1.pending == [] && c1.h.output == c.h.output + c.pending && |c1.h.controls| == |c.h.controls| + 1
  {
  }

  lemma NewData(b: Conn, s: Segment, acks: nat -> AckEnv, space: nat)
    requires CtcpWrap.ReceiverIdle(b) && s.ack && !s.fin && s.data != [] && s.seqno == b.prevAckno
    ensures var b1 := Step(b, SegmentArrives(s, true, acks, space));
            && CtcpWrap.ReceiverIdle(b1) && b1.prevAckno == (s.seqno + |s.data|) % TWO_32
            && b1.pending == (if space < |s.data| then s.data else [])
            && b1.h.output == b.h.output + (if space < |s.data| then [] else s.data)
  {
    assert AckLoop(b, s.ackno, acks, 0) == b;
  }

  lemma Drained(b: Conn, space: nat)
    requires CtcpWrap.ReceiverIdle(b) && b.pending != []
    ensures var b1 := Step(b, OutputDrains(space));
            && CtcpWrap.ReceiverIdle(b1) && b1.prevAckno == b.prevAckno
            && (space >= |b.pending| ==> b1.pending == [] && b1.h.output == b.h.output + b.pending)
            && (space < |b.pending| ==> b1 == b)
  {
  }

  /** Two segments in order, of which only the second finds room: the first is output exactly
      if a drain makes room for it before the second arrives. Otherwise it is overwritten,
      although the number expected next is past both, so that a copy of it is dropped. */
  lemma WaitingDataIsLostIff(b: Conn, s1: Segment, s2: Segment, acks: nat -> AckEnv,
                             space1: nat, drain: nat, space2: nat)
    requires CtcpWrap.ReceiverIdle(b) && b.pending == []
    requires s1.ack && !s1.fin && s1.data != [] && s1.seqno == b.prevAckno && space1 < |s1.data|
    requires s2.ack && !s2.fin && s2.data != [] && space2 >= |s2.data|
    requires s2.seqno == (s1.seqno + |s1.data|) % TWO_32
    ensures var b1 := Step(b, SegmentArrives(s1, true, acks, space1));
            var b3 := Step(Step(b1, OutputDrains(drain)), SegmentArrives(s2, true, acks, space2));
            && b3.prevAckno == (s2.seqno + |s2.data|) % TWO_32 && b3.pending == []
            && b3.h.output == b.h.output + (if drain >= |s1.data| then s1.data else []) + s2.data
  {
    hide Step, CtcpWrap.ReceiverIdle;
    NewData(b, s1, acks, space1);
    var b1 := Step(b, SegmentArrives(s1, true, acks, space1));
    Drained(b1, drain);
    NewData(Step(b1, OutputDrains(drain)), s2, acks, space2);
  }

  // ---------------------------------------------------------------- destroyed with data left

  /** Whatever is still unacknowledged: once both directions have ended, the next
      acknowledgment destroys the connection and nothing is ever sent again. */
  lemma {:induction false} EndDropsUnacked(c: Conn, e: Event, later: seq<Event>)
    requires CtcpEnd.AckAfterEnd(c, e)
    ensures !Step(c, e).alive && Step(c, e).unacked == c.unacked
    ensures Run(Step(c, e), later) == Step(c, e)
    decreases |later|
  {
    if later != [] {
      EndDropsUnacked(c, e, later[..|later| - 1]);
      hide Receive, ReadInput, TimerPass, OutputPending;
    } else {
      hide AckLoop, Accept, ReadInput, TimerPass, OutputPending;
    }
  }
}
