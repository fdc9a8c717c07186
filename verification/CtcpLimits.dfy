/** Where the guarantee of the ACK loop of lab3/ctcp.c ends: the exact condition under which
    it takes off what it should, for streams of any length. */
module CtcpLimits {
  import opened Machine
  import opened Ctcp
  import opened CtcpSender

  // ---------------------------------------------------------------- the ACK loop

  /** Length of the leading run of segments below ackno. */
  function Leading(segs: seq<Segment>, ackno: uint32): (n: nat)
    ensures n <= |segs|
  {
    if segs == [] || segs[0].seqno >= ackno then 0 else 1 + Leading(segs[1..], ackno)
  }

  /** The segments not yet acknowledged, sent or waiting. */
  function Rest(c: Conn): seq<Segment> {
    Segs(c.unacked) + Segs(c.toSend)
  }

  /** The run is a part of a, or all of it if b does not continue it. */
  lemma {:induction false} LeadingAppend(a: seq<Segment>, b: seq<Segment>, ackno: uint32)
    requires Leading(a, ackno) < |a| || b == [] || b[0].seqno >= ackno
    ensures Leading(a + b, ackno) == Leading(a, ackno)
    decreases |a|
  {
    if a == [] {
      assert a + b == b;
    } else {
      assert (a + b)[1..] == a[1..] + b;
      if a[0].seqno < ackno { LeadingAppend(a[1..], b, ackno); }
    }
  }

  /** The window sender moves a leading part of the waiting list and nothing else. */
  ghost predicate Moved(c: Conn, c1: Conn) {
    && c1.h.removed == c.h.removed
    && Rest(c1) == Rest(c)
    && |c1.unacked| >= |c.unacked|
    && |c1.toSend| <= |c.toSend| && c1.toSend == c.toSend[|c.toSend| - |c1.toSend|..]
    && c1.sendWindow == c.sendWindow
  }

  lemma MoveOneMoves(c: Conn)
    requires c.toSend != []
    ensures Moved(c, MoveOne(c))
  {
    assert Rest(MoveOne(c)) == Rest(c);
  }

  lemma {:induction false} MoveWindowMoves(c: Conn)
    ensures Moved(c, MoveWindow(c))
    decreases |c.toSend|
  {
    if c.window < c.sendWindow && c.toSend != [] {
      MoveOneMoves(c);
      hide Moved;
      MoveWindowMoves(MoveOne(c));
      MovedTrans(c, MoveOne(c), MoveWindow(c));
    }
  }

  lemma MovedSelf(c: Conn)
    ensures Moved(c, c)
  {
  }

  lemma SendOneMoves(c: Conn, i: nat, p: Pace)
    requires i < |c.unacked|
    ensures var c1 := SendOne(c, i, p); Moved(c, c1) && |c1.unacked| == |c.unacked| && c1.window == c.window
  {
    assert Segs(SendOne(c, i, p).unacked) == Segs(c.unacked);
  }

  lemma {:induction false} SendFromMoves(c: Conn, i: nat, pace: nat -> Pace)
    ensures var c1 := SendFrom(c, i, pace); Moved(c, c1) && |c1.unacked| == |c.unacked| && c1.window == c.window
    decreases |c.unacked| - i
  {
    hide Moved, SendOne;
    MovedSelf(c);
    if i < |c.unacked| {
      if c.unacked[i].inFlight {
        SendFromMoves(c, i + 1, pace);
      } else {
        SendOneMoves(c, i, pace(i));
        SendFromMoves(SendOne(c, i, pace(i)), i + 1, pace);
        MovedTrans(c, SendOne(c, i, pace(i)), SendFrom(c, i, pace));
      }
    }
  }

  lemma MovedTrans(c: Conn, c1: Conn, c2: Conn)
    requires Moved(c, c1) && Moved(c1, c2)
    ensures Moved(c, c2)
  {
    hide Rest;
  }

  lemma SendWindowMoves(c: Conn, e: SendEnv)
    ensures Moved(c, SendWindow(c, e))
  {
    hide Moved, MoveWindow, SendFrom;
    MoveWindowMoves(c);
    SendFromMoves(MoveWindow(c), 0, e.pace);
    if !e.blocked { MovedTrans(c, MoveWindow(c), SendWindow(c, e)); }
  }

  lemma AckOneMoves(c: Conn, e: AckEnv)
    requires c.unacked != []
    ensures var c1 := AckOne(c, e);
            && Segs(c1.h.removed) == Segs(c.h.removed) + [Rest(c)[0]] && Rest(c1) == Rest(c)[1..]
            && |c1.toSend| <= |c.toSend| && c1.toSend == c.toSend[|c.toSend| - |c1.toSend|..]
  {
    hide SendWindow;
    var acked := Acknowledge(c, e.sendWindow);
    SendWindowMoves(acked, e.send);
    assert Segs(acked.h.removed) == Segs(c.h.removed) + [Rest(c)[0]];
    assert Rest(acked) == Rest(c)[1..];
  }

  lemma HeadOfRest(c: Conn)
    requires c.unacked != []
    ensures Rest(c) != [] && Rest(c)[0] == c.unacked[0].seg
  {
  }

  lemma RestIsStream(c: Conn)
    ensures |c.h.removed| <= |Segs(All(c))| && Rest(c) == Segs(All(c))[|c.h.removed|..]
  {
  }

  /** The run of segments below ackno does not reach into the waiting list. */
  predicate RunEnds(c: Conn, ackno: uint32) {
    || Leading(Segs(c.unacked), ackno) < |c.unacked|
    || c.toSend == [] || c.toSend[0].seg.seqno >= ackno
  }

  lemma LeadingRest(c: Conn, ackno: uint32)
    requires RunEnds(c, ackno)
    ensures Leading(Rest(c), ackno) == Leading(Segs(c.unacked), ackno) <= |c.unacked|
  {
    LeadingAppend(Segs(c.unacked), Segs(c.toSend), ackno);
  }

  lemma LeadingStep(segs: seq<Segment>, ackno: uint32)
    requires segs != []
    ensures segs[0].seqno >= ackno ==> Leading(segs, ackno) == 0
    ensures segs[0].seqno < ackno ==>
              var n := Leading(segs[1..], ackno);
              && Leading(segs, ackno) == n + 1
              && segs[..n + 1] == [segs[0]] + segs[1..][..n]
              && segs[n + 1..] == segs[1..][n..]
  {
  }

  lemma Chain(had: seq<Segment>, first: Segment, rest: seq<Segment>, all: seq<Segment>)
    requires all == [first] + rest
    ensures had + [first] + rest == had + all
  {
  }

  /** The loop has taken a leading run of the rest, and nothing else. */
  ghost predicate TookFrom(c: Conn, c1: Conn, n: nat) {
    n <= |Rest(c)| && Segs(c1.h.removed) == Segs(c.h.removed) + Rest(c)[..n] && Rest(c1) == Rest(c)[n..]
  }

  lemma TookOneMore(c: Conn, c1: Conn, c2: Conn, n: nat)
    requires Rest(c) != [] && Segs(c1.h.removed) == Segs(c.h.removed) + [Rest(c)[0]] && Rest(c1) == Rest(c)[1..]
    requires TookFrom(c1, c2, n)
    ensures TookFrom(c, c2, n + 1)
  {
    hide Rest, Segs;
    assert Rest(c)[..n + 1] == [Rest(c)[0]] + Rest(c)[1..][..n];
    Chain(Segs(c.h.removed), Rest(c)[0], Rest(c)[1..][..n], Rest(c)[..n + 1]);
  }

  lemma TookNone(c: Conn)
    ensures TookFrom(c, c, 0)
  {
  }

  /** A run that ends within the unacknowledged segments is all that is taken. */
  lemma {:induction false} AckLoopTakes(c: Conn, ackno: uint32, env: nat -> AckEnv, round: nat)
    requires Leading(Rest(c), ackno) <= |c.unacked|
    ensures TookFrom(c, AckLoop(c, ackno, env, round), Leading(Rest(c), ackno))
    decreases |c.unacked| + |c.toSend|
  {
    hide AckLoop, AckOne, Leading, Rest, Segs, TookFrom;
    AckLoopStep(c, ackno, env, round);
    TookNone(c);
    if c.unacked != [] {
      HeadOfRest(c);
      LeadingStep(Rest(c), ackno);
      if c.unacked[0].seg.seqno < ackno {
        var c1 := AckOne(c, env(round));
        AckOneMoves(c, env(round));
        AckOneGrows(c, env(round));
        TookNone(c1);
        if |c.unacked| > 1 { AckLoopTakes(c1, ackno, env, round + 1); }
        TookOneMore(c, c1, AckLoop(c, ackno, env, round), Leading(Rest(c1), ackno));
      }
    }
  }

  lemma AckOneGrows(c: Conn, e: AckEnv)
    requires c.unacked != []
    ensures |AckOne(c, e).unacked| >= |c.unacked| - 1
  {
    hide SendWindow;
    SendWindowMoves(Acknowledge(c, e.sendWindow), e.send);
  }

  /** As long as the run below ackno does not reach into the waiting segments, the ACK loop
      takes off exactly this run, although the nested window send appends to the list it
      walks. */
  lemma AckLoopTakesLeadingRun(c: Conn, ackno: uint32, env: nat -> AckEnv)
    requires RunEnds(c, ackno)
    ensures var c1, n := AckLoop(c, ackno, env, 0), Leading(Segs(c.unacked), ackno);
            && Segs(c1.h.removed) == Segs(c.h.removed) + Segs(c.unacked)[..n]
            && Segs(c1.unacked) + Segs(c1.toSend) == Segs(c.unacked)[n..] + Segs(c.toSend)
  {
    hide AckLoop;
    LeadingRest(c, ackno);
    AckLoopTakes(c, ackno, env, 0);
  }

  /** What the ACK loop should take off, and does for one choice of the environment. */
  ghost predicate TakesRun(c: Conn, ackno: uint32, env: nat -> AckEnv) {
    Segs(AckLoop(c, ackno, env, 0).h.removed) == Segs(c.h.removed) + Segs(c.unacked)[..Leading(Segs(c.unacked), ackno)]
  }

  /** A state in which the loop can run on into segments it has just moved itself: ackno
      lies beyond all unacknowledged segments and the first waiting one, and a segment is
      removed while another one is still to come and the window counter is not at its
      maximum. */
  predicate CanOverrun(c: Conn, ackno: uint32) {
    && !RunEnds(c, ackno)
    && |c.unacked| >= 2
    && (|c.unacked| == 2 ==> (c.window - Length(c.unacked[0].seg)) % TWO_16 != 0xffff)
  }

  /** For every state the sender can be in, also after sequence numbers have wrapped, and
      every acknowledgment, however wrong: the loop takes off exactly the leading run for
      every choice of congestion control if and only if it cannot overrun. */
  lemma AckLoopExact(c: Conn, ackno: uint32)
    requires Inv(c)
    ensures (forall env: nat -> AckEnv :: TakesRun(c, ackno, env)) <==> !CanOverrun(c, ackno)
  {
    hide Inv, TakesRun, CanOverrun;
    if CanOverrun(c, ackno) {
      Overruns(c, ackno);
    } else {
      forall env: nat -> AckEnv ensures TakesRun(c, ackno, env) { NoOverrun(c, ackno, env); }
    }
  }

  /** So an acknowledgment of the first d segments, all of them transmitted, removes no more
      than these for every choice of congestion control if and only if the leading run does
      not reach beyond them and the loop cannot overrun. */
  lemma RemovesOnlyAcknowledged(c: Conn, ackno: uint32, d: nat)
    requires Inv(c) && |c.h.removed| <= d <= |c.h.removed| + |c.unacked|
    ensures (forall env: nat -> AckEnv :: |AckLoop(c, ackno, env, 0).h.removed| <= d)
       <==> Leading(Segs(c.unacked), ackno) <= d - |c.h.removed| && !CanOverrun(c, ackno)
  {
    hide Inv, AckLoop, CanOverrun;
    if CanOverrun(c, ackno) {
      var env := RunsOver(c, ackno);
      assert |AckLoop(c, ackno, env, 0).h.removed| > d;
    } else {
      forall env: nat -> AckEnv
        ensures |AckLoop(c, ackno, env, 0).h.removed| == |c.h.removed| + Leading(Segs(c.unacked), ackno)
      {
        NoOverrun(c, ackno, env);
        TakenLength(c, ackno, env);
      }
      var env := (round: nat) => WideOpen(round);
      assert |AckLoop(c, ackno, env, 0).h.removed| == |c.h.removed| + Leading(Segs(c.unacked), ackno);
    }
  }

  lemma TakenLength(c: Conn, ackno: uint32, env: nat -> AckEnv)
    requires TakesRun(c, ackno, env)
    ensures |AckLoop(c, ackno, env, 0).h.removed| == |c.h.removed| + Leading(Segs(c.unacked), ackno)
  {
    hide AckLoop, Leading;
    assert |Segs(AckLoop(c, ackno, env, 0).h.removed)| == |AckLoop(c, ackno, env, 0).h.removed|;
  }

  lemma NoOverrun(c: Conn, ackno: uint32, env: nat -> AckEnv)
    requires !CanOverrun(c, ackno)
    ensures TakesRun(c, ackno, env)
  {
    hide AckLoop, Leading;
    if RunEnds(c, ackno) {
      AckLoopTakesLeadingRun(c, ackno, env);
    } else if |c.unacked| <= 1 {
      ShortRun(c, ackno, env, 0);
    } else {
      FullWindowRun(c, ackno, env);
    }
  }

  lemma ShortRun(c: Conn, ackno: uint32, env: nat -> AckEnv, round: nat)
    requires |c.unacked| <= 1
    ensures Segs(AckLoop(c, ackno, env, round).h.removed)
         == Segs(c.h.removed) + Segs(c.unacked)[..Leading(Segs(c.unacked), ackno)]
  {
    hide AckOne;
    if c.unacked != [] {
      AckOneMoves(c, env(round));
      assert Segs(c.unacked) == [Rest(c)[0]];
    }
  }

  /** With the counter at its maximum the nested call moves nothing. */
  lemma FullWindowRun(c: Conn, ackno: uint32, env: nat -> AckEnv)
    requires |c.unacked| == 2 && (c.window - Length(c.unacked[0].seg)) % TWO_16 == 0xffff
    ensures TakesRun(c, ackno, env)
  {
    var segs := Segs(c.unacked);
    HeadOfRest(c);
    assert Rest(c)[0] == segs[0];
    AckLoopStep(c, ackno, env, 0);
    hide AckOne, AckLoop, Leading, Rest, Length;
    LeadingStep(segs, ackno);
    if segs[0].seqno < ackno {
      var c1 := AckOne(c, env(0));
      FullWindowAck(c, env(0));
      AckOneMoves(c, env(0));
      assert |c1.unacked| == |Segs(c1.unacked)| == 1;
      hide Segs;
      ShortRun(c1, ackno, env, 1);
      var n := Leading(segs[1..], ackno);
      Chain(Segs(c.h.removed), segs[0], segs[1..][..n], segs[..n + 1]);
    }
  }

  lemma FullWindowAck(c: Conn, e: AckEnv)
    requires c.unacked != [] && (c.window - Length(c.unacked[0].seg)) % TWO_16 == 0xffff
    ensures Segs(AckOne(c, e).unacked) == Segs(c.unacked)[1..]
  {
    hide SendWindow;
    var acked := Acknowledge(c, e.sendWindow);
    FullWindowKeeps(acked, e.send);
    assert Segs(acked.unacked) == Segs(c.unacked)[1..];
  }

  lemma FullWindowKeeps(c: Conn, e: SendEnv)
    requires c.window == 0xffff
    ensures var c1 := SendWindow(c, e);
            Segs(c1.unacked) == Segs(c.unacked) && c1.toSend == c.toSend && c1.window == c.window
  {
    assert MoveWindow(c) == c;
    if !e.blocked {
      SendFromMoves(c, 0, e.pace);
      hide SendFrom, MoveWindow;
      var c1 := SendFrom(c, 0, e.pace);
      assert Segs(c1.unacked) == Rest(c1)[..|c.unacked|] && Segs(c.unacked) == Rest(c)[..|c.unacked|];
    }
  }

  ghost predicate Below(segs: seq<Segment>, m: nat, ackno: uint32) {
    m <= |segs| && forall i | 0 <= i < m :: segs[i].seqno < ackno
  }

  /** Whatever the environment does, m leading segments below ackno all go. */
  lemma {:induction false} TakesAtLeast(c: Conn, ackno: uint32, env: nat -> AckEnv, round: nat, m: nat)
    requires m <= |c.unacked| && Below(Rest(c), m, ackno)
    ensures |AckLoop(c, ackno, env, round).h.removed| >= |c.h.removed| + m
    decreases |c.unacked| + |c.toSend|
  {
    hide AckOne, Rest;
    if c.unacked != [] { HeadOfRest(c); }
    if c.unacked != [] && c.unacked[0].seg.seqno < ackno {
      var c1 := AckOne(c, env(round));
      AckOneMoves(c, env(round));
      AckOneGrows(c, env(round));
      assert |c1.h.removed| == |Segs(c1.h.removed)| == |c.h.removed| + 1;
      if |c.unacked| > 1 { TakesAtLeast(c1, ackno, env, round + 1, if m > 0 then m - 1 else 0); }
    }
  }

  /** Congestion control that opens the window wide and paces nothing. */
  function WideOpen(round: nat): AckEnv {
    AckEnv(0xffff, SendEnv(false, i => Pace(0, 0)))
  }

  /** It moves a waiting segment unless the counter is at its maximum. */
  lemma WideOpenMoves(c: Conn, round: nat)
    requires c.unacked != [] && c.toSend != []
    ensures var c1, w := AckOne(c, WideOpen(round)), (c.window - Length(c.unacked[0].seg)) % TWO_16;
            && Rest(c1) == Rest(c)[1..] && |c1.h.removed| == |c.h.removed| + 1
            && (w != 0xffff ==> |c1.unacked| >= |c.unacked|)
            && (w == 0xffff ==> Segs(c1.unacked) == Segs(c.unacked)[1..] && c1.toSend == c.toSend && c1.window == w)
  {
    hide SendWindow, Rest, Length, Acknowledge, AckOne, Segs;
    HeadOfRest(c);
    AckOneMoves(c, WideOpen(round));
    RemovedOne(c, AckOne(c, WideOpen(round)), Rest(c)[0]);
    var acked := Acknowledge(c, 0xffff);
    AckThenSend(c, WideOpen(round));
    if acked.window == 0xffff {
      FullWindowKeeps(acked, WideOpen(round).send);
      SegsTail(c.unacked);
    } else {
      OneMoves(acked, WideOpen(round).send);
    }
  }

  lemma AckThenSend(c: Conn, e: AckEnv)
    requires c.unacked != [] && c.toSend != []
    ensures var acked := Acknowledge(c, e.sendWindow);
            && AckOne(c, e) == SendWindow(acked, e.send)
            && acked.unacked == c.unacked[1..] && acked.toSend == c.toSend && acked.sendWindow == e.sendWindow
            && acked.window == (c.window - Length(c.unacked[0].seg)) % TWO_16
  {
    hide SendWindow, Length;
  }

  lemma RemovedOne(c: Conn, c1: Conn, seg: Segment)
    requires Segs(c1.h.removed) == Segs(c.h.removed) + [seg]
    ensures |c1.h.removed| == |c.h.removed| + 1
  {
    assert |Segs(c1.h.removed)| == |c1.h.removed|;
  }

  lemma SegsTail(infos: seq<SegInfo>)
    requires infos != []
    ensures Segs(infos[1..]) == Segs(infos)[1..]
  {
  }

  lemma MoveWindowOnce(c: Conn)
    requires c.window < c.sendWindow && c.toSend != []
    ensures MoveWindow(c) == MoveWindow(MoveOne(c)) && |MoveOne(c).unacked| == |c.unacked| + 1
  {
  }

  lemma MovedGrows(c: Conn, c1: Conn)
    requires Moved(c, c1)
    ensures |c1.unacked| >= |c.unacked|
  {
  }

  lemma OneMoves(c: Conn, e: SendEnv)
    requires c.window < c.sendWindow && c.toSend != []
    ensures |SendWindow(c, e).unacked| > |c.unacked|
  {
    hide SendFrom, MoveWindow, MoveOne, Moved;
    MoveWindowOnce(c);
    MoveWindowMoves(MoveOne(c));
    MovedGrows(MoveOne(c), MoveWindow(c));
    SendFromMoves(MoveWindow(c), 0, e.pace);
  }

  lemma {:induction false} LeadingIsBelow(segs: seq<Segment>, ackno: uint32)
    ensures Below(segs, Leading(segs, ackno), ackno)
    decreases |segs|
  {
    if segs != [] && segs[0].seqno < ackno {
      LeadingIsBelow(segs[1..], ackno);
      assert forall i | 0 < i < |segs| :: segs[i] == segs[1..][i - 1];
    }
  }

  lemma RunReachesWaiting(c: Conn, ackno: uint32)
    requires !RunEnds(c, ackno)
    ensures Below(Rest(c), |c.unacked| + 1, ackno)
  {
    hide Leading;
    LeadingIsBelow(Segs(c.unacked), ackno);
    assert Rest(c)[|c.unacked|] == c.toSend[0].seg;
    assert forall i | 0 <= i < |c.unacked| :: Rest(c)[i] == Segs(c.unacked)[i];
  }

  lemma UnackedSize(c: Conn, i: nat)
    requires Inv(c) && i < |c.unacked|
    ensures Length(c.unacked[i].seg) <= SEGMENT_LIMIT
  {
    hide StreamInv, LedgerInv, WindowInv, Fresh;
    assert Segs(All(c))[|c.h.removed| + i] == c.unacked[i].seg;
    SegmentSize(Segs(All(c)), c.h.read, c.currSeqno, |c.h.removed| + i);
  }

  /** A choice of congestion control for which it runs on. */
  lemma RunsOver(c: Conn, ackno: uint32) returns (env: nat -> AckEnv)
    requires Inv(c) && CanOverrun(c, ackno)
    ensures |AckLoop(c, ackno, env, 0).h.removed| > |c.h.removed| + |c.unacked|
  {
    hide Inv, AckLoop, Rest, Leading, WideOpen;
    env := (round: nat) => WideOpen(round);
    RunReachesWaiting(c, ackno);
    UnackedSize(c, 1);
    OverrunBy(c, ackno, env);
  }

  lemma Overruns(c: Conn, ackno: uint32)
    requires Inv(c) && CanOverrun(c, ackno)
    ensures exists env: nat -> AckEnv :: !TakesRun(c, ackno, env)
  {
    hide Inv, AckLoop, CanOverrun, TakesRun;
    var env := RunsOver(c, ackno);
    if TakesRun(c, ackno, env) { TakenLength(c, ackno, env); }
    assert !TakesRun(c, ackno, env);
  }

  lemma OverrunBy(c: Conn, ackno: uint32, env: nat -> AckEnv)
    requires CanOverrun(c, ackno) && (forall round :: env(round) == WideOpen(round))
    requires Below(Rest(c), |c.unacked| + 1, ackno) && Length(c.unacked[1].seg) <= SEGMENT_LIMIT
    ensures |AckLoop(c, ackno, env, 0).h.removed| > |c.h.removed| + |c.unacked|
  {
    hide AckOne, Rest, WideOpen, Leading;
    HeadOfRest(c);
    var c1 := AckOne(c, env(0));
    WideOpenMoves(c, 0);
    if |c1.unacked| >= |c.unacked| {
      TakesAtLeast(c1, ackno, env, 1, |c.unacked|);
    } else {
      HeadOfRest(c1);
      var c2 := AckOne(c1, env(1));
      WideOpenMoves(c1, 1);
      assert c1.unacked[0].seg == Segs(c1.unacked)[0] == c.unacked[1].seg;
      TakesAtLeast(c2, ackno, env, 2, |c.unacked| - 1);
    }
  }
}
