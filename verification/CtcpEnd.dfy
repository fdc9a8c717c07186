/** How a cTCP connection ends (lab3/ctcp.c): the FIN it sends, the answer to the one it
    receives, and when it is destroyed. */
module CtcpEnd {
  import opened Machine
  import opened Ctcp
  import opened CtcpSender

  // ---------------------------------------------------------------- the FIN that is sent

  /** How many FIN segments are among these. */
  function Fins(controls: seq<Segment>): nat
    decreases |controls|
  {
    if controls == [] then 0
    else Fins(controls[..|controls| - 1]) + if controls[|controls| - 1].fin then 1 else 0
  }

  lemma FinsOneMore(controls: seq<Segment>, s: Segment)
    ensures Fins(controls + [s]) == Fins(controls) + if s.fin then 1 else 0
  {
    assert (controls + [s])[..|controls|] == controls;
  }

  /** Before the end of the input no FIN has been sent. After it exactly one has, with the
      number after the last byte that was read, and no segment waits any more. */
  ghost predicate FinInv(c: Conn) {
    && Fins(c.h.controls) == (if c.eof then 1 else 0)
    && (forall i | 0 <= i < |c.h.controls| && c.h.controls[i].fin :: c.h.controls[i].seqno == c.currSeqno)
    && (c.eof ==> c.toSend == [])
  }

  /** What the sender's loops leave alone. */
  ghost predicate Untouched(c: Conn, c1: Conn) {
    && c1.h.controls == c.h.controls && c1.eof == c.eof && c1.finReceived == c.finReceived
    && c1.currAckno == c.currAckno && c1.finalTime == c.finalTime && c1.h.outputClosed == c.h.outputClosed
  }

  lemma {:induction false} MoveWindowSame(c: Conn)
    ensures var c1 := MoveWindow(c);
            Untouched(c, c1) && c1.currSeqno == c.currSeqno && c1.alive == c.alive && (c.toSend == [] ==> c1 == c)
    decreases |c.toSend|
  {
    if c.window < c.sendWindow && c.toSend != [] { MoveWindowSame(MoveOne(c)); }
  }

  lemma {:induction false} SendFromSame(c: Conn, i: nat, pace: nat -> Pace)
    ensures var c1 := SendFrom(c, i, pace); Untouched(c, c1) && c1.currSeqno == c.currSeqno && c1.alive == c.alive
    decreases |c.unacked| - i
  {
    if i < |c.unacked| {
      SendFromSame(if c.unacked[i].inFlight then c else SendOne(c, i, pace(i)), i + 1, pace);
    }
  }

  lemma SendWindowSame(c: Conn, e: SendEnv)
    ensures var c1 := SendWindow(c, e);
            && Untouched(c, c1) && c1.currSeqno == c.currSeqno && c1.alive == c.alive
            && (c.toSend == [] ==> c1.toSend == [])
  {
    hide MoveWindow, SendFrom;
    MoveWindowSame(c);
    SendFromSame(MoveWindow(c), 0, e.pace);
  }

  lemma {:induction false} AckLoopSame(c: Conn, ackno: uint32, env: nat -> AckEnv, round: nat)
    ensures var c1 := AckLoop(c, ackno, env, round);
            && Untouched(c, c1) && c1.currSeqno == c.currSeqno && c1.alive == c.alive
            && (c.toSend == [] ==> c1.toSend == [])
    decreases |c.unacked| + |c.toSend|
  {
    hide SendWindow;
    if c.unacked != [] && c.unacked[0].seg.seqno < ackno {
      SendWindowSame(Acknowledge(c, env(round).sendWindow), env(round).send);
      if |c.unacked| > 1 { AckLoopSame(AckOne(c, env(round)), ackno, env, round + 1); }
    }
  }

  lemma {:induction false} ReadChunksSame(c: Conn, chunks: seq<Chunk>, env: nat -> SendEnv, round: nat)
    ensures var c1 := ReadChunks(c, chunks, env, round); Untouched(c, c1) && c1.alive == c.alive
    decreases |chunks|
  {
    hide SendWindow;
    if chunks != [] {
      SendWindowSame(Prepare(c, chunks[0]), env(round));
      ReadChunksSame(SendWindow(Prepare(c, chunks[0]), env(round)), chunks[1..], env, round + 1);
    }
  }

  /** The connection is given up exactly if a segment has been sent again five times. */
  lemma {:induction false} TimerFromSame(c: Conn, i: nat, ticks: nat -> Tick)
    requires c.alive && forall k | 0 <= k < |c.unacked| :: c.unacked[k].retransmits < MAX_NUM_RETRANSMIT
    ensures var c1 := TimerFrom(c, i, ticks);
            && Untouched(c, c1) && c1.currSeqno == c.currSeqno && c1.toSend == c.toSend && |c1.unacked| == |c.unacked|
            && (c1.alive <==> forall k | 0 <= k < |c1.unacked| :: c1.unacked[k].retransmits < MAX_NUM_RETRANSMIT)
    decreases |c.unacked| - i
  {
    if i < |c.unacked| {
      var c1 := if TimedOut(c.unacked[i], c.rtTimeout, ticks(i).check) then ResendOne(c, i, ticks(i)) else c;
      if c1.unacked[i].retransmits < MAX_NUM_RETRANSMIT { TimerFromSame(c1, i + 1, ticks); }
    }
  }

  // ---------------------------------------------------------------- segments without data

  /** One segment without data has been sent: it carries the number after all that has been
      read and acknowledges the last segment received. */
  ghost predicate Adds(c: Conn, c1: Conn, fin: bool) {
    c1.h.controls == c.h.controls + [Segment(0, c1.currSeqno, c1.currAckno, !fin, fin, [])]
  }

  lemma ReadInputControls(c: Conn, chunks: seq<Chunk>, atEof: bool, env: nat -> SendEnv)
    ensures var c1 := ReadInput(c, chunks, atEof, env);
            && c1.finReceived == c.finReceived && c1.currAckno == c.currAckno && c1.alive == c.alive
            && c1.finalTime == c.finalTime && c1.h.outputClosed == c.h.outputClosed
            && (c.eof ==> c1 == c)
            && (!c.eof ==> (c1.eof <==> atEof && c1.toSend == []))
            && (c1.eof != c.eof ==> Adds(c, c1, true))
            && (c1.eof == c.eof ==> c1.h.controls == c.h.controls)
  {
    hide ReadChunks;
    if !c.eof { ReadChunksSame(c, chunks, env, 0); }
  }

  lemma OutputPendingControls(c: Conn, space: nat)
    ensures var c1 := OutputPending(c, space);
            && (c1 == c || Adds(c, c1, false))
            && c1.eof == c.eof && c1.toSend == c.toSend && c1.currSeqno == c.currSeqno && c1.currAckno == c.currAckno
            && c1.finReceived == c.finReceived && c1.alive == c.alive && c1.finalTime == c.finalTime
            && (c.h.outputClosed ==> c1.h.outputClosed) && c1.unacked == c.unacked
  {
  }

  lemma AcceptControls(c: Conn, seg: Segment, space: nat)
    ensures var c1 := Accept(c, seg, space);
            && (c1.h.controls == c.h.controls || Adds(c, c1, false))
            && c1.eof == c.eof && c1.toSend == c.toSend && c1.currSeqno == c.currSeqno
            && c1.currAckno == (seg.seqno + |seg.data|) % TWO_32
            && c1.finReceived == c.finReceived && c1.alive == c.alive && c1.finalTime == c.finalTime
            && (c.h.outputClosed ==> c1.h.outputClosed) && c1.unacked == c.unacked
  {
    hide OutputPending;
    var ackno := (seg.seqno + |seg.data|) % TWO_32;
    var c1 := c.(currAckno := ackno, prevAckno := if Duplicate(c, seg) then c.prevAckno else ackno);
    OutputPendingControls(c1.(pending := seg.data), space);
  }

  // ---------------------------------------------------------------- the FIN that arrives

  /** The first FIN to arrive intact. */
  predicate FirstFin(c: Conn, e: Event) {
    c.alive && e.SegmentArrives? && e.intact && e.seg.fin && !c.finReceived
  }

  /** An acknowledgment for a connection that has ended in both directions. */
  predicate AckAfterEnd(c: Conn, e: Event) {
    c.alive && e.SegmentArrives? && e.intact && e.seg.ack && c.finReceived && c.eof
  }

  /** The first FIN is answered by one acknowledgment and ends the output; nothing else
      changes, so the acknowledgment does not cover the FIN itself. */
  lemma FirstFinIsAnswered(c: Conn, e: Event)
    requires FirstFin(c, e)
    ensures var c1 := Step(c, e);
            && c1.finReceived && c1.h.outputClosed && c1.h.output == c.h.output && Adds(c, c1, false)
            && c1.alive && c1.unacked == c.unacked && c1.toSend == c.toSend && c1.pending == c.pending
            && c1.currAckno == c.currAckno && c1.prevAckno == c.prevAckno && c1.currSeqno == c.currSeqno
            && c1.eof == c.eof && c1.finalTime == c.finalTime
  {
    hide AckLoop, ReadInput, TimerPass, OutputPending, Accept;
  }

  /** What one step does to these parts of the state. */
  ghost predicate EndStep(c: Conn, e: Event, c1: Conn) {
    && (c1.finReceived <==> c.finReceived || FirstFin(c, e))
    && (c1.finReceived ==> c1.h.outputClosed)
    && (c1.h.controls == c.h.controls || Adds(c, c1, false) || (Adds(c, c1, true) && !c.eof && c1.eof))
    && (c.eof ==> c1.eof && c1.currSeqno == c.currSeqno && (c.toSend == [] ==> c1.toSend == []))
    && (!c.eof && c1.eof ==> Adds(c, c1, true) && c1.toSend == [])
    && (!c.eof && c.alive ==> (c1.eof <==> e.InputReady? && e.atEof && c1.toSend == []))
  }

  lemma ReceiveEnds(c: Conn, e: Event)
    requires c.alive && e.SegmentArrives? && (c.finReceived ==> c.h.outputClosed)
    ensures EndStep(c, e, Step(c, e))
  {
    hide AckLoop, ReadInput, TimerPass, OutputPending, Accept;
    if FirstFin(c, e) {
      FirstFinIsAnswered(c, e);
    } else if e.intact && !AckAfterEnd(c, e) {
      AckLoopSame(c, e.seg.ackno, e.acks, 0);
      AcceptControls(if e.seg.ack then AckLoop(c, e.seg.ackno, e.acks, 0) else c, e.seg, e.space);
    }
  }

  /** Both directions have ended and every segment has been acknowledged. */
  predicate Done(c: Conn) {
    c.finReceived && c.eof && c.unacked == [] && c.toSend == []
  }

  ghost predicate UsedUp(c: Conn) {
    exists k | 0 <= k < |c.unacked| :: c.unacked[k].retransmits >= MAX_NUM_RETRANSMIT
  }

  /** The closing wait started at finalTime and has lasted more than twice the timeout. */
  predicate WaitOver(c: Conn, finalNow: int) {
    Done(c) && c.finalTime != 0 && finalNow - c.finalTime > 2 * c.rtTimeout
  }

  /** A timer pass destroys the connection exactly if a segment has now been sent again five
      times or the closing wait is over; the wait starts at the first pass that finds the
      connection done. */
  lemma TimerPassEnds(c: Conn, ticks: nat -> Tick, finalNow: int)
    requires c.alive && Young(c)
    ensures var c1 := TimerPass(c, ticks, finalNow);
            && (!c1.alive <==> UsedUp(c1) || WaitOver(c, finalNow))
            && c1.finalTime == (if Done(c) && c.finalTime == 0 then finalNow else c.finalTime)
            && c1.h.controls == c.h.controls && c1.eof == c.eof && c1.finReceived == c.finReceived
            && c1.currSeqno == c.currSeqno && c1.currAckno == c.currAckno && c1.toSend == c.toSend
            && c1.h.outputClosed == c.h.outputClosed && |c1.unacked| == |c.unacked|
  {
    hide TimerFrom;
    TimerFromSame(c, 0, ticks);
  }

  lemma StepEnds(c: Conn, e: Event)
    requires (c.finReceived ==> c.h.outputClosed) && (c.alive ==> Young(c))
    ensures EndStep(c, e, Step(c, e))
  {
    hide ReadInput, Receive, TimerPass, OutputPending, Done, WaitOver, UsedUp;
    if c.alive {
      match e
      case InputReady(chunks, atEof, sends) => ReadInputControls(c, chunks, atEof, sends);
      case SegmentArrives(seg, intact, acks, space) => ReceiveEnds(c, e);
      case TimerFires(ticks, finalNow) => TimerPassEnds(c, ticks, finalNow);
      case OutputDrains(space) => OutputPendingControls(c, space);
      case OutputFails =>
    }
  }

  // ---------------------------------------------------------------- whole runs

  lemma {:induction false} NoFinYet(controls: seq<Segment>)
    ensures Fins(controls) == 0 ==> forall i | 0 <= i < |controls| :: !controls[i].fin
    decreases |controls|
  {
    if controls != [] { NoFinYet(controls[..|controls| - 1]); }
  }

  ghost predicate EndInv(c: Conn) {
    FinInv(c) && (c.finReceived ==> c.h.outputClosed)
  }

  lemma EndStepKeeps(c: Conn, e: Event, c1: Conn)
    requires EndInv(c) && EndStep(c, e, c1)
    ensures EndInv(c1)
  {
    hide Fins;
    NoFinYet(c.h.controls);
    if c1.h.controls != c.h.controls { FinsOneMore(c.h.controls, c1.h.controls[|c.h.controls|]); }
  }

  lemma InvParts(c: Conn)
    requires Inv(c)
    ensures (c.alive ==> Young(c)) && c.currSeqno == (INIT_SEQ_NUM + |c.h.read|) % TWO_32
  {
    hide LedgerInv, WindowInv, Fresh, Data, Numbered;
    var segs := Segs(All(c));
    assert segs[..|segs|] == segs;
  }

  lemma {:induction false} RunEnds(sendWindow: uint16, rtTimeout: int, events: seq<Event>)
    ensures EndInv(Run(Init(sendWindow, rtTimeout), events))
    decreases |events|
  {
    if events != [] {
      var before, e := events[..|events| - 1], events[|events| - 1];
      var c := Run(Init(sendWindow, rtTimeout), before);
      RunEnds(sendWindow, rtTimeout, before);
      RunKeeps(sendWindow, rtTimeout, before);
      InvParts(c);
      hide Inv, Step, EndStep, Young, FinInv;
      StepEnds(c, e);
      EndStepKeeps(c, e, Step(c, e));
    }
  }

  /** In every run: before the end of the input no FIN is sent. From then on exactly one has
      been, with the number after the last byte read, and nothing that was read still waits
      for its place in the window. */
  lemma FinOnce(sendWindow: uint16, rtTimeout: int, events: seq<Event>)
    ensures var c := Run(Init(sendWindow, rtTimeout), events);
            && Fins(c.h.controls) == (if c.eof then 1 else 0)
            && (c.eof ==> c.toSend == [])
            && forall i | 0 <= i < |c.h.controls| && c.h.controls[i].fin ::
                 c.h.controls[i].seqno == (INIT_SEQ_NUM + |c.h.read|) % TWO_32
  {
    RunEnds(sendWindow, rtTimeout, events);
    RunKeeps(sendWindow, rtTimeout, events);
    hide Run, Inv, Fins;
    InvParts(Run(Init(sendWindow, rtTimeout), events));
  }

  /** It is sent as soon as the input has ended and nothing waits, and only then. */
  lemma FinSentIff(sendWindow: uint16, rtTimeout: int, events: seq<Event>, e: Event)
    requires var c := Run(Init(sendWindow, rtTimeout), events); c.alive && !c.eof
    ensures var c := Run(Init(sendWindow, rtTimeout), events);
            Fins(Step(c, e).h.controls) == 1 <==> e.InputReady? && e.atEof && Step(c, e).toSend == []
  {
    var c := Run(Init(sendWindow, rtTimeout), events);
    RunEnds(sendWindow, rtTimeout, events);
    RunKeeps(sendWindow, rtTimeout, events);
    hide Run, Inv, Fins, Step, Young;
    InvParts(c);
    StepEnds(c, e);
    EndStepKeeps(c, e, Step(c, e));
  }

  /** Some event of the run was the first FIN. */
  ghost predicate FinCame(c: Conn, events: seq<Event>)
    decreases |events|
  {
    events != [] && var n := |events| - 1;
      FinCame(c, events[..n]) || FirstFin(Run(c, events[..n]), events[n])
  }

  /** In every run the peer's FIN is on record exactly if it came, and then the output has
      ended. */
  lemma {:induction false} FinReceivedIff(sendWindow: uint16, rtTimeout: int, events: seq<Event>)
    ensures var c := Run(Init(sendWindow, rtTimeout), events);
            (c.finReceived <==> FinCame(Init(sendWindow, rtTimeout), events)) && (c.finReceived ==> c.h.outputClosed)
    decreases |events|
  {
    RunEnds(sendWindow, rtTimeout, events);
    if events != [] {
      var before, e := events[..|events| - 1], events[|events| - 1];
      var c := Run(Init(sendWindow, rtTimeout), before);
      FinReceivedIff(sendWindow, rtTimeout, before);
      RunKeeps(sendWindow, rtTimeout, before);
      hide Inv, Step, Young, FinInv, FirstFin;
      InvParts(c);
      StepEnds(c, e);
    }
  }

  // ---------------------------------------------------------------- why a connection is destroyed

  /** An earlier timer pass found the connection done and noted this time. */
  ghost predicate WaitStarted(c0: Conn, events: seq<Event>, time: int) {
    exists i | 0 <= i < |events| ::
      events[i].TimerFires? && events[i].finalNow == time && Done(Run(c0, events[..i]))
  }

  lemma FinalTimeStep(c: Conn, e: Event)
    requires c.alive ==> Young(c)
    ensures Step(c, e).finalTime == c.finalTime
         || (e.TimerFires? && Done(c) && Step(c, e).finalTime == e.finalNow)
  {
    hide ReadInput, Receive, TimerPass, OutputPending;
    if c.alive {
      match e
      case InputReady(chunks, atEof, sends) => ReadInputControls(c, chunks, atEof, sends);
      case SegmentArrives(seg, intact, acks, space) => ReceiveFinalTime(c, seg, intact, acks, space);
      case TimerFires(ticks, finalNow) => TimerPassEnds(c, ticks, finalNow);
      case OutputDrains(space) => OutputPendingControls(c, space);
      case OutputFails =>
    }
  }

  lemma ReceiveFinalTime(c: Conn, seg: Segment, intact: bool, acks: nat -> AckEnv, space: nat)
    requires c.alive
    ensures var c1 := Receive(c, seg, intact, acks, space);
            && c1.finalTime == c.finalTime
            && (!c1.alive <==> intact && seg.ack && c.finReceived && c.eof)
  {
    hide AckLoop, Accept;
    AckLoopSame(c, seg.ackno, acks, 0);
    AcceptControls(if seg.ack then AckLoop(c, seg.ackno, acks, 0) else c, seg, space);
  }

  lemma {:induction false} WaitHasStarted(sendWindow: uint16, rtTimeout: int, events: seq<Event>)
    ensures var c0 := Init(sendWindow, rtTimeout);
            var time := Run(c0, events).finalTime;
            time != 0 ==> WaitStarted(c0, events, time)
    decreases |events|
  {
    if events != [] {
      var c0 := Init(sendWindow, rtTimeout);
      var n := |events| - 1;
      var before := events[..n];
      WaitHasStarted(sendWindow, rtTimeout, before);
      RunKeeps(sendWindow, rtTimeout, before);
      var c := Run(c0, before);
      hide Inv, Step, Young, Done;
      InvParts(c);
      FinalTimeStep(c, events[n]);
      var time := Run(c0, events).finalTime;
      if time != 0 && time == c.finalTime {
        var i :| 0 <= i < n && before[i].TimerFires? && before[i].finalNow == time && Done(Run(c0, before[..i]));
        assert events[i] == before[i] && events[..i] == before[..i];
      }
    }
  }

  lemma DestroyedStep(c: Conn, e: Event)
    requires c.alive && Young(c)
    ensures !Step(c, e).alive
       <==> AckAfterEnd(c, e) || (e.TimerFires? && (UsedUp(Step(c, e)) || WaitOver(c, e.finalNow)))
  {
    hide ReadInput, Receive, TimerPass, OutputPending, Young, Done, WaitOver, UsedUp;
    match e
    case InputReady(chunks, atEof, sends) => ReadInputControls(c, chunks, atEof, sends);
    case SegmentArrives(seg, intact, acks, space) => ReceiveFinalTime(c, seg, intact, acks, space);
    case TimerFires(ticks, finalNow) => TimerPassEnds(c, ticks, finalNow);
    case OutputDrains(space) => OutputPendingControls(c, space);
    case OutputFails =>
  }

  /** Why a living connection is destroyed, in every run: by an acknowledgment that arrives
      when both directions have ended, or by a timer pass with which a segment has been sent
      again five times, or by one more than twice the timeout after another pass that had
      already found the connection done. */
  lemma WhyDestroyed(sendWindow: uint16, rtTimeout: int, events: seq<Event>, e: Event)
    requires Run(Init(sendWindow, rtTimeout), events).alive
    ensures var c0 := Init(sendWindow, rtTimeout);
            var c := Run(c0, events);
            && (!Step(c, e).alive
                <==> AckAfterEnd(c, e) || (e.TimerFires? && (UsedUp(Step(c, e)) || WaitOver(c, e.finalNow))))
            && (e.TimerFires? && WaitOver(c, e.finalNow) ==>
                  exists time :: WaitStarted(c0, events, time) && e.finalNow - time > 2 * rtTimeout)
  {
    var c0 := Init(sendWindow, rtTimeout);
    var c := Run(c0, events);
    RunKeeps(sendWindow, rtTimeout, events);
    WaitHasStarted(sendWindow, rtTimeout, events);
    assert c.rtTimeout == rtTimeout;
    hide Run, Inv, Step, Young, Done, UsedUp, WaitStarted, AckAfterEnd;
    InvParts(c);
    DestroyedStep(c, e);
  }

  // ---------------------------------------------------------------- acknowledgment numbers

  /** e is a segment that gets as far as the acknowledgment numbers. */
  predicate Passes(c: Conn, e: Event) {
    c.alive && e.SegmentArrives? && e.intact && !FirstFin(c, e) && !AckAfterEnd(c, e)
  }

  /** The number after the last segment that got past the checks, 1 before the first. */
  function LastEnd(c0: Conn, events: seq<Event>): uint32
    decreases |events|
  {
    if events == [] then c0.currAckno
    else
      var n := |events| - 1;
      var c, e := Run(c0, events[..n]), events[n];
      if Passes(c, e) then (e.seg.seqno + |e.seg.data|) % TWO_32 else LastEnd(c0, events[..n])
  }

  lemma AcknoStep(c: Conn, e: Event)
    requires c.alive ==> Young(c)
    ensures Step(c, e).currAckno
         == if Passes(c, e) then (e.seg.seqno + |e.seg.data|) % TWO_32 else c.currAckno
  {
    hide ReadInput, TimerPass, OutputPending, AckLoop, Accept;
    if c.alive {
      match e
      case InputReady(chunks, atEof, sends) => ReadInputControls(c, chunks, atEof, sends);
      case SegmentArrives(seg, intact, acks, space) =>
        AckLoopSame(c, seg.ackno, acks, 0);
        AcceptControls(if seg.ack then AckLoop(c, seg.ackno, acks, 0) else c, seg, space);
      case TimerFires(ticks, finalNow) => TimerPassEnds(c, ticks, finalNow);
      case OutputDrains(space) => OutputPendingControls(c, space);
      case OutputFails =>
    }
  }

  lemma OneEventMore(c0: Conn, before: seq<Event>, e: Event)
    ensures Run(c0, before + [e]) == Step(Run(c0, before), e)
    ensures LastEnd(c0, before + [e])
         == if Passes(Run(c0, before), e) then (e.seg.seqno + |e.seg.data|) % TWO_32 else LastEnd(c0, before)
  {
    hide Step, Passes;
    assert (before + [e])[..|before|] == before;
  }

  /** In every run what the next acknowledgment says is the number after the last segment
      that arrived, also if that was an old one. */
  lemma {:induction false} AcknoFollowsLast(sendWindow: uint16, rtTimeout: int, events: seq<Event>)
    ensures Run(Init(sendWindow, rtTimeout), events).currAckno == LastEnd(Init(sendWindow, rtTimeout), events)
    decreases |events|
  {
    if events != [] {
      var before, e := events[..|events| - 1], events[|events| - 1];
      assert before + [e] == events;
      AcknoFollowsLast(sendWindow, rtTimeout, before);
      RunKeeps(sendWindow, rtTimeout, before);
      OneEventMore(Init(sendWindow, rtTimeout), before, e);
      hide *;
      InvParts(Run(Init(sendWindow, rtTimeout), before));
      AcknoStep(Run(Init(sendWindow, rtTimeout), before), e);
    }
  }

  /** In every run a step sends at most one segment without data, with the number after all
      that has been read and the acknowledgment of the last segment that arrived. */
  lemma ControlsAreCurrent(sendWindow: uint16, rtTimeout: int, events: seq<Event>, e: Event)
    ensures var c0 := Init(sendWindow, rtTimeout);
            var c, c1 := Run(c0, events), Run(c0, events + [e]);
            c1.h.controls != c.h.controls ==>
              && |c1.h.controls| == |c.h.controls| + 1 && c.h.controls <= c1.h.controls
              && var s := c1.h.controls[|c.h.controls|];
                 && s.seqno == (INIT_SEQ_NUM + |c1.h.read|) % TWO_32 && s.ackno == LastEnd(c0, events + [e])
                 && s.data == [] && (s.ack <==> !s.fin)
  {
    var c0 := Init(sendWindow, rtTimeout);
    assert (events + [e])[..|events|] == events;
    RunEnds(sendWindow, rtTimeout, events);
    RunKeeps(sendWindow, rtTimeout, events);
    RunKeeps(sendWindow, rtTimeout, events + [e]);
    AcknoFollowsLast(sendWindow, rtTimeout, events + [e]);
    var c, c1 := Run(c0, events), Run(c0, events + [e]);
    assert c1 == Step(c, e);
    hide Run, Inv, Step, Young, FinInv, LastEnd, FirstFin;
    InvParts(c);
    InvParts(c1);
    StepEnds(c, e);
  }
}
