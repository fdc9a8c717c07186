/** The connection state of lab3/ctcp.c and its handlers, with the loops of the source.
    Each method computes the function of the same purpose in Ctcp.dfy, which the run
    invariants of the other Ctcp modules are about. Where the source reads a list node
    it has just freed (ACK loop, timer loop), the successor is settled first. */
module CtcpConnection {
  import opened Machine
  import opened Ctcp
  import opened CtcpLists
  import opened DoublyLinkedList

  // ---------------------------------------------------------------- one unfolding each

  lemma MoveWindowStep(c: Conn)
    ensures MoveWindow(c) == if c.window < c.sendWindow && c.toSend != [] then MoveWindow(MoveOne(c)) else c
  {
  }

  lemma Shorter(c: Conn)
    requires c.toSend != []
    ensures MoveOne(c).toSend == c.toSend[1..]
  {
  }

  lemma SendFromStep(c: Conn, i: nat, pace: nat -> Pace)
    ensures SendFrom(c, i, pace)
         == if i >= |c.unacked| then c
            else SendFrom(if c.unacked[i].inFlight then c else SendOne(c, i, pace(i)), i + 1, pace)
  {
  }

  lemma TimerFromStep(c: Conn, i: nat, ticks: nat -> Tick)
    ensures TimerFrom(c, i, ticks)
         == if i >= |c.unacked| then c
            else
              var c1 := if TimedOut(c.unacked[i], c.rtTimeout, ticks(i).check) then ResendOne(c, i, ticks(i)) else c;
              if c1.unacked[i].retransmits >= MAX_NUM_RETRANSMIT then c1.(alive := false)
              else TimerFrom(c1, i + 1, ticks)
  {
  }

  lemma SameLength(c: Conn, i: nat, t: Tick)
    requires i < |c.unacked|
    ensures |ResendOne(c, i, t).unacked| == |c.unacked|
  {
  }

  lemma ReadChunksStep(c: Conn, chunks: seq<Chunk>, env: nat -> SendEnv, k: nat)
    ensures ReadChunks(c, chunks, env, k)
         == if chunks == [] then c
            else ReadChunks(SendWindow(Prepare(c, chunks[0]), env(k)), chunks[1..], env, k + 1)
  {
  }

  lemma StillThere(c: Conn, e: AckEnv)
    requires c.unacked != []
    ensures |AckOne(c, e).unacked| >= |c.unacked| - 1
  {
    Slides(Acknowledge(c, e.sendWindow));
  }

  lemma AckShortens(c: Conn, e: AckEnv)
    requires c.unacked != []
    ensures |AckOne(c, e).unacked| + |AckOne(c, e).toSend| == |c.unacked| + |c.toSend| - 1
  {
  }

  lemma {:induction false} Slides(c: Conn)
    ensures |MoveWindow(c).unacked| >= |c.unacked|
    decreases |c.toSend|
  {
    if c.window < c.sendWindow && c.toSend != [] { Slides(MoveOne(c)); }
  }

  // ---------------------------------------------------------------- the connection

  class CtcpState {
    const lists: SegLists
    var prepared: nat
    var prevAckno: uint32
    var currSeqno: uint32
    var currAckno: uint32
    var window: uint16
    var sendWindow: uint16
    var rtTimeout: int
    var eof: bool
    var finReceived: bool
    var pending: seq<byte>
    var finalTime: int
    var alive: bool
    ghost var h: History

    ghost predicate Valid()
      reads lists, lists.repr, lists.unackedSegs, lists.segsToSend, lists.unackedSegs.nodes, lists.segsToSend.nodes
      reads lists.sent, lists.waiting
    {
      lists.Valid() && this !in lists.repr
    }

    ghost function View(): Conn
      reads this, lists
    {
      Conn(lists.unacked, lists.toSend, prepared, prevAckno, currSeqno, currAckno, window, sendWindow,
           rtTimeout, eof, finReceived, pending, finalTime, alive, h)
    }

    lemma Fields()
      ensures var c := View();
              && c.unacked == lists.unacked && c.toSend == lists.toSend && c.window == window
              && c.sendWindow == sendWindow && c.rtTimeout == rtTimeout && c.alive == alive && c.h == h
    {
    }

    /** ctcp_init */
    constructor (initialSendWindow: uint16, timeout: int)
      ensures Valid() && fresh(lists) && fresh(lists.repr) && View() == Init(initialSendWindow, timeout)
    {
      lists := new SegLists();
      prepared := 0;
      prevAckno, currSeqno, currAckno := INIT_SEQ_NUM, INIT_SEQ_NUM, INIT_SEQ_NUM;
      window, sendWindow, rtTimeout := 0, initialSendWindow, timeout;
      eof, finReceived, pending, finalTime, alive := false, false, [], 0, true;
      h := History([], [], 0, initialSendWindow, [], [], [], [], false);
    }

    /** ctcp_prep_data_segment */
    method PrepDataSegment(data: Chunk)
      requires Valid()
      modifies this`prepared, this`currSeqno, this`h, lists, lists.repr
      ensures Valid() && fresh(lists.repr - old(lists.repr))
      ensures View() == Prepare(old(View()), data)
    {
      var seg := Segment(prepared, currSeqno, currAckno, true, false, data);
      hide SegLists.Valid;
      lists.Wait(seg);
      prepared := prepared + 1;
      currSeqno := (currSeqno + |data|) % TWO_32;
      h := h.(read := h.read + data);
    }

    /** The first waiting segment moves into the window. */
    method SlideOne()
      requires Valid() && lists.toSend != []
      modifies this`window, lists, lists.repr
      ensures Valid() && fresh(lists.repr - old(lists.repr))
      ensures old(lists.unackedSegs.nodes) <= lists.unackedSegs.nodes
      ensures View() == MoveOne(old(View()))
    {
      hide SegLists.Valid;
      var seg := lists.MoveFirst();
      window := (window + Length(seg)) % TWO_16;
    }

    /** First loop of ctcp_send_sliding_window. */
    method SlideWindow()
      requires Valid()
      modifies this`window, lists, lists.repr
      ensures Valid() && fresh(lists.repr - old(lists.repr))
      ensures old(lists.unackedSegs.nodes) <= lists.unackedSegs.nodes
      ensures View() == MoveWindow(old(View()))
    {
      hide MoveWindow, MoveOne, SegLists.Valid, View;
      Fields();
      var front := lists.FirstToSend();
      while window < sendWindow && front != null
        invariant Valid() && fresh(lists.repr - old(lists.repr))
        invariant old(lists.unackedSegs.nodes) <= lists.unackedSegs.nodes
        invariant front == null <==> lists.toSend == []
        invariant MoveWindow(View()) == MoveWindow(old(View()))
        decreases |lists.toSend|
      {
        Fields();
        MoveWindowStep(View());
        Shorter(View());
        SlideOne();
        Fields();
        front := lists.FirstToSend();
      }
      Fields();
      MoveWindowStep(View());
    }

    /** One round of the second loop. */
    method SendNext(node: Node, ghost i: nat, p: Pace)
      requires Valid() && i < |lists.unacked| && node == lists.SentNode(i)
      modifies this`h, lists, lists.repr
      ensures Valid() && lists.repr == old(lists.repr) && lists.unackedSegs.nodes == old(lists.unackedSegs.nodes)
      ensures View() == if old(View()).unacked[i].inFlight then old(View()) else SendOne(old(View()), i, p)
    {
      hide SegLists.Valid, SendOne;
      var s := lists.InfoOf(node, i);
      if !s.inFlight { Transmit(node, i, s, p); }
    }

    /** Second loop of ctcp_send_sliding_window. */
    method SendUnsent(pace: nat -> Pace)
      requires Valid()
      modifies this`h, lists, lists.repr
      ensures Valid() && lists.repr == old(lists.repr) && lists.unackedSegs.nodes == old(lists.unackedSegs.nodes)
      ensures View() == SendFrom(old(View()), 0, pace)
    {
      hide SendFrom, SegLists.Valid, View;
      Fields();
      var node := lists.FirstSent();
      var i := 0;
      while node != null
        invariant Valid() && lists.repr == old(lists.repr) && lists.unackedSegs.nodes == old(lists.unackedSegs.nodes)
        invariant |lists.unacked| == |old(lists.unacked)| && i <= |lists.unacked|
        invariant node == lists.SentNode(i) && (node == null <==> i == |lists.unacked|)
        invariant SendFrom(View(), i, pace) == SendFrom(old(View()), 0, pace)
        decreases |lists.unacked| - i
      {
        Fields();
        SendFromStep(View(), i, pace);
        SendNext(node, i, pace(i));
        Fields();
        node := lists.NextOf(node, i);
        i := i + 1;
      }
      Fields();
      SendFromStep(View(), i, pace);
    }

    method Transmit(node: Node, ghost i: nat, s: SegInfo, p: Pace)
      requires Valid() && i < |lists.unacked| && node == lists.SentNode(i) && s == lists.unacked[i]
      modifies this`h, lists, lists.repr
      ensures Valid() && lists.repr == old(lists.repr) && lists.unackedSegs.nodes == old(lists.unackedSegs.nodes)
      ensures View() == SendOne(old(View()), i, p)
    {
      hide SegLists.Valid;
      lists.MarkSent(node, i, p.stamp);
      h := h.(log := h.log + [Tx(s.seg.id, p.stamp, p.stamp + p.wait, false)],
              firstCopies := FirstCopy(h.firstCopies, s.seg));
    }

    /** ctcp_send_sliding_window: slide, then send what is not in flight yet. */
    method SendSlidingWindow(e: SendEnv)
      requires Valid()
      modifies this`window, this`h, lists, lists.repr
      ensures Valid() && fresh(lists.repr - old(lists.repr))
      ensures old(lists.unackedSegs.nodes) <= lists.unackedSegs.nodes
      ensures View() == SendWindow(old(View()), e)
    {
      hide MoveWindow, SendFrom, SegLists.Valid;
      SlideWindow();
      if !e.blocked { SendUnsent(e.pace); }
    }

    /** ctcp_send_non_data_segment */
    method SendNonDataSegment(ack: bool, fin: bool)
      modifies this`h
      ensures View() == SendControl(old(View()), ack, fin)
    {
      ghost var seg := Segment(0, currSeqno, currAckno, ack, fin, []);
      h := h.(controls := h.controls + [seg]);
    }

    /** conn_output with room to spare. */
    method ConnOutput(data: seq<byte>)
      modifies this`h
      ensures View() == Output(old(View()), data)
    {
      if h.outputClosed {
      } else if data == [] {
        h := h.(outputClosed := true);
      } else {
        h := h.(output := h.output + data);
      }
    }

    /** ctcp_output */
    method CtcpOutput(space: nat)
      modifies this`h, this`pending
      ensures View() == OutputPending(old(View()), space)
    {
      if space >= |pending| {
        SendNonDataSegment(true, false);
        ConnOutput(pending);
        pending := [];
      }
    }

    /** The acknowledged first node leaves the list. */
    method RemoveFirst(s: SegInfo, newSendWindow: uint16)
      requires Valid() && lists.unacked != [] && s == lists.unacked[0]
      modifies this`sendWindow, this`window, this`h, lists, lists.repr
      ensures Valid() && lists.repr == old(lists.repr)
      ensures old(lists.unackedSegs.nodes) != [] && lists.unackedSegs.nodes == old(lists.unackedSegs.nodes)[1..]
      ensures View() == Acknowledge(old(View()), newSendWindow)
    {
      hide SegLists.Valid;
      sendWindow := newSendWindow;
      window := (window - Length(s.seg)) % TWO_16;
      h := h.(removed := h.removed + [s],
              maxSendWindow := if h.maxSendWindow < sendWindow then sendWindow else h.maxSendWindow);
      lists.DropFirst();
    }

    /** One round of the ACK loop. */
    method AcknowledgeFirst(s: SegInfo, e: AckEnv)
      requires Valid() && lists.unacked != [] && s == lists.unacked[0]
      modifies this`sendWindow, this`window, this`h, lists, lists.repr
      ensures Valid() && fresh(lists.repr - old(lists.repr))
      ensures old(lists.unackedSegs.nodes) != [] && old(lists.unackedSegs.nodes)[1..] <= lists.unackedSegs.nodes
      ensures View() == AckOne(old(View()), e)
    {
      hide SendWindow, SegLists.Valid;
      RemoveFirst(s, e.sendWindow);
      var front := lists.FirstToSend();
      if front != null { SendSlidingWindow(e.send); }
    }

    /** One round of the ACK loop. The node after the current one is the first one of the
        shortened list, also after the nested call has appended to it. */
    method AckRound(node: Node, s: SegInfo, e: AckEnv) returns (next: Node?)
      requires Valid() && lists.unacked != [] && node == lists.SentNode(0) && s == lists.unacked[0]
      modifies this`sendWindow, this`window, this`h, lists, lists.repr
      ensures Valid() && fresh(lists.repr - old(lists.repr))
      ensures View() == AckOne(old(View()), e)
      ensures next == null <==> |old(lists.unacked)| == 1
      ensures next != null ==> lists.unacked != [] && next == lists.SentNode(0)
    {
      hide AckOne, SegLists.Valid, View;
      Fields();
      StillThere(View(), e);
      next := lists.NextOf(node, 0);
      AcknowledgeFirst(s, e);
      Fields();
    }

    /** The ACK loop of ctcp_receive. */
    method RemoveAcknowledged(ackno: uint32, env: nat -> AckEnv)
      requires Valid()
      modifies this`sendWindow, this`window, this`h, lists, lists.repr
      ensures Valid() && fresh(lists.repr - old(lists.repr))
      ensures View() == AckLoop(old(View()), ackno, env, 0)
    {
      hide AckLoop, AckOne, SegLists.Valid, View, SegLists.SentNode;
      Fields();
      AckLoopStep(View(), ackno, env, 0);
      var node := lists.FirstSent();
      var round := 0;
      while node != null
        invariant Valid() && fresh(lists.repr - old(lists.repr))
        invariant node != null ==> lists.unacked != [] && node == lists.SentNode(0)
        invariant node != null ==> AckLoop(View(), ackno, env, round) == AckLoop(old(View()), ackno, env, 0)
        invariant node == null ==> View() == AckLoop(old(View()), ackno, env, 0)
        decreases node != null, |lists.unacked| + |lists.toSend|
      {
        Fields();
        AckLoopStep(View(), ackno, env, round);
        AckShortens(View(), env(round));
        var s := lists.InfoOf(node, 0);
        if s.seg.seqno >= ackno { return; }
        node := AckRound(node, s, env(round));
        Fields();
        round := round + 1;
      }
    }

    /** The part of ctcp_receive after the ACK loop. */
    method AcceptSegment(seg: Segment, space: nat)
      modifies this`currAckno, this`prevAckno, this`pending, this`h
      ensures View() == Accept(old(View()), seg, space)
    {
      currAckno := (seg.seqno + |seg.data|) % TWO_32;
      var duplicate := seg.seqno < prevAckno;
      if !duplicate { prevAckno := currAckno; }
      if seg.data != [] && !duplicate {
        pending := seg.data;
        CtcpOutput(space);
      }
    }

    /** ctcp_receive */
    method Receive(seg: Segment, intact: bool, env: nat -> AckEnv, space: nat)
      requires Valid()
      modifies this, lists, lists.repr
      ensures Valid() && fresh(lists.repr - old(lists.repr))
      ensures View() == Ctcp.Receive(old(View()), seg, intact, env, space)
    {
      hide AckLoop, Accept, SegLists.Valid;
      if !intact { return; }
      if seg.fin && !finReceived {
        finReceived := true;
        SendNonDataSegment(true, false);
        ConnOutput([]);
        return;
      }
      if seg.ack {
        if finReceived && eof {
          alive := false;
          return;
        }
        RemoveAcknowledged(seg.ackno, env);
      }
      AcceptSegment(seg, space);
    }

    method Resend(node: Node, ghost i: nat, s: SegInfo, t: Tick)
      requires Valid() && i < |lists.unacked| && node == lists.SentNode(i) && s == lists.unacked[i]
      modifies this`window, this`h, lists, lists.repr
      ensures Valid() && lists.repr == old(lists.repr) && lists.unackedSegs.nodes == old(lists.unackedSegs.nodes)
      ensures View() == ResendOne(old(View()), i, t)
    {
      hide SegLists.Valid;
      var stamp := t.check + t.delay;
      window := (window - Length(s.seg)) % TWO_16;
      lists.MarkResent(node, i, stamp);
      h := h.(log := h.log + [Tx(s.seg.id, stamp, stamp, true)],
              firstCopies := FirstCopy(h.firstCopies, s.seg),
              timerBytes := h.timerBytes + Length(s.seg));
    }

    /** One round of the timer loop; over says whether the segment has used up its
        retransmissions. */
    method CheckTimer(node: Node, ghost i: nat, t: Tick) returns (over: bool)
      requires Valid() && i < |lists.unacked| && node == lists.SentNode(i)
      modifies this`window, this`h, lists, lists.repr
      ensures Valid() && lists.repr == old(lists.repr) && lists.unackedSegs.nodes == old(lists.unackedSegs.nodes)
      ensures View() == (if TimedOut(old(View()).unacked[i], rtTimeout, t.check) then ResendOne(old(View()), i, t)
                         else old(View()))
      ensures i < |View().unacked| && (over <==> View().unacked[i].retransmits >= MAX_NUM_RETRANSMIT)
    {
      hide SegLists.Valid, ResendOne;
      var s := lists.InfoOf(node, i);
      if t.check - s.prevSent > rtTimeout && s.retransmits < MAX_NUM_RETRANSMIT {
        SameLength(View(), i, t);
        Resend(node, i, s, t);
        s := lists.InfoOf(node, i);
      }
      over := s.retransmits >= MAX_NUM_RETRANSMIT;
    }

    /** The retransmission loop of ctcp_timer. */
    method ResendTimedOut(ticks: nat -> Tick)
      requires Valid()
      modifies this`window, this`h, this`alive, lists, lists.repr
      ensures Valid() && lists.repr == old(lists.repr)
      ensures View() == TimerFrom(old(View()), 0, ticks)
    {
      hide TimerFrom, SegLists.Valid, View, ResendOne;
      Fields();
      var node := lists.FirstSent();
      var i := 0;
      while node != null
        invariant Valid() && lists.repr == old(lists.repr)
        invariant i <= |lists.unacked| && node == lists.SentNode(i) && (node == null <==> i == |lists.unacked|)
        invariant TimerFrom(View(), i, ticks) == TimerFrom(old(View()), 0, ticks)
        decreases |lists.unacked| - i
      {
        Fields();
        TimerFromStep(View(), i, ticks);
        SameLength(View(), i, ticks(i));
        var over := CheckTimer(node, i, ticks(i));
        Fields();
        if over {
          GiveUp();
          return;
        }
        node := lists.NextOf(node, i);
        i := i + 1;
      }
      Fields();
      TimerFromStep(View(), i, ticks);
    }

    /** ctcp_destroy, as far as the connection itself can tell. */
    method GiveUp()
      requires Valid()
      modifies this`alive
      ensures Valid() && View() == old(View()).(alive := false)
    {
      hide SegLists.Valid;
      alive := false;
    }

    /** One connection's share of ctcp_timer. */
    method Timer(ticks: nat -> Tick, finalNow: int)
      requires Valid()
      modifies this, lists, lists.repr
      ensures Valid() && fresh(lists.repr - old(lists.repr))
      ensures View() == TimerPass(old(View()), ticks, finalNow)
    {
      hide TimerFrom, SegLists.Valid;
      ResendTimedOut(ticks);
      var unacked := lists.FirstSent();
      var toSend := lists.FirstToSend();
      if alive && finReceived && eof && unacked == null && toSend == null {
        if finalTime == 0 {
          finalTime := finalNow;
        } else if finalNow - finalTime > 2 * rtTimeout {
          alive := false;
        }
      }
    }

    /** The input loop of ctcp_read. */
    method ReadAll(chunks: seq<Chunk>, env: nat -> SendEnv)
      requires Valid()
      modifies this`window, this`h, this`prepared, this`currSeqno, lists, lists.repr
      ensures Valid() && fresh(lists.repr - old(lists.repr))
      ensures View() == ReadChunks(old(View()), chunks, env, 0)
    {
      hide ReadChunks, Prepare, SendWindow, SegLists.Valid;
      var k := 0;
      assert chunks[0..] == chunks;
      while k < |chunks|
        invariant k <= |chunks| && Valid() && fresh(lists.repr - old(lists.repr))
        invariant ReadChunks(View(), chunks[k..], env, k) == ReadChunks(old(View()), chunks, env, 0)
      {
        ReadChunksStep(View(), chunks[k..], env, k);
        assert chunks[k..][1..] == chunks[k + 1..];
        PrepDataSegment(chunks[k]);
        SendSlidingWindow(env(k));
        k := k + 1;
      }
      assert chunks[k..] == [];
      ReadChunksStep(View(), chunks[k..], env, k);
    }

    /** ctcp_read */
    method Read(chunks: seq<Chunk>, atEof: bool, env: nat -> SendEnv)
      requires Valid()
      modifies this, lists, lists.repr
      ensures Valid() && fresh(lists.repr - old(lists.repr))
      ensures View() == ReadInput(old(View()), chunks, atEof, env)
    {
      hide ReadChunks, SegLists.Valid;
      if eof { return; }
      ReadAll(chunks, env);
      var front := lists.FirstToSend();
      if atEof && front == null {
        eof := true;
        SendNonDataSegment(false, true);
      }
    }

    /** One event: the library calls the handler for it as long as the connection lives. */
    method Handle(e: Event)
      requires Valid()
      modifies this, lists, lists.repr
      ensures Valid() && fresh(lists.repr - old(lists.repr))
      ensures View() == Step(old(View()), e)
    {
      hide ReadInput, Ctcp.Receive, TimerPass, OutputPending, SegLists.Valid;
      if !alive { return; }
      match e
      case InputReady(chunks, atEof, sends) => Read(chunks, atEof, sends);
      case SegmentArrives(seg, intact, acks, space) => Receive(seg, intact, acks, space);
      case TimerFires(ticks, finalNow) => Timer(ticks, finalNow);
      case OutputDrains(space) => CtcpOutput(space);
      case OutputFails => h := h.(outputClosed := true);
    }

    /** Whole runs: what the run lemmas say of Run holds of the object after these calls. */
    method HandleAll(events: seq<Event>)
      requires Valid()
      modifies this, lists, lists.repr
      ensures Valid() && fresh(lists.repr - old(lists.repr))
      ensures View() == Run(old(View()), events)
    {
      hide Step, SegLists.Valid;
      var k := 0;
      while k < |events|
        invariant Valid() && fresh(lists.repr - old(lists.repr))
        invariant k <= |events| && View() == Run(old(View()), events[..k])
      {
        assert events[..k + 1][..k] == events[..k];
        Handle(events[k]);
        k := k + 1;
      }
      assert events[..k] == events;
    }
  }
}
