/** What one cTCP connection does (lab3/ctcp.c), written as functions on its state.
    The methods of CtcpState.dfy compute them with the loops of the source; the
    other Ctcp modules prove what every run of them keeps.

    Congestion control is arbitrary: whatever BBR decides enters as the send window
    set on each acknowledgment, whether a call of the window sender transmits, and
    how long each transmission waits for its pacing slot. */
module Ctcp {
  import opened Machine

  const INIT_SEQ_NUM := 1
  const MAX_NUM_RETRANSMIT := 5
  const HEADER_SIZE := 20
  const MAX_SEG_DATA_SIZE := 11520

  /** What one conn_input call can return besides "nothing" and "end of file". */
  type Chunk = c: seq<byte> | 0 < |c| <= MAX_SEG_DATA_SIZE witness [0]

  /** A segment. id names its allocation (the n-th data segment prepared); nothing on
      the wire depends on it. The length field is HEADER_SIZE plus the data length. */
  datatype Segment = Segment(id: nat, seqno: uint32, ackno: uint32, ack: bool, fin: bool, data: seq<byte>)

  function Length(seg: Segment): nat {
    HEADER_SIZE + |seg.data|
  }

  /** ctcp_segment_with_info_t without the app-limited mark, which only BBR reads. */
  datatype SegInfo = SegInfo(seg: Segment, prevSent: int, retransmits: nat, inFlight: bool)

  /** One transmission of a data segment: the time written to prev_sent_time, the time
      of the conn_send, and whether the timer sent it. */
  datatype Tx = Tx(id: nat, stamp: int, at: int, timer: bool)

  /** What has happened so far; no handler reads it. */
  datatype History = History(
    read: seq<byte>,                // everything conn_input returned
    removed: seq<SegInfo>,          // segments the ACK loop took off the unacked list
    timerBytes: nat,                // summed lengths of all timer retransmissions
    maxSendWindow: nat,             // largest send window so far
    log: seq<Tx>,                   // all transmissions of data segments
    firstCopies: seq<Segment>,      // data segments in the order of their first transmission
    controls: seq<Segment>,         // segments without data that were sent
    output: seq<byte>,              // bytes accepted by conn_output
    outputClosed: bool)             // conn_output takes no more: it was called with length 0, or a write failed

  datatype Conn = Conn(
    unacked: seq<SegInfo>,
    toSend: seq<SegInfo>,
    prepared: nat,                 // data segments prepared so far
    prevAckno: uint32,
    currSeqno: uint32,
    currAckno: uint32,
    window: uint16,
    sendWindow: uint16,
    rtTimeout: int,
    eof: bool,
    finReceived: bool,
    pending: seq<byte>,
    finalTime: int,
    alive: bool,
    h: History)

  function Init(sendWindow: uint16, rtTimeout: int): Conn {
    Conn([], [], 0, INIT_SEQ_NUM, INIT_SEQ_NUM, INIT_SEQ_NUM, 0, sendWindow, rtTimeout,
         false, false, [], 0, true,
         History([], [], 0, sendWindow, [], [], [], [], false))
  }

  // ---------------------------------------------------------------- choices of the environment

  /** Pacing of one transmission: prev_sent_time is taken before the wait, the segment
      leaves after it. */
  datatype Pace = Pace(stamp: int, wait: nat)

  /** One call of the window sender: does the BDP gate stop it, and the pacing of the
      segment at each list position. */
  datatype SendEnv = SendEnv(blocked: bool, pace: nat -> Pace)

  /** One round of the ACK loop: the congestion window BBR sets, then the nested send. */
  datatype AckEnv = AckEnv(sendWindow: uint16, send: SendEnv)

  /** The two clock readings of one round of the timer loop. */
  datatype Tick = Tick(check: int, delay: nat)

  // ---------------------------------------------------------------- sender

  /** ctcp_prep_data_segment */
  function Prepare(c: Conn, data: Chunk): Conn {
    var seg := Segment(c.prepared, c.currSeqno, c.currAckno, true, false, data);
    c.(toSend := c.toSend + [SegInfo(seg, 0, 0, false)],
       prepared := c.prepared + 1,
       currSeqno := (c.currSeqno + |data|) % TWO_32,
       h := c.h.(read := c.h.read + data))
  }

  function MoveOne(c: Conn): Conn
    requires c.toSend != []
  {
    c.(unacked := c.unacked + [c.toSend[0]],
       toSend := c.toSend[1..],
       window := (c.window + Length(c.toSend[0].seg)) % TWO_16)
  }

  /** First loop of ctcp_send_sliding_window. */
  function MoveWindow(c: Conn): (r: Conn)
    ensures |r.unacked| + |r.toSend| == |c.unacked| + |c.toSend|
    ensures |r.toSend| <= |c.toSend| && r.rtTimeout == c.rtTimeout
    decreases |c.toSend|
  {
    if c.window < c.sendWindow && c.toSend != [] then MoveWindow(MoveOne(c)) else c
  }

  function FirstCopy(copies: seq<Segment>, seg: Segment): seq<Segment> {
    if seg in copies then copies else copies + [seg]
  }

  /** Transmission of the unacked segment at position i by the window sender. */
  function SendOne(c: Conn, i: nat, p: Pace): Conn
    requires i < |c.unacked|
  {
    var s := c.unacked[i];
    c.(unacked := c.unacked[i := s.(prevSent := p.stamp, inFlight := true)],
       h := c.h.(log := c.h.log + [Tx(s.seg.id, p.stamp, p.stamp + p.wait, false)],
                 firstCopies := FirstCopy(c.h.firstCopies, s.seg)))
  }

  /** Second loop of ctcp_send_sliding_window. */
  function SendFrom(c: Conn, i: nat, pace: nat -> Pace): (r: Conn)
    ensures |r.unacked| == |c.unacked| && r.toSend == c.toSend && r.rtTimeout == c.rtTimeout
    decreases |c.unacked| - i
  {
    if i >= |c.unacked| then c
    else SendFrom(if c.unacked[i].inFlight then c else SendOne(c, i, pace(i)), i + 1, pace)
  }

  /** ctcp_send_sliding_window */
  function SendWindow(c: Conn, e: SendEnv): (r: Conn)
    ensures |r.unacked| + |r.toSend| == |c.unacked| + |c.toSend| && r.rtTimeout == c.rtTimeout
  {
    var moved := MoveWindow(c);
    if e.blocked then moved else SendFrom(moved, 0, e.pace)
  }

  /** The acknowledged head of the unacked list is taken off. */
  function Acknowledge(c: Conn, sendWindow: uint16): Conn
    requires c.unacked != []
  {
    c.(unacked := c.unacked[1..],
       sendWindow := sendWindow,
       window := (c.window - Length(c.unacked[0].seg)) % TWO_16,
       h := c.h.(removed := c.h.removed + [c.unacked[0]],
                 maxSendWindow := if c.h.maxSendWindow < sendWindow then sendWindow else c.h.maxSendWindow))
  }

  function AckOne(c: Conn, e: AckEnv): (r: Conn)
    requires c.unacked != []
    ensures |r.unacked| + |r.toSend| == |c.unacked| + |c.toSend| - 1 && r.rtTimeout == c.rtTimeout
  {
    var acked := Acknowledge(c, e.sendWindow);
    if acked.toSend != [] then SendWindow(acked, e.send) else acked
  }

  /** The ACK loop of ctcp_receive. Whether there is a next node is settled before the
      nested send, which appends to the list being walked. */
  function AckLoop(c: Conn, ackno: uint32, env: nat -> AckEnv, round: nat): (r: Conn)
    ensures r.rtTimeout == c.rtTimeout
    decreases |c.unacked| + |c.toSend|
  {
    if c.unacked == [] || c.unacked[0].seg.seqno >= ackno then c
    else
      var next := AckOne(c, env(round));
      if |c.unacked| > 1 then AckLoop(next, ackno, env, round + 1) else next
  }

  lemma AckLoopStep(c: Conn, ackno: uint32, env: nat -> AckEnv, round: nat)
    ensures AckLoop(c, ackno, env, round)
         == if c.unacked == [] || c.unacked[0].seg.seqno >= ackno then c
            else if |c.unacked| > 1 then AckLoop(AckOne(c, env(round)), ackno, env, round + 1)
            else AckOne(c, env(round))
  {
  }

  /** Retransmission of the unacked segment at position i by the timer. */
  function ResendOne(c: Conn, i: nat, t: Tick): Conn
    requires i < |c.unacked|
  {
    var s := c.unacked[i];
    var stamp := t.check + t.delay;
    c.(unacked := c.unacked[i := s.(prevSent := stamp, retransmits := s.retransmits + 1)],
       window := (c.window - Length(s.seg)) % TWO_16,
       h := c.h.(log := c.h.log + [Tx(s.seg.id, stamp, stamp, true)],
                 firstCopies := FirstCopy(c.h.firstCopies, s.seg),
                 timerBytes := c.h.timerBytes + Length(s.seg)))
  }

  predicate TimedOut(s: SegInfo, rtTimeout: int, now: int) {
    now - s.prevSent > rtTimeout && s.retransmits < MAX_NUM_RETRANSMIT
  }

  /** The retransmission loop of ctcp_timer; it stops at the destroyed connection. */
  function TimerFrom(c: Conn, i: nat, ticks: nat -> Tick): (r: Conn)
    ensures r.rtTimeout == c.rtTimeout
    decreases |c.unacked| - i
  {
    if i >= |c.unacked| then c
    else
      var c1 := if TimedOut(c.unacked[i], c.rtTimeout, ticks(i).check) then ResendOne(c, i, ticks(i)) else c;
      if c1.unacked[i].retransmits >= MAX_NUM_RETRANSMIT then c1.(alive := false)
      else TimerFrom(c1, i + 1, ticks)
  }

  /** One connection's share of ctcp_timer. */
  function TimerPass(c: Conn, ticks: nat -> Tick, finalNow: int): Conn {
    var c1 := TimerFrom(c, 0, ticks);
    if c1.alive && c1.finReceived && c1.eof && c1.unacked == [] && c1.toSend == [] then
      if c1.finalTime == 0 then c1.(finalTime := finalNow)
      else if finalNow - c1.finalTime > 2 * c1.rtTimeout then c1.(alive := false)
      else c1
    else c1
  }

  /** ctcp_send_non_data_segment */
  function SendControl(c: Conn, ack: bool, fin: bool): Conn {
    c.(h := c.h.(controls := c.h.controls + [Segment(0, c.currSeqno, c.currAckno, ack, fin, [])]))
  }

  function ReadChunks(c: Conn, chunks: seq<Chunk>, env: nat -> SendEnv, round: nat): (r: Conn)
    ensures r.rtTimeout == c.rtTimeout
    decreases |chunks|
  {
    if chunks == [] then c
    else ReadChunks(SendWindow(Prepare(c, chunks[0]), env(round)), chunks[1..], env, round + 1)
  }

  /** ctcp_read: the chunks conn_input hands out, then 0 or (atEof) -1. */
  function ReadInput(c: Conn, chunks: seq<Chunk>, atEof: bool, env: nat -> SendEnv): Conn {
    if c.eof then c
    else
      var c1 := ReadChunks(c, chunks, env, 0);
      if atEof && c1.toSend == [] then SendControl(c1.(eof := true), false, true) else c1
  }

  // ---------------------------------------------------------------- receiver

  /** conn_output with enough buffer space. Its return value is ignored by both callers, also
      the -1 after a write error: what it is then given is lost. */
  function Output(c: Conn, data: seq<byte>): Conn {
    if c.h.outputClosed then c
    else if data == [] then c.(h := c.h.(outputClosed := true))
    else c.(h := c.h.(output := c.h.output + data))
  }

  /** ctcp_output: acknowledge and write when the buffer has room for all of it. */
  function OutputPending(c: Conn, space: nat): Conn {
    if space >= |c.pending| then Output(SendControl(c, true, false), c.pending).(pending := [])
    else c
  }

  /** ctcp_receive. intact says that the truncation and checksum tests pass. */
  function Receive(c: Conn, seg: Segment, intact: bool, env: nat -> AckEnv, space: nat): Conn {
    if !intact then c
    else if seg.fin && !c.finReceived then Output(SendControl(c.(finReceived := true), true, false), [])
    else if seg.ack && c.finReceived && c.eof then c.(alive := false)
    else Accept(if seg.ack then AckLoop(c, seg.ackno, env, 0) else c, seg, space)
  }

  predicate Duplicate(c: Conn, seg: Segment) {
    seg.seqno < c.prevAckno
  }

  /** The part of ctcp_receive after the ACK loop. */
  function Accept(c: Conn, seg: Segment, space: nat): Conn {
    var ackno := (seg.seqno + |seg.data|) % TWO_32;
    var c1 := c.(currAckno := ackno, prevAckno := if Duplicate(c, seg) then c.prevAckno else ackno);
    if seg.data != [] && !Duplicate(c, seg) then OutputPending(c1.(pending := seg.data), space) else c1
  }

  // ---------------------------------------------------------------- runs

  datatype Event =
    | InputReady(chunks: seq<Chunk>, atEof: bool, sends: nat -> SendEnv)
    | SegmentArrives(seg: Segment, intact: bool, acks: nat -> AckEnv, space: nat)
    | TimerFires(ticks: nat -> Tick, finalNow: int)
    | OutputDrains(space: nat)   // conn_drain wrote something and calls ctcp_output
    | OutputFails                // a write failed

  function Step(c: Conn, e: Event): (r: Conn)
    ensures r.rtTimeout == c.rtTimeout
  {
    if !c.alive then c
    else match e
      case InputReady(chunks, atEof, sends) => ReadInput(c, chunks, atEof, sends)
      case SegmentArrives(seg, intact, acks, space) => Receive(c, seg, intact, acks, space)
      case TimerFires(ticks, finalNow) => TimerPass(c, ticks, finalNow)
      case OutputDrains(space) => OutputPending(c, space)
      case OutputFails => c.(h := c.h.(outputClosed := true))
  }

  function Run(c: Conn, events: seq<Event>): (r: Conn)
    ensures r.rtTimeout == c.rtTimeout
    decreases |events|
  {
    if events == [] then c else Step(Run(c, events[..|events| - 1]), events[|events| - 1])
  }
}
