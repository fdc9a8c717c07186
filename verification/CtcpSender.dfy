/** What every run of a cTCP connection keeps: nothing read is lost or reordered,
    retransmissions are bounded and spaced, the window counter is accounted for.
    The incoming segments, the clock and the congestion control are arbitrary. */
module CtcpSender {
  import opened Machine
  import opened Ctcp

  const SEGMENT_LIMIT := HEADER_SIZE + MAX_SEG_DATA_SIZE

  // ---------------------------------------------------------------- the stream of segments

  /** Every data segment ever prepared, in order: acknowledged, unacknowledged, waiting. */
  function All(c: Conn): seq<SegInfo> {
    c.h.removed + c.unacked + c.toSend
  }

  function Segs(infos: seq<SegInfo>): (s: seq<Segment>)
    ensures |s| == |infos|
    ensures forall i | 0 <= i < |s| :: s[i] == infos[i].seg
  {
    seq(|infos|, i requires 0 <= i < |infos| => infos[i].seg)
  }

  function Data(segs: seq<Segment>): seq<byte>
    decreases |segs|
  {
    if segs == [] then [] else Data(segs[..|segs| - 1]) + segs[|segs| - 1].data
  }

  lemma DataOfLast(segs: seq<Segment>)
    requires segs != []
    ensures Data(segs) == Data(segs[..|segs| - 1]) + segs[|segs| - 1].data
  {
  }

  /** Sequence number of the k-th segment if its predecessors are contiguous. */
  function SeqnoAt(segs: seq<Segment>, k: nat): uint32
    requires k <= |segs|
  {
    (INIT_SEQ_NUM + |Data(segs[..k])|) % TWO_32
  }

  ghost predicate Numbered(segs: seq<Segment>) {
    forall k | 0 <= k < |segs| ::
      && segs[k].id == k
      && segs[k].seqno == SeqnoAt(segs, k)
      && 0 < |segs[k].data| <= MAX_SEG_DATA_SIZE
      && segs[k].ack && !segs[k].fin
  }

  /** Acknowledged, unacknowledged and waiting data make up what was read, and the
      sequence numbers run through without a gap up to curr_seqno. */
  ghost predicate StreamInv(segs: seq<Segment>, read: seq<byte>, currSeqno: uint32) {
    && Numbered(segs)
    && Data(segs) == read
    && currSeqno == SeqnoAt(segs, |segs|)
  }

  // ---------------------------------------------------------------- transmissions

  /** How often segment id was transmitted, by the timer or by the window sender. */
  function Sends(log: seq<Tx>, id: nat, timer: bool): nat
    decreases |log|
  {
    if log == [] then 0
    else
      var last := log[|log| - 1];
      Sends(log[..|log| - 1], id, timer) + if last.id == id && last.timer == timer then 1 else 0
  }

  /** prev_sent_time written by the last transmission of segment id, 0 before the first. */
  function LastStamp(log: seq<Tx>, id: nat): int
    decreases |log|
  {
    if log == [] then 0
    else if log[|log| - 1].id == id then log[|log| - 1].stamp
    else LastStamp(log[..|log| - 1], id)
  }

  ghost predicate Recorded(s: SegInfo, log: seq<Tx>) {
    && Sends(log, s.seg.id, false) == (if s.inFlight then 1 else 0)
    && Sends(log, s.seg.id, true) == s.retransmits <= MAX_NUM_RETRANSMIT
    && LastStamp(log, s.seg.id) == s.prevSent
  }

  /** Each timer transmission left more than rtTimeout after the time stamp of the
      segment's previous transmission. */
  ghost predicate Spaced(log: seq<Tx>, rtTimeout: int) {
    forall j | 0 <= j < |log| && log[j].timer :: log[j].at - LastStamp(log[..j], log[j].id) > rtTimeout
  }

  /** The timer does not wait for a slot. */
  ghost predicate Punctual(log: seq<Tx>) {
    forall j | 0 <= j < |log| && log[j].timer :: log[j].at == log[j].stamp
  }

  ghost predicate LedgerInv(all: seq<SegInfo>, log: seq<Tx>, rtTimeout: int) {
    && (forall k | 0 <= k < |all| :: all[k].seg.id == k && Recorded(all[k], log))
    && (forall j | 0 <= j < |log| :: log[j].id < |all|)
    && Spaced(log, rtTimeout) && Punctual(log)
  }

  ghost predicate Young(c: Conn) {
    forall i | 0 <= i < |c.unacked| :: c.unacked[i].retransmits < MAX_NUM_RETRANSMIT
  }

  // ---------------------------------------------------------------- the window counter

  function TotalLength(infos: seq<SegInfo>): nat
    decreases |infos|
  {
    if infos == [] then 0 else TotalLength(infos[..|infos| - 1]) + Length(infos[|infos| - 1].seg)
  }

  ghost predicate WindowInv(c: Conn) {
    && c.sendWindow <= c.h.maxSendWindow
    && (c.window + c.h.timerBytes) % TWO_16 == TotalLength(c.unacked) % TWO_16
    && (c.h.timerBytes == 0 && c.h.maxSendWindow <= 53996 ==>
          && c.window == TotalLength(c.unacked)
          && c.window < c.h.maxSendWindow + SEGMENT_LIMIT)
  }

  ghost predicate Fresh(waiting: seq<SegInfo>) {
    forall i | 0 <= i < |waiting| ::
      !waiting[i].inFlight && waiting[i].retransmits == 0 && waiting[i].prevSent == 0
  }

  ghost predicate Inv(c: Conn) {
    && StreamInv(Segs(All(c)), c.h.read, c.currSeqno)
    && LedgerInv(All(c), c.h.log, c.rtTimeout)
    && WindowInv(c)
    && (c.alive ==> Young(c))
    && Fresh(c.toSend)
    && c.prepared == |All(c)|
  }

  // ---------------------------------------------------------------- small steps

  lemma {:induction false} TotalLengthSplit(head: SegInfo, rest: seq<SegInfo>)
    ensures TotalLength([head] + rest) == Length(head.seg) + TotalLength(rest)
    decreases |rest|
  {
    var all := [head] + rest;
    if rest == [] {
      assert all[..0] == [];
    } else {
      TotalLengthSplit(head, rest[..|rest| - 1]);
      assert all[..|all| - 1] == [head] + rest[..|rest| - 1];
    }
  }

  lemma {:induction false} TotalLengthOfSegs(a: seq<SegInfo>, b: seq<SegInfo>)
    requires Segs(a) == Segs(b)
    ensures TotalLength(a) == TotalLength(b)
    decreases |a|
  {
    assert |a| == |Segs(a)| == |b|;
    if a != [] {
      var n := |a| - 1;
      assert Segs(a[..n]) == Segs(a)[..n] == Segs(b[..n]);
      TotalLengthOfSegs(a[..n], b[..n]);
      assert a[n].seg == Segs(a)[n] == b[n].seg;
    }
  }

  lemma PrepareKeeps(c: Conn, data: Chunk)
    requires Inv(c) && c.alive
    ensures Inv(Prepare(c, data)) && Prepare(c, data).alive
  {
    hide StreamInv, LedgerInv;
    var c1 := Prepare(c, data);
    var added := c1.toSend[|c.toSend|];
    assert All(c1) == All(c) + [added];
    assert Segs(All(c1)) == Segs(All(c)) + [added.seg];
    StreamGrows(Segs(All(c)), c.h.read, c.currSeqno, added.seg);
    LedgerGrows(All(c), c.h.log, c.rtTimeout, added);
  }

  lemma NumberedGrows(segs: seq<Segment>, seg: Segment)
    requires Numbered(segs) && seg.id == |segs| && seg.seqno == SeqnoAt(segs, |segs|)
    requires seg.ack && !seg.fin && 0 < |seg.data| <= MAX_SEG_DATA_SIZE
    ensures Numbered(segs + [seg])
  {
    hide SeqnoAt;
    var segs1 := segs + [seg];
    forall k | 0 <= k < |segs1| ensures segs1[k].seqno == SeqnoAt(segs1, k) {
      SamePrefix(segs, seg, k);
    }
  }

  lemma SamePrefix(segs: seq<Segment>, seg: Segment, k: nat)
    requires k <= |segs|
    ensures SeqnoAt(segs + [seg], k) == SeqnoAt(segs, k)
  {
    assert (segs + [seg])[..k] == segs[..k];
  }

  lemma StreamGrows(segs: seq<Segment>, read: seq<byte>, currSeqno: uint32, seg: Segment)
    requires StreamInv(segs, read, currSeqno)
    requires seg.id == |segs| && seg.seqno == currSeqno && seg.ack && !seg.fin
    requires 0 < |seg.data| <= MAX_SEG_DATA_SIZE
    ensures StreamInv(segs + [seg], read + seg.data, (currSeqno + |seg.data|) % TWO_32)
  {
    hide Data, Numbered;
    var segs1 := segs + [seg];
    assert segs1[..|segs1|] == segs1 && segs1[..|segs|] == segs == segs[..|segs|];
    DataOfLast(segs1);
    WrapAdd32(INIT_SEQ_NUM + |read|, |seg.data|);
    NumberedGrows(segs, seg);
  }

  lemma LedgerGrows(all: seq<SegInfo>, log: seq<Tx>, rtTimeout: int, s: SegInfo)
    requires LedgerInv(all, log, rtTimeout)
    requires s.seg.id == |all| && Fresh([s])
    ensures LedgerInv(all + [s], log, rtTimeout)
  {
    hide Spaced;
    NeverSent(log, |all|);
    assert s == [s][0];
  }

  lemma {:induction false} NeverSent(log: seq<Tx>, id: nat)
    requires forall j | 0 <= j < |log| :: log[j].id < id
    ensures Sends(log, id, false) == Sends(log, id, true) == 0 && LastStamp(log, id) == 0
    decreases |log|
  {
    if log != [] { NeverSent(log[..|log| - 1], id); }
  }

  lemma MoveOneKeeps(c: Conn)
    requires Inv(c) && c.toSend != [] && c.window < c.sendWindow
    ensures Inv(MoveOne(c)) && All(MoveOne(c)) == All(c)
  {
    hide StreamInv, LedgerInv;
    var c1, moved := MoveOne(c), c.toSend[0];
    assert All(c1) == All(c);
    assert c1.unacked[..|c.unacked|] == c.unacked;
    assert Segs(All(c))[|c.h.removed| + |c.unacked|] == moved.seg;
    SegmentSize(Segs(All(c)), c.h.read, c.currSeqno, |c.h.removed| + |c.unacked|);
    WindowPlus(c.window, c.h.timerBytes, TotalLength(c.unacked), Length(moved.seg));
  }

  lemma WindowPlus(w: nat, t: nat, total: nat, len: nat)
    requires (w + t) % TWO_16 == total % TWO_16
    ensures ((w + len) % TWO_16 + t) % TWO_16 == (total + len) % TWO_16
  {
    WrapAdd16(w + len, t);
    WrapAdd16(w + t, len);
    WrapAdd16(total, len);
  }

  lemma SegmentSize(segs: seq<Segment>, read: seq<byte>, currSeqno: uint32, k: nat)
    requires StreamInv(segs, read, currSeqno) && k < |segs|
    ensures Length(segs[k]) <= SEGMENT_LIMIT
  {
  }

  lemma IdIsPosition(all: seq<SegInfo>, log: seq<Tx>, rtTimeout: int, k: nat)
    requires LedgerInv(all, log, rtTimeout) && k < |all|
    ensures all[k].seg.id == k && Recorded(all[k], log)
  {
  }

  lemma {:induction false} MoveWindowKeeps(c: Conn)
    requires Inv(c)
    ensures Inv(MoveWindow(c)) && All(MoveWindow(c)) == All(c)
    ensures MoveWindow(c).h == c.h && MoveWindow(c).alive == c.alive
    decreases |c.toSend|
  {
    hide Inv, All;
    if c.window < c.sendWindow && c.toSend != [] {
      MoveOneKeeps(c);
      MoveWindowKeeps(MoveOne(c));
    }
  }

  /** Replacing the bookkeeping of one segment leaves the stream alone. */
  lemma UpdateKeepsStream(c: Conn, c1: Conn, i: nat, s: SegInfo)
    requires i < |c.unacked| && s.seg == c.unacked[i].seg
    requires c1.unacked == c.unacked[i := s] && c1.toSend == c.toSend && c1.h.removed == c.h.removed
    ensures All(c1) == All(c)[|c.h.removed| + i := s]
    ensures Segs(All(c1)) == Segs(All(c))
    ensures TotalLength(c1.unacked) == TotalLength(c.unacked)
  {
    assert Segs(c1.unacked) == Segs(c.unacked);
    TotalLengthOfSegs(c1.unacked, c.unacked);
  }

  /** One more transmission of segment k, entered in its bookkeeping. */
  lemma LogOne(all: seq<SegInfo>, log: seq<Tx>, rtTimeout: int, k: nat, tx: Tx, s: SegInfo)
    requires LedgerInv(all, log, rtTimeout) && k < |all| && tx.id == k && s.seg == all[k].seg
    requires s.prevSent == tx.stamp
    requires if tx.timer
             then all[k].retransmits < MAX_NUM_RETRANSMIT && tx.at - all[k].prevSent > rtTimeout && tx.at == tx.stamp
                  && s.retransmits == all[k].retransmits + 1 && s.inFlight == all[k].inFlight
             else !all[k].inFlight && s.inFlight && s.retransmits == all[k].retransmits
    ensures LedgerInv(all[k := s], log + [tx], rtTimeout)
  {
    var log1 := log + [tx];
    assert log1[..|log|] == log;
    forall j | 0 <= j < |log1| && log1[j].timer
      ensures log1[j].at - LastStamp(log1[..j], log1[j].id) > rtTimeout
    {
      if j < |log| { assert log1[..j] == log[..j] && log1[j] == log[j]; }
    }
  }

  lemma SendOneKeeps(c: Conn, i: nat, p: Pace)
    requires Inv(c) && i < |c.unacked| && !c.unacked[i].inFlight
    ensures var c1 := SendOne(c, i, p); Inv(c1) && Segs(All(c1)) == Segs(All(c))
  {
    hide StreamInv, LedgerInv;
    var c1, k := SendOne(c, i, p), |c.h.removed| + i;
    UpdateKeepsStream(c, c1, i, c1.unacked[i]);
    assert All(c)[k] == c.unacked[i];
    IdIsPosition(All(c), c.h.log, c.rtTimeout, k);
    LogOne(All(c), c.h.log, c.rtTimeout, k, c1.h.log[|c.h.log|], c1.unacked[i]);
  }

  lemma {:induction false} SendFromKeeps(c: Conn, i: nat, pace: nat -> Pace)
    requires Inv(c)
    ensures var c1 := SendFrom(c, i, pace);
            Inv(c1) && Segs(All(c1)) == Segs(All(c)) && c1.alive == c.alive && c1.h.read == c.h.read
    decreases |c.unacked| - i
  {
    hide Inv;
    if i < |c.unacked| {
      if !c.unacked[i].inFlight {
        SendOneKeeps(c, i, pace(i));
        SendFromKeeps(SendOne(c, i, pace(i)), i + 1, pace);
      } else {
        SendFromKeeps(c, i + 1, pace);
      }
    }
  }

  lemma SendWindowKeeps(c: Conn, e: SendEnv)
    requires Inv(c)
    ensures var c1 := SendWindow(c, e);
            Inv(c1) && Segs(All(c1)) == Segs(All(c)) && c1.alive == c.alive && c1.h.read == c.h.read
  {
    hide Inv, All, Segs, MoveWindow, SendFrom;
    MoveWindowKeeps(c);
    SendFromKeeps(MoveWindow(c), 0, e.pace);
  }

  lemma AcknowledgeKeeps(c: Conn, sendWindow: uint16)
    requires Inv(c) && c.unacked != []
    ensures Inv(Acknowledge(c, sendWindow)) && All(Acknowledge(c, sendWindow)) == All(c)
  {
    hide StreamInv, LedgerInv, TotalLength, Segs;
    var c1 := Acknowledge(c, sendWindow);
    assert All(c1) == All(c);
    assert c.unacked == [c.unacked[0]] + c1.unacked;
    TotalLengthSplit(c.unacked[0], c1.unacked);
    WindowMinus(c.window, c.h.timerBytes, TotalLength(c.unacked), Length(c.unacked[0].seg));
  }

  lemma WindowMinus(w: nat, t: nat, total: nat, len: nat)
    requires (w + t) % TWO_16 == total % TWO_16
    ensures ((w - len) % TWO_16 + t) % TWO_16 == (total - len) % TWO_16
  {
  }

  lemma AckOneKeeps(c: Conn, e: AckEnv)
    requires Inv(c) && c.unacked != []
    ensures var c1 := AckOne(c, e);
            Inv(c1) && Segs(All(c1)) == Segs(All(c)) && c1.alive == c.alive && c1.h.read == c.h.read
  {
    hide Inv, All, Segs, SendWindow;
    AcknowledgeKeeps(c, e.sendWindow);
    SendWindowKeeps(Acknowledge(c, e.sendWindow), e.send);
  }

  lemma {:induction false} AckLoopKeeps(c: Conn, ackno: uint32, env: nat -> AckEnv, round: nat)
    requires Inv(c)
    ensures var c1 := AckLoop(c, ackno, env, round);
            Inv(c1) && Segs(All(c1)) == Segs(All(c)) && c1.alive == c.alive && c1.h.read == c.h.read
    decreases |c.unacked| + |c.toSend|
  {
    hide Inv;
    if c.unacked != [] && c.unacked[0].seg.seqno < ackno {
      AckOneKeeps(c, env(round));
      if |c.unacked| > 1 { AckLoopKeeps(AckOne(c, env(round)), ackno, env, round + 1); }
    }
  }

  lemma ResendOneKeeps(c: Conn, i: nat, t: Tick)
    requires Inv(c) && c.alive && i < |c.unacked| && TimedOut(c.unacked[i], c.rtTimeout, t.check)
    ensures var c1 := ResendOne(c, i, t);
            && Segs(All(c1)) == Segs(All(c))
            && Inv(c1.(alive := false))
            && (c1.unacked[i].retransmits < MAX_NUM_RETRANSMIT ==> Inv(c1))
  {
    hide StreamInv, LedgerInv;
    var c1, k := ResendOne(c, i, t), |c.h.removed| + i;
    UpdateKeepsStream(c, c1, i, c1.unacked[i]);
    assert All(c)[k] == c.unacked[i];
    IdIsPosition(All(c), c.h.log, c.rtTimeout, k);
    LogOne(All(c), c.h.log, c.rtTimeout, k, c1.h.log[|c.h.log|], c1.unacked[i]);
    WindowMoves(c.window, c.h.timerBytes, TotalLength(c.unacked), Length(c.unacked[i].seg));
    assert All(c1.(alive := false)) == All(c1);
  }

  lemma WindowMoves(w: nat, t: nat, total: nat, len: nat)
    requires (w + t) % TWO_16 == total % TWO_16
    ensures ((w - len) % TWO_16 + (t + len)) % TWO_16 == total % TWO_16
  {
  }

  lemma {:induction false} TimerFromKeeps(c: Conn, i: nat, ticks: nat -> Tick)
    requires Inv(c) && c.alive
    ensures var c1 := TimerFrom(c, i, ticks);
            Inv(c1) && Segs(All(c1)) == Segs(All(c)) && c1.h.read == c.h.read
    decreases |c.unacked| - i
  {
    hide StreamInv, LedgerInv, WindowInv;
    if i < |c.unacked| {
      if TimedOut(c.unacked[i], c.rtTimeout, ticks(i).check) {
        ResendOneKeeps(c, i, ticks(i));
        var c1 := ResendOne(c, i, ticks(i));
        if c1.unacked[i].retransmits < MAX_NUM_RETRANSMIT { TimerFromKeeps(c1, i + 1, ticks); }
      } else {
        TimerFromKeeps(c, i + 1, ticks);
      }
    }
  }

  lemma {:induction false} ReadChunksKeep(c: Conn, chunks: seq<Chunk>, env: nat -> SendEnv, round: nat)
    requires Inv(c) && c.alive
    ensures Inv(ReadChunks(c, chunks, env, round)) && ReadChunks(c, chunks, env, round).alive
    decreases |chunks|
  {
    hide Inv, Prepare, SendWindow;
    if chunks != [] {
      PrepareKeeps(c, chunks[0]);
      SendWindowKeeps(Prepare(c, chunks[0]), env(round));
      ReadChunksKeep(SendWindow(Prepare(c, chunks[0]), env(round)), chunks[1..], env, round + 1);
    }
  }

  /** Steps that only touch the receiving half of the state. */
  lemma ReceiverPart(c: Conn, c1: Conn)
    requires Inv(c) && (c1.alive ==> c.alive)
    requires c1.unacked == c.unacked && c1.toSend == c.toSend && c1.currSeqno == c.currSeqno
    requires c1.prepared == c.prepared
    requires c1.window == c.window && c1.sendWindow == c.sendWindow && c1.rtTimeout == c.rtTimeout
    requires c1.h.(controls := [], output := [], outputClosed := false)
          == c.h.(controls := [], output := [], outputClosed := false)
    ensures Inv(c1) && All(c1) == All(c) && c1.h.read == c.h.read
  {
    hide StreamInv, LedgerInv, TotalLength, Segs;
    assert c1.h.removed == c.h.(controls := [], output := [], outputClosed := false).removed;
    assert All(c1) == All(c);
  }

  // ---------------------------------------------------------------- whole runs

  lemma ReadInputKeeps(c: Conn, chunks: seq<Chunk>, atEof: bool, env: nat -> SendEnv)
    requires Inv(c) && c.alive
    ensures Inv(ReadInput(c, chunks, atEof, env))
  {
    hide Inv, ReadChunks;
    if !c.eof {
      ReadChunksKeep(c, chunks, env, 0);
      ReceiverPart(ReadChunks(c, chunks, env, 0), ReadInput(c, chunks, atEof, env));
    }
  }

  lemma ReceiveKeeps(c: Conn, seg: Segment, intact: bool, env: nat -> AckEnv, space: nat)
    requires Inv(c) && c.alive
    ensures var c1 := Receive(c, seg, intact, env, space);
            Inv(c1) && Segs(All(c1)) == Segs(All(c)) && c1.h.read == c.h.read
  {
    hide Inv, AckLoop;
    if intact && !(seg.fin && !c.finReceived) && !(seg.ack && c.finReceived && c.eof) {
      AckLoopKeeps(c, seg.ackno, env, 0);
      AcceptKeeps(if seg.ack then AckLoop(c, seg.ackno, env, 0) else c, seg, space);
    } else {
      ReceiverPart(c, Receive(c, seg, intact, env, space));
    }
  }

  lemma AcceptKeeps(c: Conn, seg: Segment, space: nat)
    requires Inv(c)
    ensures var c1 := Accept(c, seg, space); Inv(c1) && All(c1) == All(c) && c1.h.read == c.h.read
  {
    hide Inv, All, OutputPending;
    var ackno := (seg.seqno + |seg.data|) % TWO_32;
    var expected := if Duplicate(c, seg) then c.prevAckno else ackno;
    var c1 := c.(currAckno := ackno, prevAckno := expected, pending := seg.data);
    ReceiverPart(c, c1);
    ReceiverPart(c, c1.(pending := c.pending));
    PendingKeeps(c1, space);
  }

  lemma PendingKeeps(c: Conn, space: nat)
    requires Inv(c)
    ensures var c1 := OutputPending(c, space); Inv(c1) && All(c1) == All(c) && c1.h.read == c.h.read
  {
    hide Inv, All;
    ReceiverPart(c, OutputPending(c, space));
  }

  lemma TimerPassKeeps(c: Conn, ticks: nat -> Tick, finalNow: int)
    requires Inv(c) && c.alive
    ensures var c1 := TimerPass(c, ticks, finalNow); Inv(c1) && Segs(All(c1)) == Segs(All(c)) && c1.h.read == c.h.read
  {
    hide Inv, TimerFrom;
    TimerFromKeeps(c, 0, ticks);
    ReceiverPart(TimerFrom(c, 0, ticks), TimerPass(c, ticks, finalNow));
  }

  lemma StepKeeps(c: Conn, e: Event)
    requires Inv(c)
    ensures Inv(Step(c, e))
  {
    hide Inv, ReadInput, Receive, TimerPass;
    if c.alive {
      match e
      case InputReady(chunks, atEof, sends) => ReadInputKeeps(c, chunks, atEof, sends);
      case SegmentArrives(seg, intact, acks, space) => ReceiveKeeps(c, seg, intact, acks, space);
      case TimerFires(ticks, finalNow) => TimerPassKeeps(c, ticks, finalNow);
      case OutputDrains(space) => ReceiverPart(c, OutputPending(c, space));
      case OutputFails => ReceiverPart(c, Step(c, e));
    }
  }

  lemma {:induction false} RunKeeps(sendWindow: uint16, rtTimeout: int, events: seq<Event>)
    ensures Inv(Run(Init(sendWindow, rtTimeout), events))
    decreases |events|
  {
    if events != [] {
      hide Inv, Step;
      RunKeeps(sendWindow, rtTimeout, events[..|events| - 1]);
      StepKeeps(Run(Init(sendWindow, rtTimeout), events[..|events| - 1]), events[|events| - 1]);
    }
  }

  lemma {:induction false} DataAppend(a: seq<Segment>, b: seq<Segment>)
    ensures Data(a + b) == Data(a) + Data(b)
    decreases |b|
  {
    if b == [] {
      assert a + b == a;
    } else {
      hide Data;
      var n := |b| - 1;
      DataAppend(a, b[..n]);
      assert (a + b)[..|a + b| - 1] == a + b[..n];
      DataOfLast(b);
      DataOfLast(a + b);
    }
  }

  lemma DataNext(segs: seq<Segment>, k: nat)
    requires k < |segs|
    ensures Data(segs[..k + 1]) == Data(segs[..k]) + segs[k].data
  {
    assert segs[..k + 1][..k] == segs[..k];
  }

  lemma SeqnoNext(segs: seq<Segment>, k: nat)
    requires k < |segs|
    ensures SeqnoAt(segs, k + 1) == (SeqnoAt(segs, k) + |segs[k].data|) % TWO_32
  {
    DataNext(segs, k);
    hide Data;
    WrapAdd32(INIT_SEQ_NUM + |Data(segs[..k])|, |segs[k].data|);
  }

  /** The sequence numbers start at 1, each segment begins where its predecessor ends,
      and the last one ends at next. */
  ghost predicate Contiguous(segs: seq<Segment>, next: uint32) {
    && (segs != [] ==> segs[0].seqno == 1)
    && forall k | 0 <= k < |segs| ::
         (if k + 1 < |segs| then segs[k + 1].seqno else next) == (segs[k].seqno + |segs[k].data|) % TWO_32
  }

  lemma StreamIsContiguous(segs: seq<Segment>, read: seq<byte>, currSeqno: uint32)
    requires StreamInv(segs, read, currSeqno)
    ensures Contiguous(segs, currSeqno)
  {
    hide SeqnoAt;
    forall k | 0 <= k < |segs| ensures SeqnoAt(segs, k + 1) == (segs[k].seqno + |segs[k].data|) % TWO_32 {
      SeqnoNext(segs, k);
    }
    if segs != [] { StartsAtOne(segs); }
  }

  lemma StartsAtOne(segs: seq<Segment>)
    requires segs != []
    ensures SeqnoAt(segs, 0) == INIT_SEQ_NUM
  {
  }

  ghost predicate Conserved(c: Conn) {
    && Data(Segs(c.h.removed)) + Data(Segs(c.unacked)) + Data(Segs(c.toSend)) == c.h.read
    && Contiguous(Segs(c.h.removed) + Segs(c.unacked) + Segs(c.toSend), c.currSeqno)
  }

  lemma InvConserves(c: Conn)
    requires Inv(c)
    ensures Conserved(c)
  {
    hide LedgerInv, WindowInv, Young, Fresh, Contiguous, StreamInv, Data;
    var r, u, t := Segs(c.h.removed), Segs(c.unacked), Segs(c.toSend);
    assert Segs(All(c)) == r + u + t;
    StreamIsContiguous(r + u + t, c.h.read, c.currSeqno);
    StreamData(r + u + t, c.h.read, c.currSeqno);
    DataAppend(r + u, t);
    DataAppend(r, u);
  }

  lemma StreamData(segs: seq<Segment>, read: seq<byte>, currSeqno: uint32)
    requires StreamInv(segs, read, currSeqno)
    ensures Data(segs) == read
  {
  }

  /** Sender conservation: in every reachable state the acknowledged, unacknowledged and
      waiting data, in this order, are everything that was read, and their sequence
      numbers follow each other without a gap up to curr_seqno. */
  lemma Conservation(sendWindow: uint16, rtTimeout: int, events: seq<Event>)
    ensures Conserved(Run(Init(sendWindow, rtTimeout), events))
  {
    RunKeeps(sendWindow, rtTimeout, events);
    hide Run;
    InvConserves(Run(Init(sendWindow, rtTimeout), events));
  }

  lemma InvBoundsSends(c: Conn, id: nat)
    requires Inv(c)
    ensures Sends(c.h.log, id, false) <= 1
    ensures Sends(c.h.log, id, true) <= MAX_NUM_RETRANSMIT
    ensures Spaced(c.h.log, c.rtTimeout) && Punctual(c.h.log)
  {
    hide StreamInv, WindowInv, Young, Fresh, Sends, LastStamp;
    if id < |All(c)| {
      IdIsPosition(All(c), c.h.log, c.rtTimeout, id);
    } else {
      NeverSent(c.h.log, id);
    }
  }

  lemma InvBoundsUnacked(c: Conn, i: nat)
    requires Inv(c) && c.alive && i < |c.unacked|
    ensures Sends(c.h.log, c.unacked[i].seg.id, true) < MAX_NUM_RETRANSMIT
  {
    hide StreamInv, WindowInv, Fresh, Sends, LastStamp;
    assert All(c)[|c.h.removed| + i] == c.unacked[i];
    IdIsPosition(All(c), c.h.log, c.rtTimeout, |c.h.removed| + i);
  }

  /** Retransmission bound: a segment is sent at most once by the window sender and five
      times by the timer, every timer transmission comes more than rtTimeout after the
      segment's previous time stamp, and a surviving connection holds no segment that
      used up its five. */
  lemma RetransmissionBound(sendWindow: uint16, rtTimeout: int, events: seq<Event>, id: nat)
    ensures var c := Run(Init(sendWindow, rtTimeout), events);
            && Sends(c.h.log, id, false) <= 1
            && Sends(c.h.log, id, true) <= MAX_NUM_RETRANSMIT
            && Spaced(c.h.log, rtTimeout)
            && (c.alive ==> forall i | 0 <= i < |c.unacked| ::
                  Sends(c.h.log, c.unacked[i].seg.id, true) < MAX_NUM_RETRANSMIT)
  {
    var c := Run(Init(sendWindow, rtTimeout), events);
    RunKeeps(sendWindow, rtTimeout, events);
    assert c.rtTimeout == rtTimeout;
    hide Run, Inv, Sends, Spaced;
    InvBoundsSends(c, id);
    if c.alive {
      forall i | 0 <= i < |c.unacked| ensures Sends(c.h.log, c.unacked[i].seg.id, true) < MAX_NUM_RETRANSMIT {
        InvBoundsUnacked(c, i);
      }
    }
  }

  /** Window accounting: modulo 2^16 the counter is the unacknowledged bytes (with headers)
      minus everything the timer ever sent again. Without a retransmission, and with no send
      window above 53996, it is exactly the unacknowledged bytes and exceeds the largest send
      window so far by less than one full segment. */
  lemma WindowAccounting(sendWindow: uint16, rtTimeout: int, events: seq<Event>)
    ensures var c := Run(Init(sendWindow, rtTimeout), events);
            && c.window == (TotalLength(c.unacked) - c.h.timerBytes) % TWO_16
            && (c.h.timerBytes == 0 && c.h.maxSendWindow <= 53996 ==>
                  c.window == TotalLength(c.unacked) < c.h.maxSendWindow + SEGMENT_LIMIT)
  {
    RunKeeps(sendWindow, rtTimeout, events);
    hide Run, Inv;
    InvAccounts(Run(Init(sendWindow, rtTimeout), events));
  }

  lemma InvAccounts(c: Conn)
    requires Inv(c)
    ensures c.window == (TotalLength(c.unacked) - c.h.timerBytes) % TWO_16
    ensures c.h.timerBytes == 0 && c.h.maxSendWindow <= 53996 ==>
              c.window == TotalLength(c.unacked) < c.h.maxSendWindow + SEGMENT_LIMIT
  {
    hide StreamInv, LedgerInv, Young, Fresh, All, Segs, TotalLength;
    Difference(c.window, c.h.timerBytes, TotalLength(c.unacked));
  }

  lemma Difference(w: uint16, t: nat, total: nat)
    requires (w + t) % TWO_16 == total % TWO_16
    ensures w == (total - t) % TWO_16
  {
    var k := (w + t) / TWO_16 - total / TWO_16;
    assert total - t == w - k * TWO_16;
  }
}
