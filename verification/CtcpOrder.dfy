/** In which order a sender's data segments leave for the first time, and which of them
    an honest acknowledgment can take off the unacked list. */
module CtcpOrder {
  import opened Machine
  import opened Ctcp
  import opened CtcpSender

  // ---------------------------------------------------------------- first transmissions

  /** The first copies left in stream order: they are the first n segments of the
      stream, and no later segment has been touched. */
  ghost predicate FirstOf(all: seq<SegInfo>, lo: nat, hi: nat, copies: seq<Segment>) {
    && lo <= |copies| <= hi <= |all|
    && copies == Segs(all)[..|copies|]
    && Fresh(all[|copies|..])
  }

  ghost predicate FirstInv(c: Conn) {
    FirstOf(All(c), |c.h.removed|, |c.h.removed| + |c.unacked|, c.h.firstCopies)
  }

  ghost predicate SInv(c: Conn) {
    Inv(c) && FirstInv(c)
  }

  /** A step that keeps the stream, or extends it. */
  ghost predicate Extends(c: Conn, c1: Conn) {
    && Segs(All(c)) <= Segs(All(c1))
    && c.h.read <= c1.h.read
    && c1.finReceived == c.finReceived
    && c.h.firstCopies <= c1.h.firstCopies
  }

  lemma ExtendsSelf(c: Conn)
    ensures Extends(c, c)
  {
  }

  lemma ExtendsTrans(c: Conn, c1: Conn, c2: Conn)
    requires Extends(c, c1) && Extends(c1, c2)
    ensures Extends(c, c2)
  {
  }

  /** In a numbered stream a segment is among the first n exactly if its position is. */
  lemma InPrefix(segs: seq<Segment>, n: nat, k: nat)
    requires Numbered(segs) && n <= |segs| && k < |segs|
    ensures segs[k] in segs[..n] <==> k < n
  {
    if k < n { assert segs[..n][k] == segs[k]; }
    if segs[k] in segs[..n] {
      var j :| 0 <= j < n && segs[..n][j] == segs[k];
      assert segs[j].id == j && segs[k].id == k;
    }
  }

  lemma StreamNumbered(c: Conn)
    requires Inv(c)
    ensures Numbered(Segs(All(c))) && Data(Segs(All(c))) == c.h.read
  {
  }

  /** First copies so far are the first n segments; transmitting the k-th, k <= n, keeps that. */
  lemma NextCopy(segs: seq<Segment>, n: nat, k: nat)
    requires Numbered(segs) && k <= n <= |segs| && k < |segs|
    ensures FirstCopy(segs[..n], segs[k]) == segs[..if k < n then n else n + 1]
  {
    InPrefix(segs, n, k);
  }

  lemma TouchedIsEarly(all: seq<SegInfo>, n: nat, k: nat)
    requires n <= |all| && k < |all| && Fresh(all[n..])
    requires all[k].inFlight || all[k].prevSent != 0 || all[k].retransmits != 0
    ensures k < n
  {
    hide Fresh;
    if n <= k { FreshAt(all, n, k); }
  }

  lemma FreshAt(all: seq<SegInfo>, n: nat, k: nat)
    requires n <= k < |all| && Fresh(all[n..])
    ensures !all[k].inFlight && all[k].retransmits == 0 && all[k].prevSent == 0
  {
    assert all[n..][k - n] == all[k];
  }

  lemma FreshTail(infos: seq<SegInfo>, n: nat, n1: nat, k: nat, s: SegInfo)
    requires n <= n1 <= |infos| && k < n1 && Fresh(infos[n..])
    ensures Fresh(infos[k := s][n1..])
  {
    assert infos[k := s][n1..] == infos[n..][n1 - n..];
  }

  /** Transmitting the segment at stream position k keeps the order of first copies. */
  lemma TransmitOne(all: seq<SegInfo>, lo: nat, hi: nat, copies: seq<Segment>, k: nat, s: SegInfo)
    requires FirstOf(all, lo, hi, copies) && Numbered(Segs(all))
    requires k <= |copies| && k < hi && s.seg == all[k].seg
    ensures var copies1 := FirstCopy(copies, s.seg);
            FirstOf(all[k := s], lo, hi, copies1) && copies <= copies1 && k < |copies1|
  {
    assert Segs(all[k := s]) == Segs(all);
    hide Numbered, Fresh, FirstCopy;
    NextCopy(Segs(all), |copies|, k);
    FreshTail(all, |copies|, |FirstCopy(copies, s.seg)|, k, s);
  }

  lemma TransmitInOrder(c: Conn, c1: Conn, i: nat, s: SegInfo)
    requires SInv(c) && i < |c.unacked| && |c.h.removed| + i <= |c.h.firstCopies|
    requires s.seg == c.unacked[i].seg
    requires c1.unacked == c.unacked[i := s] && c1.toSend == c.toSend && c1.h.removed == c.h.removed
    requires c1.h.firstCopies == FirstCopy(c.h.firstCopies, s.seg)
    ensures FirstInv(c1) && |c1.h.firstCopies| > |c.h.removed| + i
    ensures c.h.firstCopies <= c1.h.firstCopies
  {
    hide Inv, Numbered, FirstOf, FirstCopy, Segs, Data, TotalLength, Fresh;
    StreamNumbered(c);
    UpdateKeepsStream(c, c1, i, s);
    TransmitOne(All(c), |c.h.removed|, |c.h.removed| + |c.unacked|, c.h.firstCopies, |c.h.removed| + i, s);
  }

  lemma SendOneInOrder(c: Conn, i: nat, p: Pace)
    requires SInv(c) && i < |c.unacked| && !c.unacked[i].inFlight && |c.h.removed| + i <= |c.h.firstCopies|
    ensures var c1 := SendOne(c, i, p);
            SInv(c1) && Extends(c, c1) && c1.alive == c.alive && |c1.h.firstCopies| > |c.h.removed| + i
  {
    hide Inv, FirstInv;
    SendOneKeeps(c, i, p);
    TransmitInOrder(c, SendOne(c, i, p), i, SendOne(c, i, p).unacked[i]);
  }

  lemma SentIsFirst(c: Conn, i: nat)
    requires FirstInv(c) && i < |c.unacked|
    requires c.unacked[i].inFlight || c.unacked[i].prevSent != 0 || c.unacked[i].retransmits != 0
    ensures |c.h.removed| + i < |c.h.firstCopies|
  {
    assert All(c)[|c.h.removed| + i] == c.unacked[i];
    TouchedIsEarly(All(c), |c.h.firstCopies|, |c.h.removed| + i);
  }

  lemma {:induction false} SendFromInOrder(c: Conn, i: nat, pace: nat -> Pace)
    requires SInv(c) && i <= |c.unacked| && |c.h.removed| + i <= |c.h.firstCopies|
    ensures var c1 := SendFrom(c, i, pace);
            SInv(c1) && Extends(c, c1) && c1.alive == c.alive && c1.h.removed == c.h.removed
    decreases |c.unacked| - i
  {
    hide Inv, FirstInv, Extends;
    ExtendsSelf(c);
    if i < |c.unacked| {
      if c.unacked[i].inFlight {
        SentIsFirst(c, i);
        SendFromInOrder(c, i + 1, pace);
      } else {
        var c1 := SendOne(c, i, pace(i));
        SendOneInOrder(c, i, pace(i));
        SendFromInOrder(c1, i + 1, pace);
        ExtendsTrans(c, c1, SendFrom(c1, i + 1, pace));
      }
    }
  }

  lemma {:induction false} MoveWindowInOrder(c: Conn)
    requires SInv(c)
    ensures var c1 := MoveWindow(c);
            && SInv(c1) && All(c1) == All(c) && c1.h == c.h && c1.alive == c.alive
            && c1.finReceived == c.finReceived
    decreases |c.toSend|
  {
    if c.window < c.sendWindow && c.toSend != [] {
      MoveOneKeeps(c);
      hide Inv;
      MoveWindowInOrder(MoveOne(c));
    }
  }

  lemma SendWindowInOrder(c: Conn, e: SendEnv)
    requires SInv(c)
    ensures var c1 := SendWindow(c, e);
            SInv(c1) && Extends(c, c1) && c1.alive == c.alive && c1.h.removed == c.h.removed
  {
    hide Inv, SendFrom, MoveWindow;
    MoveWindowInOrder(c);
    if !e.blocked { SendFromInOrder(MoveWindow(c), 0, e.pace); }
  }

  // ---------------------------------------------------------------- honest acknowledgments

  /** An acknowledgment of the first d segments, all of which have been transmitted. */
  ghost predicate Honest(c: Conn, ackno: uint32, d: nat) {
    && d <= |c.h.firstCopies| <= |All(c)|
    && ackno == INIT_SEQ_NUM + |Data(Segs(All(c))[..d])|
  }

  ghost predicate Fits(c: Conn) {
    INIT_SEQ_NUM + |c.h.read| < TWO_32
  }

  lemma {:induction false} DataPrefix(segs: seq<Segment>, j: nat, k: nat)
    requires j <= k <= |segs|
    ensures Data(segs[..j]) <= Data(segs[..k])
  {
    assert segs[..k] == segs[..j] + segs[j..k];
    DataAppend(segs[..j], segs[j..k]);
  }

  /** Without wrap-around, sequence numbers are one plus the offset in the stream. */
  lemma PlainSeqno(c: Conn, k: nat)
    requires Inv(c) && Fits(c) && k <= |All(c)|
    ensures SeqnoAt(Segs(All(c)), k) == INIT_SEQ_NUM + |Data(Segs(All(c))[..k])|
    ensures Data(Segs(All(c))[..k]) <= c.h.read
    ensures k < |All(c)| ==> Segs(All(c))[k].seqno == SeqnoAt(Segs(All(c)), k)
  {
    var segs := Segs(All(c));
    StreamNumbered(c);
    hide Inv, Data, All;
    DataPrefix(segs, k, |segs|);
    assert segs[..|segs|] == segs;
    SmallSeqno(segs, k, c.h.read);
  }

  lemma SmallSeqno(segs: seq<Segment>, k: nat, read: seq<byte>)
    requires k <= |segs| && Data(segs[..k]) <= read && INIT_SEQ_NUM + |read| < TWO_32
    ensures SeqnoAt(segs, k) == INIT_SEQ_NUM + |Data(segs[..k])|
  {
  }

  lemma AckedWasSent(c: Conn, ackno: uint32, d: nat)
    requires Inv(c) && Fits(c) && Honest(c, ackno, d)
    requires c.unacked != [] && c.unacked[0].seg.seqno < ackno
    ensures |c.h.removed| < d
  {
    hide Inv, Data;
    var k := |c.h.removed|;
    assert All(c)[k] == c.unacked[0];
    PlainSeqno(c, k);
    if d <= k { DataPrefix(Segs(All(c)), d, k); }
  }

  lemma AcknowledgeInOrder(c: Conn, sendWindow: uint16)
    requires SInv(c) && c.unacked != [] && |c.h.removed| < |c.h.firstCopies|
    ensures var c1 := Acknowledge(c, sendWindow); SInv(c1) && Extends(c, c1)
  {
    AcknowledgeKeeps(c, sendWindow);
    hide Inv;
  }

  lemma AckOneInOrder(c: Conn, e: AckEnv)
    requires SInv(c) && c.unacked != [] && |c.h.removed| < |c.h.firstCopies|
    ensures var c1 := AckOne(c, e);
            SInv(c1) && Extends(c, c1) && c1.alive == c.alive && |c1.h.removed| == |c.h.removed| + 1
  {
    hide SInv, SendWindow, Extends;
    ExtendsSelf(Acknowledge(c, e.sendWindow));
    AcknowledgeInOrder(c, e.sendWindow);
    SendWindowInOrder(Acknowledge(c, e.sendWindow), e.send);
    ExtendsTrans(c, Acknowledge(c, e.sendWindow), AckOne(c, e));
  }

  lemma HonestExtends(c: Conn, c1: Conn, ackno: uint32, d: nat)
    requires Extends(c, c1) && Honest(c, ackno, d) && |c1.h.firstCopies| <= |All(c1)|
    ensures Honest(c1, ackno, d)
  {
    assert Segs(All(c1))[..d] == Segs(All(c))[..d];
  }

  lemma SInvParts(c: Conn)
    requires SInv(c)
    ensures Inv(c) && |c.h.removed| <= |c.h.firstCopies| <= |All(c)|
  {
  }

  lemma {:induction false} HonestAckLoop(c: Conn, ackno: uint32, d: nat, env: nat -> AckEnv, round: nat)
    requires SInv(c) && Fits(c) && Honest(c, ackno, d) && |c.h.removed| <= d
    ensures var c1 := AckLoop(c, ackno, env, round);
            && SInv(c1) && Extends(c, c1) && c1.alive == c.alive
            && |c1.h.removed| <= d && c1.h.read == c.h.read
    decreases |c.unacked| + |c.toSend|
  {
    hide SInv, Extends, AckOne, All, Data;
    ExtendsSelf(c);
    if c.unacked != [] && c.unacked[0].seg.seqno < ackno {
      var c1 := AckOne(c, env(round));
      SInvParts(c);
      AckedWasSent(c, ackno, d);
      AckOneKeeps(c, env(round));
      AckOneInOrder(c, env(round));
      if |c.unacked| > 1 {
        SInvParts(c1);
        HonestExtends(c, c1, ackno, d);
        HonestAckLoop(c1, ackno, d, env, round + 1);
        ExtendsTrans(c, c1, AckLoop(c1, ackno, env, round + 1));
      }
    }
  }

  // ---------------------------------------------------------------- the other sender steps

  /** current_time() counts milliseconds since 1970, so it is past any timeout. */
  ghost predicate ClockPast(ticks: nat -> Tick, rtTimeout: int) {
    forall i :: ticks(i).check > rtTimeout
  }

  lemma ResendOneInOrder(c: Conn, i: nat, t: Tick)
    requires SInv(c) && c.alive && i < |c.unacked| && |c.h.removed| + i <= |c.h.firstCopies|
    requires TimedOut(c.unacked[i], c.rtTimeout, t.check)
    ensures var c1 := ResendOne(c, i, t);
            && Extends(c, c1) && FirstInv(c1)
            && SInv(c1.(alive := false))
            && (c1.unacked[i].retransmits < MAX_NUM_RETRANSMIT ==> SInv(c1))
            && |c1.h.firstCopies| > |c.h.removed| + i
  {
    hide Inv, FirstOf;
    ResendOneKeeps(c, i, t);
    var c1 := ResendOne(c, i, t);
    TransmitInOrder(c, c1, i, c1.unacked[i]);
    assert All(c1.(alive := false)) == All(c1);
  }

  /** With the clock past the timeout, the timer passes over sent segments only. */
  lemma SkippedWasSent(c: Conn, i: nat, now: int)
    requires SInv(c) && c.alive && i < |c.unacked| && now > c.rtTimeout
    requires !TimedOut(c.unacked[i], c.rtTimeout, now)
    ensures |c.h.removed| + i < |c.h.firstCopies|
  {
    hide StreamInv, LedgerInv, WindowInv, Fresh, FirstInv;
    assert c.unacked[i].retransmits < MAX_NUM_RETRANSMIT;
    SentIsFirst(c, i);
  }

  lemma YoungOnes(c: Conn, i: nat)
    requires SInv(c) && c.alive && i < |c.unacked|
    ensures c.unacked[i].retransmits < MAX_NUM_RETRANSMIT
  {
    hide StreamInv, LedgerInv, WindowInv, Fresh, FirstInv;
  }

  lemma {:induction false} TimerFromInOrder(c: Conn, i: nat, ticks: nat -> Tick)
    requires SInv(c) && c.alive && i <= |c.unacked| && |c.h.removed| + i <= |c.h.firstCopies|
    requires ClockPast(ticks, c.rtTimeout)
    ensures var c1 := TimerFrom(c, i, ticks);
            SInv(c1) && Extends(c, c1) && c1.h.removed == c.h.removed && c1.h.read == c.h.read
    decreases |c.unacked| - i
  {
    hide SInv, Extends, FirstInv;
    ExtendsSelf(c);
    if i < |c.unacked| {
      assert ticks(i).check > c.rtTimeout;
      hide ClockPast;
      YoungOnes(c, i);
      if TimedOut(c.unacked[i], c.rtTimeout, ticks(i).check) {
        var c1 := ResendOne(c, i, ticks(i));
        ResendOneInOrder(c, i, ticks(i));
        DyingExtends(c, c1);
        if c1.unacked[i].retransmits < MAX_NUM_RETRANSMIT {
          TimerFromInOrder(c1, i + 1, ticks);
          ExtendsTrans(c, c1, TimerFrom(c1, i + 1, ticks));
        }
      } else {
        SkippedWasSent(c, i, ticks(i).check);
        TimerFromInOrder(c, i + 1, ticks);
      }
    }
  }

  lemma DyingExtends(c: Conn, c1: Conn)
    requires Extends(c, c1)
    ensures Extends(c, c1.(alive := false))
  {
    assert All(c1.(alive := false)) == All(c1);
  }

  lemma FirstGrows(all: seq<SegInfo>, lo: nat, hi: nat, copies: seq<Segment>, added: SegInfo)
    requires FirstOf(all, lo, hi, copies) && Fresh([added])
    ensures FirstOf(all + [added], lo, hi, copies) && Segs(all) <= Segs(all + [added])
  {
    assert (all + [added])[|copies|..] == all[|copies|..] + [added];
    assert added == [added][0];
  }

  lemma PrepareInOrder(c: Conn, data: Chunk)
    requires SInv(c) && c.alive
    ensures var c1 := Prepare(c, data);
            && SInv(c1) && c1.alive && Extends(c, c1) && c1.h.removed == c.h.removed
            && c1.h.read == c.h.read + data
  {
    hide Inv, FirstOf;
    var c1 := Prepare(c, data);
    PrepareKeeps(c, data);
    var added := c1.toSend[|c.toSend|];
    assert All(c1) == All(c) + [added];
    FirstGrows(All(c), |c.h.removed|, |c.h.removed| + |c.unacked|, c.h.firstCopies, added);
  }

  lemma ReadOneInOrder(c: Conn, data: Chunk, e: SendEnv)
    requires SInv(c) && c.alive
    ensures var c1 := SendWindow(Prepare(c, data), e);
            && SInv(c1) && c1.alive && Extends(c, c1) && c1.h.removed == c.h.removed
            && c1.h.read == c.h.read + data
  {
    hide SInv, Extends, Prepare, SendWindow;
    var c1 := Prepare(c, data);
    PrepareInOrder(c, data);
    SInvParts(c1);
    SendWindowKeeps(c1, e);
    SendWindowInOrder(c1, e);
    ExtendsTrans(c, c1, SendWindow(c1, e));
  }

  function Flat(chunks: seq<Chunk>): seq<byte> {
    if chunks == [] then [] else chunks[0] + Flat(chunks[1..])
  }

  lemma {:induction false} ReadChunksInOrder(c: Conn, chunks: seq<Chunk>, env: nat -> SendEnv, round: nat)
    requires SInv(c) && c.alive
    ensures var c1 := ReadChunks(c, chunks, env, round);
            && SInv(c1) && c1.alive && Extends(c, c1) && c1.h.removed == c.h.removed
            && c1.h.read == c.h.read + Flat(chunks)
    decreases |chunks|
  {
    hide SInv, Extends, Prepare, SendWindow;
    ExtendsSelf(c);
    if chunks != [] {
      var c1 := SendWindow(Prepare(c, chunks[0]), env(round));
      ReadOneInOrder(c, chunks[0], env(round));
      ReadChunksInOrder(c1, chunks[1..], env, round + 1);
      ExtendsTrans(c, c1, ReadChunks(c1, chunks[1..], env, round + 1));
    }
  }

  /** Steps on the receiving half alone. */
  lemma ReceiverPartInOrder(c: Conn, c1: Conn)
    requires SInv(c) && (c1.alive ==> c.alive)
    requires c1.unacked == c.unacked && c1.toSend == c.toSend && c1.currSeqno == c.currSeqno
    requires c1.prepared == c.prepared
    requires c1.window == c.window && c1.sendWindow == c.sendWindow && c1.rtTimeout == c.rtTimeout
    requires c1.h.(controls := [], output := [], outputClosed := false)
          == c.h.(controls := [], output := [], outputClosed := false)
    requires c1.finReceived == c.finReceived
    ensures SInv(c1) && Extends(c, c1) && c1.h.removed == c.h.removed && c1.h.read == c.h.read
  {
    ReceiverPart(c, c1);
    hide Inv, FirstOf;
    assert c1.h.firstCopies == c.h.(controls := [], output := [], outputClosed := false).firstCopies;
    assert c1.h.removed == c.h.(controls := [], output := [], outputClosed := false).removed;
  }
}
