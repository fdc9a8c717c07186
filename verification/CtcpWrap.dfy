/** Streams of any length at the receiver of lab3/ctcp.c, whose sequence numbers wrap at
    2^32: segments that arrive in order are all taken, but copies that come later are
    recognised only as long as their numbers stay below the next one. */
module CtcpWrap {
  import opened Machine
  import opened Ctcp
  import opened CtcpSender
  import opened CtcpOrder

  ghost predicate ReceiverIdle(b: Conn) {
    b.alive && !b.finReceived && b.unacked == [] && b.toSend == [] && !b.h.outputClosed
  }

  /** A numbered stream whose sequence numbers are plain offsets plus one. */
  ghost predicate Short(segs: seq<Segment>) {
    Numbered(segs) && INIT_SEQ_NUM + |Data(segs)| <= TWO_32
  }

  lemma PlainOffset(segs: seq<Segment>, k: nat)
    requires Short(segs) && k < |segs|
    ensures segs[k].seqno == INIT_SEQ_NUM + |Data(segs[..k])|
    ensures segs[k].seqno + |segs[k].data| == INIT_SEQ_NUM + |Data(segs[..k + 1])|
    ensures |Data(segs[..k + 1])| <= |Data(segs)|
    ensures segs[k].seqno < segs[k].seqno + |segs[k].data|
  {
    hide Data;
    DataNext(segs, k);
    assert segs[..|segs|] == segs;
    DataPrefix(segs, k + 1, |segs|);
    SmallMod32(INIT_SEQ_NUM + |Data(segs[..k])|);
  }

  /** A data segment at an idle receiver. */
  lemma DataArrives(b: Conn, seg: Segment, acks: nat -> AckEnv, space: nat)
    requires ReceiverIdle(b) && seg.ack && !seg.fin && seg.data != [] && space >= |seg.data|
    ensures var b1 := Receive(b, seg, true, acks, space);
            && ReceiverIdle(b1)
            && b1.prevAckno == (if Duplicate(b, seg) then b.prevAckno else (seg.seqno + |seg.data|) % TWO_32)
            && b1.h.output == b.h.output + if Duplicate(b, seg) then [] else seg.data
  {
    assert AckLoop(b, seg.ackno, acks, 0) == b;
  }

  // ---------------------------------------------------------------- arrival in order

  /** The segments of a stream arriving one after the other. */
  function InOrder(segs: seq<Segment>, acks: nat -> AckEnv): (events: seq<Event>)
    ensures |events| == |segs|
  {
    seq(|segs|, i requires 0 <= i < |segs| => SegmentArrives(segs[i], true, acks, MAX_SEG_DATA_SIZE))
  }

  lemma NumberedPrefix(segs: seq<Segment>, n: nat)
    requires Numbered(segs) && n <= |segs|
    ensures Numbered(segs[..n])
  {
    hide SeqnoAt;
    forall k | 0 <= k < n ensures SeqnoAt(segs[..n], k) == SeqnoAt(segs, k) { PrefixSeqno(segs, n, k); }
  }

  lemma PrefixSeqno(segs: seq<Segment>, n: nat, k: nat)
    requires k <= n <= |segs|
    ensures SeqnoAt(segs[..n], k) == SeqnoAt(segs, k)
  {
    hide Data;
    assert segs[..n][..k] == segs[..k];
  }

  lemma SegmentOf(segs: seq<Segment>, k: nat)
    requires Numbered(segs) && k < |segs|
    ensures segs[k].seqno == SeqnoAt(segs, k) && segs[k].ack && !segs[k].fin && 0 < |segs[k].data| <= MAX_SEG_DATA_SIZE
  {
    hide SeqnoAt;
  }

  /** All of the stream has been output after what b had, and the number after it is next. */
  ghost predicate HasTaken(b: Conn, b1: Conn, segs: seq<Segment>) {
    ReceiverIdle(b1) && b1.prevAckno == SeqnoAt(segs, |segs|) && b1.h.output == b.h.output + Data(segs)
  }

  lemma NothingTaken(b: Conn)
    requires ReceiverIdle(b) && b.prevAckno == INIT_SEQ_NUM
    ensures HasTaken(b, b, [])
  {
    hide ReceiverIdle;
  }

  lemma OneMoreTaken(b: Conn, b0: Conn, segs: seq<Segment>, acks: nat -> AckEnv)
    requires segs != [] && Numbered(segs) && HasTaken(b, b0, segs[..|segs| - 1])
    ensures HasTaken(b, Step(b0, SegmentArrives(segs[|segs| - 1], true, acks, MAX_SEG_DATA_SIZE)), segs)
  {
    hide Numbered, SeqnoAt, Data, Step, ReceiverIdle;
    var n := |segs| - 1;
    SegmentOf(segs, n);
    PrefixSeqno(segs, n, n);
    NextIsTaken(b0, segs[n], acks);
    SeqnoNext(segs, n);
    DataNext(segs, n);
    assert segs[..|segs|] == segs;
  }

  lemma InOrderPrefix(segs: seq<Segment>, acks: nat -> AckEnv, n: nat)
    requires n <= |segs|
    ensures InOrder(segs, acks)[..n] == InOrder(segs[..n], acks)
  {
  }

  /** However long the stream, also across a wrap of the sequence numbers: what arrives in
      order is output in full, and the receiver expects the number after it. */
  lemma {:induction false} InOrderIsTaken(b: Conn, segs: seq<Segment>, acks: nat -> AckEnv)
    requires ReceiverIdle(b) && b.prevAckno == INIT_SEQ_NUM && Numbered(segs)
    ensures HasTaken(b, Run(b, InOrder(segs, acks)), segs)
    decreases |segs|
  {
    hide Numbered, HasTaken, Step, ReceiverIdle;
    if segs == [] {
      NothingTaken(b);
    } else {
      var n := |segs| - 1;
      NumberedPrefix(segs, n);
      InOrderIsTaken(b, segs[..n], acks);
      InOrderPrefix(segs, acks, n);
      OneMoreTaken(b, Run(b, InOrder(segs[..n], acks)), segs, acks);
    }
  }

  lemma NextIsTaken(b: Conn, seg: Segment, acks: nat -> AckEnv)
    requires ReceiverIdle(b) && seg.seqno == b.prevAckno
    requires seg.ack && !seg.fin && 0 < |seg.data| <= MAX_SEG_DATA_SIZE
    ensures var b1 := Step(b, SegmentArrives(seg, true, acks, MAX_SEG_DATA_SIZE));
            && ReceiverIdle(b1) && b1.prevAckno == (seg.seqno + |seg.data|) % TWO_32
            && b1.h.output == b.h.output + seg.data
  {
    hide Receive;
    DataArrives(b, seg, acks, MAX_SEG_DATA_SIZE);
  }

  // ---------------------------------------------------------------- later copies

  /** No segment of the stream starts at a number at or above the one after its end. */
  ghost predicate NoneAbove(segs: seq<Segment>) {
    forall k | 0 <= k < |segs| :: segs[k].seqno < SeqnoAt(segs, |segs|)
  }

  /** Once a stream of any length has been taken in order, copies are all dropped exactly
      if no segment has a number at or above the next one. */
  lemma CopiesDroppedIff(b: Conn, segs: seq<Segment>, acks: nat -> AckEnv, space: nat)
    requires ReceiverIdle(b) && Numbered(segs) && space >= MAX_SEG_DATA_SIZE
    requires b.prevAckno == SeqnoAt(segs, |segs|)
    ensures (forall k | 0 <= k < |segs| :: Receive(b, segs[k], true, acks, space).h.output == b.h.output)
       <==> NoneAbove(segs)
  {
    hide Receive, Data, SeqnoAt;
    forall k | 0 <= k < |segs|
      ensures Receive(b, segs[k], true, acks, space).h.output == b.h.output <==> segs[k].seqno < b.prevAckno
    {
      DataArrives(b, segs[k], acks, space);
    }
  }

  lemma AllTaken(segs: seq<Segment>)
    requires Short(segs)
    ensures SeqnoAt(segs, |segs|) == if INIT_SEQ_NUM + |Data(segs)| < TWO_32 then INIT_SEQ_NUM + |Data(segs)| else 0
  {
    hide Data, Numbered;
    assert segs[..|segs|] == segs;
    SmallMod32(INIT_SEQ_NUM + |Data(segs)|);
  }

  /** For a stream of at most 2^32 - 1 bytes that is the case exactly if it has fewer: 2^32 - 1
      bytes bring prev_ackno back to 0, and then every old copy is output again. */
  lemma CopiesDroppedIffNoWrap(b: Conn, segs: seq<Segment>, acks: nat -> AckEnv, space: nat)
    requires ReceiverIdle(b) && Short(segs) && segs != [] && space >= MAX_SEG_DATA_SIZE
    requires b.prevAckno == SeqnoAt(segs, |segs|)
    ensures (forall k | 0 <= k < |segs| :: Receive(b, segs[k], true, acks, space).h.output == b.h.output)
       <==> INIT_SEQ_NUM + |Data(segs)| < TWO_32
  {
    hide Receive, Data, SeqnoAt, ReceiverIdle;
    CopiesDroppedIff(b, segs, acks, space);
    AllTaken(segs);
    if INIT_SEQ_NUM + |Data(segs)| < TWO_32 {
      forall k | 0 <= k < |segs| ensures segs[k].seqno < SeqnoAt(segs, |segs|) { PlainOffset(segs, k); }
    } else {
      assert segs[0].seqno >= SeqnoAt(segs, |segs|);
    }
  }

  /** The segment that covers offset p of the stream. */
  lemma {:induction false} CoveringSegment(segs: seq<Segment>, p: nat) returns (k: nat)
    requires p < |Data(segs)|
    ensures k < |segs| && |Data(segs[..k])| <= p < |Data(segs[..k])| + |segs[k].data|
    decreases |segs|
  {
    var n := |segs| - 1;
    if p < |Data(segs[..n])| {
      k := CoveringSegment(segs[..n], p);
      assert segs[..n][..k] == segs[..k];
    } else {
      k := n;
    }
  }

  /** A longer stream can have all its copies dropped only if it ends less than one full
      segment below a wrap; otherwise some copy is output again. */
  lemma LongStreamsRepeat(segs: seq<Segment>)
    requires Numbered(segs) && INIT_SEQ_NUM + |Data(segs)| >= TWO_32 && NoneAbove(segs)
    ensures SeqnoAt(segs, |segs|) > TWO_32 - MAX_SEG_DATA_SIZE
  {
    hide Data;
    assert segs[..|segs|] == segs;
    var end := INIT_SEQ_NUM + |Data(segs)|;
    var wrap := end / TWO_32 * TWO_32;
    var k := CoveringSegment(segs, wrap - 1 - INIT_SEQ_NUM);
    JustBelow(INIT_SEQ_NUM + |Data(segs[..k])|, |segs[k].data|, end / TWO_32);
  }

  lemma JustBelow(start: nat, len: nat, q: nat)
    requires q > 0 && start < q * TWO_32 <= start + len && len <= MAX_SEG_DATA_SIZE
    ensures start % TWO_32 >= TWO_32 - MAX_SEG_DATA_SIZE
  {
    var r := start - (q - 1) * TWO_32;
    assert start == (q - 1) * TWO_32 + r && 0 <= r < TWO_32;
  }
}
