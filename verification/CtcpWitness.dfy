/** Runs from the initial state in which the guarantees of lab3/ctcp.c end: the conditions
    proved exact elsewhere do fail. */
module CtcpWitness {
  import opened Machine
  import opened Ctcp
  import opened CtcpSender
  import CtcpOrder
  import CtcpLimits
  import CtcpWrap
  import CtcpTransfer
  import CtcpClosing

  // ---------------------------------------------------------------- reading and sending at once

  /** Congestion control that lets everything pass and paces nothing. */
  function Open(round: nat): SendEnv {
    SendEnv(false, i => Pace(1000, 0))
  }

  /** A data segment prepared while nothing has been received. */
  function Sent(id: nat, seqno: uint32, b: byte): Segment {
    Segment(id, seqno, INIT_SEQ_NUM, true, false, [b])
  }

  ghost predicate AllInFlight(c: Conn) {
    forall i | 0 <= i < |c.unacked| :: c.unacked[i].inFlight
  }

  /** The window sender passes over what is in flight. */
  lemma {:induction false} SkipSent(c: Conn, i: nat, n: nat, pace: nat -> Pace)
    requires i <= n <= |c.unacked| && forall j | i <= j < n :: c.unacked[j].inFlight
    ensures SendFrom(c, i, pace) == SendFrom(c, n, pace)
    decreases n - i
  {
    if i < n { SkipSent(c, i + 1, n, pace); }
  }

  /** One byte is read, and its segment is transmitted at once behind those in flight. */
  lemma ReadAndSend(c: Conn, b: byte, round: nat)
    requires c.toSend == [] && c.currAckno == INIT_SEQ_NUM && c.window < c.sendWindow && AllInFlight(c)
    requires Sent(c.prepared, c.currSeqno, b) !in c.h.firstCopies
    ensures var seg, c1 := Sent(c.prepared, c.currSeqno, b), SendWindow(Prepare(c, [b]), Open(round));
            && c1 == c.(unacked := c.unacked + [SegInfo(seg, 1000, 0, true)],
                        prepared := c.prepared + 1, currSeqno := (c.currSeqno + 1) % TWO_32,
                        window := (c.window + 21) % TWO_16,
                        h := c.h.(read := c.h.read + [b], log := c.h.log + [Tx(c.prepared, 1000, 1000, false)],
                                  firstCopies := c.h.firstCopies + [seg]))
            && AllInFlight(c1)
  {
    var seg, n := Sent(c.prepared, c.currSeqno, b), |c.unacked|;
    ReadMoves(c, b);
    hide MoveWindow, Prepare;
    var moved := MoveWindow(Prepare(c, [b]));
    SkipSent(moved, 0, n, Open(round).pace);
    SendLast(moved, n, Open(round).pace);
    hide SendFrom;
    assert moved.unacked[n := SegInfo(seg, 1000, 0, true)] == c.unacked + [SegInfo(seg, 1000, 0, true)];
  }

  lemma ReadMoves(c: Conn, b: byte)
    requires c.toSend == [] && c.currAckno == INIT_SEQ_NUM && c.window < c.sendWindow
    ensures MoveWindow(Prepare(c, [b]))
         == c.(unacked := c.unacked + [SegInfo(Sent(c.prepared, c.currSeqno, b), 0, 0, false)],
               prepared := c.prepared + 1, currSeqno := (c.currSeqno + 1) % TWO_32,
               window := (c.window + 21) % TWO_16, h := c.h.(read := c.h.read + [b]))
  {
    var p := Prepare(c, [b]);
    assert MoveWindow(p) == MoveWindow(MoveOne(p)) == MoveOne(p);
  }

  lemma SendLast(c: Conn, n: nat, pace: nat -> Pace)
    requires n + 1 == |c.unacked| && !c.unacked[n].inFlight
    ensures SendFrom(c, n, pace) == SendOne(c, n, pace(n))
  {
    assert SendFrom(c, n, pace) == SendFrom(SendOne(c, n, pace(n)), n + 1, pace);
  }

  /** With the window full it stays in the waiting list. */
  lemma ReadWaits(c: Conn, b: byte, round: nat)
    requires c.currAckno == INIT_SEQ_NUM && c.window >= c.sendWindow && AllInFlight(c)
    ensures SendWindow(Prepare(c, [b]), Open(round))
         == c.(toSend := c.toSend + [SegInfo(Sent(c.prepared, c.currSeqno, b), 0, 0, false)],
               prepared := c.prepared + 1, currSeqno := (c.currSeqno + 1) % TWO_32,
               h := c.h.(read := c.h.read + [b]))
  {
    var p := Prepare(c, [b]);
    SkipSent(p, 0, |p.unacked|, Open(round).pace);
  }

  lemma ReadStep(c: Conn, b: byte, rest: seq<Chunk>, round: nat)
    ensures ReadChunks(c, [[b]] + rest, Open, round)
         == ReadChunks(SendWindow(Prepare(c, [b]), Open(round)), rest, Open, round + 1)
  {
    hide SendWindow, Prepare;
    assert ([[b]] + rest)[1..] == rest;
  }

  lemma ReadDone(c: Conn, round: nat)
    ensures ReadChunks(c, [], Open, round) == c
  {
  }

  // ---------------------------------------------------------------- an overrun

  function InFlight(id: nat, seqno: uint32, b: byte): SegInfo {
    SegInfo(Sent(id, seqno, b), 1000, 0, true)
  }

  /** One one-byte chunk with a send window of 40. */
  function One(): Conn {
    Init(40, 200).(
      unacked := [InFlight(0, 1, 10)], prepared := 1, currSeqno := 2, window := 21,
      h := Init(40, 200).h.(read := [10], log := [Tx(0, 1000, 1000, false)], firstCopies := [Sent(0, 1, 10)]))
  }

  function Two(): Conn {
    One().(
      unacked := [InFlight(0, 1, 10), InFlight(1, 2, 11)], prepared := 2, currSeqno := 3, window := 42,
      h := One().h.(read := [10, 11], log := [Tx(0, 1000, 1000, false), Tx(1, 1000, 1000, false)],
                    firstCopies := [Sent(0, 1, 10), Sent(1, 2, 11)]))
  }

  /** Three chunks: two segments are in flight, one waits. */
  function TwoAndOne(): Conn {
    Two().(toSend := [SegInfo(Sent(2, 3, 12), 0, 0, false)], prepared := 3, currSeqno := 4,
           h := Two().h.(read := [10, 11, 12]))
  }

  lemma FirstRead()
    ensures SendWindow(Prepare(Init(40, 200), [10]), Open(0)) == One()
  {
    hide SendWindow, Prepare, Open;
    ReadAndSend(Init(40, 200), 10, 0);
  }

  lemma SecondRead()
    ensures SendWindow(Prepare(One(), [11]), Open(1)) == Two()
  {
    hide SendWindow, Prepare, Open;
    ReadAndSend(One(), 11, 1);
  }

  lemma ThirdRead()
    ensures SendWindow(Prepare(Two(), [12]), Open(2)) == TwoAndOne()
  {
    hide SendWindow, Prepare, Open;
    ReadWaits(Two(), 12, 2);
  }

  lemma ThreeReads()
    ensures ReadChunks(Init(40, 200), [[10], [11], [12]], Open, 0) == TwoAndOne()
  {
    hide ReadChunks, SendWindow, Prepare, Open, One, Two, TwoAndOne;
    var chunks: seq<Chunk>, last2: seq<Chunk>, last: seq<Chunk> := [[10], [11], [12]], [[11], [12]], [[12]];
    assert chunks == [[10]] + last2 && last2 == [[11]] + last && last == [[12]] + [];
    ReadStep(Init(40, 200), 10, last2, 0);
    FirstRead();
    ReadStep(One(), 11, last, 1);
    SecondRead();
    ReadStep(Two(), 12, [], 2);
    ThirdRead();
    ReadDone(TwoAndOne(), 3);
  }

  /** The event: three bytes arrive one by one, and what the window takes is transmitted. */
  function ThreeBytes(): Event {
    InputReady([[10], [11], [12]], false, Open)
  }

  /** A reachable state and an acknowledgment number with which the ACK loop overruns: for
      some congestion control it removes more than the leading run. */
  lemma OverrunIsReached()
    ensures var c := Run(Init(40, 200), [ThreeBytes()]);
            && CtcpLimits.CanOverrun(c, 4)
            && exists env: nat -> AckEnv :: !CtcpLimits.TakesRun(c, 4, env)
  {
    hide *;
    var c := Run(Init(40, 200), [ThreeBytes()]);
    ReachesTwoAndOne();
    RunKeeps(40, 200, [ThreeBytes()]);
    TwoAndOneOverruns();
    CtcpLimits.AckLoopExact(c, 4);
  }

  lemma ReachesTwoAndOne()
    ensures Run(Init(40, 200), [ThreeBytes()]) == TwoAndOne()
  {
    hide Run, ReadChunks;
    RunOne(Init(40, 200), ThreeBytes());
    ThreeReads();
  }

  lemma TwoAndOneOverruns()
    ensures CtcpLimits.CanOverrun(TwoAndOne(), 4)
  {
    var segs := Segs(TwoAndOne().unacked);
    assert segs == [Sent(0, 1, 10), Sent(1, 2, 11)];
    assert CtcpLimits.Leading(segs[1..][1..], 4) == 0;
    assert CtcpLimits.Leading(segs[1..], 4) == 1;
  }

  lemma RunOne(c: Conn, e: Event)
    ensures Run(c, [e]) == Step(c, e)
  {
    hide Step;
    assert [e][..0] == [];
    assert Run(c, []) == c;
  }

  // ---------------------------------------------------------------- a callback that loses data

  /** The sender after reading and transmitting two one-byte chunks. */
  lemma TwoSent()
    ensures var c := ReadInput(Init(60, 200), [[7], [8]], false, Open);
            c.h.firstCopies == [Sent(0, 1, 7), Sent(1, 2, 8)] && c.h.read == [7, 8] && c.alive
  {
    hide SendWindow, Prepare, Open;
    var c0 := Init(60, 200);
    var c1 := SendWindow(Prepare(c0, [7]), Open(0));
    var chunks: seq<Chunk>, last: seq<Chunk> := [[7], [8]], [[8]];
    assert chunks[1..] == last && last[1..] == [];
    ReadAndSend(c0, 7, 0);
    ReadAndSend(c1, 8, 1);
  }

  /** Two segments are sent, the first arrives, its output is drained, the second arrives. */
  function LosingRun(acks: nat -> AckEnv): seq<CtcpTransfer.Event> {
    [CtcpTransfer.SenderReads([[7], [8]], false, Open),
     CtcpTransfer.FirstCopyArrives(acks, 8192),
     CtcpTransfer.ReceiverDrains(8192),
     CtcpTransfer.FirstCopyArrives(acks, 8192)]
  }

  lemma RunIs(acks: nat -> AckEnv)
    ensures var run := LosingRun(acks);
            && |run| == 4 && run[0] == CtcpTransfer.SenderReads([[7], [8]], false, Open)
            && run[1] == CtcpTransfer.FirstCopyArrives(acks, 8192) == run[3]
            && run[2] == CtcpTransfer.ReceiverDrains(8192)
  {
  }

  /** A run step by step: how many first copies have arrived and found the output open. */
  ghost predicate At(y: CtcpTransfer.System, delivered: nat, written: nat, closed: bool) {
    && CtcpTransfer.SystemInv(y) && y.a.alive && y.a.h.read == [7, 8]
    && y.a.h.firstCopies == [Sent(0, 1, 7), Sent(1, 2, 8)]
    && y.delivered == delivered && y.written == written && (y.b.h.outputClosed <==> closed)
  }

  lemma TwoChunks()
    ensures CtcpOrder.Flat([[7], [8]]) == [7, 8]
  {
    var chunks: seq<Chunk>, last: seq<Chunk> := [[7], [8]], [[8]];
    assert chunks[1..] == last && last[1..] == [];
    assert CtcpOrder.Flat(last) == [8];
  }

  lemma StartSends()
    ensures var y, e := CtcpTransfer.Start(60, 200, 60, 200), CtcpTransfer.SenderReads([[7], [8]], false, Open);
            At(CtcpTransfer.Next(y, e), 0, 0, false)
  {
    hide CtcpTransfer.SystemInv, CtcpTransfer.Next, ReadInput, CtcpOrder.Flat;
    var y, e := CtcpTransfer.Start(60, 200, 60, 200), CtcpTransfer.SenderReads([[7], [8]], false, Open);
    CtcpTransfer.StartInv(y.a, y.b);
    CtcpTransfer.NextKeeps(y, e);
    TwoChunks();
    TwoSent();
    CtcpClosing.NextReads(y, [[7], [8]], false, Open);
  }

  lemma FitsAt(y: CtcpTransfer.System, d: nat, w: nat, closed: bool, acks: nat -> AckEnv)
    requires At(y, d, w, closed) && d < 2
    ensures CtcpTransfer.Arrives(y, CtcpTransfer.FirstCopyArrives(acks, 8192))
  {
    hide CtcpTransfer.SystemInv;
  }

  lemma CopyArrives(y: CtcpTransfer.System, d: nat, w: nat, closed: bool, acks: nat -> AckEnv)
    requires At(y, d, w, closed) && d < 2
    ensures var y1 := CtcpTransfer.Next(y, CtcpTransfer.FirstCopyArrives(acks, 8192));
            At(y1, d + 1, if closed then w else d + 1, closed)
  {
    hide CtcpTransfer.SystemInv, CtcpTransfer.Next, CtcpTransfer.Arrives, CtcpClosing.Closes;
    var e := CtcpTransfer.FirstCopyArrives(acks, 8192);
    FitsAt(y, d, w, closed, acks);
    CtcpClosing.OnlyReceiverCloses(y, e);
    CtcpTransfer.NextKeeps(y, e);
    CtcpClosing.ReceiverStays(y, e);
    CtcpClosing.SenderUntouched(y, e);
  }

  lemma DrainCloses(y: CtcpTransfer.System)
    requires y.b.h.output != []
    ensures CtcpClosing.Closes(y, CtcpTransfer.ReceiverDrains(8192))
    ensures !CtcpTransfer.Arrives(y, CtcpTransfer.ReceiverDrains(8192))
  {
  }

  lemma Drained(y: CtcpTransfer.System)
    requires At(y, 1, 1, false)
    ensures At(CtcpTransfer.Next(y, CtcpTransfer.ReceiverDrains(8192)), 1, 1, true)
  {
    hide CtcpTransfer.SystemInv, CtcpTransfer.Next, CtcpTransfer.Arrives, CtcpClosing.Closes;
    var e := CtcpTransfer.ReceiverDrains(8192);
    OutputIs(y, 1, 1, false);
    DrainCloses(y);
    CtcpTransfer.NextKeeps(y, e);
    CtcpClosing.ReceiverStays(y, e);
    CtcpClosing.SenderUntouched(y, e);
  }

  lemma OutputIs(y: CtcpTransfer.System, d: nat, w: nat, closed: bool)
    requires At(y, d, w, closed) && w == 1 && d <= 2
    ensures y.b.h.output == [7]
  {
    hide CtcpTransfer.SystemInv, CtcpTransfer.Acknowledged, CtcpTransfer.AcksEach;
    CtcpTransfer.InvIsSafe(y);
    assert y.a.h.firstCopies[..1] == [Sent(0, 1, 7)];
    assert [Sent(0, 1, 7)][..0] == [];
  }

  /** Two bytes are read and both segments arrive in order and undamaged, but only the first
      is output; and an acknowledgment already under way takes both off the sender's list. */
  lemma CallbackLosesData(acks: nat -> AckEnv)
    ensures var y := CtcpTransfer.Transfer(CtcpTransfer.Start(60, 200, 60, 200), LosingRun(acks));
            && y.a.h.read == [7, 8] && y.delivered == 2 && y.b.h.output == [7] && y.b.h.outputClosed
            && exists i: nat, env, space ::
                 !CtcpClosing.RemovedWasOutput(CtcpTransfer.Next(y, CtcpTransfer.AckArrives(i, env, space)))
  {
    hide *;
    var start, run := CtcpTransfer.Start(60, 200, 60, 200), LosingRun(acks);
    RunIs(acks);
    StartSends();
    var y1 := CtcpTransfer.Next(start, run[0]);
    CopyArrives(y1, 0, 0, false, acks);
    var y2 := CtcpTransfer.Next(y1, run[1]);
    Drained(y2);
    var y3 := CtcpTransfer.Next(y2, run[2]);
    CopyArrives(y3, 1, 1, true, acks);
    var y4 := CtcpTransfer.Next(y3, run[3]);
    FourSteps(start, run);
    OutputIs(y4, 2, 1, true);
    AtParts(y4, 2, 1, true);
    CtcpClosing.LateCopyIsLost(y4);
  }

  lemma AtParts(y: CtcpTransfer.System, d: nat, w: nat, closed: bool)
    requires At(y, d, w, closed)
    ensures CtcpTransfer.SystemInv(y) && y.a.alive && y.a.h.read == [7, 8]
    ensures y.delivered == d && y.written == w && (y.b.h.outputClosed <==> closed)
  {
    hide CtcpTransfer.SystemInv;
  }

  lemma FourSteps(y: CtcpTransfer.System, run: seq<CtcpTransfer.Event>)
    requires |run| == 4
    ensures var y2 := CtcpTransfer.Next(CtcpTransfer.Next(y, run[0]), run[1]);
            CtcpTransfer.Transfer(y, run) == CtcpTransfer.Next(CtcpTransfer.Next(y2, run[2]), run[3])
  {
    hide CtcpTransfer.Next;
    assert run[..3][..2] == run[..2] && run[..2][..1] == run[..1] && run[..1][..0] == [];
    assert CtcpTransfer.Transfer(y, run[..0]) == y;
    assert CtcpTransfer.Transfer(y, run[..1]) == CtcpTransfer.Next(y, run[0]);
    assert CtcpTransfer.Transfer(y, run[..2]) == CtcpTransfer.Next(CtcpTransfer.Next(y, run[0]), run[1]);
  }

  // ---------------------------------------------------------------- the longest stream without a wrap

  /** One byte in each segment. */
  function Single(k: nat): Segment {
    Segment(k, (INIT_SEQ_NUM + k) % TWO_32, INIT_SEQ_NUM, true, false, [0])
  }

  function Singles(n: nat): (segs: seq<Segment>)
    ensures |segs| == n
  {
    seq(n, (k: nat) => Single(k))
  }

  lemma {:induction false} SinglesData(n: nat, k: nat)
    requires k <= n
    ensures |Data(Singles(n)[..k])| == k
    decreases k
  {
    if k > 0 {
      SinglesData(n, k - 1);
      DataNext(Singles(n), k - 1);
    }
  }

  lemma SinglesNumbered(n: nat)
    ensures Numbered(Singles(n)) && |Data(Singles(n))| == n
  {
    hide Data;
    assert Singles(n)[..n] == Singles(n);
    SinglesData(n, n);
    forall k | 0 <= k < n ensures SeqnoAt(Singles(n), k) == (INIT_SEQ_NUM + k) % TWO_32 { SinglesData(n, k); }
  }

  /** The receiver after a stream of 2^32 - 1 bytes that arrived in order. */
  ghost function Filled(acks: nat -> AckEnv): Conn {
    Run(Init(0, 200), CtcpWrap.InOrder(Singles(TWO_32 - 1), acks))
  }

  /** It has output every byte once, and a copy of any segment is output again. */
  lemma FilledRepeats(acks: nat -> AckEnv, k: nat)
    requires k < TWO_32 - 1
    ensures Filled(acks).h.output == Data(Singles(TWO_32 - 1))
    ensures Ctcp.Receive(Filled(acks), Single(k), true, acks, MAX_SEG_DATA_SIZE).h.output == Filled(acks).h.output + [0]
  {
    hide Numbered, Run, Data, Ctcp.Receive;
    var segs := Singles(TWO_32 - 1);
    SinglesNumbered(TWO_32 - 1);
    CtcpWrap.InOrderIsTaken(Init(0, 200), segs, acks);
    CtcpWrap.AllTaken(segs);
    CtcpWrap.DataArrives(Filled(acks), Single(k), acks, MAX_SEG_DATA_SIZE);
  }
}
