/** Pacing and the retransmission timeout of lab3/ctcp.c: prev_sent_time is written before a
    segment waits for its slot, so a retransmission can come early after the departure. */
module CtcpPacing {
  import opened Machine
  import opened Ctcp
  import opened CtcpSender

  /** prev_sent_time is written before the pacing wait, so a retransmission is more than
      rtTimeout after the actual departure, whenever the timer runs, exactly if the
      segment did not have to wait for its slot. */
  lemma PacingEatsTimeout(c: Conn, i: nat, p: Pace)
    requires i < |c.unacked| && c.unacked[i].retransmits < MAX_NUM_RETRANSMIT && c.rtTimeout >= 0
    ensures var s, at := SendOne(c, i, p).unacked[i], p.stamp + p.wait;
            (forall now | now >= at && TimedOut(s, c.rtTimeout, now) :: now - at > c.rtTimeout) <==> p.wait == 0
  {
    var s, at := SendOne(c, i, p).unacked[i], p.stamp + p.wait;
    if p.wait > 0 {
      var now := if at > p.stamp + c.rtTimeout then at else p.stamp + c.rtTimeout + 1;
      assert now >= at && TimedOut(s, c.rtTimeout, now) && now - at <= c.rtTimeout;
    }
  }

  // ---------------------------------------------------------------- every run

  /** Position of the last transmission of segment id, -1 before the first. */
  function LastTx(log: seq<Tx>, id: nat): (i: int)
    ensures -1 <= i < |log| && (i >= 0 ==> log[i].id == id)
    ensures forall k | i < k < |log| :: log[k].id != id
    ensures i < 0 ==> LastStamp(log, id) == 0
    ensures i >= 0 ==> LastStamp(log, id) == log[i].stamp
    decreases |log|
  {
    if log == [] then -1
    else if log[|log| - 1].id == id then |log| - 1
    else LastTx(log[..|log| - 1], id)
  }

  /** The j-th transmission is a retransmission no more than rtTimeout after the segment's
      previous departure. */
  predicate Early(log: seq<Tx>, rtTimeout: int, j: nat)
    requires j < |log|
  {
    var i := LastTx(log[..j], log[j].id);
    log[j].timer && i >= 0 && log[j].at - log[i].at <= rtTimeout
  }

  lemma {:induction false} SendsCounts(log: seq<Tx>, id: nat, i: nat)
    requires i < |log| && log[i].id == id && !log[i].timer
    ensures Sends(log, id, false) >= 1
    decreases |log|
  {
    if i < |log| - 1 { SendsCounts(log[..|log| - 1], id, i); }
  }

  lemma {:induction false} SendsCountsTwo(log: seq<Tx>, id: nat, i: nat, k: nat)
    requires i < k < |log| && log[i].id == log[k].id == id && !log[i].timer && !log[k].timer
    ensures Sends(log, id, false) >= 2
    decreases |log|
  {
    var n := |log| - 1;
    if k < n { SendsCountsTwo(log[..n], id, i, k); } else { SendsCounts(log[..n], id, i); }
  }

  lemma EarlyWaited(log: seq<Tx>, rtTimeout: int, j: nat)
    requires Spaced(log, rtTimeout) && Punctual(log) && j < |log| && Early(log, rtTimeout, j)
    ensures var last := log[LastTx(log[..j], log[j].id)]; !last.timer && last.at > last.stamp
  {
    hide LastStamp;
    var i := LastTx(log[..j], log[j].id);
    assert log[..j][i] == log[i];
  }

  /** In every run a retransmission is early only right after the window sender's
      transmission of the same segment, and only if that had to wait for its slot; so of a
      segment's retransmissions at most one is early. */
  lemma OnlyPacedSendsAreEarly(sendWindow: uint16, rtTimeout: int, events: seq<Event>, j: nat)
    ensures var log := Run(Init(sendWindow, rtTimeout), events).h.log;
            j < |log| && Early(log, rtTimeout, j) ==>
              var last := log[LastTx(log[..j], log[j].id)];
              && !last.timer && last.at > last.stamp
              && forall k | 0 <= k < |log| && k != j && log[k].id == log[j].id :: !Early(log, rtTimeout, k)
  {
    var c := Run(Init(sendWindow, rtTimeout), events);
    RunKeeps(sendWindow, rtTimeout, events);
    assert c.rtTimeout == rtTimeout;
    hide Run, Inv, Spaced, Punctual, Early;
    var log := c.h.log;
    if j < |log| && Early(log, rtTimeout, j) {
      InvBoundsSends(c, log[j].id);
      EarlyWaited(log, rtTimeout, j);
      forall k | 0 <= k < |log| && k != j && log[k].id == log[j].id ensures !Early(log, rtTimeout, k) {
        if Early(log, rtTimeout, k) {
          if j < k { EarlyOnce(log, rtTimeout, j, k); } else { EarlyOnce(log, rtTimeout, k, j); }
        }
      }
    }
  }

  lemma EarlyOnce(log: seq<Tx>, rtTimeout: int, j: nat, k: nat)
    requires j < k < |log| && log[j].id == log[k].id && Spaced(log, rtTimeout) && Punctual(log)
    requires Early(log, rtTimeout, j) && Early(log, rtTimeout, k)
    ensures Sends(log, log[j].id, false) >= 2
  {
    EarlyWaited(log, rtTimeout, j);
    EarlyWaited(log, rtTimeout, k);
    hide Spaced, Punctual, Sends;
    var first, second := LastTx(log[..j], log[j].id), LastTx(log[..k], log[k].id);
    assert log[..k][j] == log[j] && log[..j][first] == log[first] && log[..k][second] == log[second];
    SendsCountsTwo(log, log[j].id, first, second);
  }

  // ---------------------------------------------------------------- an early one is reached

  /** The first segment leaves at once, the second waits. */
  function Pacing(wait: nat): SendEnv {
    SendEnv(false, i => Pace(1000, if i == 0 then 0 else wait))
  }

  /** The first clock reading at or after both departures at which the timer takes the
      segments for timed out. */
  function Expired(rtTimeout: nat, wait: nat): int {
    1000 + if wait > rtTimeout then wait else rtTimeout + 1
  }

  /** Two bytes are sent, one at once and one after a wait, then the timer fires. */
  function EarlyRun(rtTimeout: nat, wait: nat): seq<Event> {
    [InputReady([[7], [8]], false, round => Pacing(wait)), TimerFires(i => Tick(Expired(rtTimeout, wait), 0), 0)]
  }

  /** The transmissions of this run. */
  function EarlyLog(rtTimeout: nat, wait: nat): seq<Tx> {
    [Tx(0, 1000, 1000, false), Tx(1, 1000, 1000 + wait, false),
     Tx(0, Expired(rtTimeout, wait), Expired(rtTimeout, wait), true),
     Tx(1, Expired(rtTimeout, wait), Expired(rtTimeout, wait), true)]
  }

  /** For every timeout and every wait of the second segment there is a run in which the
      retransmission of the first is not early, and that of the second is exactly if the
      wait is not zero. */
  lemma EarlyIsReached(rtTimeout: nat, wait: nat)
    ensures var log := Run(Init(60, rtTimeout), EarlyRun(rtTimeout, wait)).h.log;
            && log == EarlyLog(rtTimeout, wait)
            && !Early(log, rtTimeout, 2) && (Early(log, rtTimeout, 3) <==> wait > 0)
  {
    hide *;
    EarlyTransmissions(rtTimeout, wait);
    EarlyLast(rtTimeout, wait);
  }

  lemma EarlyLast(rtTimeout: nat, wait: nat)
    ensures var log := EarlyLog(rtTimeout, wait);
            |log| == 4 && !Early(log, rtTimeout, 2) && (Early(log, rtTimeout, 3) <==> wait > 0)
  {
    hide LastTx, LastStamp;
    var log := EarlyLog(rtTimeout, wait);
    EarlyPositions(log);
  }

  lemma EarlyPositions(log: seq<Tx>)
    requires |log| == 4 && log[0].id == log[2].id == 0 && log[1].id == log[3].id == 1
    ensures LastTx(log[..2], 0) == 0 && LastTx(log[..3], 1) == 1
  {
  }

  lemma EarlyTransmissions(rtTimeout: nat, wait: nat)
    ensures Run(Init(60, rtTimeout), EarlyRun(rtTimeout, wait)).h.log == EarlyLog(rtTimeout, wait)
  {
    var c, run := Init(60, rtTimeout), EarlyRun(rtTimeout, wait);
    hide Step;
    assert run[..1][..0] == [];
    assert Run(c, run[..0]) == c;
    assert Run(c, run[..1]) == Step(c, run[0]);
    assert Run(c, run) == Step(Step(c, run[0]), run[1]);
    hide Run;
    BothSent(rtTimeout, wait, run[0].sends);
    FirstStep(c, run[0].sends);
    TimerSends(Step(c, run[0]), rtTimeout, wait, run[1].ticks);
  }

  lemma FirstStep(c: Conn, sends: nat -> SendEnv)
    requires c.alive
    ensures Step(c, InputReady([[7], [8]], false, sends)) == ReadInput(c, [[7], [8]], false, sends)
  {
    hide ReadInput, Receive, TimerPass, OutputPending;
  }

  /** The first segment has been sent. */
  ghost predicate OneSent(c: Conn) {
    && c.alive && !c.eof && |c.unacked| == 1 && c.toSend == [] && c.prepared == 1 && c.window < c.sendWindow
    && c.unacked[0] == SegInfo(c.unacked[0].seg, 1000, 0, true) && c.unacked[0].seg.id == 0
    && c.h.log == [Tx(0, 1000, 1000, false)]
  }

  /** Both have been sent, the second after its wait. */
  ghost predicate TwoSent(c: Conn, wait: nat) {
    && c.alive && |c.unacked| == 2
    && c.unacked[0] == SegInfo(c.unacked[0].seg, 1000, 0, true) && c.unacked[0].seg.id == 0
    && c.unacked[1] == SegInfo(c.unacked[1].seg, 1000, 0, true) && c.unacked[1].seg.id == 1
    && c.h.log == [Tx(0, 1000, 1000, false), Tx(1, 1000, 1000 + wait, false)]
  }

  lemma BothSent(rtTimeout: nat, wait: nat, sends: nat -> SendEnv)
    requires sends(0) == sends(1) == Pacing(wait)
    ensures TwoSent(ReadInput(Init(60, rtTimeout), [[7], [8]], false, sends), wait)
  {
    hide SendWindow, Prepare, OneSent, TwoSent;
    var chunks: seq<Chunk>, last: seq<Chunk> := [[7], [8]], [[8]];
    assert chunks[1..] == last && last[1..] == [];
    SendsFirst(rtTimeout, wait);
    SendsSecond(SendWindow(Prepare(Init(60, rtTimeout), [7]), Pacing(wait)), wait);
  }

  lemma SendsFirst(rtTimeout: nat, wait: nat)
    ensures OneSent(SendWindow(Prepare(Init(60, rtTimeout), [7]), Pacing(wait)))
  {
    var p := Prepare(Init(60, rtTimeout), [7]);
    var moved := MoveOne(p);
    assert MoveWindow(p) == MoveWindow(moved) == moved;
    var sent := SendOne(moved, 0, Pace(1000, 0));
    assert SendFrom(moved, 0, Pacing(wait).pace) == SendFrom(sent, 1, Pacing(wait).pace) == sent;
  }

  lemma SendsSecond(c: Conn, wait: nat)
    requires OneSent(c)
    ensures TwoSent(SendWindow(Prepare(c, [8]), Pacing(wait)), wait)
  {
    var p := Prepare(c, [8]);
    var moved := MoveOne(p);
    assert MoveWindow(p) == MoveWindow(moved) == moved;
    var sent := SendOne(moved, 1, Pace(1000, wait));
    assert SendFrom(sent, 2, Pacing(wait).pace) == sent;
    assert SendFrom(moved, 1, Pacing(wait).pace) == sent;
    assert SendFrom(moved, 0, Pacing(wait).pace) == sent;
  }

  lemma TimerSends(c: Conn, rtTimeout: nat, wait: nat, ticks: nat -> Tick)
    requires TwoSent(c, wait) && c.rtTimeout == rtTimeout
    requires ticks(0) == ticks(1) == Tick(Expired(rtTimeout, wait), 0)
    ensures TimerPass(c, ticks, 0).h.log == EarlyLog(rtTimeout, wait)
  {
    var c1 := ResendOne(c, 0, ticks(0));
    var c2 := ResendOne(c1, 1, ticks(1));
    assert TimerFrom(c2, 2, ticks) == c2;
    assert TimerFrom(c1, 1, ticks) == c2;
    assert TimerFrom(c, 0, ticks) == c2;
  }
}
