/** When the ARP subsystem gives packets up: only together with a request whose retries ran
    out, and then all of that request's packets. */
module ArpDrops {
  import opened Machine
  import opened Arp
  import opened ArpRuns
  import ArpRetry

  /** The request had its five broadcasts, the last of them at least a second ago. */
  ghost predicate Exhausted(r: Req, log: seq<Broadcast>, now: int) {
    && Broadcasts(log, r.id) == MAX_REQUEST_TRIES
    && forall j | 0 <= j < |log| && log[j].req == r.id :: now - log[j].at >= 1
  }

  ghost predicate Absent(reqs: seq<Req>, id: nat) {
    forall i | 0 <= i < |reqs| :: reqs[i].id != id
  }

  function PacketsOf(gone: seq<Req>): seq<Packet>
    decreases |gone|
  {
    if gone == [] then [] else gone[0].packets + PacketsOf(gone[1..])
  }

  /** A request that was given up for good reason between two states. */
  ghost predicate GivenUp(r: Req, s: State, s1: State, now: int) {
    r in s.requests && Exhausted(r, s1.broadcasts, now) && Absent(s1.requests, r.id)
  }

  /** Between the two states exactly the packets of the requests given up were dropped. */
  ghost predicate DropsOnly(s: State, s1: State, gone: seq<Req>, now: int) {
    && s1.dropped == s.dropped + PacketsOf(gone)
    && forall k | 0 <= k < |gone| :: GivenUp(gone[k], s, s1, now)
  }

  // ---------------------------------------------------------------- one request

  lemma DropsNothing(s: State, s1: State, now: int)
    requires s1.dropped == s.dropped
    ensures DropsOnly(s, s1, [], now)
  {
  }

  lemma DropsOne(s: State, i: nat, now: int)
    requires Inv(s, now) && i < |s.requests|
    requires now - s.requests[i].sent >= 1 && s.requests[i].timesSent >= MAX_REQUEST_TRIES
    ensures DropsOnly(s, HandleAt(s, i, now), [s.requests[i]], now)
  {
    hide Conserved, PacketInv, NonEmpty, Broadcasts, Spaced;
    var r, s1 := s.requests[i], HandleAt(s, i, now);
    assert Counted(r, s.broadcasts);
    assert PacketsOf([r]) == r.packets + PacketsOf([]);
    assert forall j | 0 <= j < |s1.requests| :: s1.requests[j] == s.requests[if j < i then j else j + 1];
  }

  lemma HandleDrops(s: State, i: nat, now: int) returns (gone: seq<Req>)
    requires Inv(s, now) && i < |s.requests|
    ensures DropsOnly(s, HandleAt(s, i, now), gone, now)
  {
    hide Inv, DropsOnly;
    gone := [];
    if now - s.requests[i].sent >= 1 && s.requests[i].timesSent >= MAX_REQUEST_TRIES {
      gone := [s.requests[i]];
      DropsOne(s, i, now);
    } else {
      DropsNothing(s, HandleAt(s, i, now), now);
    }
  }

  // ---------------------------------------------------------------- a sweep

  lemma HandledKept(s: State, i: nat, now: int, r: Req)
    requires i < |s.requests|
    ensures Absent(s.requests, r.id) ==> Absent(HandleAt(s, i, now).requests, r.id)
    ensures Absent(s.requests, r.id) && Exhausted(r, s.broadcasts, now) ==>
              Exhausted(r, HandleAt(s, i, now).broadcasts, now)
    ensures s.broadcasts <= HandleAt(s, i, now).broadcasts
    ensures r in HandleAt(s, i, now).requests ==>
              r in s.requests || Broadcast(r.id, r.ip, now) in HandleAt(s, i, now).broadcasts
  {
    CountNext(s.broadcasts, Broadcast(s.requests[i].id, s.requests[i].ip, now), r.id);
    hide Broadcasts;
  }

  lemma {:induction false} AllKept(s: State, ids: seq<nat>, now: int, r: Req)
    ensures s.broadcasts <= HandleAll(s, ids, now).broadcasts
    ensures Absent(s.requests, r.id) && Exhausted(r, s.broadcasts, now) ==>
              Absent(HandleAll(s, ids, now).requests, r.id) && Exhausted(r, HandleAll(s, ids, now).broadcasts, now)
    decreases |ids|
  {
    hide HandleAt, Absent, Exhausted;
    if ids != [] {
      var i := FindId(s.requests, ids[0]);
      if i < |s.requests| { HandledKept(s, i, now, r); }
      AllKept(HandleId(s, ids[0], now), ids[1..], now, r);
    }
  }

  /** What is given up later in the same sweep was pending, unchanged, before it. */
  lemma GivenUpEarlier(s: State, s1: State, s2: State, i: nat, now: int, r: Req)
    requires i < |s.requests| && s1 == HandleAt(s, i, now) && s1.broadcasts <= s2.broadcasts
    requires GivenUp(r, s1, s2, now)
    ensures GivenUp(r, s, s2, now)
  {
    hide Absent, Broadcasts, HandleAt;
    HandledKept(s, i, now, r);
  }

  lemma PacketsAppend(a: seq<Req>, b: seq<Req>)
    ensures PacketsOf(a + b) == PacketsOf(a) + PacketsOf(b)
    decreases |a|
  {
    if a == [] {
      assert a + b == b;
    } else {
      assert (a + b)[1..] == a[1..] + b;
      PacketsAppend(a[1..], b);
    }
  }

  lemma Joins(s: State, s1: State, ids: seq<nat>, i: nat, gone: seq<Req>, more: seq<Req>, now: int)
    requires i < |s.requests| && s1 == HandleAt(s, i, now)
    requires DropsOnly(s, s1, gone, now) && DropsOnly(s1, HandleAll(s1, ids, now), more, now)
    ensures DropsOnly(s, HandleAll(s1, ids, now), gone + more, now)
  {
    hide HandleAt, HandleAll, Exhausted, Absent, PacketsOf;
    var s2 := HandleAll(s1, ids, now);
    PacketsAppend(gone, more);
    forall k | 0 <= k < |gone + more| ensures GivenUp((gone + more)[k], s, s2, now) {
      if k < |gone| {
        assert GivenUp(gone[k], s, s1, now);
        AllKept(s1, ids, now, gone[k]);
      } else {
        var r := more[k - |gone|];
        assert GivenUp(r, s1, s2, now);
        AllKept(s1, ids, now, r);
        GivenUpEarlier(s, s1, s2, i, now, r);
      }
    }
  }

  lemma {:induction false} HandleAllDrops(s: State, ids: seq<nat>, now: int) returns (gone: seq<Req>)
    requires Inv(s, now)
    ensures DropsOnly(s, HandleAll(s, ids, now), gone, now)
    decreases |ids|
  {
    hide Inv, HandleAt, DropsOnly;
    if ids == [] {
      gone := [];
      DropsNothing(s, s, now);
    } else {
      var i := FindId(s.requests, ids[0]);
      if i < |s.requests| {
        var first := HandleDrops(s, i, now);
        HandleKeeps(s, i, now);
        var more := HandleAllDrops(HandleAt(s, i, now), ids[1..], now);
        Joins(s, HandleAt(s, i, now), ids[1..], i, first, more, now);
        gone := first + more;
      } else {
        gone := HandleAllDrops(s, ids[1..], now);
      }
    }
  }

  // ---------------------------------------------------------------- steps of a run

  /** The state in which an event handles requests: a frame without a cache entry has joined
      its request. */
  function Joined(s: State, e: Event): State {
    if e.Forward? && Lookup(s.entries, e.ip).None? then
      var r := EnsureReq(s, e.ip);
      AddPacket(r, FindIp(r.requests, e.ip), e.buf, e.iface)
    else s
  }

  lemma StepDrops(s: State, e: Event, now: int) returns (gone: seq<Req>)
    requires Inv(s, now) && now <= e.at
    ensures DropsOnly(Joined(s, e), Step(s, e), gone, e.at)
  {
    hide Inv, DropsOnly, HandleAt, HandleAll, EnsureReq, AddPacket, Lookup, Expire;
    Later(s, now, e.at);
    match e
    case Forward(ip, buf, iface, at) =>
      if Lookup(s.entries, ip).None? {
        QueueDrops(s, ip, buf, iface, at);
        var r := EnsureReq(s, ip);
        gone := HandleDrops(Joined(s, e), FindIp(r.requests, ip), at);
      } else {
        gone := [];
        DropsNothing(s, s, at);
      }
    case ArpReply(ip, mac, src, at) =>
      gone := [];
      DropsNothing(s, Step(s, e), at);
    case Sweep(at) =>
      var s1 := s.(entries := Expire(s.entries, at));
      CacheIrrelevant(s, s1.entries, at);
      gone := HandleAllDrops(s1, Ids(s.requests), at);
      SameRequests(s, s1, HandleAll(s1, Ids(s.requests), at), gone, at);
  }

  lemma SameRequests(s: State, s1: State, s2: State, gone: seq<Req>, now: int)
    requires s1.requests == s.requests && s1.dropped == s.dropped && DropsOnly(s1, s2, gone, now)
    ensures DropsOnly(s, s2, gone, now)
  {
    hide Exhausted, Absent, PacketsOf;
  }

  /** The queue with the frame in it satisfies the run invariant. */
  lemma QueueDrops(s: State, ip: uint32, buf: Frame, iface: string, now: int)
    requires Inv(s, now)
    ensures var r := EnsureReq(s, ip);
            var i := FindIp(r.requests, ip);
            i < |AddPacket(r, i, buf, iface).requests| && Inv(AddPacket(r, i, buf, iface), now)
  {
    hide Conserved, LogInv, OrderInv, PacketInv, Past, EnsureReq, AddPacket;
    var r := EnsureReq(s, ip);
    var i := FindIp(r.requests, ip);
    EnsureKeeps(s, ip, now);
    AddKeeps(r, i, buf, iface, now);
    SameLength(r, i, buf, iface);
  }

  /** In every run, whenever packets are dropped they are exactly the packets of requests
      that had their five broadcasts, the last at least a second before, and that are gone
      from then on. */
  lemma DroppedAfterRetries(events: seq<Event>, e: Event)
    requires Timed(events) && Now(events) <= e.at
    ensures var s := Run(Init(), events);
            exists gone: seq<Req> :: DropsOnly(Joined(s, e), Step(s, e), gone, e.at)
  {
    hide *;
    RunKeeps(events);
    var gone := StepDrops(Run(Init(), events), e, Now(events));
  }

  // ---------------------------------------------------------------- all of a run

  /** The request has had its five broadcasts and is gone for good. */
  ghost predicate Over(r: Req, s: State) {
    Broadcasts(s.broadcasts, r.id) == MAX_REQUEST_TRIES && Absent(s.requests, r.id) && r.id < s.nextReq
  }

  /** At event m of the run p was in the pending request r, which was given up. */
  ghost predicate WentDown(events: seq<Event>, m: nat, r: Req, p: Packet) {
    && m < |events| && p in r.packets
    && GivenUp(r, Joined(Run(Init(), events[..m]), events[m]), Run(Init(), events[..m + 1]), events[m].at)
  }

  ghost predicate Explained(p: Packet, events: seq<Event>) {
    exists m: nat, r: Req :: WentDown(events, m, r, p) && Over(r, Run(Init(), events))
  }

  lemma {:induction false} BroadcastsGrow(log: seq<Broadcast>, log1: seq<Broadcast>, id: nat)
    requires log <= log1
    ensures Broadcasts(log, id) <= Broadcasts(log1, id)
    decreases |log1|
  {
    if |log| < |log1| {
      BroadcastsGrow(log, log1[..|log1| - 1], id);
    } else {
      assert log == log1;
    }
  }

  lemma AbsentIsNone(reqs: seq<Req>, id: nat)
    ensures Absent(reqs, id) <==> ArpRetry.ReqOf(reqs, id).None?
  {
    var i := FindId(reqs, id);
  }

  lemma LogGrows(s: State, e: Event)
    ensures s.broadcasts <= Step(s, e).broadcasts
  {
    hide Lookup, FindIp, EnsureReq;
    if e.Sweep? { AllKept(s.(entries := Expire(s.entries, e.at)), Ids(s.requests), e.at, Req(0, 0, 0, 0, [])); }
    if e.Forward? { assert EnsureReq(s, e.ip).broadcasts == s.broadcasts by { EnsureKeepsLog(s, e.ip); } }
  }

  lemma EnsureKeepsLog(s: State, ip: uint32)
    ensures EnsureReq(s, ip).broadcasts == s.broadcasts && EnsureReq(s, ip).dropped == s.dropped
    ensures EnsureReq(s, ip).nextReq >= s.nextReq
  {
  }

  lemma StillOver(r: Req, s: State, e: Event, now: int)
    requires Over(r, s) && Inv(s, now) && now <= e.at
    ensures Over(r, Step(s, e))
  {
    StepKeeps(s, e, now);
    assert LogInv(Step(s, e)) && OrderInv(s);
    hide Inv, Step, Broadcasts;
    LogGrows(s, e);
    BroadcastsGrow(s.broadcasts, Step(s, e).broadcasts, r.id);
    AbsentIsNone(s.requests, r.id);
    ArpRetry.StaysGone(s, e, r.id);
    AbsentIsNone(Step(s, e).requests, r.id);
  }

  lemma RunStep(before: seq<Event>, e: Event)
    ensures Run(Init(), before + [e]) == Step(Run(Init(), before), e)
    ensures forall m | 0 <= m <= |before| :: (before + [e])[..m] == before[..m]
  {
    hide Step;
    assert (before + [e])[..|before|] == before;
  }

  lemma StillExplained(p: Packet, before: seq<Event>, e: Event, now: int)
    requires Explained(p, before) && Inv(Run(Init(), before), now) && now <= e.at
    ensures Explained(p, before + [e])
  {
    hide Inv, Step, Over, Run, GivenUp, Joined;
    var m: nat, r: Req :| WentDown(before, m, r, p) && Over(r, Run(Init(), before));
    RunStep(before, e);
    assert WentDown(before + [e], m, r, p);
    StillOver(r, Run(Init(), before), e, now);
  }

  /** The request that a packet of a list of requests belongs to. */
  lemma {:induction false} OwnerOf(gone: seq<Req>, k: nat) returns (i: nat)
    requires k < |PacketsOf(gone)|
    ensures i < |gone| && PacketsOf(gone)[k] in gone[i].packets
    decreases |gone|
  {
    if k < |gone[0].packets| {
      i := 0;
      assert PacketsOf(gone)[k] == gone[0].packets[k];
    } else {
      var j := OwnerOf(gone[1..], k - |gone[0].packets|);
      i := j + 1;
    }
  }

  lemma JoinedKnown(s: State, e: Event, now: int, r: Req)
    requires Inv(s, now) && now <= e.at && r in Joined(s, e).requests
    ensures Joined(s, e).dropped == s.dropped && r.id < Step(s, e).nextReq
  {
    hide Conserved, LogInv, PacketInv, Past, NonEmpty, HandleAt, HandleAll, Lookup, Store, Expire;
    if e.Forward? && Lookup(s.entries, e.ip).None? {
      EnsureKeeps(s, e.ip, now);
      var q := EnsureReq(s, e.ip);
      EnsureKeepsLog(s, e.ip);
      HandleKeepsIds(Joined(s, e), FindIp(q.requests, e.ip), e.at);
    } else {
      ArpRetry.NextReqMonotone(s, e);
    }
  }

  lemma HandleKeepsIds(s: State, i: nat, now: int)
    requires i < |s.requests|
    ensures HandleAt(s, i, now).nextReq == s.nextReq
  {
  }

  lemma LostNow(before: seq<Event>, e: Event, now: int, k: nat)
    requires Inv(Run(Init(), before), now) && now <= e.at
    requires |Run(Init(), before).dropped| <= k < |Run(Init(), before + [e]).dropped|
    ensures Explained(Run(Init(), before + [e]).dropped[k], before + [e])
  {
    hide Inv, Step, Run, Joined, PacketsOf, Broadcasts, Absent;
    var s, events := Run(Init(), before), before + [e];
    RunStep(before, e);
    var gone := StepDrops(s, e, now);
    DroppedBase(s, e);
    var i := OwnerOf(gone, k - |s.dropped|);
    assert GivenUp(gone[i], Joined(s, e), Step(s, e), e.at);
    JoinedKnown(s, e, now, gone[i]);
    assert events[..|before| + 1] == events;
    assert WentDown(events, |before|, gone[i], Run(Init(), events).dropped[k]);
    assert Over(gone[i], Run(Init(), events));
  }

  lemma DroppedBase(s: State, e: Event)
    ensures Joined(s, e).dropped == s.dropped
  {
    hide Lookup, FindIp;
  }

  lemma PrefixOf(s: State, e: Event, gone: seq<Req>)
    requires DropsOnly(Joined(s, e), Step(s, e), gone, e.at) && Joined(s, e).dropped == s.dropped
    ensures s.dropped <= Step(s, e).dropped
  {
    hide Step, Joined, PacketsOf, GivenUp;
  }

  /** In every run: every packet ever dropped was in a pending request that was given up
      after five broadcasts, the last a second before, and that is not pending any more. */
  lemma {:induction false} EveryLossIsExplained(events: seq<Event>, k: nat)
    requires Timed(events) && k < |Run(Init(), events).dropped|
    ensures Explained(Run(Init(), events).dropped[k], events)
    decreases |events|
  {
    hide Inv, Step, Explained, Run;
    if events == [] {
      NothingDropped();
    } else {
      var n := |events| - 1;
      var before, e := events[..n], events[n];
      assert before + [e] == events;
      RunKeeps(before);
      NowBefore(events);
      RunStep(before, e);
      var s := Run(Init(), before);
      var gone := StepDrops(s, e, Now(before));
      DroppedBase(s, e);
      PrefixOf(s, e, gone);
      if k < |s.dropped| {
        EveryLossIsExplained(before, k);
        StillExplained(s.dropped[k], before, e, Now(before));
      } else {
        LostNow(before, e, Now(before), k);
      }
    }
  }

  lemma NothingDropped()
    ensures Run(Init(), []).dropped == []
  {
  }

  lemma NowBefore(events: seq<Event>)
    requires Timed(events) && events != []
    ensures Now(events[..|events| - 1]) <= events[|events| - 1].at
  {
  }
}
