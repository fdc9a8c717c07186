/** How long a request can stay pending: a sweep handles every request that was pending at
    its start exactly once, and six sweeps without a reply end any request. */
module ArpRetry {
  import opened Machine
  import opened Arp
  import opened ArpRuns

  /** The pending request with this id. */
  function ReqOf(reqs: seq<Req>, id: nat): Option<Req> {
    var i := FindId(reqs, id);
    if i < |reqs| then Some(reqs[i]) else None
  }

  /** What handle_arpreq makes of a request, None if it destroys it. */
  function Handled(r: Req, now: int): Option<Req> {
    if now - r.sent < 1 then Some(r)
    else if r.timesSent >= MAX_REQUEST_TRIES then None
    else Some(r.(sent := now, timesSent := r.timesSent + 1))
  }

  ghost predicate Distinct(reqs: seq<Req>) {
    forall i, j | 0 <= i < j < |reqs| :: reqs[i].id != reqs[j].id
  }

  lemma FoundAt(reqs: seq<Req>, i: nat)
    requires Distinct(reqs) && i < |reqs|
    ensures FindId(reqs, reqs[i].id) == i && ReqOf(reqs, reqs[i].id) == Some(reqs[i])
  {
  }

  lemma ReqOfUpdate(reqs: seq<Req>, i: nat, r: Req, id: nat)
    requires Distinct(reqs) && i < |reqs| && r.id == reqs[i].id
    ensures Distinct(reqs[i := r])
    ensures ReqOf(reqs[i := r], id) == if id == r.id then Some(r) else ReqOf(reqs, id)
  {
    hide FindId;
    var j := FindId(reqs, id);
    if j < |reqs| { FoundAt(reqs[i := r], j); }
  }

  lemma ReqOfWithout(reqs: seq<Req>, i: nat, id: nat)
    requires Distinct(reqs) && i < |reqs|
    ensures Distinct(Without(reqs, i))
    ensures ReqOf(Without(reqs, i), id) == if id == reqs[i].id then None else ReqOf(reqs, id)
  {
    hide FindId;
    var rest := Without(reqs, i);
    assert forall k | 0 <= k < |rest| :: rest[k] == reqs[if k < i then k else k + 1];
    var j := FindId(reqs, id);
    if j < |reqs| && j != i { FoundAt(rest, if j < i then j else j - 1); }
  }

  lemma HandleOne(s: State, i: nat, now: int, id: nat)
    requires Distinct(s.requests) && i < |s.requests|
    ensures Distinct(HandleAt(s, i, now).requests)
    ensures ReqOf(HandleAt(s, i, now).requests, id)
         == if id == s.requests[i].id then Handled(s.requests[i], now) else ReqOf(s.requests, id)
  {
    var r := s.requests[i];
    FoundAt(s.requests, i);
    ReqOfWithout(s.requests, i, id);
    ReqOfUpdate(s.requests, i, r.(sent := now, timesSent := r.timesSent + 1), id);
  }

  lemma HandleIdOne(s: State, id: nat, now: int, other: nat)
    requires Distinct(s.requests)
    ensures Distinct(HandleId(s, id, now).requests)
    ensures ReqOf(HandleId(s, id, now).requests, other)
         == if other != id then ReqOf(s.requests, other)
            else match ReqOf(s.requests, id) case None => None case Some(r) => Handled(r, now)
  {
    var i := FindId(s.requests, id);
    if i < |s.requests| { HandleOne(s, i, now, other); }
  }

  ghost predicate NoRepeats(ids: seq<nat>) {
    forall i, j | 0 <= i < j < |ids| :: ids[i] != ids[j]
  }

  lemma {:induction false} HandleAllOnce(s: State, ids: seq<nat>, now: int, id: nat)
    requires Distinct(s.requests) && NoRepeats(ids)
    ensures ReqOf(HandleAll(s, ids, now).requests, id)
         == if id !in ids then ReqOf(s.requests, id)
            else match ReqOf(s.requests, id) case None => None case Some(r) => Handled(r, now)
    decreases |ids|
  {
    hide ReqOf, Handled, HandleId;
    if ids != [] {
      var s1 := HandleId(s, ids[0], now);
      HandleIdOne(s, ids[0], now, id);
      assert ids == [ids[0]] + ids[1..];
      HandleAllOnce(s1, ids[1..], now, id);
    }
  }

  /** A sweep handles each request pending at its start exactly once, although handling may
      unlink it, and touches no other. */
  lemma SweepVisitsOnce(s: State, now: int, id: nat)
    requires Distinct(s.requests)
    ensures ReqOf(Tick(s, now).requests, id)
         == match ReqOf(s.requests, id) case None => None case Some(r) => Handled(r, now)
  {
    hide HandleAll, Handled;
    var ids := Ids(s.requests);
    HandleAllOnce(s.(entries := Expire(s.entries, now)), ids, now, id);
    var i := FindId(s.requests, id);
    if i < |s.requests| { assert ids[i] == id; }
    if id in ids {
      var k :| 0 <= k < |ids| && ids[k] == id;
      assert s.requests[k].id == id;
    }
  }

  // ---------------------------------------------------------------- progress

  function Sweeps(events: seq<Event>): nat
    decreases |events|
  {
    if events == [] then 0
    else Sweeps(events[..|events| - 1]) + if events[|events| - 1].Sweep? then 1 else 0
  }

  /** Time of the last sweep, 0 before the first. */
  function LastSweep(events: seq<Event>): int
    decreases |events|
  {
    if events == [] then 0
    else if events[|events| - 1].Sweep? then events[|events| - 1].at
    else LastSweep(events[..|events| - 1])
  }

  /** Sweeps are at least one second apart. */
  ghost predicate SweepsSpaced(events: seq<Event>) {
    forall i, j | 0 <= i < j < |events| && events[i].Sweep? && events[j].Sweep? :: events[j].at - events[i].at >= 1
  }

  ghost predicate NoReply(events: seq<Event>, ip: uint32) {
    forall i | 0 <= i < |events| && events[i].ArpReply? :: events[i].ip != ip
  }

  /** After k sweeps the request has been broadcast k times, and once more unless its last
      broadcast was no later than the last sweep. */
  ghost predicate Progress(r: Req, ip: uint32, k: nat, last: int) {
    && r.ip == ip
    && r.timesSent >= k
    && (r.timesSent >= k + 1 || (k >= 1 && r.sent <= last))
  }

  lemma HandledProgress(r: Req, now: int, ip: uint32, k: nat, last: int)
    requires Progress(r, ip, k, last)
    ensures Handled(r, now).Some? ==> Progress(Handled(r, now).value, ip, k, last)
  {
  }

  lemma SweepProgress(r: Req, now: int, ip: uint32, k: nat, last: int)
    requires Progress(r, ip, k, last) && r.sent <= now && (k >= 1 ==> last + 1 <= now)
    ensures Handled(r, now).Some? ==> Progress(Handled(r, now).value, ip, k + 1, now)
  {
  }

  lemma {:induction false} LastSweepBefore(events: seq<Event>, e: Event)
    requires SweepsSpaced(events + [e]) && e.Sweep? && Sweeps(events) >= 1
    ensures LastSweep(events) + 1 <= e.at
    decreases |events|
  {
    var n := |events| - 1;
    assert (events + [e])[n] == events[n] && (events + [e])[n + 1] == e;
    if !events[n].Sweep? {
      var shorter := events[..n] + [e];
      assert forall i | 0 <= i < |shorter| :: shorter[i] == (events + [e])[if i < n then i else n + 1];
      LastSweepBefore(events[..n], e);
    }
  }

  /** A frame for any address leaves the request as it is, or handles it with one more packet. */
  lemma QueueOn(s: State, ip: uint32, buf: Frame, iface: string, now: int, id: nat)
    requires OrderInv(s) && ReqOf(s.requests, id).Some?
    ensures var r, r1 := ReqOf(s.requests, id).value, ReqOf(Queue(s, ip, buf, iface, now).requests, id);
            r1 == Some(r) || exists packets :: r1 == Handled(r.(packets := packets), now)
  {
    var e := EnsureReq(s, ip);
    EnsureOn(s, ip, id);
    var i := FindIp(e.requests, ip);
    var a := AddPacket(e, i, buf, iface);
    ReqOfUpdate(e.requests, i, a.requests[i], id);
    HandleOne(a, i, now, id);
    FoundAt(e.requests, i);
  }

  lemma EnsureOn(s: State, ip: uint32, id: nat)
    requires OrderInv(s) && ReqOf(s.requests, id).Some?
    ensures var e := EnsureReq(s, ip); Distinct(e.requests) && ReqOf(e.requests, id) == ReqOf(s.requests, id)
  {
    hide FindIp;
    var e := EnsureReq(s, ip);
    if e.requests != s.requests {
      assert e.requests[1..] == s.requests;
      assert forall k | 1 <= k < |e.requests| :: e.requests[k] == s.requests[k - 1];
    }
  }

  lemma ReplyOn(s: State, ip: uint32, mac: Mac, src: Port, now: int, id: nat)
    requires OrderInv(s) && ReqOf(s.requests, id).Some? && ReqOf(s.requests, id).value.ip != ip
    ensures ReqOf(Reply(s, ip, mac, src, now).requests, id) == ReqOf(s.requests, id)
  {
    var i := FindIp(s.requests, ip);
    if i < |s.requests| { ReqOfWithout(s.requests, i, id); }
  }

  /** Once gone, a request does not come back: its id is never given out again. */
  lemma StaysGone(s: State, e: Event, id: nat)
    requires OrderInv(s) && id < s.nextReq && ReqOf(s.requests, id).None?
    ensures ReqOf(Step(s, e).requests, id).None? && id < Step(s, e).nextReq
  {
    hide ReqOf, Queue, Reply, HandleAll, Lookup, OrderInv, Expire;
    match e
    case Forward(ip, buf, iface, at) => QueueGone(s, ip, buf, iface, at, id);
    case ArpReply(ip, mac, src, at) => ReplyGone(s, ip, mac, src, at, id);
    case Sweep(at) =>
      OrderIsDistinct(s);
      SweepVisitsOnce(s, at, id);
      HandleAllReqs(s.(entries := Expire(s.entries, at)), Ids(s.requests), at);
  }

  lemma OrderIsDistinct(s: State)
    requires OrderInv(s)
    ensures Distinct(s.requests)
  {
  }

  lemma ReplyGone(s: State, ip: uint32, mac: Mac, src: Port, now: int, id: nat)
    requires OrderInv(s) && ReqOf(s.requests, id).None?
    ensures ReqOf(Reply(s, ip, mac, src, now).requests, id).None? && Reply(s, ip, mac, src, now).nextReq == s.nextReq
  {
    hide ReqOf, Store, Addressed;
    var i := FindIp(s.requests, ip);
    OrderIsDistinct(s);
    if i < |s.requests| { ReqOfWithout(s.requests, i, id); }
  }

  lemma EnsureGone(s: State, ip: uint32, id: nat)
    requires OrderInv(s) && id < s.nextReq && ReqOf(s.requests, id).None?
    ensures var q := EnsureReq(s, ip); Distinct(q.requests) && ReqOf(q.requests, id).None? && id < q.nextReq
  {
    hide FindIp;
    var q := EnsureReq(s, ip);
    if q.requests != s.requests { assert q.requests[1..] == s.requests; }
  }

  lemma QueueGone(s: State, ip: uint32, buf: Frame, iface: string, now: int, id: nat)
    requires OrderInv(s) && id < s.nextReq && ReqOf(s.requests, id).None?
    ensures ReqOf(Queue(s, ip, buf, iface, now).requests, id).None? && id < Queue(s, ip, buf, iface, now).nextReq
  {
    hide OrderInv, FindId, ReqOf, HandleAt;
    EnsureGone(s, ip, id);
    var q := EnsureReq(s, ip);
    var i := FindIp(q.requests, ip);
    var a := AddPacket(q, i, buf, iface);
    NotPending(q.requests, i, id);
    ReqOfUpdate(q.requests, i, a.requests[i], id);
    HandleOne(a, i, now, id);
    HandleAtReqs(a, i, now);
  }

  lemma NotPending(reqs: seq<Req>, i: nat, id: nat)
    requires Distinct(reqs) && i < |reqs| && ReqOf(reqs, id).None?
    ensures reqs[i].id != id
  {
    if reqs[i].id == id { FoundAt(reqs, i); }
  }

  lemma HandleAtReqs(s: State, i: nat, now: int)
    requires i < |s.requests|
    ensures HandleAt(s, i, now).nextReq == s.nextReq
  {
  }

  lemma {:induction false} HandleAllReqs(s: State, ids: seq<nat>, now: int)
    ensures HandleAll(s, ids, now).nextReq == s.nextReq && HandleAll(s, ids, now).entries == s.entries
    decreases |ids|
  {
    if ids != [] { HandleAllReqs(HandleId(s, ids[0], now), ids[1..], now); }
  }

  /** One event, for a request that is pending. */
  lemma StepProgress(s: State, e: Event, now: int, id: nat, ip: uint32, k: nat, last: int)
    requires Inv(s, now) && now <= e.at && ReqOf(s.requests, id).Some?
    requires Progress(ReqOf(s.requests, id).value, ip, k, last)
    requires !(e.ArpReply? && e.ip == ip) && (e.Sweep? && k >= 1 ==> last + 1 <= e.at)
    ensures var r := ReqOf(Step(s, e).requests, id);
            r.Some? ==> Progress(r.value, ip, if e.Sweep? then k + 1 else k, if e.Sweep? then e.at else last)
  {
    hide Conserved, LogInv, PacketInv, NonEmpty, Handled, Progress, Queue, Reply, Tick;
    var r := ReqOf(s.requests, id).value;
    match e
    case Forward(ip1, buf, iface, at) =>
      if Lookup(s.entries, ip1).None? {
        QueueOn(s, ip1, buf, iface, at, id);
        var r1 := ReqOf(Queue(s, ip1, buf, iface, at).requests, id);
        if r1 != Some(r) {
          var packets :| r1 == Handled(r.(packets := packets), at);
          assert Progress(r.(packets := packets), ip, k, last) by { PacketsIrrelevant(r, packets, ip, k, last); }
          HandledProgress(r.(packets := packets), at, ip, k, last);
        }
      }
    case ArpReply(ip1, mac, src, at) =>
      assert r.ip == ip by { PacketsIrrelevant(r, r.packets, ip, k, last); }
      ReplyOn(s, ip1, mac, src, at, id);
    case Sweep(at) =>
      SweepVisitsOnce(s, at, id);
      assert r in s.requests;
      SweepProgress(r, at, ip, k, last);
  }

  lemma PacketsIrrelevant(r: Req, packets: seq<Packet>, ip: uint32, k: nat, last: int)
    requires Progress(r, ip, k, last)
    ensures Progress(r.(packets := packets), ip, k, last) && r.ip == ip
  {
  }

  /** A frame for an address nobody asked for yet creates a request and broadcasts it. */
  lemma Created(s: State, ip: uint32, buf: Frame, iface: string, now: int)
    requires OrderInv(s) && now >= 1 && FindIp(s.requests, ip) == |s.requests|
    ensures var r := ReqOf(Queue(s, ip, buf, iface, now).requests, s.nextReq);
            r.Some? && Progress(r.value, ip, 0, 0)
  {
    var e := EnsureReq(s, ip);
    assert e.requests[1..] == s.requests && FindIp(e.requests, ip) == 0;
    assert forall k | 1 <= k < |e.requests| :: e.requests[k] == s.requests[k - 1];
    var a := AddPacket(e, 0, buf, iface);
    ReqOfUpdate(e.requests, 0, a.requests[0], s.nextReq);
    HandleOne(a, 0, now, s.nextReq);
  }

  lemma NextReqGrows(s: State, ip: uint32, buf: Frame, iface: string, now: int)
    requires FindIp(s.requests, ip) == |s.requests|
    ensures Queue(s, ip, buf, iface, now).nextReq == s.nextReq + 1
  {
  }

  ghost predicate Tracked(s: State, now: int, id: nat, ip: uint32, k: nat, last: int) {
    && Inv(s, now) && id < s.nextReq
    && (ReqOf(s.requests, id).Some? ==> Progress(ReqOf(s.requests, id).value, ip, k, last))
  }

  lemma StepTracked(s: State, e: Event, now: int, id: nat, ip: uint32, k: nat, last: int)
    requires Tracked(s, now, id, ip, k, last) && now <= e.at
    requires !(e.ArpReply? && e.ip == ip) && (e.Sweep? && k >= 1 ==> last + 1 <= e.at)
    ensures Tracked(Step(s, e), e.at, id, ip, if e.Sweep? then k + 1 else k, if e.Sweep? then e.at else last)
  {
    hide Inv, Step, Progress, ReqOf;
    StepKeeps(s, e, now);
    InvOrder(s, now);
    NextReqMonotone(s, e);
    if ReqOf(s.requests, id).Some? { StepProgress(s, e, now, id, ip, k, last); } else { StaysGone(s, e, id); }
  }

  /** What may follow the creation at time now: anything but a reply, in time order, with
      sweeps at least a second apart. */
  ghost predicate Allowed(events: seq<Event>, now: int, ip: uint32) {
    && Timed(events) && (forall i | 0 <= i < |events| :: now <= events[i].at)
    && NoReply(events, ip) && SweepsSpaced(events)
  }

  lemma AllowedPrefix(before: seq<Event>, e: Event, now: int, ip: uint32)
    requires Allowed(before + [e], now, ip)
    ensures Allowed(before, now, ip) && !(e.ArpReply? && e.ip == ip)
    ensures (if before == [] then now else Now(before)) <= e.at
    ensures e.Sweep? && Sweeps(before) >= 1 ==> LastSweep(before) + 1 <= e.at
  {
    var all := before + [e];
    assert all[|before|] == e && forall i | 0 <= i < |before| :: all[i] == before[i];
    if e.Sweep? && Sweeps(before) >= 1 { LastSweepBefore(before, e); }
  }

  lemma {:induction false} RunTracked(s: State, now: int, events: seq<Event>, id: nat, ip: uint32)
    requires Tracked(s, now, id, ip, 0, 0) && Allowed(events, now, ip)
    ensures var end := if events == [] then now else Now(events);
            Tracked(Run(s, events), end, id, ip, Sweeps(events), LastSweep(events))
    decreases |events|
  {
    hide Tracked, Step, Allowed;
    if events != [] {
      var n := |events| - 1;
      var before, e := events[..n], events[n];
      assert before + [e] == events;
      AllowedPrefix(before, e, now, ip);
      RunTracked(s, now, before, id, ip);
      var at := if before == [] then now else Now(before);
      StepTracked(Run(s, before), e, at, id, ip, Sweeps(before), LastSweep(before));
    }
  }

  lemma InvOrder(s: State, now: int)
    requires Inv(s, now)
    ensures OrderInv(s)
  {
  }

  lemma NextReqMonotone(s: State, e: Event)
    ensures Step(s, e).nextReq >= s.nextReq
  {
    if e.Sweep? { HandleAllReqs(s.(entries := Expire(s.entries, e.at)), Ids(s.requests), e.at); }
  }

  lemma {:induction false} RunAppend(s: State, a: seq<Event>, b: seq<Event>)
    ensures Run(s, a + b) == Run(Run(s, a), b)
    decreases |b|
  {
    hide Step;
    if b == [] {
      assert a + b == a;
    } else {
      var n := |b| - 1;
      assert (a + b)[..|a + b| - 1] == a + b[..n];
      RunAppend(s, a, b[..n]);
    }
  }

  /** The event creates a request. */
  ghost predicate Creates(s: State, e: Event) {
    e.Forward? && Lookup(s.entries, e.ip).None? && FindIp(s.requests, e.ip) == |s.requests|
  }

  lemma CreationTracked(before: seq<Event>, e: Event)
    requires Timed(before) && e.at >= 1 && Now(before) <= e.at && Creates(Run(Init(), before), e)
    ensures var s := Run(Init(), before);
            Tracked(Step(s, e), e.at, s.nextReq, e.ip, 0, 0) && ReqOf(Step(s, e).requests, s.nextReq).Some?
  {
    RunKeeps(before);
    hide Run, Inv, Progress, ReqOf, Queue;
    var s := Run(Init(), before);
    StepKeeps(s, e, Now(before));
    InvOrder(s, Now(before));
    Created(s, e.ip, e.buf, e.iface, e.at);
    NextReqGrows(s, e.ip, e.buf, e.iface, e.at);
  }

  lemma SixIsTooMany(s: State, now: int, id: nat, ip: uint32, k: nat, last: int)
    requires Tracked(s, now, id, ip, k, last) && k >= 6
    ensures ReqOf(s.requests, id).None?
  {
    hide Conserved, OrderInv, PacketInv, NonEmpty;
    var i := FindId(s.requests, id);
    assert i < |s.requests| ==> Counted(s.requests[i], s.broadcasts);
  }

  /** Without a reply a request is gone after six sweeps at least a second apart, however
      many frames keep joining it in the meantime. */
  lemma GoneAfterSixSweeps(before: seq<Event>, e: Event, after: seq<Event>)
    requires Timed(before) && Creates(Run(Init(), before), e) && e.at >= 1 && Now(before) <= e.at
    requires Allowed(after, e.at, e.ip) && Sweeps(after) >= 6
    ensures var id := Run(Init(), before).nextReq;
            && ReqOf(Run(Init(), before + [e]).requests, id).Some?
            && ReqOf(Run(Init(), before + [e] + after).requests, id).None?
  {
    var s := Run(Init(), before);
    assert (before + [e])[..|before|] == before;
    assert Run(Init(), before + [e]) == Step(s, e);
    hide Run, Tracked, ReqOf, Step, Creates;
    CreationTracked(before, e);
    RunAppend(Init(), before + [e], after);
    RunTracked(Step(s, e), e.at, after, s.nextReq, e.ip);
    var end := if after == [] then e.at else Now(after);
    SixIsTooMany(Run(Step(s, e), after), end, s.nextReq, e.ip, Sweeps(after), LastSweep(after));
  }
}
