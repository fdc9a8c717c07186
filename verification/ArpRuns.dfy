/** What every run of the ARP subsystem keeps: no packet is lost or sent twice, requests
    are bounded and end, and the cache answers exactly from live bindings. */
module ArpRuns {
  import opened Machine
  import opened Arp

  // ---------------------------------------------------------------- packets

  function PacketIds(packets: seq<Packet>): (ids: seq<nat>)
    ensures |ids| == |packets|
  {
    seq(|packets|, i requires 0 <= i < |packets| => packets[i].id)
  }

  /** The packets of all pending requests. */
  function Pending(reqs: seq<Req>): multiset<nat> {
    if reqs == [] then multiset{} else multiset(PacketIds(reqs[0].packets)) + Pending(reqs[1..])
  }

  /** Every packet queued so far is in one pending request, or was sent, or was dropped. */
  ghost predicate Conserved(s: State) {
    Pending(s.requests) + multiset(PacketIds(s.sent)) + multiset(PacketIds(s.dropped)) == multiset(Upto(s.nextPacket))
  }

  /** Newer packets stand before older ones. */
  ghost predicate NewestFirst(packets: seq<Packet>) {
    forall i, j | 0 <= i < j < |packets| :: packets[i].id > packets[j].id
  }

  // ---------------------------------------------------------------- broadcasts

  function Broadcasts(log: seq<Broadcast>, id: nat): nat
    decreases |log|
  {
    if log == [] then 0
    else Broadcasts(log[..|log| - 1], id) + if log[|log| - 1].req == id then 1 else 0
  }

  ghost predicate Spaced(log: seq<Broadcast>) {
    forall i, j | 0 <= i < j < |log| && log[i].req == log[j].req :: log[j].at - log[i].at >= 1
  }

  /** The counters of a pending request agree with the log. */
  ghost predicate Counted(r: Req, log: seq<Broadcast>) {
    && r.timesSent == Broadcasts(log, r.id) <= MAX_REQUEST_TRIES
    && forall j | 0 <= j < |log| && log[j].req == r.id :: log[j].at <= r.sent
  }

  ghost predicate LogInv(s: State) {
    && Spaced(s.broadcasts)
    && (forall id: nat :: Broadcasts(s.broadcasts, id) <= MAX_REQUEST_TRIES)
    && (forall j | 0 <= j < |s.broadcasts| :: s.broadcasts[j].req < s.nextReq)
    && (forall i | 0 <= i < |s.requests| :: Counted(s.requests[i], s.broadcasts))
  }

  /** No two pending requests share an address. */
  ghost predicate OrderInv(s: State) {
    && (forall i, j | 0 <= i < j < |s.requests| :: s.requests[i].ip != s.requests[j].ip)
    && (forall i, j | 0 <= i < j < |s.requests| :: s.requests[i].id != s.requests[j].id)
    && (forall i | 0 <= i < |s.requests| :: s.requests[i].id < s.nextReq)
  }

  ghost predicate Listed(packets: seq<Packet>, nextPacket: nat) {
    NewestFirst(packets) && forall k | 0 <= k < |packets| :: packets[k].id < nextPacket
  }

  ghost predicate PacketInv(s: State) {
    forall i | 0 <= i < |s.requests| :: Listed(s.requests[i].packets, s.nextPacket)
  }

  ghost predicate NonEmpty(s: State) {
    forall i | 0 <= i < |s.requests| :: s.requests[i].packets != []
  }

  /** Nothing lies in the future. */
  ghost predicate Past(s: State, now: int) {
    now >= 1 && forall i | 0 <= i < |s.requests| :: s.requests[i].sent <= now
  }

  // ---------------------------------------------------------------- conservation

  lemma Cancel(a: multiset<nat>, b: multiset<nat>, c: multiset<nat>)
    requires a + c == b + c
    ensures a == b
  {
    forall x ensures a[x] == b[x] { assert (a + c)[x] == (b + c)[x]; }
  }

  lemma PendingHead(reqs: seq<Req>)
    requires reqs != []
    ensures Pending(reqs) == multiset(PacketIds(reqs[0].packets)) + Pending(reqs[1..])
  {
  }

  lemma {:induction false} PendingUpdate(reqs: seq<Req>, i: nat, r: Req)
    requires i < |reqs|
    ensures Pending(reqs[i := r]) + multiset(PacketIds(reqs[i].packets))
         == Pending(reqs) + multiset(PacketIds(r.packets))
  {
    hide PacketIds, Pending;
    PendingHead(reqs);
    PendingHead(reqs[i := r]);
    if i == 0 {
      assert reqs[i := r][1..] == reqs[1..];
    } else {
      assert reqs[i := r][0] == reqs[0] && reqs[i := r][1..] == reqs[1..][i - 1 := r];
      PendingUpdate(reqs[1..], i - 1, r);
      var head, tail, tail1 := multiset(PacketIds(reqs[0].packets)), Pending(reqs[1..]), Pending(reqs[1..][i - 1 := r]);
      var was, now := multiset(PacketIds(reqs[i].packets)), multiset(PacketIds(r.packets));
      assert tail1 + was == tail + now;
      assert (head + tail1) + was == head + (tail1 + was) == head + (tail + now) == (head + tail) + now;
    }
  }

  lemma {:induction false} PendingWithout(reqs: seq<Req>, i: nat)
    requires i < |reqs|
    ensures Pending(Without(reqs, i)) + multiset(PacketIds(reqs[i].packets)) == Pending(reqs)
  {
    hide PacketIds, Pending;
    PendingHead(reqs);
    if i == 0 {
      assert Without(reqs, i) == reqs[1..];
    } else {
      assert Without(reqs, i)[0] == reqs[0] && Without(reqs, i)[1..] == Without(reqs[1..], i - 1);
      PendingHead(Without(reqs, i));
      PendingWithout(reqs[1..], i - 1);
    }
  }

  lemma IdsAppend(a: seq<Packet>, b: seq<Packet>)
    ensures PacketIds(a + b) == PacketIds(a) + PacketIds(b)
    ensures multiset(PacketIds(a + b)) == multiset(PacketIds(a)) + multiset(PacketIds(b))
  {
    assert PacketIds(a + b) == PacketIds(a) + PacketIds(b);
  }

  lemma EnsureConserves(s: State, ip: uint32)
    requires Conserved(s)
    ensures Conserved(EnsureReq(s, ip))
  {
    var r := EnsureReq(s, ip).requests;
    if r != s.requests {
      assert r[1..] == s.requests;
      assert PacketIds(r[0].packets) == [];
    }
  }

  lemma UptoNext(n: nat)
    ensures Upto(n + 1) == Upto(n) + [n]
  {
  }

  lemma IdsOfLonger(p: Packet, packets: seq<Packet>)
    ensures PacketIds([p] + packets) == [p.id] + PacketIds(packets)
  {
  }

  lemma AddConserves(s: State, i: nat, buf: Frame, iface: string)
    requires Conserved(s) && i < |s.requests|
    ensures Conserved(AddPacket(s, i, buf, iface))
  {
    hide Pending, Upto, PacketIds;
    var s1, n := AddPacket(s, i, buf, iface), s.nextPacket;
    var had, added := PacketIds(s.requests[i].packets), PacketIds(s1.requests[i].packets);
    PendingUpdate(s.requests, i, s1.requests[i]);
    IdsOfLonger(s1.requests[i].packets[0], s.requests[i].packets);
    UptoNext(n);
    assert Pending(s.requests) + multiset(added) == Pending(s.requests) + multiset{n} + multiset(had);
    Cancel(Pending(s1.requests), Pending(s.requests) + multiset{n}, multiset(had));
  }

  lemma HandleConserves(s: State, i: nat, now: int)
    requires Conserved(s) && i < |s.requests|
    ensures Conserved(HandleAt(s, i, now))
  {
    hide Upto, Pending, PacketIds;
    var r := s.requests[i];
    if now - r.sent >= 1 {
      if r.timesSent >= MAX_REQUEST_TRIES {
        PendingWithout(s.requests, i);
        IdsAppend(s.dropped, r.packets);
      } else {
        var r1 := r.(sent := now, timesSent := r.timesSent + 1);
        PendingUpdate(s.requests, i, r1);
        Cancel(Pending(s.requests[i := r1]), Pending(s.requests), multiset(PacketIds(r.packets)));
      }
    }
  }

  lemma ReplyConserves(s: State, ip: uint32, mac: Mac, src: Port, now: int)
    requires Conserved(s)
    ensures Conserved(Reply(s, ip, mac, src, now))
  {
    var i := FindIp(s.requests, ip);
    if i < |s.requests| {
      var ready := AddressAll(s.requests[i].packets, mac, src);
      assert PacketIds(ready) == PacketIds(s.requests[i].packets);
      hide Upto, Pending, PacketIds;
      PendingWithout(s.requests, i);
      IdsAppend(s.sent, ready);
    }
  }

  // ---------------------------------------------------------------- queue and log

  lemma {:induction false} CountNew(log: seq<Broadcast>, id: nat)
    requires forall j | 0 <= j < |log| :: log[j].req < id
    ensures Broadcasts(log, id) == 0
    decreases |log|
  {
    if log != [] { CountNew(log[..|log| - 1], id); }
  }

  lemma CountNext(log: seq<Broadcast>, b: Broadcast, id: nat)
    ensures Broadcasts(log + [b], id) == Broadcasts(log, id) + if b.req == id then 1 else 0
  {
    assert (log + [b])[..|log|] == log;
  }

  /** Everything but conservation; it depends on the queue and the broadcasts only. */
  ghost predicate Orderly(s: State, now: int) {
    LogInv(s) && OrderInv(s) && PacketInv(s) && NonEmpty(s) && Past(s, now)
  }

  ghost predicate Inv(s: State, now: int) {
    Conserved(s) && Orderly(s, now)
  }

  lemma SameQueue(s: State, s1: State, now: int)
    requires Orderly(s, now) && s1.requests == s.requests && s1.broadcasts == s.broadcasts
    requires s1.nextReq == s.nextReq && s1.nextPacket == s.nextPacket
    ensures Orderly(s1, now)
  {
    hide Broadcasts, Listed, Counted, Spaced;
  }

  /** A new request without packets, in front. */
  lemma NewReqLog(s: State, r: Req)
    requires LogInv(s) && r.id == s.nextReq && r.timesSent == 0
    ensures LogInv(s.(requests := [r] + s.requests, nextReq := s.nextReq + 1))
  {
    CountNew(s.broadcasts, s.nextReq);
    hide Broadcasts, Spaced;
  }

  lemma NewReqOrder(s: State, r: Req, now: int)
    requires OrderInv(s) && PacketInv(s) && Past(s, now) && NonEmpty(s)
    requires r.id == s.nextReq && r.packets == [] && r.sent == 0 && FindIp(s.requests, r.ip) == |s.requests|
    ensures var s1 := s.(requests := [r] + s.requests, nextReq := s.nextReq + 1);
            && OrderInv(s1) && PacketInv(s1) && Past(s1, now)
            && forall i | 1 <= i < |s1.requests| :: s1.requests[i].packets != []
  {
    hide FindIp;
    var s1 := s.(requests := [r] + s.requests, nextReq := s.nextReq + 1);
    assert forall i | 1 <= i < |s1.requests| :: s1.requests[i] == s.requests[i - 1];
  }

  lemma EnsureKeeps(s: State, ip: uint32, now: int)
    requires Inv(s, now)
    ensures var s1 := EnsureReq(s, ip);
            Conserved(s1) && LogInv(s1) && OrderInv(s1) && PacketInv(s1) && Past(s1, now)
    ensures forall i | 0 <= i < |EnsureReq(s, ip).requests| && i != FindIp(EnsureReq(s, ip).requests, ip) ::
              EnsureReq(s, ip).requests[i].packets != []
  {
    hide Conserved, LogInv, OrderInv, PacketInv, Past;
    EnsureConserves(s, ip);
    var r := Req(s.nextReq, ip, 0, 0, []);
    if FindIp(s.requests, ip) == |s.requests| {
      NewReqLog(s, r);
      NewReqOrder(s, r, now);
      assert FindIp([r] + s.requests, ip) == 0;
    }
  }

  lemma AddKeeps(s: State, i: nat, buf: Frame, iface: string, now: int)
    requires Conserved(s) && LogInv(s) && OrderInv(s) && PacketInv(s) && Past(s, now) && i < |s.requests|
    requires forall j | 0 <= j < |s.requests| && j != i :: s.requests[j].packets != []
    ensures Inv(AddPacket(s, i, buf, iface), now)
  {
    hide Conserved, Broadcasts, Spaced;
    AddConserves(s, i, buf, iface);
    var s1 := AddPacket(s, i, buf, iface);
    ListGrows(s.requests[i].packets, s.nextPacket, s1.requests[i].packets[0]);
  }

  lemma ListGrows(packets: seq<Packet>, n: nat, p: Packet)
    requires Listed(packets, n) && p.id == n
    ensures Listed([p] + packets, n + 1)
  {
  }

  lemma BroadcastLog(s: State, i: nat, now: int)
    requires LogInv(s) && OrderInv(s) && i < |s.requests|
    requires now - s.requests[i].sent >= 1 && s.requests[i].timesSent < MAX_REQUEST_TRIES
    ensures LogInv(HandleAt(s, i, now))
  {
    var r := s.requests[i];
    var b := Broadcast(r.id, r.ip, now);
    var log := s.broadcasts + [b];
    forall id: nat ensures Broadcasts(log, id) == Broadcasts(s.broadcasts, id) + if id == r.id then 1 else 0 {
      CountNext(s.broadcasts, b, id);
    }
    assert Counted(r, s.broadcasts);
    hide Broadcasts;
    assert Spaced(log);
  }

  lemma BroadcastOrderly(s: State, i: nat, now: int)
    requires Orderly(s, now) && i < |s.requests|
    requires now - s.requests[i].sent >= 1 && s.requests[i].timesSent < MAX_REQUEST_TRIES
    ensures Orderly(HandleAt(s, i, now), now)
  {
    BroadcastLog(s, i, now);
    hide LogInv, Listed;
  }

  lemma RemoveOrderly(s: State, i: nat, now: int)
    requires i < |s.requests| && Orderly(s, now)
    ensures Orderly(s.(requests := Without(s.requests, i)), now)
  {
    hide Broadcasts, Listed, Counted, Spaced;
    var reqs := Without(s.requests, i);
    assert forall j | 0 <= j < |reqs| :: reqs[j] == s.requests[if j < i then j else j + 1];
  }

  lemma HandleKeeps(s: State, i: nat, now: int)
    requires Inv(s, now) && i < |s.requests|
    ensures Inv(HandleAt(s, i, now), now)
  {
    hide Conserved, Orderly;
    HandleConserves(s, i, now);
    if now - s.requests[i].sent >= 1 {
      if s.requests[i].timesSent >= MAX_REQUEST_TRIES {
        RemoveOrderly(s, i, now);
        SameQueue(s.(requests := Without(s.requests, i)), HandleAt(s, i, now), now);
      } else {
        BroadcastOrderly(s, i, now);
      }
    }
  }

  lemma QueueKeeps(s: State, ip: uint32, buf: Frame, iface: string, now: int)
    requires Inv(s, now)
    ensures Inv(Queue(s, ip, buf, iface, now), now)
  {
    hide Conserved, LogInv, OrderInv, PacketInv, Past, EnsureReq, AddPacket, HandleAt;
    var e := EnsureReq(s, ip);
    var i := FindIp(e.requests, ip);
    EnsureKeeps(s, ip, now);
    AddKeeps(e, i, buf, iface, now);
    SameLength(e, i, buf, iface);
    HandleKeeps(AddPacket(e, i, buf, iface), i, now);
  }

  lemma SameLength(s: State, i: nat, buf: Frame, iface: string)
    requires i < |s.requests|
    ensures |AddPacket(s, i, buf, iface).requests| == |s.requests|
  {
  }

  lemma ReplyKeeps(s: State, ip: uint32, mac: Mac, src: Port, now: int)
    requires Inv(s, now)
    ensures Inv(Reply(s, ip, mac, src, now), now)
  {
    hide Conserved, Orderly, Store;
    ReplyConserves(s, ip, mac, src, now);
    var i := FindIp(s.requests, ip);
    if i < |s.requests| {
      RemoveOrderly(s, i, now);
      SameQueue(s.(requests := Without(s.requests, i)), Reply(s, ip, mac, src, now), now);
    } else {
      SameQueue(s, Reply(s, ip, mac, src, now), now);
    }
  }

  lemma {:induction false} HandleAllKeeps(s: State, ids: seq<nat>, now: int)
    requires Inv(s, now)
    ensures Inv(HandleAll(s, ids, now), now)
    decreases |ids|
  {
    hide Inv, HandleAt;
    if ids != [] {
      var i := FindId(s.requests, ids[0]);
      if i < |s.requests| { HandleKeeps(s, i, now); }
      HandleAllKeeps(HandleId(s, ids[0], now), ids[1..], now);
    }
  }

  lemma CacheIrrelevant(s: State, entries: seq<Entry>, now: int)
    requires Inv(s, now)
    ensures Inv(s.(entries := entries), now)
  {
    hide Orderly, Pending;
    SameQueue(s, s.(entries := entries), now);
  }

  lemma Later(s: State, now: int, now1: int)
    requires Inv(s, now) && now <= now1
    ensures Inv(s, now1)
  {
    hide Conserved, LogInv, OrderInv, PacketInv, NonEmpty;
  }

  lemma StepKeeps(s: State, e: Event, now: int)
    requires Inv(s, now) && now <= e.at
    ensures Inv(Step(s, e), e.at)
  {
    hide Inv, Queue, Reply, HandleAll;
    Later(s, now, e.at);
    match e
    case Forward(ip, buf, iface, at) => QueueKeeps(s, ip, buf, iface, at);
    case ArpReply(ip, mac, src, at) => ReplyKeeps(s, ip, mac, src, at);
    case Sweep(at) =>
      CacheIrrelevant(s, Expire(s.entries, at), at);
      HandleAllKeeps(s.(entries := Expire(s.entries, at)), Ids(s.requests), at);
  }

  lemma InitInv()
    ensures Inv(Init(), 1)
  {
    assert Upto(0) == [] && PacketIds([]) == [];
  }

  /** The time of the last event. */
  function Now(events: seq<Event>): int {
    if events == [] then 1 else events[|events| - 1].at
  }

  lemma {:induction false} RunKeeps(events: seq<Event>)
    requires Timed(events)
    ensures Inv(Run(Init(), events), Now(events))
    decreases |events|
  {
    hide Inv, Step;
    if events == [] {
      InitInv();
    } else {
      var n := |events| - 1;
      RunKeeps(events[..n]);
      StepKeeps(Run(Init(), events[..n]), events[n], Now(events[..n]));
    }
  }

  // ---------------------------------------------------------------- theorems

  /** In how many places packet id is: in a pending request, sent, or dropped. */
  ghost function Places(s: State, id: nat): nat {
    (Pending(s.requests) + multiset(PacketIds(s.sent)) + multiset(PacketIds(s.dropped)))[id]
  }

  lemma {:induction false} UptoOnce(n: nat, id: nat)
    ensures multiset(Upto(n))[id] == if id < n then 1 else 0
    decreases n
  {
    if n > 0 {
      assert Upto(n) == Upto(n - 1) + [n - 1];
      UptoOnce(n - 1, id);
    } else {
      assert Upto(0) == [];
    }
  }

  /** Packet conservation: in every run each queued packet is in exactly one place: waiting
      in one pending request, sent once after the reply, or dropped with its request; no two
      pending requests share an address; and the packets of a request, which are sent in
      list order, stand newest first. */
  lemma PacketConservation(events: seq<Event>, id: nat)
    requires Timed(events)
    ensures var s := Run(Init(), events);
            && Places(s, id) == (if id < s.nextPacket then 1 else 0)
            && OrderInv(s)
            && forall i | 0 <= i < |s.requests| :: NewestFirst(s.requests[i].packets)
  {
    RunKeeps(events);
    hide Run, Pending, LogInv;
    UptoOnce(Run(Init(), events).nextPacket, id);
  }

  lemma AddressedOrder(packets: seq<Packet>, mac: Mac, src: Port)
    requires NewestFirst(packets)
    ensures NewestFirst(AddressAll(packets, mac, src)) && PacketIds(AddressAll(packets, mac, src)) == PacketIds(packets)
  {
    hide Addressed;
  }

  lemma RequestEnds(s: State, ip: uint32)
    requires OrderInv(s)
    ensures var i := FindIp(s.requests, ip);
            var rest := if i < |s.requests| then Without(s.requests, i) else s.requests;
            forall j | 0 <= j < |rest| :: rest[j].ip != ip
  {
  }

  lemma NothingSent()
    ensures NewestFirst([]) && PacketIds([]) == []
  {
  }

  lemma ReplyOrder(s: State, e: Event, now: int)
    requires e.ArpReply? && Inv(s, now)
    ensures var s1, i := Step(s, e), FindIp(s.requests, e.ip);
            && s.sent <= s1.sent && NewestFirst(s1.sent[|s.sent|..])
            && PacketIds(s1.sent[|s.sent|..]) == (if i < |s.requests| then PacketIds(s.requests[i].packets) else [])
            && forall j | 0 <= j < |s1.requests| :: s1.requests[j].ip != e.ip
  {
    assert OrderInv(s) && PacketInv(s);
    RequestEnds(s, e.ip);
    hide Inv, OrderInv, FindIp, Store, Addressed, AddressAll, NewestFirst, PacketIds, Without;
    var s1, i := Step(s, e), FindIp(s.requests, e.ip);
    if i < |s.requests| {
      assert s1.sent[|s.sent|..] == AddressAll(s.requests[i].packets, e.mac, e.src);
      assert Listed(s.requests[i].packets, s.nextPacket);
      AddressedOrder(s.requests[i].packets, e.mac, e.src);
    } else {
      assert s1.sent[|s.sent|..] == [];
      NothingSent();
    }
  }

  /** A reply sends the packets of the request for its address, the last one queued first,
      and ends that request; nothing else is sent. */
  lemma ReplySendsNewestFirst(events: seq<Event>, e: Event)
    requires Timed(events) && e.ArpReply?
    ensures var s := Run(Init(), events);
            var s1, i := Step(s, e), FindIp(s.requests, e.ip);
            && s.sent <= s1.sent && NewestFirst(s1.sent[|s.sent|..])
            && PacketIds(s1.sent[|s.sent|..]) == (if i < |s.requests| then PacketIds(s.requests[i].packets) else [])
            && forall j | 0 <= j < |s1.requests| :: s1.requests[j].ip != e.ip
  {
    RunKeeps(events);
    hide Run, Init;
    ReplyOrder(Run(Init(), events), e, Now(events));
  }

  /** Retry bound: in every run every request is broadcast at most five times, and two
      broadcasts of one request are at least one second apart. */
  lemma BroadcastBound(events: seq<Event>, id: nat)
    requires Timed(events)
    ensures var log := Run(Init(), events).broadcasts;
            Broadcasts(log, id) <= MAX_REQUEST_TRIES && Spaced(log)
  {
    RunKeeps(events);
    hide Run, Broadcasts, Conserved;
  }
}
