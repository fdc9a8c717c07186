/** The order of the request queue, and whom the broadcasts ask for
    (lab1/router/sr_arpcache.c). */
module ArpOrder {
  import opened Machine
  import opened Arp

  /** Later requests come first; ids count the requests. */
  ghost predicate Descending(reqs: seq<Req>, nextReq: nat) {
    && (forall i, j | 0 <= i < j < |reqs| :: reqs[i].id > reqs[j].id)
    && forall i | 0 <= i < |reqs| :: reqs[i].id < nextReq
  }

  /** A broadcast asks for the address that its request is for. */
  ghost predicate AskFor(log: seq<Broadcast>, reqs: seq<Req>, nextReq: nat) {
    && (forall k, i | 0 <= k < |log| && 0 <= i < |reqs| && log[k].req == reqs[i].id :: log[k].ip == reqs[i].ip)
    && forall k | 0 <= k < |log| :: log[k].req < nextReq
  }

  ghost predicate Ordered(s: State) {
    Descending(s.requests, s.nextReq) && AskFor(s.broadcasts, s.requests, s.nextReq)
  }

  lemma EnsureOrdered(s: State, ip: uint32)
    requires Ordered(s)
    ensures Ordered(EnsureReq(s, ip))
  {
    hide FindIp;
  }

  lemma AddOrdered(s: State, i: nat, buf: Frame, iface: string)
    requires Ordered(s) && i < |s.requests|
    ensures Ordered(AddPacket(s, i, buf, iface))
  {
  }

  lemma WithoutOrdered(s: State, i: nat, s1: State)
    requires Ordered(s) && i < |s.requests| && s1.requests == Without(s.requests, i)
    requires s1.broadcasts == s.broadcasts && s1.nextReq == s.nextReq
    ensures Ordered(s1)
  {
    assert forall k | 0 <= k < |s1.requests| :: s1.requests[k] == s.requests[if k < i then k else k + 1];
  }

  lemma BroadcastOrdered(s: State, i: nat, now: int)
    requires Ordered(s) && i < |s.requests|
    ensures var r := s.requests[i];
            Ordered(s.(requests := s.requests[i := r.(sent := now, timesSent := r.timesSent + 1)],
                       broadcasts := s.broadcasts + [Broadcast(r.id, r.ip, now)]))
  {
  }

  lemma HandleOrdered(s: State, i: nat, now: int)
    requires Ordered(s) && i < |s.requests|
    ensures Ordered(HandleAt(s, i, now))
  {
    hide Ordered;
    WithoutOrdered(s, i, s.(requests := Without(s.requests, i), dropped := s.dropped + s.requests[i].packets));
    BroadcastOrdered(s, i, now);
  }

  lemma {:induction false} HandleAllOrdered(s: State, ids: seq<nat>, now: int)
    requires Ordered(s)
    ensures Ordered(HandleAll(s, ids, now))
    decreases |ids|
  {
    hide Ordered, HandleAt, FindId;
    if ids != [] {
      var i := FindId(s.requests, ids[0]);
      if i < |s.requests| { HandleOrdered(s, i, now); }
      HandleAllOrdered(HandleId(s, ids[0], now), ids[1..], now);
    }
  }

  lemma SameRequests(s: State, s1: State)
    requires Ordered(s) && s1.requests == s.requests && s1.broadcasts == s.broadcasts && s1.nextReq == s.nextReq
    ensures Ordered(s1)
  {
  }

  lemma QueueOrdered(s: State, ip: uint32, buf: Frame, iface: string, now: int)
    requires Ordered(s)
    ensures Ordered(Queue(s, ip, buf, iface, now))
  {
    hide Ordered, HandleAt;
    var e := EnsureReq(s, ip);
    var i := FindIp(e.requests, ip);
    EnsureOrdered(s, ip);
    AddOrdered(e, i, buf, iface);
    SameCount(e, i, buf, iface);
    HandleOrdered(AddPacket(e, i, buf, iface), i, now);
  }

  lemma SameCount(s: State, i: nat, buf: Frame, iface: string)
    requires i < |s.requests|
    ensures |AddPacket(s, i, buf, iface).requests| == |s.requests|
  {
  }

  lemma ReplyOrdered(s: State, ip: uint32, mac: Mac, src: Port, now: int)
    requires Ordered(s)
    ensures Ordered(Reply(s, ip, mac, src, now))
  {
    hide Ordered, Store, AddressAll;
    var i := FindIp(s.requests, ip);
    if i < |s.requests| {
      WithoutOrdered(s, i, Reply(s, ip, mac, src, now));
    } else {
      SameRequests(s, Reply(s, ip, mac, src, now));
    }
  }

  lemma StepOrdered(s: State, e: Event)
    requires Ordered(s)
    ensures Ordered(Step(s, e))
  {
    hide Ordered, Queue, Reply, HandleAll, Lookup;
    match e
    case Forward(ip, buf, iface, at) => QueueOrdered(s, ip, buf, iface, at);
    case ArpReply(ip, mac, src, at) => ReplyOrdered(s, ip, mac, src, at);
    case Sweep(at) =>
      SameRequests(s, s.(entries := Expire(s.entries, at)));
      HandleAllOrdered(s.(entries := Expire(s.entries, at)), Ids(s.requests), at);
  }

  /** In every run the request made last comes first in the queue, so a sweep begins with it;
      and every broadcast asks for the address its request is for. */
  lemma {:induction false} NewestRequestFirst(events: seq<Event>)
    ensures Ordered(Run(Init(), events))
    decreases |events|
  {
    hide Step;
    if events != [] {
      NewestRequestFirst(events[..|events| - 1]);
      StepOrdered(Run(Init(), events[..|events| - 1]), events[|events| - 1]);
    }
  }
}
