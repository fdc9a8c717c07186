/** Which bytes leave after an ARP reply: the frame that was queued for that address, with
    nothing but its Ethernet addresses changed. */
module ArpDelivery {
  import opened Machine
  import opened Arp
  import Forwarding

  /** A frame as it was handed to queuereq. */
  datatype Origin = Origin(ip: uint32, buf: Frame, iface: string)

  /** The frames queued in a run, oldest first: the forwarded ones the cache had no entry for. */
  function Queued(events: seq<Event>): seq<Origin>
    decreases |events|
  {
    if events == [] then []
    else
      var before, e := events[..|events| - 1], events[|events| - 1];
      if e.Forward? && Lookup(Run(Init(), before).entries, e.ip).None?
      then Queued(before) + [Origin(e.ip, e.buf, e.iface)]
      else Queued(before)
  }

  // ---------------------------------------------------------------- the invariant

  /** p waits for ip exactly as it was queued; ids count the queued frames. */
  ghost predicate Waits(p: Packet, ip: uint32, q: seq<Origin>) {
    p.id < |q| && q[p.id] == Origin(ip, p.buf, p.iface)
  }

  ghost predicate AllWait(packets: seq<Packet>, ip: uint32, q: seq<Origin>) {
    forall k | 0 <= k < |packets| :: Waits(packets[k], ip, q)
  }

  ghost predicate QueueHolds(reqs: seq<Req>, q: seq<Origin>) {
    forall i | 0 <= i < |reqs| :: AllWait(reqs[i].packets, reqs[i].ip, q)
  }

  ghost predicate IsReply(events: seq<Event>, j: nat, ip: uint32, mac: Mac, src: Port) {
    j < |events| && events[j].ArpReply? && events[j].ip == ip && events[j].mac == mac && events[j].src == src
  }

  /** p went out as queued, with the MAC address that a reply for its next hop gave as its
      destination, by the interface where that reply came in and with its MAC as source. */
  ghost predicate Answered(p: Packet, q: seq<Origin>, events: seq<Event>) {
    && p.id < |q|
    && exists j, mac, src :: IsReply(events, j, q[p.id].ip, mac, src) && p.iface == src.name
                             && LeavesAs(p.buf, q[p.id].buf, mac, src.mac)
  }

  ghost predicate SentAnswered(packets: seq<Packet>, q: seq<Origin>, events: seq<Event>) {
    forall k | 0 <= k < |packets| :: Answered(packets[k], q, events)
  }

  ghost predicate Inv(s: State, q: seq<Origin>, events: seq<Event>) {
    |q| == s.nextPacket && QueueHolds(s.requests, q) && SentAnswered(s.sent, q, events)
  }

  // ---------------------------------------------------------------- queue steps

  lemma StillWaits(packets: seq<Packet>, ip: uint32, q: seq<Origin>, o: Origin)
    requires AllWait(packets, ip, q)
    ensures AllWait(packets, ip, q + [o])
  {
  }

  lemma HandleKeeps(s: State, i: nat, now: int, q: seq<Origin>)
    requires i < |s.requests| && QueueHolds(s.requests, q)
    ensures QueueHolds(HandleAt(s, i, now).requests, q)
    ensures HandleAt(s, i, now).sent == s.sent && HandleAt(s, i, now).nextPacket == s.nextPacket
  {
    hide AllWait;
    WithoutHolds(s.requests, i, q);
  }

  lemma WithoutHolds(reqs: seq<Req>, i: nat, q: seq<Origin>)
    requires i < |reqs| && QueueHolds(reqs, q)
    ensures QueueHolds(Without(reqs, i), q)
  {
    hide AllWait;
    assert forall j | 0 <= j < |reqs| - 1 :: Without(reqs, i)[j] == reqs[if j < i then j else j + 1];
  }

  lemma EnsureHolds(s: State, ip: uint32, q: seq<Origin>)
    requires QueueHolds(s.requests, q)
    ensures QueueHolds(EnsureReq(s, ip).requests, q)
  {
    assert AllWait([], ip, q);
    hide AllWait, FindIp;
  }

  lemma AddHolds(s: State, i: nat, buf: Frame, iface: string, q: seq<Origin>)
    requires i < |s.requests| && QueueHolds(s.requests, q) && |q| == s.nextPacket
    ensures QueueHolds(AddPacket(s, i, buf, iface).requests, q + [Origin(s.requests[i].ip, buf, iface)])
  {
    var r, o := s.requests[i], Origin(s.requests[i].ip, buf, iface);
    var p := Packet(s.nextPacket, buf, iface);
    forall j | 0 <= j < |s.requests| ensures AllWait(s.requests[j].packets, s.requests[j].ip, q + [o]) {
      StillWaits(s.requests[j].packets, s.requests[j].ip, q, o);
    }
    assert Waits(p, r.ip, q + [o]);
    hide Waits;
    assert AllWait([p] + r.packets, r.ip, q + [o]);
  }

  lemma QueueKeeps(s: State, ip: uint32, buf: Frame, iface: string, now: int, q: seq<Origin>)
    requires QueueHolds(s.requests, q) && |q| == s.nextPacket
    ensures var s1 := Queue(s, ip, buf, iface, now);
            && QueueHolds(s1.requests, q + [Origin(ip, buf, iface)])
            && s1.sent == s.sent && s1.nextPacket == s.nextPacket + 1
  {
    hide QueueHolds, HandleAt;
    var e := EnsureReq(s, ip);
    var i := FindIp(e.requests, ip);
    EnsureHolds(s, ip, q);
    AddHolds(e, i, buf, iface, q);
    HandleKeeps(AddPacket(e, i, buf, iface), i, now, q + [Origin(ip, buf, iface)]);
  }

  lemma {:induction false} HandleAllKeeps(s: State, ids: seq<nat>, now: int, q: seq<Origin>)
    requires QueueHolds(s.requests, q)
    ensures var s1 := HandleAll(s, ids, now);
            QueueHolds(s1.requests, q) && s1.sent == s.sent && s1.nextPacket == s.nextPacket
    decreases |ids|
  {
    hide QueueHolds, HandleAt, FindId;
    if ids != [] {
      var i := FindId(s.requests, ids[0]);
      if i < |s.requests| { HandleKeeps(s, i, now, q); }
      HandleAllKeeps(HandleId(s, ids[0], now), ids[1..], now, q);
    }
  }

  // ---------------------------------------------------------------- replies

  lemma MoreEvents(packets: seq<Packet>, q: seq<Origin>, events: seq<Event>, e: Event, more: seq<Origin>)
    requires SentAnswered(packets, q, events)
    ensures SentAnswered(packets, q + more, events + [e])
  {
    forall k | 0 <= k < |packets| ensures Answered(packets[k], q + more, events + [e]) {
      var p := packets[k];
      assert Answered(p, q, events);
      var j, mac, src :| IsReply(events, j, q[p.id].ip, mac, src) && p.iface == src.name
                         && LeavesAs(p.buf, q[p.id].buf, mac, src.mac);
      assert IsReply(events + [e], j, (q + more)[p.id].ip, mac, src);
    }
  }

  lemma ReadyIsAnswered(packets: seq<Packet>, q: seq<Origin>, events: seq<Event>, e: Event)
    requires e.ArpReply? && AllWait(packets, e.ip, q)
    ensures SentAnswered(AddressAll(packets, e.mac, e.src), q, events + [e])
  {
    hide Addressed;
    var out := AddressAll(packets, e.mac, e.src);
    forall k | 0 <= k < |out| ensures Answered(out[k], q, events + [e]) {
      assert Waits(packets[k], e.ip, q);
      AddressedLeaves(packets[k].buf, e.mac, e.src.mac);
      assert IsReply(events + [e], |events|, q[out[k].id].ip, e.mac, e.src);
    }
  }

  lemma ReplyKeeps(s: State, q: seq<Origin>, events: seq<Event>, e: Event)
    requires e.ArpReply? && Inv(s, q, events)
    ensures Inv(Reply(s, e.ip, e.mac, e.src, e.at), q, events + [e])
  {
    hide AllWait, Answered, FindIp;
    var i := FindIp(s.requests, e.ip);
    MoreEvents(s.sent, q, events, e, []);
    assert q + [] == q;
    if i < |s.requests| {
      WithoutHolds(s.requests, i, q);
      ReadyIsAnswered(s.requests[i].packets, q, events, e);
    }
  }

  // ---------------------------------------------------------------- runs

  lemma StepKeeps(s: State, q: seq<Origin>, events: seq<Event>, e: Event)
    requires Inv(s, q, events)
    ensures var q1 := if e.Forward? && Lookup(s.entries, e.ip).None? then q + [Origin(e.ip, e.buf, e.iface)] else q;
            Inv(Step(s, e), q1, events + [e])
  {
    hide QueueHolds, SentAnswered, Queue, HandleAll, Lookup;
    match e
    case Forward(ip, buf, iface, at) =>
      MoreEvents(s.sent, q, events, e, []);
      assert q + [] == q;
      MoreEvents(s.sent, q, events, e, [Origin(ip, buf, iface)]);
      QueueKeeps(s, ip, buf, iface, at, q);
    case ArpReply(ip, mac, src, at) => ReplyKeeps(s, q, events, e);
    case Sweep(at) =>
      MoreEvents(s.sent, q, events, e, []);
      assert q + [] == q;
      HandleAllKeeps(s.(entries := Expire(s.entries, at)), Ids(s.requests), at, q);
  }

  lemma {:induction false} RunKeeps(events: seq<Event>)
    ensures Inv(Run(Init(), events), Queued(events), events)
    decreases |events|
  {
    hide Inv, Step;
    if events == [] {
      InitHolds();
    } else {
      var before, e := events[..|events| - 1], events[|events| - 1];
      assert before + [e] == events;
      RunKeeps(before);
      StepKeeps(Run(Init(), before), Queued(before), before, e);
    }
  }

  lemma InitHolds()
    ensures Inv(Init(), [], [])
  {
  }

  /** Every packet sent after a reply is a frame queued in the run, changed only in the
      Ethernet addresses, which come from a reply for the address it was queued under. */
  lemma SentAsQueued(events: seq<Event>, k: nat)
    requires k < |Run(Init(), events).sent|
    ensures Answered(Run(Init(), events).sent[k], Queued(events), events)
  {
    hide Answered;
    RunKeeps(events);
  }

  // ---------------------------------------------------------------- with the forwarding code

  /** Every frame the forwarding code handed over has a good IP header. */
  ghost predicate HandedOverGood(events: seq<Event>) {
    forall i | 0 <= i < |events| && events[i].Forward? :: forall o :: Forwarding.HeaderOk(o, events[i].buf)
  }

  lemma {:induction false} QueuedAreGood(events: seq<Event>, n: nat)
    requires HandedOverGood(events) && n < |Queued(events)|
    ensures forall o :: Forwarding.HeaderOk(o, Queued(events)[n].buf)
    decreases |events|
  {
    hide Forwarding.HeaderOk, Lookup;
    var before := events[..|events| - 1];
    if n < |Queued(before)| { QueuedAreGood(before, n); }
  }

  lemma SameBehindEthernet(o: ByteOrder, out: seq<byte>, buf: seq<byte>)
    requires |out| == |buf| >= 14 && out[12..] == buf[12..] && Forwarding.HeaderOk(o, buf)
    ensures Forwarding.HeaderOk(o, out)
  {
    assert out[14..34] == out[12..][2..22] == buf[12..][2..22] == buf[14..34];
  }

  /** A frame that had to wait for ARP still passes the next router's header test when it leaves. */
  lemma SentAfterReplyIsGood(events: seq<Event>, k: nat, o: ByteOrder)
    requires HandedOverGood(events) && k < |Run(Init(), events).sent|
    ensures Forwarding.HeaderOk(o, Run(Init(), events).sent[k].buf)
  {
    hide HandedOverGood, Run, Queued;
    SentAsQueued(events, k);
    var p, q := Run(Init(), events).sent[k], Queued(events);
    QueuedAreGood(events, p.id);
    var buf := q[p.id].buf;
    assert Forwarding.HeaderOk(o, buf);
    assert |p.buf| == |buf| && p.buf[12..] == buf[12..];
    SameBehindEthernet(o, p.buf, buf);
  }
}
