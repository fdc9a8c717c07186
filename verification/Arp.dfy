/** The ARP subsystem of the router (lab1/router/sr_arpcache.c and the ARP reply branch of
    sr_router.c) as functions on its state. The methods of ArpCache.dfy compute them with
    the loops of the source. Each handler and each round of the timeout thread is one
    atomic step; time is in whole seconds, as time() gives it. */
module Arp {
  import opened Machine

  const MAX_REQUEST_TRIES := 5
  const SR_ARPCACHE_SZ := 100
  const SR_ARPCACHE_TO := 15

  /** A frame with an Ethernet header, as handed to queuereq. */
  type Frame = f: seq<byte> | |f| >= 14 witness seq(14, i => 0)

  /** A queued copy of a frame; id names the allocation. */
  datatype Packet = Packet(id: nat, buf: Frame, iface: string)

  /** sr_arpreq; id names the allocation, so it is the pointer to it. */
  datatype Req = Req(id: nat, ip: uint32, sent: int, timesSent: nat, packets: seq<Packet>)

  /** An interface of the router: its name and its MAC address. */
  datatype Port = Port(name: string, mac: Mac)

  datatype Entry = Entry(mac: Mac, ip: uint32, added: int, valid: bool)

  /** One ARP request on the wire, for the pending request req. */
  datatype Broadcast = Broadcast(req: nat, ip: uint32, at: int)

  /** The request queue, the cache, the allocation counters and, as history, the packets
      sent after a reply, the packets dropped, and the broadcasts. */
  datatype State = State(
    requests: seq<Req>,
    entries: seq<Entry>,
    nextReq: nat,
    nextPacket: nat,
    sent: seq<Packet>,
    dropped: seq<Packet>,
    broadcasts: seq<Broadcast>)

  // ---------------------------------------------------------------- request queue

  /** Position of the first request for ip, or the length of the queue. */
  function FindIp(reqs: seq<Req>, ip: uint32): (i: nat)
    ensures i <= |reqs|
    ensures i < |reqs| ==> reqs[i].ip == ip
    ensures forall j | 0 <= j < i :: reqs[j].ip != ip
  {
    if reqs == [] || reqs[0].ip == ip then 0 else 1 + FindIp(reqs[1..], ip)
  }

  /** Position of the request with this id, or the length of the queue. */
  function FindId(reqs: seq<Req>, id: nat): (i: nat)
    ensures i <= |reqs|
    ensures i < |reqs| ==> reqs[i].id == id
    ensures forall j | 0 <= j < i :: reqs[j].id != id
  {
    if reqs == [] || reqs[0].id == id then 0 else 1 + FindId(reqs[1..], id)
  }

  function Without<T>(s: seq<T>, i: nat): seq<T>
    requires i < |s|
  {
    s[..i] + s[i + 1..]
  }

  /** First half of sr_arpcache_queuereq: there is a request for ip now. */
  function EnsureReq(s: State, ip: uint32): (r: State)
    ensures FindIp(r.requests, ip) < |r.requests|
  {
    if FindIp(s.requests, ip) < |s.requests| then s
    else s.(requests := [Req(s.nextReq, ip, 0, 0, [])] + s.requests, nextReq := s.nextReq + 1)
  }

  /** Second half: the copied frame goes to the front of the request's packet list. */
  function AddPacket(s: State, i: nat, buf: Frame, iface: string): State
    requires i < |s.requests|
  {
    var r := s.requests[i];
    s.(requests := s.requests[i := r.(packets := [Packet(s.nextPacket, buf, iface)] + r.packets)],
       nextPacket := s.nextPacket + 1)
  }

  /** handle_arpreq of the request at position i. */
  function HandleAt(s: State, i: nat, now: int): State
    requires i < |s.requests|
  {
    var r := s.requests[i];
    if now - r.sent < 1 then s
    else if r.timesSent >= MAX_REQUEST_TRIES then
      s.(requests := Without(s.requests, i), dropped := s.dropped + r.packets)
    else
      s.(requests := s.requests[i := r.(sent := now, timesSent := r.timesSent + 1)],
         broadcasts := s.broadcasts + [Broadcast(r.id, r.ip, now)])
  }

  /** handle_arpreq of the request with this id, if it is still pending. */
  function HandleId(s: State, id: nat, now: int): State {
    var i := FindId(s.requests, id);
    if i < |s.requests| then HandleAt(s, i, now) else s
  }

  /** The miss branch of sr_ip_packet_next_hop: queue the frame, handle the request. */
  function Queue(s: State, ip: uint32, buf: Frame, iface: string, now: int): State {
    var e := EnsureReq(s, ip);
    var i := FindIp(e.requests, ip);
    HandleAt(AddPacket(e, i, buf, iface), i, now)
  }

  /** sr_arpcache_sweepreqs: every request of the list given, in order. */
  function HandleAll(s: State, ids: seq<nat>, now: int): State
    decreases |ids|
  {
    if ids == [] then s else HandleAll(HandleId(s, ids[0], now), ids[1..], now)
  }

  function Ids(reqs: seq<Req>): (ids: seq<nat>)
    ensures |ids| == |reqs|
  {
    seq(|reqs|, i requires 0 <= i < |reqs| => reqs[i].id)
  }

  // ---------------------------------------------------------------- cache

  /** First slot that is not valid, or the number of slots. */
  function FreeSlot(entries: seq<Entry>): (i: nat)
    ensures i <= |entries|
    ensures i < |entries| ==> !entries[i].valid
    ensures forall j | 0 <= j < i :: entries[j].valid
  {
    if entries == [] || !entries[0].valid then 0 else 1 + FreeSlot(entries[1..])
  }

  function Store(entries: seq<Entry>, mac: Mac, ip: uint32, now: int): seq<Entry> {
    var i := FreeSlot(entries);
    if i < |entries| then entries[i := Entry(mac, ip, now, true)] else entries
  }

  /** sr_arpcache_lookup: the last valid entry for ip. */
  function Lookup(entries: seq<Entry>, ip: uint32): (r: Option<Entry>)
    decreases |entries|
  {
    if entries == [] then None
    else
      var n := |entries| - 1;
      if entries[n].valid && entries[n].ip == ip then Some(entries[n]) else Lookup(entries[..n], ip)
  }

  /** The expiry loop of sr_arpcache_timeout. */
  function Expire(entries: seq<Entry>, now: int): (r: seq<Entry>)
    ensures |r| == |entries|
  {
    seq(|entries|, i requires 0 <= i < |entries| =>
      if now - entries[i].added > SR_ARPCACHE_TO then entries[i].(valid := false) else entries[i])
  }

  // ---------------------------------------------------------------- handlers

  /** The frame with its Ethernet addresses filled in. */
  function Addressed(buf: Frame, dst: Mac, src: Mac): Frame {
    dst + src + buf[12..]
  }

  /** out is buf with the Ethernet destination dst and the Ethernet source src. */
  predicate LeavesAs(out: seq<byte>, buf: seq<byte>, dst: Mac, src: Mac) {
    |out| == |buf| >= 14 && out[..6] == dst && out[6..12] == src && out[12..] == buf[12..]
  }

  lemma AddressedLeaves(buf: Frame, dst: Mac, src: Mac)
    ensures LeavesAs(Addressed(buf, dst, src), buf, dst, src)
  {
    var out := Addressed(buf, dst, src);
    assert out[..6] == dst && out[6..12] == src && out[12..] == buf[12..];
  }

  /** The packets as they leave by the interface src, whichever they were queued for. */
  function AddressAll(packets: seq<Packet>, dst: Mac, src: Port): (r: seq<Packet>)
    ensures |r| == |packets|
  {
    seq(|packets|, i requires 0 <= i < |packets| =>
      Packet(packets[i].id, Addressed(packets[i].buf, dst, src.mac), src.name))
  }

  /** sr_arpcache_insert, and the sending of the packets that waited for it; src is the
      interface the reply came in at. */
  function Reply(s: State, ip: uint32, mac: Mac, src: Port, now: int): State {
    var i := FindIp(s.requests, ip);
    var s1 := s.(entries := Store(s.entries, mac, ip, now));
    if i < |s.requests| then
      s1.(requests := Without(s.requests, i), sent := s.sent + AddressAll(s.requests[i].packets, mac, src))
    else s1
  }

  /** One round of sr_arpcache_timeout. */
  function Tick(s: State, now: int): State {
    HandleAll(s.(entries := Expire(s.entries, now)), Ids(s.requests), now)
  }

  // ---------------------------------------------------------------- runs

  datatype Event =
    | Forward(ip: uint32, buf: Frame, iface: string, at: int)   // a frame to next hop ip
    | ArpReply(ip: uint32, mac: Mac, src: Port, at: int)   // src is where it came in
    | Sweep(at: int)

  function Step(s: State, e: Event): State {
    match e
    case Forward(ip, buf, iface, now) => if Lookup(s.entries, ip).Some? then s else Queue(s, ip, buf, iface, now)
    case ArpReply(ip, mac, src, now) => Reply(s, ip, mac, src, now)
    case Sweep(now) => Tick(s, now)
  }

  function Run(s: State, events: seq<Event>): State
    decreases |events|
  {
    if events == [] then s else Step(Run(s, events[..|events| - 1]), events[|events| - 1])
  }

  const NO_MAC: Mac := [0, 0, 0, 0, 0, 0]

  /** sr_arpcache_init */
  function Init(): State {
    State([], seq(SR_ARPCACHE_SZ, i => Entry(NO_MAC, 0, 0, false)), 0, 0, [], [], [])
  }

  /** Event times never decrease and start after 1970. */
  ghost predicate Timed(events: seq<Event>) {
    && (forall i | 0 <= i < |events| :: events[i].at >= 1)
    && forall i, j | 0 <= i < j < |events| :: events[i].at <= events[j].at
  }
}
