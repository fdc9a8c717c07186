/** The ARP cache and request queue of lab1/router/sr_arpcache.c, with the loops of the
    source. Each method computes the function of the same purpose in Arp.dfy. A request
    is pointed to by its id. */
module ArpCacheState {
  import opened Machine
  import opened Arp
  import opened ArpRetry

  // ---------------------------------------------------------------- sweeping

  /** The queue ends with exactly the requests still to be swept. */
  ghost predicate Remaining(reqs: seq<Req>, ids: seq<nat>) {
    Distinct(reqs) && |ids| <= |reqs| && Ids(reqs[|reqs| - |ids|..]) == ids
  }

  lemma NextRemaining(s: State, ids: seq<nat>, now: int)
    requires Remaining(s.requests, ids) && ids != []
    ensures var i := FindId(s.requests, ids[0]);
            && i == |s.requests| - |ids|
            && (|ids| > 1 ==> s.requests[i + 1].id == ids[1])
    ensures Remaining(HandleId(s, ids[0], now).requests, ids[1..])
  {
    hide FindId;
    var reqs, i := s.requests, |s.requests| - |ids|;
    assert forall k | 0 <= k < |ids| :: reqs[i + k].id == Ids(reqs[i..])[k];
    FoundAt(reqs, i);
    HandleOne(s, i, now, 0);
    StillRemaining(reqs, HandleAt(s, i, now).requests, i, ids);
  }

  lemma StillRemaining(reqs: seq<Req>, reqs1: seq<Req>, i: nat, ids: seq<nat>)
    requires ids != [] && i + |ids| == |reqs| && Distinct(reqs1) && Ids(reqs[i..]) == ids
    requires reqs1 == Without(reqs, i) || (|reqs1| == |reqs| && reqs1[i + 1..] == reqs[i + 1..])
    ensures Remaining(reqs1, ids[1..])
  {
    var rest := reqs[i + 1..];
    assert reqs1[|reqs1| - |rest|..] == rest;
    assert Ids(rest) == Ids(reqs[i..])[1..];
  }

  lemma EnsureDistinct(s: State, ip: uint32)
    requires Distinct(s.requests) && forall i | 0 <= i < |s.requests| :: s.requests[i].id < s.nextReq
    ensures Distinct(EnsureReq(s, ip).requests)
  {
  }

  lemma AllRemaining(reqs: seq<Req>)
    requires Distinct(reqs)
    ensures Remaining(reqs, Ids(reqs))
  {
    assert reqs[0..] == reqs;
  }

  lemma HandleAllStep(s: State, ids: seq<nat>, now: int)
    ensures HandleAll(s, ids, now) == if ids == [] then s else HandleAll(HandleId(s, ids[0], now), ids[1..], now)
  {
    hide HandleId;
  }

  // ---------------------------------------------------------------- the cache

  class ArpCache {
    var requests: seq<Req>
    const entries: array<Entry>
    var nextReq: nat
    var nextPacket: nat
    ghost var sent: seq<Packet>
    ghost var dropped: seq<Packet>
    ghost var broadcasts: seq<Broadcast>

    ghost function View(): State
      reads this, entries
    {
      State(requests, entries[..], nextReq, nextPacket, sent, dropped, broadcasts)
    }

    /** sr_arpcache_init */
    constructor ()
      ensures View() == Init() && fresh(entries)
    {
      entries := new Entry[SR_ARPCACHE_SZ](i => Entry(NO_MAC, 0, 0, false));
      requests, nextReq, nextPacket := [], 0, 0;
      sent, dropped, broadcasts := [], [], [];
    }

    /** sr_arpcache_lookup */
    method LookupEntry(ip: uint32) returns (copy: Option<Entry>)
      ensures copy == Lookup(entries[..], ip)
    {
      copy := None;
      for i := 0 to entries.Length
        invariant copy == Lookup(entries[..i], ip)
      {
        assert entries[..i + 1][..i] == entries[..i];
        if entries[i].valid && entries[i].ip == ip { copy := Some(entries[i]); }
      }
      assert entries[..entries.Length] == entries[..];
    }

    /** The walk to the request for an address. */
    method Walk(ip: uint32) returns (i: nat)
      ensures i == FindIp(requests, ip)
    {
      i := 0;
      while i < |requests| && requests[i].ip != ip
        invariant i <= |requests| && forall j | 0 <= j < i :: requests[j].ip != ip
      {
        i := i + 1;
      }
    }

    /** sr_arpcache_queuereq of a frame; the result is the pointer to its request. */
    method QueueReq(ip: uint32, buf: Frame, iface: string) returns (req: nat, ghost i: nat)
      modifies this`requests, this`nextReq, this`nextPacket
      ensures var e := EnsureReq(old(View()), ip);
              i == FindIp(e.requests, ip) && View() == AddPacket(e, i, buf, iface) && req == requests[i].id
    {
      var at := Walk(ip);
      if at == |requests| {
        requests := [Req(nextReq, ip, 0, 0, [])] + requests;
        nextReq := nextReq + 1;
        at := 0;
      }
      assert View() == EnsureReq(old(View()), ip) && at == FindIp(requests, ip);
      var packet := Packet(nextPacket, buf, iface);
      nextPacket := nextPacket + 1;
      requests := requests[at := requests[at].(packets := [packet] + requests[at].packets)];
      return requests[at].id, at;
    }

    /** sr_arpreq_destroy: unlink the request if it is still in the queue. */
    method Destroy(id: nat)
      modifies this`requests
      ensures var i := FindId(old(requests), id);
              requests == if i < |old(requests)| then Without(old(requests), i) else old(requests)
    {
      var i := 0;
      while i < |requests| && requests[i].id != id
        invariant i <= |requests| && requests == old(requests)
        invariant forall j | 0 <= j < i :: requests[j].id != id
      {
        i := i + 1;
      }
      if i < |requests| { requests := requests[..i] + requests[i + 1..]; }
    }

    /** handle_arpreq */
    method HandleArpreq(id: nat, now: int)
      requires FindId(requests, id) < |requests|
      modifies this`requests, this`dropped, this`broadcasts
      ensures View() == HandleId(old(View()), id, now)
    {
      var i := FindId(requests, id);
      var req := requests[i];
      if now - req.sent >= 1 {
        if req.timesSent >= MAX_REQUEST_TRIES {
          dropped := dropped + req.packets;
          Destroy(id);
        } else {
          requests := requests[i := req.(sent := now, timesSent := req.timesSent + 1)];
          broadcasts := broadcasts + [Broadcast(req.id, req.ip, now)];
        }
      }
    }

    /** The end of sr_ip_packet_next_hop, once route and leaving interface are known: out is
        the frame sent at once by that interface, addressed to the cached next hop. */
    method ForwardTo(ip: uint32, buf: Frame, via: Port, now: int) returns (out: Option<Frame>)
      requires Distinct(requests) && forall i | 0 <= i < |requests| :: requests[i].id < nextReq
      modifies this
      ensures out.Some? <==> Lookup(old(entries[..]), ip).Some?
      ensures out.Some? ==> LeavesAs(out.value, buf, Lookup(old(entries[..]), ip).value.mac, via.mac)
      ensures View() == Step(old(View()), Forward(ip, buf, via.name, now))
    {
      hide Addressed, LeavesAs;
      var hit := LookupEntry(ip);
      if hit.Some? {
        AddressedLeaves(buf, hit.value.mac, via.mac);
        return Some(Addressed(buf, hit.value.mac, via.mac));
      }
      var req, i := QueueReq(ip, buf, via.name);
      EnsureDistinct(old(View()), ip);
      FoundAt(requests, i);
      HandleArpreq(req, now);
      return None;
    }

    /** The first free slot takes the binding. */
    method StoreEntry(mac: Mac, ip: uint32, now: int)
      modifies entries
      ensures entries[..] == Store(old(entries[..]), mac, ip, now)
    {
      var i := 0;
      while i < entries.Length && entries[i].valid
        invariant i <= entries.Length && forall j | 0 <= j < i :: entries[j].valid
      {
        i := i + 1;
      }
      assert i == FreeSlot(entries[..]);
      if i != entries.Length { entries[i] := Entry(mac, ip, now, true); }
    }

    /** sr_arpcache_insert: unlink the request for ip, store the binding. */
    method Insert(mac: Mac, ip: uint32, now: int) returns (req: Option<Req>)
      modifies this`requests, entries
      ensures var i := FindIp(old(requests), ip);
              && req == (if i < |old(requests)| then Some(old(requests)[i]) else None)
              && requests == (if i < |old(requests)| then Without(old(requests), i) else old(requests))
      ensures entries[..] == Store(old(entries[..]), mac, ip, now)
    {
      hide FindIp, Store, FreeSlot;
      req := None;
      var i := Walk(ip);
      if i < |requests| {
        req := Some(requests[i]);
        requests := requests[..i] + requests[i + 1..];
      }
      StoreEntry(mac, ip, now);
    }

    /** The ARP reply branch of sr_handle_arp_packet_type: out collects the frames sent. */
    method HandleReply(ip: uint32, mac: Mac, src: Port, now: int) returns (out: seq<Packet>)
      modifies this, entries
      ensures View() == Reply(old(View()), ip, mac, src, now)
      ensures sent == old(sent) + out
      ensures var i := FindIp(old(requests), ip);
              var waiting := if i < |old(requests)| then old(requests)[i].packets else [];
              && |out| == |waiting|
              && forall k | 0 <= k < |out| ::
                   && out[k].id == waiting[k].id && out[k].iface == src.name
                   && LeavesAs(out[k].buf, waiting[k].buf, mac, src.mac)
    {
      hide Addressed, LeavesAs;
      out := [];
      var req := Insert(mac, ip, now);
      if req.Some? {
        var packets := req.value.packets;
        for k := 0 to |packets|
          invariant out == AddressAll(packets[..k], mac, src)
        {
          out := out + [Packet(packets[k].id, Addressed(packets[k].buf, mac, src.mac), src.name)];
        }
        assert packets[..|packets|] == packets;
        forall k | 0 <= k < |packets| ensures LeavesAs(out[k].buf, packets[k].buf, mac, src.mac) {
          AddressedLeaves(packets[k].buf, mac, src.mac);
        }
        sent := sent + out;
      }
    }

    /** req->next */
    function NextOf(id: nat): Option<nat>
      reads this`requests
    {
      var i := FindId(requests, id);
      if i + 1 < |requests| then Some(requests[i + 1].id) else None
    }

    /** sr_arpcache_sweepreqs; the successor is saved before a request is handled, which may
        unlink it. */
    method SweepReqs(now: int)
      requires Distinct(requests)
      modifies this`requests, this`dropped, this`broadcasts
      ensures View() == HandleAll(old(View()), Ids(old(requests)), now)
    {
      hide HandleAll, HandleId, Remaining;
      ghost var ids := Ids(requests);
      AllRemaining(requests);
      assert ids[0..] == ids;
      var req := if requests == [] then None else Some(requests[0].id);
      ghost var k := 0;
      while req.Some?
        invariant k <= |ids| && req == if k < |ids| then Some(ids[k]) else None
        invariant Remaining(requests, ids[k..])
        invariant HandleAll(View(), ids[k..], now) == HandleAll(old(View()), ids, now)
        decreases |ids| - k
      {
        var next := NextOf(req.value);
        ghost var before := View();
        NextRemaining(before, ids[k..], now);
        HandleAllStep(before, ids[k..], now);
        assert ids[k..][0] == ids[k] && ids[k..][1..] == ids[k + 1..];
        HandleArpreq(req.value, now);
        req := next;
        k := k + 1;
      }
      assert ids[k..] == [];
      HandleAllStep(View(), ids[k..], now);
    }

    /** One round of sr_arpcache_timeout. */
    method Timeout(now: int)
      requires Distinct(requests)
      modifies this`requests, this`dropped, this`broadcasts, entries
      ensures View() == Tick(old(View()), now)
    {
      for i := 0 to entries.Length
        invariant requests == old(requests) && dropped == old(dropped) && broadcasts == old(broadcasts)
        invariant forall j | 0 <= j < i :: entries[j] == Expire(old(entries[..]), now)[j]
        invariant forall j | i <= j < entries.Length :: entries[j] == old(entries[j])
      {
        if entries[i].valid && now - entries[i].added > SR_ARPCACHE_TO {
          entries[i] := entries[i].(valid := false);
        }
      }
      assert entries[..] == Expire(old(entries[..]), now);
      SweepReqs(now);
    }
  }
}
