/** The ARP cache answers exactly from the bindings that are still live. */
module ArpBindings {
  import opened Machine
  import opened Arp
  import ArpRetry

  /** Event i inserted its binding: it was a reply and there was a free slot. */
  ghost predicate Inserted(events: seq<Event>, i: nat) {
    i < |events| && events[i].ArpReply? && FreeSlot(Run(Init(), events[..i]).entries) < SR_ARPCACHE_SZ
  }

  /** Event i inserted its binding and no sweep since came more than 15 seconds later. */
  ghost predicate Live(events: seq<Event>, i: nat) {
    && Inserted(events, i)
    && forall j | i < j < |events| && events[j].Sweep? :: events[j].at - events[i].at <= SR_ARPCACHE_TO
  }

  /** The slot that event i wrote, and what it wrote. */
  ghost function SlotOf(events: seq<Event>, i: nat): nat
    requires i < |events|
  {
    FreeSlot(Run(Init(), events[..i]).entries)
  }

  ghost function Written(e: Event): Entry
    requires e.ArpReply?
  {
    Entry(e.mac, e.ip, e.at, true)
  }

  ghost predicate Holds(entries: seq<Entry>, events: seq<Event>, i: nat) {
    && i < |events| && events[i].ArpReply?
    && SlotOf(events, i) < |entries| && entries[SlotOf(events, i)] == Written(events[i])
  }

  /** Slot n is backed by a live event. */
  ghost predicate Backed(entries: seq<Entry>, events: seq<Event>, n: nat)
    requires n < |entries|
  {
    exists i: nat :: Live(events, i) && SlotOf(events, i) == n && Written(events[i]) == entries[n]
  }

  /** The valid slots hold the live bindings, each where it was put. */
  ghost predicate CacheInv(entries: seq<Entry>, events: seq<Event>) {
    && |entries| == SR_ARPCACHE_SZ
    && (forall i: nat | Live(events, i) :: Holds(entries, events, i))
    && (forall n | 0 <= n < |entries| && entries[n].valid :: Backed(entries, events, n))
  }

  /** What a step does to the cache. */
  function NextEntries(entries: seq<Entry>, e: Event): seq<Entry> {
    match e
    case Forward(_, _, _, _) => entries
    case ArpReply(ip, mac, src, at) => Store(entries, mac, ip, at)
    case Sweep(at) => Expire(entries, at)
  }

  lemma CacheStep(s: State, e: Event)
    ensures Step(s, e).entries == NextEntries(s.entries, e)
  {
    if e.Sweep? { ArpRetry.HandleAllReqs(s.(entries := Expire(s.entries, e.at)), Ids(s.requests), e.at); }
  }

  lemma EarlierSame(events: seq<Event>, e: Event, i: nat)
    requires i < |events|
    ensures Inserted(events + [e], i) == Inserted(events, i)
    ensures SlotOf(events + [e], i) == SlotOf(events, i) && (events + [e])[i] == events[i]
    ensures Live(events + [e], i) <==>
              Live(events, i) && (e.Sweep? ==> e.at - events[i].at <= SR_ARPCACHE_TO)
  {
    var all := events + [e];
    assert all[..i] == events[..i] && all[|events|] == e;
    hide Run;
    if Live(events, i) && (e.Sweep? ==> e.at - events[i].at <= SR_ARPCACHE_TO) {
      forall j | i < j < |all| && all[j].Sweep? ensures all[j].at - all[i].at <= SR_ARPCACHE_TO {
        if j < |events| { assert all[j] == events[j]; }
      }
    }
    if Live(all, i) {
      forall j | i < j < |events| && events[j].Sweep? ensures events[j].at - events[i].at <= SR_ARPCACHE_TO {
        assert all[j] == events[j];
      }
    }
  }

  lemma LastInserted(events: seq<Event>, e: Event)
    ensures Live(events + [e], |events|) <==>
              e.ArpReply? && FreeSlot(Run(Init(), events).entries) < SR_ARPCACHE_SZ
    ensures SlotOf(events + [e], |events|) == FreeSlot(Run(Init(), events).entries)
    ensures (events + [e])[|events|] == e
  {
    assert (events + [e])[..|events|] == events;
  }

  /** A live binding still stands in its slot after one more event. */
  lemma HeldAfter(entries: seq<Entry>, entries1: seq<Entry>, events: seq<Event>, e: Event, i: nat)
    requires CacheInv(entries, events) && entries == Run(Init(), events).entries
    requires entries1 == (match e
                          case Forward(_, _, _, _) => entries
                          case ArpReply(ip, mac, src, at) => Store(entries, mac, ip, at)
                          case Sweep(at) => Expire(entries, at))
    requires Live(events + [e], i)
    ensures Holds(entries1, events + [e], i)
  {
    hide Run;
    if i < |events| {
      EarlierSame(events, e, i);
      assert Holds(entries, events, i);
    } else {
      LastInserted(events, e);
    }
  }

  /** A valid slot is backed after one more event. */
  lemma BackedAfter(entries: seq<Entry>, entries1: seq<Entry>, events: seq<Event>, e: Event, n: nat)
    requires CacheInv(entries, events) && entries == Run(Init(), events).entries
    requires entries1 == (match e
                          case Forward(_, _, _, _) => entries
                          case ArpReply(ip, mac, src, at) => Store(entries, mac, ip, at)
                          case Sweep(at) => Expire(entries, at))
    requires n < |entries1| && entries1[n].valid
    ensures Backed(entries1, events + [e], n)
  {
    hide Run;
    if e.ArpReply? && n == FreeSlot(entries) {
      LastInserted(events, e);
      assert Live(events + [e], |events|);
    } else {
      assert entries1[n] == entries[n];
      assert Backed(entries, events, n);
      var i: nat :| Live(events, i) && SlotOf(events, i) == n && Written(events[i]) == entries[n];
      EarlierSame(events, e, i);
      assert Live(events + [e], i);
    }
  }

  lemma {:induction false} RunCache(events: seq<Event>)
    ensures CacheInv(Run(Init(), events).entries, events)
    decreases |events|
  {
    if events != [] {
      var n := |events| - 1;
      var before, e := events[..n], events[n];
      assert before + [e] == events;
      RunCache(before);
      CacheStep(Run(Init(), before), e);
      var entries, entries1 := Run(Init(), before).entries, Run(Init(), events).entries;
      hide Run, Step, Live, Holds, Backed;
      forall i: nat | Live(events, i) ensures Holds(entries1, events, i) {
        HeldAfter(entries, entries1, before, e, i);
      }
      forall k | 0 <= k < |entries1| && entries1[k].valid ensures Backed(entries1, events, k) {
        BackedAfter(entries, entries1, before, e, k);
      }
    }
  }

  lemma {:induction false} LookupFinds(entries: seq<Entry>, ip: uint32)
    ensures Lookup(entries, ip).Some? ==>
              exists n | 0 <= n < |entries| ::
                entries[n] == Lookup(entries, ip).value && entries[n].valid && entries[n].ip == ip
    ensures Lookup(entries, ip).None? ==> forall n | 0 <= n < |entries| :: !(entries[n].valid && entries[n].ip == ip)
    decreases |entries|
  {
    if entries != [] {
      var n := |entries| - 1;
      LookupFinds(entries[..n], ip);
      if !(entries[n].valid && entries[n].ip == ip) && Lookup(entries, ip).Some? {
        var k :| && 0 <= k < n && entries[..n][k] == Lookup(entries, ip).value
                 && entries[..n][k].valid && entries[..n][k].ip == ip;
        assert entries[k] == Lookup(entries, ip).value;
      }
    }
  }

  /** In every run: a lookup hits exactly if a live binding for the address was inserted,
      and the answer is the MAC of such a binding. */
  lemma LookupIsLive(events: seq<Event>, ip: uint32)
    ensures var found := Lookup(Run(Init(), events).entries, ip);
            && (found.Some? <==> exists i: nat :: Live(events, i) && events[i].ip == ip)
            && (found.Some? ==>
                  exists i: nat :: Live(events, i) && events[i].ip == ip && events[i].mac == found.value.mac)
  {
    var entries := Run(Init(), events).entries;
    RunCache(events);
    LookupFinds(entries, ip);
    hide Run, Lookup, Init;
    if Lookup(entries, ip).Some? {
      var n :| 0 <= n < |entries| && entries[n] == Lookup(entries, ip).value && entries[n].valid && entries[n].ip == ip;
      assert Backed(entries, events, n);
      var i: nat :| Live(events, i) && SlotOf(events, i) == n && Written(events[i]) == entries[n];
      assert events[i].ip == ip && events[i].mac == entries[n].mac;
    } else {
      forall i: nat | Live(events, i) ensures events[i].ip != ip {
        assert Holds(entries, events, i);
        assert entries[SlotOf(events, i)].valid;
      }
    }
  }

  /** The slot that answers: the last valid one for the address, |entries| if there is none. */
  function AnswerSlot(entries: seq<Entry>, ip: uint32): (n: nat)
    ensures n <= |entries|
    ensures n < |entries| ==> entries[n].valid && entries[n].ip == ip && Lookup(entries, ip) == Some(entries[n])
    ensures n == |entries| <==> Lookup(entries, ip).None?
    ensures forall k | 0 <= k < |entries| && entries[k].valid && entries[k].ip == ip :: n < |entries| && k <= n
    decreases |entries|
  {
    if entries == [] then 0
    else
      var last := |entries| - 1;
      if entries[last].valid && entries[last].ip == ip then last
      else if AnswerSlot(entries[..last], ip) == last then |entries|
      else AnswerSlot(entries[..last], ip)
  }

  /** Which of several live bindings for an address answers: event i, say the newest, if and
      only if none of the others lies in a higher slot. */
  lemma AnswersIffHighest(events: seq<Event>, ip: uint32, i: nat)
    requires Live(events, i) && events[i].ip == ip
    ensures var entries := Run(Init(), events).entries;
            && (AnswerSlot(entries, ip) == SlotOf(events, i)
                <==> forall j: nat | Live(events, j) && events[j].ip == ip :: SlotOf(events, j) <= SlotOf(events, i))
            && (AnswerSlot(entries, ip) == SlotOf(events, i) ==> Lookup(entries, ip) == Some(Written(events[i])))
  {
    var entries := Run(Init(), events).entries;
    RunCache(events);
    hide Run, Init, Live, SlotOf, Lookup, Store, AnswerSlot;
    assert Holds(entries, events, i);
    var n := AnswerSlot(entries, ip);
    forall j: nat | Live(events, j) && events[j].ip == ip ensures SlotOf(events, j) <= n {
      assert Holds(entries, events, j);
    }
    assert Backed(entries, events, n);
  }

  const ETH0 := Port("eth0", NO_MAC)

  /** Two addresses; the slot of the first becomes free again and takes a newer binding for
      the second, whose older one in the next slot is still live. */
  function HidingRun(earlier: Mac, later: Mac): seq<Event> {
    [ArpReply(1, earlier, ETH0, 1), ArpReply(2, earlier, ETH0, 10), Sweep(17), ArpReply(2, later, ETH0, 18)]
  }

  lemma CacheAfter(before: seq<Event>, e: Event)
    ensures Run(Init(), before + [e]).entries == NextEntries(Run(Init(), before).entries, e)
  {
    hide Step;
    assert (before + [e])[..|before|] == before;
    CacheStep(Run(Init(), before), e);
  }

  lemma EmptyAtStart()
    ensures var entries := Run(Init(), []).entries;
            |entries| == SR_ARPCACHE_SZ && forall k | 0 <= k < SR_ARPCACHE_SZ :: !entries[k].valid
  {
  }

  lemma HidingSlots(earlier: Mac, later: Mac)
    ensures var e := HidingRun(earlier, later);
            SlotOf(e, 0) == 0 && SlotOf(e, 1) == 1 && SlotOf(e, 3) == 0
  {
    hide Run, Init;
    var e := HidingRun(earlier, later);
    assert e[..0] == [] && e[..1] == e[..0] + [e[0]] && e[..2] == e[..1] + [e[1]] && e[..3] == e[..2] + [e[2]];
    EmptyAtStart();
    CacheAfter(e[..0], e[0]);
    CacheAfter(e[..1], e[1]);
    CacheAfter(e[..2], e[2]);
    var entries1, entries3 := Run(Init(), e[..1]).entries, Run(Init(), e[..3]).entries;
    assert entries1[0].valid && !entries1[1].valid && !entries3[0].valid;
  }

  lemma HidingLive(earlier: Mac, later: Mac)
    ensures var e := HidingRun(earlier, later);
            Timed(e) && Live(e, 1) && Live(e, 3) && forall j: nat | Live(e, j) :: j == 1 || j == 3
  {
    hide Run, Init;
    HidingSlots(earlier, later);
    var e := HidingRun(earlier, later);
    assert e[2].Sweep? && e[2].at - e[0].at > SR_ARPCACHE_TO;
  }

  /** An older binding can hide a newer one that is just as live. */
  lemma OlderBindingAnswers(earlier: Mac, later: Mac)
    ensures var events := HidingRun(earlier, later);
            && Timed(events) && Live(events, 1) && Live(events, 3)
            && Lookup(Run(Init(), events).entries, 2) == Some(Entry(earlier, 2, 10, true))
  {
    hide Run, Init, Lookup, FreeSlot, Live, Timed, SlotOf, AnswerSlot;
    HidingSlots(earlier, later);
    HidingLive(earlier, later);
    AnswersIffHighest(HidingRun(earlier, later), 2, 1);
  }

  /** Right after a sweep no valid entry is older than 15 seconds. */
  lemma SweptEntriesAreYoung(events: seq<Event>, at: int)
    ensures var entries := Run(Init(), events + [Sweep(at)]).entries;
            forall n | 0 <= n < |entries| && entries[n].valid :: at - entries[n].added <= SR_ARPCACHE_TO
  {
    assert (events + [Sweep(at)])[..|events|] == events;
    CacheStep(Run(Init(), events), Sweep(at));
  }
}
