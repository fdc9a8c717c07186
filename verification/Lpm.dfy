/** Longest prefix match (lpm in lab1/router/sr_router.c). The code compares addresses and
    masks as raw s_addr integers, which are byte-swapped on a little-endian host; the
    reference works on network values, whose most significant bit comes first. */
module Lpm {
  import opened Machine

  type Addr = bv32

  function SwapAddr(x: Addr): Addr {
    (x << 24) | ((x << 8) & 0xFF0000) | ((x >> 8) & 0xFF00) | (x >> 24)
  }

  /** The s_addr integer of a network value, and back. */
  function Raw(o: ByteOrder, x: Addr): Addr {
    if o.LittleEndian? then SwapAddr(x) else x
  }

  /** struct sr_rt; the addresses are raw. */
  datatype Route = Route(dest: Addr, gw: Addr, mask: Addr, iface: string)

  // ---------------------------------------------------------------- reference

  /** A network mask: ones followed by zeros. */
  predicate Contiguous(m: Addr) {
    m | (m - 1) == 0xFFFFFFFF
  }

  /** The number of its ones. */
  function PrefixLength(m: Addr): nat
    requires Contiguous(m)
    decreases m
  {
    ShiftMask(m);
    if m == 0 then 0 else 1 + PrefixLength(m << 1)
  }

  predicate TopBit(x: Addr) {
    x & 0x80000000 != 0
  }

  /** The first n bits of two network values agree. */
  predicate Agree(n: nat, x: Addr, y: Addr) {
    n == 0 || (TopBit(x) == TopBit(y) && Agree(n - 1, x << 1, y << 1))
  }

  ghost predicate WellFormed(o: ByteOrder, routes: seq<Route>) {
    forall i | 0 <= i < |routes| :: Contiguous(Raw(o, routes[i].mask))
  }

  ghost function Length(o: ByteOrder, r: Route): nat
    requires Contiguous(Raw(o, r.mask))
  {
    PrefixLength(Raw(o, r.mask))
  }

  /** The destination lies within the route's prefix. */
  ghost predicate Covers(o: ByteOrder, r: Route, dst: Addr)
    requires Contiguous(Raw(o, r.mask))
  {
    Agree(Length(o, r), Raw(o, r.dest), Raw(o, dst))
  }

  /** The first of the covering routes with the longest prefix. */
  ghost predicate Longest(o: ByteOrder, routes: seq<Route>, dst: Addr, best: nat)
    requires WellFormed(o, routes)
  {
    && best < |routes| && Covers(o, routes[best], dst)
    && forall i | 0 <= i < |routes| && Covers(o, routes[i], dst) ::
         || Length(o, routes[i]) < Length(o, routes[best])
         || (Length(o, routes[i]) == Length(o, routes[best]) && best <= i)
  }

  // ---------------------------------------------------------------- bit facts

  lemma ShiftMask(m: Addr)
    requires Contiguous(m)
    ensures Contiguous(m << 1) && (m != 0 ==> m << 1 < m && TopBit(m))
  {
  }

  /** The comparison lpm makes between two masks. */
  predicate Longer(m: Addr, n: Addr) {
    m > n
  }

  lemma ShiftOrder(m: Addr, n: Addr)
    requires TopBit(m) && TopBit(n)
    ensures Longer(m, n) <==> Longer(m << 1, n << 1)
  {
  }

  lemma {:induction false} MaskOrder(m: Addr, n: Addr)
    requires Contiguous(m) && Contiguous(n)
    ensures Longer(m, n) <==> PrefixLength(m) > PrefixLength(n)
    decreases m
  {
    ShiftMask(m);
    ShiftMask(n);
    if m != 0 && n != 0 {
      ShiftOrder(m, n);
      MaskOrder(m << 1, n << 1);
    }
  }

  /** Reversing the bytes of two contiguous masks does not change which is longer. */
  lemma SwapKeepsOrder(m: Addr, n: Addr)
    requires Contiguous(m) && Contiguous(n)
    ensures Longer(SwapAddr(m), SwapAddr(n)) <==> Longer(m, n)
  {
  }

  lemma SwapInvolution(x: Addr)
    ensures SwapAddr(SwapAddr(x)) == x
  {
  }

  lemma SwapAnd(x: Addr, y: Addr)
    ensures SwapAddr(x & y) == SwapAddr(x) & SwapAddr(y)
  {
  }

  lemma SwapInjective(x: Addr, y: Addr)
    ensures SwapAddr(x) == SwapAddr(y) <==> x == y
  {
    SwapInvolution(x);
    SwapInvolution(y);
  }

  function Shl(x: Addr): Addr {
    x << 1
  }

  function And(x: Addr, y: Addr): Addr {
    x & y
  }

  lemma TopIsAllOrNothing(x: Addr)
    ensures x & 0x80000000 == if TopBit(x) then 0x80000000 else 0
  {
  }

  lemma SameShift(x: Addr, y: Addr)
    requires Shl(x) == Shl(y) && x & 0x80000000 == y & 0x80000000
    ensures x == y
  {
    hide TopBit;
  }

  lemma EqualByTop(x: Addr, y: Addr)
    ensures x == y <==> TopBit(x) == TopBit(y) && Shl(x) == Shl(y)
  {
    TopIsAllOrNothing(x);
    TopIsAllOrNothing(y);
    hide TopBit, Shl;
    if TopBit(x) == TopBit(y) && Shl(x) == Shl(y) { SameShift(x, y); }
  }

  lemma AndTop(x: Addr, m: Addr)
    requires TopBit(m)
    ensures TopBit(And(x, m)) == TopBit(x) && TopBit(And(m, x)) == TopBit(x)
  {
  }

  lemma AndShift(x: Addr, y: Addr)
    ensures Shl(And(x, y)) == And(Shl(x), Shl(y))
  {
  }

  lemma AndZero(d: Addr, x: Addr)
    ensures And(d, 0) == And(0, x)
  {
  }

  lemma PrefixStep(m: Addr)
    requires Contiguous(m)
    ensures Contiguous(Shl(m))
    ensures PrefixLength(m) == if m == 0 then 0 else 1 + PrefixLength(Shl(m))
    ensures m != 0 ==> Shl(m) < m && TopBit(m)
  {
    ShiftMask(m);
  }

  lemma AgreeStep(n: nat, x: Addr, y: Addr)
    ensures Agree(n, x, y) <==> n == 0 || (TopBit(x) == TopBit(y) && Agree(n - 1, Shl(x), Shl(y)))
  {
  }

  /** Comparing under a mask is comparing that many leading bits. */
  lemma {:induction false} AndIsAgree(d: Addr, x: Addr, m: Addr)
    requires Contiguous(m)
    ensures And(d, m) == And(m, x) <==> Agree(PrefixLength(m), d, x)
    decreases m
  {
    hide And, Shl, TopBit, Contiguous, PrefixLength, Agree;
    PrefixStep(m);
    AgreeStep(PrefixLength(m), d, x);
    if m != 0 {
      EqualByTop(And(d, m), And(m, x));
      AndTop(d, m);
      AndTop(x, m);
      AndShift(d, m);
      AndShift(m, x);
      AndIsAgree(Shl(d), Shl(x), Shl(m));
    } else {
      AndZero(d, x);
    }
  }

  /** The comparison lpm makes on raw integers. */
  predicate RawMatch(r: Route, dst: Addr) {
    And(r.dest, r.mask) == And(r.mask, dst)
  }

  lemma RawAnd(o: ByteOrder, x: Addr, y: Addr)
    ensures Raw(o, And(x, y)) == And(Raw(o, x), Raw(o, y))
  {
    SwapAnd(x, y);
    hide SwapAddr;
  }

  lemma RawInjective(o: ByteOrder, x: Addr, y: Addr)
    ensures Raw(o, x) == Raw(o, y) <==> x == y
  {
    SwapInjective(x, y);
    hide SwapAddr;
  }

  lemma MatchIsCover(o: ByteOrder, r: Route, dst: Addr)
    requires Contiguous(Raw(o, r.mask))
    ensures RawMatch(r, dst) <==> Covers(o, r, dst)
  {
    hide And, Raw, Contiguous, PrefixLength, Agree;
    AndIsAgree(Raw(o, r.dest), Raw(o, dst), Raw(o, r.mask));
    RawAnd(o, r.dest, r.mask);
    RawAnd(o, r.mask, dst);
    RawInjective(o, And(r.dest, r.mask), And(r.mask, dst));
  }

  lemma RawKeepsOrder(o: ByteOrder, m: Addr, n: Addr)
    requires Contiguous(Raw(o, m)) && Contiguous(Raw(o, n))
    ensures Longer(m, n) <==> Longer(Raw(o, m), Raw(o, n))
  {
    hide SwapAddr, Contiguous;
    if o.LittleEndian? {
      SwapKeepsOrder(SwapAddr(m), SwapAddr(n));
      SwapInvolution(m);
      SwapInvolution(n);
    }
  }

  lemma RawOrder(o: ByteOrder, r: Route, s: Route)
    requires Contiguous(Raw(o, r.mask)) && Contiguous(Raw(o, s.mask))
    ensures Longer(r.mask, s.mask) <==> Length(o, r) > Length(o, s)
  {
    hide Raw, SwapAddr, Contiguous, PrefixLength, Longer;
    MaskOrder(Raw(o, r.mask), Raw(o, s.mask));
    RawKeepsOrder(o, r.mask, s.mask);
  }

  // ---------------------------------------------------------------- the code

  /** Keeping the running best when one more entry is looked at. */
  function Better(routes: seq<Route>, best: Option<nat>, i: nat, dst: Addr): (r: Option<nat>)
    requires i < |routes| && (best.Some? ==> best.value < i)
    ensures r.Some? ==> r.value <= i
  {
    var better := RawMatch(routes[i], dst) && (best.None? || Longer(routes[i].mask, routes[best.value].mask));
    if better then Some(i) else best
  }

  ghost predicate Best(o: ByteOrder, routes: seq<Route>, dst: Addr, best: Option<nat>)
    requires WellFormed(o, routes)
  {
    match best
    case None => forall i | 0 <= i < |routes| :: !Covers(o, routes[i], dst)
    case Some(k) => Longest(o, routes, dst, k)
  }

  lemma BetterIsBest(o: ByteOrder, routes: seq<Route>, best: Option<nat>, i: nat, dst: Addr)
    requires WellFormed(o, routes) && i < |routes| && Best(o, routes[..i], dst, best)
    ensures Best(o, routes[..i + 1], dst, Better(routes, best, i, dst))
  {
    hide Contiguous, Raw, Covers, Length, RawMatch, Longer;
    var was, now := routes[..i], routes[..i + 1];
    assert now[i] == routes[i] && forall k | 0 <= k < i :: now[k] == was[k] == routes[k];
    MatchIsCover(o, routes[i], dst);
    if best.Some? { RawOrder(o, routes[i], routes[best.value]); }
  }

  /** What the walk returns. */
  function Pick(routes: seq<Route>, dst: Addr, n: nat): (r: Option<nat>)
    requires n <= |routes|
    ensures r.Some? ==> r.value < n
  {
    if n == 0 then None else Better(routes, Pick(routes, dst, n - 1), n - 1, dst)
  }

  function Lookup(routes: seq<Route>, dst: Addr): (r: Option<nat>)
    ensures r.Some? ==> r.value < |routes|
  {
    Pick(routes, dst, |routes|)
  }

  lemma {:induction false} PickIsBest(o: ByteOrder, routes: seq<Route>, dst: Addr, n: nat)
    requires WellFormed(o, routes) && n <= |routes|
    ensures Best(o, routes[..n], dst, Pick(routes, dst, n))
  {
    hide Contiguous, Raw, Covers, Length, RawMatch, Longer, Better;
    if n > 0 {
      PickIsBest(o, routes, dst, n - 1);
      BetterIsBest(o, routes, Pick(routes, dst, n - 1), n - 1, dst);
    }
  }

  /** lpm finds nothing exactly when no route covers the destination, and otherwise the
      first of the longest covering routes. */
  lemma LpmIsLongest(o: ByteOrder, routes: seq<Route>, dst: Addr)
    requires WellFormed(o, routes)
    ensures Lookup(routes, dst).None? <==> forall i | 0 <= i < |routes| :: !Covers(o, routes[i], dst)
    ensures Lookup(routes, dst).Some? ==> Longest(o, routes, dst, Lookup(routes, dst).value)
  {
    hide Contiguous, Raw, Covers, Length, Pick;
    PickIsBest(o, routes, dst, |routes|);
    assert routes[..|routes|] == routes;
  }

  /** Two routing tables that say the same about network values. */
  ghost predicate SameNetwork(o1: ByteOrder, routes1: seq<Route>, o2: ByteOrder, routes2: seq<Route>) {
    && |routes1| == |routes2|
    && forall i | 0 <= i < |routes1| ::
         Raw(o1, routes1[i].dest) == Raw(o2, routes2[i].dest) && Raw(o1, routes1[i].mask) == Raw(o2, routes2[i].mask)
  }

  /** Hosts of different byte order with the same tables choose the same route, although
      they compare different integers. */
  lemma ChoiceIsHostIndependent(o1: ByteOrder, routes1: seq<Route>, dst1: Addr,
                                o2: ByteOrder, routes2: seq<Route>, dst2: Addr)
    requires WellFormed(o1, routes1) && SameNetwork(o1, routes1, o2, routes2) && Raw(o1, dst1) == Raw(o2, dst2)
    ensures Lookup(routes1, dst1) == Lookup(routes2, dst2)
  {
    hide Contiguous, Raw, PrefixLength, Agree, Lookup;
    LpmIsLongest(o1, routes1, dst1);
    LpmIsLongest(o2, routes2, dst2);
    forall i | 0 <= i < |routes1|
      ensures Covers(o1, routes1[i], dst1) <==> Covers(o2, routes2[i], dst2)
      ensures Length(o1, routes1[i]) == Length(o2, routes2[i])
    {
    }
    hide Covers, Length;
    var r1, r2 := Lookup(routes1, dst1), Lookup(routes2, dst2);
    assert r1.None? <==> r2.None?;
  }

  /** lpm: the walk over the routing table with a running best. */
  method LongestPrefixMatch(routes: seq<Route>, dst: Addr) returns (result: Option<nat>)
    ensures result == Lookup(routes, dst)
  {
    result := None;
    var curr := 0;
    while curr < |routes|
      invariant curr <= |routes| && result == Pick(routes, dst, curr)
    {
      if RawMatch(routes[curr], dst) {
        if result.None? || Longer(routes[curr].mask, routes[result.value].mask) { result := Some(curr); }
      }
      curr := curr + 1;
    }
  }
}
