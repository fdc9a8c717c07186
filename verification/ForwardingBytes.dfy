/** What the router does with every IP frame (lab1/router/sr_router.c), said in terms of the
    bytes of the frame that arrives and of the one that leaves. */
module ForwardingBytes {
  import opened Machine
  import opened Checksum
  import opened Lpm
  import opened Forwarding

  // ---------------------------------------------------------------- the two tests

  /** Room for both headers, an IP header whose words sum up to all ones, and a checksum
      that is not zero. */
  predicate GoodHeader(f: seq<byte>) {
    |f| >= 34 && OnesSum(f[14..34]) == 0xffff && (f[24] != 0 || f[25] != 0)
  }

  /** The same for the ICMP message behind it. */
  predicate GoodIcmp(f: seq<byte>) {
    |f| >= 38 && OnesSum(f[34..]) == 0xffff && (f[36] != 0 || f[37] != 0)
  }

  lemma WordIsZero(hi: byte, lo: byte)
    ensures Word(hi, lo) != 0 <==> hi != 0 || lo != 0
  {
  }

  lemma TestsAreSums(o: ByteOrder, f: seq<byte>)
    ensures HeaderOk(o, f) <==> GoodHeader(f)
    ensures IcmpOk(o, f) <==> GoodIcmp(f)
  {
    hide Accepts, OnesSum, Word;
    if |f| >= 34 {
      AcceptsIffAllOnes(o, IpHeader(f), IP_SUM);
      WordIsZero(f[24], f[25]);
    }
    if |f| >= 38 {
      AcceptsIffAllOnes(o, Payload(f), ICMP_SUM);
      WordIsZero(f[36], f[37]);
    }
  }

  // ---------------------------------------------------------------- routes

  /** A route covers an address if the comparison of lpm succeeds. */
  predicate Routed(o: ByteOrder, t: Tables, ip: Ip4) {
    exists k | 0 <= k < |t.routes| :: RawMatch(t.routes[k], LoadAddr(o, ip))
  }

  /** What the walk has found after n routes. */
  lemma {:induction false} PickFinds(routes: seq<Route>, dst: Addr, n: nat)
    requires n <= |routes|
    ensures Pick(routes, dst, n).Some? <==> exists k | 0 <= k < n :: RawMatch(routes[k], dst)
  {
    hide RawMatch, Longer;
    if n > 0 { PickFinds(routes, dst, n - 1); }
  }

  lemma LookupFinds(o: ByteOrder, t: Tables, ip: Ip4)
    ensures Lookup(t.routes, LoadAddr(o, ip)).Some? <==> Routed(o, t, ip)
  {
    hide RawMatch, LoadAddr;
    PickFinds(t.routes, LoadAddr(o, ip), |t.routes|);
  }

  /** Four bytes as 32-bit values. */
  function Wide(b: byte): Addr {
    b as Addr
  }

  function Join(b0: Addr, b1: Addr, b2: Addr, b3: Addr): Addr {
    (b0 << 24) | (b1 << 16) | (b2 << 8) | b3
  }

  lemma JoinApart(x0: Addr, x1: Addr, x2: Addr, x3: Addr, y0: Addr, y1: Addr, y2: Addr, y3: Addr)
    requires x0 < 256 && x1 < 256 && x2 < 256 && x3 < 256 && y0 < 256 && y1 < 256 && y2 < 256 && y3 < 256
    ensures Join(x0, x1, x2, x3) == Join(y0, y1, y2, y3) <==> x0 == y0 && x1 == y1 && x2 == y2 && x3 == y3
  {
  }

  lemma JoinAnd(x0: Addr, x1: Addr, x2: Addr, x3: Addr, m0: Addr, m1: Addr, m2: Addr, m3: Addr)
    requires x0 < 256 && x1 < 256 && x2 < 256 && x3 < 256 && m0 < 256 && m1 < 256 && m2 < 256 && m3 < 256
    ensures And(Join(x0, x1, x2, x3), Join(m0, m1, m2, m3)) == Join(And(x0, m0), And(x1, m1), And(x2, m2), And(x3, m3))
    ensures And(x0, m0) < 256 && And(x1, m1) < 256 && And(x2, m2) < 256 && And(x3, m3) < 256
  {
  }

  lemma AndSwaps(x: Addr, y: Addr)
    ensures And(x, y) == And(y, x)
  {
  }

  lemma NetworkJoin(b: Ip4)
    ensures NetworkValue(b) == Join(Wide(b[0]), Wide(b[1]), Wide(b[2]), Wide(b[3]))
    ensures Wide(b[0]) < 256 && Wide(b[1]) < 256 && Wide(b[2]) < 256 && Wide(b[3]) < 256
  {
  }

  /** On hosts of either byte order the comparison says: under the mask, each of the four
      bytes is the same. */
  lemma MatchIsBytewise(o: ByteOrder, r: Route, net: Ip4, mask: Ip4, ip: Ip4)
    requires r.dest == LoadAddr(o, net) && r.mask == LoadAddr(o, mask)
    ensures RawMatch(r, LoadAddr(o, ip))
       <==> forall i | 0 <= i < 4 :: And(Wide(net[i]), Wide(mask[i])) == And(Wide(ip[i]), Wide(mask[i]))
  {
    hide And, Raw, NetworkValue, Join, Wide;
    var n, m, a := NetworkValue(net), NetworkValue(mask), NetworkValue(ip);
    RawTwice(o, n);
    RawTwice(o, m);
    RawTwice(o, a);
    RawAnd(o, r.dest, r.mask);
    RawAnd(o, r.mask, LoadAddr(o, ip));
    RawInjective(o, And(r.dest, r.mask), And(r.mask, LoadAddr(o, ip)));
    AndSwaps(m, a);
    NetworkJoin(net);
    NetworkJoin(mask);
    NetworkJoin(ip);
    JoinAnd(Wide(net[0]), Wide(net[1]), Wide(net[2]), Wide(net[3]),
            Wide(mask[0]), Wide(mask[1]), Wide(mask[2]), Wide(mask[3]));
    JoinAnd(Wide(ip[0]), Wide(ip[1]), Wide(ip[2]), Wide(ip[3]),
            Wide(mask[0]), Wide(mask[1]), Wide(mask[2]), Wide(mask[3]));
    JoinApart(And(Wide(net[0]), Wide(mask[0])), And(Wide(net[1]), Wide(mask[1])), And(Wide(net[2]), Wide(mask[2])),
              And(Wide(net[3]), Wide(mask[3])),
              And(Wide(ip[0]), Wide(mask[0])), And(Wide(ip[1]), Wide(mask[1])), And(Wide(ip[2]), Wide(mask[2])),
              And(Wide(ip[3]), Wide(mask[3])));
  }

  lemma RawTwice(o: ByteOrder, x: Addr)
    ensures Raw(o, Raw(o, x)) == x
  {
    SwapInvolution(x);
    hide SwapAddr;
  }

  // ---------------------------------------------------------------- answers

  /** The answer r to the frame f, sent by an interface with this MAC, from this address:
      back to the Ethernet and IP sender, of the same length, with a fresh TTL and good
      checksums; the other header fields are those of the frame. */
  ghost predicate Answers(f: seq<byte>, r: seq<byte>, mac: Mac, src: Ip4) {
    && |r| == |f| >= 38
    && r[0..6] == f[6..12] && r[6..12] == mac && r[12] == 8 && r[13] == 0
    && r[14..16] == f[14..16] && Word(r[16], r[17]) == |f| - 14 && r[18..22] == f[18..22]
    && r[22] == 255 && r[23] == 1 && r[26..30] == src && r[30..34] == f[26..30]
    && GoodHeader(r) && GoodIcmp(r)
  }

  /** Type and code of an ICMP error, followed by nothing but zeros. */
  predicate ErrorMessage(r: seq<byte>, kind: byte, code: byte) {
    && |r| >= 38 && r[34] == kind && r[35] == code
    && forall i | 38 <= i < |r| :: r[i] == 0
  }

  lemma HeaderBytes(f: seq<byte>, h: seq<byte>)
    requires |f| >= 34 && f[14..34] == h
    ensures forall i | 0 <= i < 20 :: f[14 + i] == h[i]
    ensures f[14..16] == h[0..2] && f[18..22] == h[4..8]
  {
    assert forall i | 0 <= i < 20 :: f[14 + i] == f[14..34][i];
  }

  lemma KeptFields(h: seq<byte>, total: nat, src: Ip4)
    requires |h| == 20 && total < TWO_16
    ensures ReplyHeader(h, total, src)[0..2] == h[0..2] && ReplyHeader(h, total, src)[4..8] == h[4..8]
  {
    hide Rfc1071;
  }

  lemma EthernetKind(f: seq<byte>, mac: Mac, r: seq<byte>)
    requires |f| >= HEADERS && |r| >= HEADERS && r[..14] == ReplyEthernet(f, mac)
    ensures r[0..6] == f[6..12] && r[6..12] == mac && r[12] == 8 && r[13] == 0
  {
    var e := ReplyEthernet(f, mac);
    assert r[0..6] == e[0..6] && r[6..12] == e[6..12] && r[12] == e[12] && r[13] == e[13];
  }

  lemma FrameAnswers(o: ByteOrder, f: seq<byte>, mac: Mac, src: Ip4, body: seq<byte>)
    requires 38 <= |f| <= MAX_FRAME && |body| == |f| - 34 && Accepts(o, body, ICMP_SUM)
    ensures Answers(f, IcmpFrame(f, mac, src, body), mac, src) && IcmpFrame(f, mac, src, body)[34..] == body
  {
    IcmpFrameIsGood(o, f, mac, src, body);
    IcmpFrameParts(f, mac, src, body);
    var r := IcmpFrame(f, mac, src, body);
    TestsAreSums(o, r);
    hide Accepts, HeaderOk, IcmpOk, IcmpFrame, ReplyHeader, ReplyEthernet, GoodHeader, GoodIcmp;
    var h := ReplyHeader(f[14..34], |f| - 14, src);
    KeptFields(f[14..34], |f| - 14, src);
    HeaderBytes(r, h);
    HeaderBytes(f, f[14..34]);
    EthernetKind(f, mac, r);
  }

  lemma ErrorMessageOf(c: Code, n: nat, r: seq<byte>)
    requires n >= 4 && |r| == 34 + n && r[34..] == ErrorBody(c, n)
    ensures ErrorMessage(r, c.kind, c.code)
  {
    hide Rfc1071;
    var b := ErrorBody(c, n);
    assert forall i | 0 <= i < n :: r[34 + i] == r[34..][i];
    assert b[0] == c.kind && b[1] == c.code && forall i | 4 <= i < n :: b[i] == 0;
  }

  lemma ArrivalIs(ifs: seq<Iface>, name: string, k: nat)
    requires FirstNamed(ifs, name, k)
    ensures k < |ifs| && FindIface(ifs, name) == Some(ifs[k])
  {
    var n := FindIfaceIsFirst(ifs, name);
    assert n == k;
  }

  /** What an ICMP error looks like. */
  lemma ErrorAnswers(t: Tables, inName: string, f: seq<byte>, c: Code, src: Option<Ip4>, k: nat)
    requires 38 <= |f| <= MAX_FRAME && FirstNamed(t.ifaces, inName, k)
    ensures var v, i := IcmpError(t, inName, f, c, src), t.ifaces[k];
            && v.Reply? && ErrorMessage(v.frame, c.kind, c.code)
            && Answers(f, v.frame, i.mac, if src.Some? then src.value else i.ip)
  {
    hide Accepts, IcmpFrame, ErrorBody, Answers, ErrorMessage, FindIface, Named, FirstNamed, Filled;
    ArrivalIs(t.ifaces, inName, k);
    ErrorBodyIsAccepted(LittleEndian, c, |f| - 34);
    var i := t.ifaces[k];
    var from := if src.Some? then src.value else i.ip;
    FrameAnswers(LittleEndian, f, i.mac, from, ErrorBody(c, |f| - 34));
    ErrorMessageOf(c, |f| - 34, IcmpFrame(f, i.mac, from, ErrorBody(c, |f| - 34)));
  }

  // ---------------------------------------------------------------- decisions

  /** An intact frame to an address that is not the router's. */
  ghost predicate Transit(t: Tables, f: seq<byte>) {
    GoodHeader(f) && !Owned(t.ifaces, f[30..34])
  }

  lemma DecideTransit(o: ByteOrder, t: Tables, inName: string, f: seq<byte>)
    requires |f| <= MAX_FRAME && Transit(t, f)
    ensures Decide(o, t, inName, f) == NextHop(o, t, inName, f)
  {
    TestsAreSums(o, f);
    hide HeaderOk, IcmpOk, GoodIcmp, NextHop, ForUs;
    var _ := LocalIsFirst(t.ifaces, f[30..34]);
  }

  /** Without a route for it, the sender is told "net unreachable", type 3 and code 0, by the
      interface the frame came in at. */
  lemma NetUnreachable(o: ByteOrder, t: Tables, inName: string, f: seq<byte>, k: nat)
    requires 38 <= |f| <= MAX_FRAME && Transit(t, f) && !Routed(o, t, f[30..34]) && FirstNamed(t.ifaces, inName, k)
    ensures var v := Decide(o, t, inName, f);
            v.Reply? && ErrorMessage(v.frame, 3, 0) && Answers(f, v.frame, t.ifaces[k].mac, t.ifaces[k].ip)
  {
    hide Transit, ErrorMessage, Answers, IcmpError, Lookup, LoadAddr, Forwarded, FirstNamed, FindIface;
    DecideTransit(o, t, inName, f);
    LookupFinds(o, t, f[30..34]);
    ErrorAnswers(t, inName, f, NET_UNREACHABLE, None, k);
  }

  /** At TTL 1 it is told "time exceeded", type 11 and code 0. */
  lemma TimeExceeded(o: ByteOrder, t: Tables, inName: string, f: seq<byte>, k: nat)
    requires 38 <= |f| <= MAX_FRAME && Transit(t, f) && Routed(o, t, f[30..34]) && f[22] == 1
    requires FirstNamed(t.ifaces, inName, k)
    ensures var v := Decide(o, t, inName, f);
            v.Reply? && ErrorMessage(v.frame, 11, 0) && Answers(f, v.frame, t.ifaces[k].mac, t.ifaces[k].ip)
  {
    hide Transit, ErrorMessage, Answers, IcmpError, Lookup, LoadAddr, Forwarded, FirstNamed, FindIface;
    DecideTransit(o, t, inName, f);
    LookupFinds(o, t, f[30..34]);
    ErrorAnswers(t, inName, f, TIME_EXCEEDED, None, k);
  }

  /** An intact frame to one of the router's own addresses. */
  ghost predicate Own(t: Tables, f: seq<byte>) {
    GoodHeader(f) && Owned(t.ifaces, f[30..34])
  }

  lemma DecideOwn(o: ByteOrder, t: Tables, inName: string, f: seq<byte>)
    requires |f| <= MAX_FRAME && Own(t, f)
    ensures Decide(o, t, inName, f) == ForUs(o, t, inName, f, f[30..34])
  {
    TestsAreSums(o, f);
    hide HeaderOk, IcmpOk, GoodIcmp, NextHop, ForUs;
    var _ := LocalIsFirst(t.ifaces, f[30..34]);
  }

  /** If it is not ICMP the sender is told "port unreachable", type 3 and code 3, from the
      address it had asked for. */
  lemma PortUnreachable(o: ByteOrder, t: Tables, inName: string, f: seq<byte>, k: nat)
    requires 38 <= |f| <= MAX_FRAME && Own(t, f) && f[23] != 1 && FirstNamed(t.ifaces, inName, k)
    ensures var v := Decide(o, t, inName, f);
            v.Reply? && ErrorMessage(v.frame, 3, 3) && Answers(f, v.frame, t.ifaces[k].mac, f[30..34])
  {
    hide Own, ErrorMessage, Answers, IcmpError, FirstNamed, FindIface;
    DecideOwn(o, t, inName, f);
    ErrorAnswers(t, inName, f, PORT_UNREACHABLE, Some(f[30..34]), k);
  }

  /** An intact ICMP message is answered with an echo reply, type 0 and code 0, that carries
      the data of the request back, from the address it was sent to. */
  lemma EchoReply(o: ByteOrder, t: Tables, inName: string, f: seq<byte>, k: nat)
    requires |f| <= MAX_FRAME && Own(t, f) && f[23] == 1 && GoodIcmp(f) && FirstNamed(t.ifaces, inName, k)
    ensures var v := Decide(o, t, inName, f);
            && v.Reply? && v.frame[34] == 0 && v.frame[35] == 0 && v.frame[38..] == f[38..]
            && Answers(f, v.frame, t.ifaces[k].mac, f[30..34])
  {
    DecideOwn(o, t, inName, f);
    TestsAreSums(o, f);
    ArrivalIs(t.ifaces, inName, k);
    EchoBodyIsAccepted(o, f[34..]);
    hide Own, Accepts, IcmpOk, HeaderOk, IcmpFrame, EchoBody, Answers, FindIface, OnesSum, GoodHeader;
    var body := EchoBody(f[34..]);
    FrameAnswers(o, f, t.ifaces[k].mac, f[30..34], body);
    var r := IcmpFrame(f, t.ifaces[k].mac, f[30..34], body);
    assert r[34] == r[34..][0] && r[35] == r[34..][1] && r[38..] == r[34..][4..] && f[34..][4..] == f[38..];
  }

  /** A frame is dropped exactly if its IP header is damaged or cut off, or it is ICMP for the
      router itself and its ICMP message is. */
  lemma DroppedIff(o: ByteOrder, t: Tables, inName: string, f: seq<byte>)
    requires |f| <= MAX_FRAME
    ensures Decide(o, t, inName, f).Dropped?
       <==> !GoodHeader(f) || (Owned(t.ifaces, f[30..34]) && f[23] == 1 && !GoodIcmp(f))
  {
    TestsAreSums(o, f);
    assert HeaderOk(o, f) ==> |f| >= 34;
    hide GoodHeader, GoodIcmp, HeaderOk, IcmpOk, Owned;
    if HeaderOk(o, f) {
      assert Dst(f) == f[30..34];
      NotDropped(o, t, inName, f);
    }
  }

  lemma ForwardIs(o: ByteOrder, t: Tables, inName: string, f: seq<byte>)
    requires |f| <= MAX_FRAME && Decide(o, t, inName, f).Forward?
    ensures HeaderOk(o, f) && |f| >= 34 && Decide(o, t, inName, f).frame == Forwarded(f)
  {
    hide Accepts, Forwarded, IcmpError, FindIface, Lookup, LoadAddr, Local, IcmpOk;
  }

  /** The frame r is f one hop later: the TTL byte lowered by one, 0 becoming 255, and a good
      header again; every other byte but the header checksum is the same. */
  ghost predicate OneHopOn(f: seq<byte>, r: seq<byte>) {
    && |r| == |f| && GoodHeader(f) && GoodHeader(r)
    && r[..22] == f[..22] && r[22] == (if f[22] == 0 then 255 else f[22] - 1)
    && r[23] == f[23] && r[26..] == f[26..]
  }

  lemma ForwardedIs(o: ByteOrder, f: seq<byte>)
    requires HeaderOk(o, f) && |f| >= 34
    ensures OneHopOn(f, Forwarded(f))
  {
    var r := Forwarded(f);
    TestsAreSums(o, f);
    TestsAreSums(o, r);
    ForwardedIsGood(o, f);
    hide HeaderOk, Forwarded, IcmpOk, GoodHeader, GoodIcmp;
    assert r[26..] == Src(r) + Dst(r) + Payload(r) && f[26..] == Src(f) + Dst(f) + Payload(f);
  }

  lemma ForwardedBytes(o: ByteOrder, t: Tables, inName: string, f: seq<byte>)
    requires |f| <= MAX_FRAME && Decide(o, t, inName, f).Forward?
    ensures OneHopOn(f, Decide(o, t, inName, f).frame)
  {
    ForwardIs(o, t, inName, f);
    hide Decide, HeaderOk, Forwarded, OneHopOn;
    ForwardedIs(o, f);
  }
}
