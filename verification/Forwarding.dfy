/** What the router does with an IP frame (lab1/router/sr_router.c), as functions on
    frames. Router.dfy computes them in place. Offsets are those of an Ethernet header
    (14 bytes), an IP header without options (20) and an ICMP header (4). */
module Forwarding {
  import opened Machine
  import opened Checksum
  import opened Lpm
  import Arp

  const ETH_HDR := 14
  const HEADERS := 34
  const IP_SUM := 10   // offset of the checksum in the IP header
  const ICMP_SUM := 2  // and in the ICMP header
  const ICMP_PROTOCOL := 1
  const INIT_TTL := 255

  /** The largest message the router reads from the server. */
  const MAX_FRAME := 10000

  datatype Iface = Iface(name: string, mac: Mac, ip: Ip4)

  datatype Code = Code(kind: byte, code: byte)
  const NET_UNREACHABLE := Code(3, 0)
  const PORT_UNREACHABLE := Code(3, 3)
  const TIME_EXCEEDED := Code(11, 0)

  /** The router's tables. */
  datatype Tables = Tables(ifaces: seq<Iface>, routes: seq<Route>)

  /** Forward names the next hop, the rewritten frame and the interface to leave by; the
      Ethernet addresses are those of that interface and of the next hop, once ARP knows it.
      Faulty stands for the cases in which the C code has no defined behaviour: an ICMP error
      does not fit a frame of this length, no interface has the name of the arrival interface
      when an answer is due, or none has that of the chosen route (its null pointer is
      followed at once on a cache hit, on a miss with the broadcast for the frame). */
  datatype Verdict =
    | Dropped
    | Reply(frame: seq<byte>)
    | Forward(gw: Addr, frame: seq<byte>, via: Iface)
    | Faulty

  // ---------------------------------------------------------------- frames

  function Ttl(f: seq<byte>): byte requires |f| >= HEADERS { f[22] }
  function Protocol(f: seq<byte>): byte requires |f| >= HEADERS { f[23] }
  function Src(f: seq<byte>): Ip4 requires |f| >= HEADERS { f[26..30] }
  function Dst(f: seq<byte>): Ip4 requires |f| >= HEADERS { f[30..34] }
  function IpHeader(f: seq<byte>): (h: seq<byte>) requires |f| >= HEADERS ensures |h| == 20 { f[14..34] }
  function Payload(f: seq<byte>): (p: seq<byte>) requires |f| >= HEADERS ensures |p| == |f| - HEADERS { f[34..] }

  /** The header test: zero the checksum, recompute, compare. */
  predicate HeaderOk(o: ByteOrder, f: seq<byte>) {
    |f| >= HEADERS && Accepts(o, IpHeader(f), IP_SUM)
  }

  /** The ICMP test, over the whole rest of the frame. */
  predicate IcmpOk(o: ByteOrder, f: seq<byte>) {
    |f| >= HEADERS + 4 && Accepts(o, Payload(f), ICMP_SUM)
  }

  // ---------------------------------------------------------------- frames sent

  /** ip_ttl -= 1 on a uint8_t. */
  function Decrement(ttl: byte): byte {
    if ttl == 0 then 255 else ttl - 1
  }

  /** An IP header with one hop taken off. */
  function OneHopLess(h: seq<byte>): (r: seq<byte>)
    requires |h| == 20
    ensures |r| == 20
  {
    Filled(h[8 := Decrement(h[8])], IP_SUM)
  }

  /** The frame after the TTL and checksum rewriting of sr_ip_packet_next_hop. */
  function Forwarded(f: seq<byte>): (r: seq<byte>)
    requires |f| >= HEADERS
    ensures |r| == |f|
  {
    f[..14] + OneHopLess(IpHeader(f)) + Payload(f)
  }

  /** The IP header both ICMP builders write. */
  function ReplyHeader(h: seq<byte>, total: nat, src: Ip4): (r: seq<byte>)
    requires |h| == 20 && total < TWO_16
    ensures |r| == 20
  {
    Filled(h[..2] + [total / 256, total % 256] + h[4..8] + [INIT_TTL, ICMP_PROTOCOL, 0, 0] + src + h[12..16], IP_SUM)
  }

  function ReplyEthernet(f: seq<byte>, mac: Mac): (r: seq<byte>)
    requires |f| >= HEADERS
    ensures |r| == ETH_HDR
  {
    f[6..12] + mac + [8, 0]
  }

  /** The frame of an ICMP message: the body is that of the caller. */
  function IcmpFrame(f: seq<byte>, mac: Mac, src: Ip4, body: seq<byte>): (r: seq<byte>)
    requires HEADERS <= |f| <= MAX_FRAME && |body| == |f| - HEADERS
    ensures |r| == |f|
  {
    ReplyEthernet(f, mac) + ReplyHeader(IpHeader(f), |f| - ETH_HDR, src) + body
  }

  /** send_icmp_echo_packet: the data comes back behind a cleared header. */
  function EchoBody(p: seq<byte>): (b: seq<byte>)
    requires |p| >= 4
    ensures |b| == |p|
  {
    Filled([0, 0, 0, 0] + p[4..], ICMP_SUM)
  }

  /** send_icmp_error_packet: the checksum covers the four header bytes only. */
  function ErrorBody(c: Code, n: nat): (b: seq<byte>)
    requires n >= 4
    ensures |b| == n
  {
    Filled([c.kind, c.code, 0, 0], ICMP_SUM) + Zeros(n - 4)
  }

  // ---------------------------------------------------------------- decisions

  /** sr_get_interface */
  function FindIface(ifs: seq<Iface>, name: string): (r: Option<Iface>)
    ensures r.Some? ==> r.value in ifs && r.value.name == name
  {
    if ifs == [] then None else if ifs[0].name == name then Some(ifs[0]) else FindIface(ifs[1..], name)
  }

  /** ip_packet_forwarding: the interface this address belongs to. */
  function Local(ifs: seq<Iface>, ip: Ip4): Option<Iface> {
    if ifs == [] then None else if ifs[0].ip == ip then Some(ifs[0]) else Local(ifs[1..], ip)
  }

  /** Interface k is the first with this name. */
  ghost predicate FirstNamed(ifs: seq<Iface>, name: string, k: nat) {
    k < |ifs| && ifs[k].name == name && forall j | 0 <= j < k :: ifs[j].name != name
  }

  /** Interface k is the first with this address. */
  ghost predicate FirstOwner(ifs: seq<Iface>, ip: Ip4, k: nat) {
    k < |ifs| && ifs[k].ip == ip && forall j | 0 <= j < k :: ifs[j].ip != ip
  }

  predicate Named(ifs: seq<Iface>, name: string) {
    exists k | 0 <= k < |ifs| :: ifs[k].name == name
  }

  /** The address belongs to the router. */
  predicate Owned(ifs: seq<Iface>, ip: Ip4) {
    exists k | 0 <= k < |ifs| :: ifs[k].ip == ip
  }

  /** The walk over the interfaces finds the first one with the name, and nothing only if
      none has it. */
  lemma {:induction false} FindIfaceIsFirst(ifs: seq<Iface>, name: string) returns (k: nat)
    ensures FindIface(ifs, name).Some? <==> Named(ifs, name)
    ensures FindIface(ifs, name).Some? ==> FirstNamed(ifs, name, k) && FindIface(ifs, name).value == ifs[k]
    decreases |ifs|
  {
    k := 0;
    if ifs != [] && ifs[0].name != name {
      k := FindIfaceIsFirst(ifs[1..], name);
      k := k + 1;
      assert forall j | 0 < j < |ifs| :: ifs[j] == ifs[1..][j - 1];
    }
  }

  /** The same for the address. */
  lemma {:induction false} LocalIsFirst(ifs: seq<Iface>, ip: Ip4) returns (k: nat)
    ensures Local(ifs, ip).Some? <==> Owned(ifs, ip)
    ensures Local(ifs, ip).Some? ==> FirstOwner(ifs, ip, k) && Local(ifs, ip).value == ifs[k]
    decreases |ifs|
  {
    k := 0;
    if ifs != [] && ifs[0].ip != ip {
      k := LocalIsFirst(ifs[1..], ip);
      k := k + 1;
      assert forall j | 0 < j < |ifs| :: ifs[j] == ifs[1..][j - 1];
    }
  }

  function NetworkValue(b: Ip4): Addr {
    ((b[0] as bv32) << 24) | ((b[1] as bv32) << 16) | ((b[2] as bv32) << 8) | (b[3] as bv32)
  }

  /** The s_addr integer that four bytes in memory are. */
  function LoadAddr(o: ByteOrder, b: Ip4): Addr {
    Raw(o, NetworkValue(b))
  }

  /** send_icmp_error_packet: src None means the address of the sending interface. */
  function IcmpError(t: Tables, inName: string, f: seq<byte>, c: Code, src: Option<Ip4>): (v: Verdict)
    requires HEADERS <= |f| <= MAX_FRAME
    ensures v.Reply? || v.Faulty?
  {
    var i := FindIface(t.ifaces, inName);
    if i.None? || |f| < HEADERS + 4 then Faulty
    else Reply(IcmpFrame(f, i.value.mac, if src.Some? then src.value else i.value.ip, ErrorBody(c, |f| - HEADERS)))
  }

  /** sr_ip_packet_reply: the frame is for one of the router's own addresses. */
  function ForUs(o: ByteOrder, t: Tables, inName: string, f: seq<byte>, own: Ip4): (v: Verdict)
    requires HEADERS <= |f| <= MAX_FRAME
    ensures !v.Forward?
  {
    if Protocol(f) != ICMP_PROTOCOL then IcmpError(t, inName, f, PORT_UNREACHABLE, Some(own))
    else if !IcmpOk(o, f) then Dropped
    else
      var i := FindIface(t.ifaces, inName);
      if i.None? then Faulty else Reply(IcmpFrame(f, i.value.mac, own, EchoBody(Payload(f))))
  }

  /** sr_ip_packet_next_hop */
  function NextHop(o: ByteOrder, t: Tables, inName: string, f: seq<byte>): (v: Verdict)
    requires HEADERS <= |f| <= MAX_FRAME
    ensures !v.Dropped?
  {
    var r := Lookup(t.routes, LoadAddr(o, Dst(f)));
    if r.None? then IcmpError(t, inName, f, NET_UNREACHABLE, None)
    else if Ttl(f) == 1 then IcmpError(t, inName, f, TIME_EXCEEDED, None)
    else
      var via := FindIface(t.ifaces, t.routes[r.value].iface);
      if via.None? then Faulty else Forward(t.routes[r.value].gw, Forwarded(f), via.value)
  }

  /** The IP case of sr_handlepacket and sr_handle_ip_packet_type. */
  function Decide(o: ByteOrder, t: Tables, inName: string, f: seq<byte>): Verdict
    requires |f| <= MAX_FRAME
  {
    if !HeaderOk(o, f) then Dropped
    else
      var own := Local(t.ifaces, Dst(f));
      if own.Some? then ForUs(o, t, inName, f, own.value.ip) else NextHop(o, t, inName, f)
  }

  // ---------------------------------------------------------------- sent frames pass the tests

  lemma {:induction false} ZerosAddNothing(n: nat)
    ensures WordSum(Zeros(n)) == 0
  {
    if n >= 2 {
      assert Zeros(n)[2..] == Zeros(n - 2);
      ZerosAddNothing(n - 2);
    }
  }

  /** A checksum over the first part stays right when zeros follow. */
  lemma PaddingKeepsAccepts(o: ByteOrder, head: seq<byte>, n: nat, at: nat)
    requires |head| % 2 == 0 && at + 1 < |head|
    ensures Accepts(o, head + Zeros(n), at) <==> Accepts(o, head, at)
  {
    hide WordSum, Rfc1071, Accepts;
    var z := Zeroed(head, at);
    assert Zeroed(head + Zeros(n), at) == z + Zeros(n);
    WordSumAppend(z, Zeros(n));
    ZerosAddNothing(n);
    ClosedForm(z);
    ClosedForm(z + Zeros(n));
    AcceptsIffField(o, head, at);
    AcceptsIffField(o, head + Zeros(n), at);
  }

  lemma ErrorBodyIsAccepted(o: ByteOrder, c: Code, n: nat)
    requires n >= 4
    ensures Accepts(o, ErrorBody(c, n), ICMP_SUM)
  {
    hide Accepts, Filled;
    FilledIsAccepted(o, [c.kind, c.code, 0, 0], ICMP_SUM);
    PaddingKeepsAccepts(o, Filled([c.kind, c.code, 0, 0], ICMP_SUM), n - 4, ICMP_SUM);
  }

  lemma EchoBodyIsAccepted(o: ByteOrder, p: seq<byte>)
    requires |p| >= 4
    ensures Accepts(o, EchoBody(p), ICMP_SUM)
    ensures EchoBody(p)[0] == 0 && EchoBody(p)[1] == 0 && EchoBody(p)[4..] == p[4..]
  {
    FilledIsAccepted(o, [0, 0, 0, 0] + p[4..], ICMP_SUM);
    hide Accepts, Rfc1071;
  }

  lemma Parts(e: seq<byte>, h: seq<byte>, p: seq<byte>)
    requires |e| == ETH_HDR && |h| == 20
    ensures IpHeader(e + h + p) == h && Payload(e + h + p) == p && (e + h + p)[..14] == e
  {
  }

  /** Everything forwarded passes the header test; only the TTL and the checksum changed. */
  lemma ForwardedIsGood(o: ByteOrder, f: seq<byte>)
    requires |f| >= HEADERS
    ensures HeaderOk(o, Forwarded(f))
    ensures Payload(Forwarded(f)) == Payload(f) && Forwarded(f)[..22] == f[..22] && Forwarded(f)[23] == f[23]
    ensures Src(Forwarded(f)) == Src(f) && Dst(Forwarded(f)) == Dst(f)
    ensures Ttl(Forwarded(f)) == Decrement(Ttl(f))
  {
    var h := IpHeader(f);
    var h1 := OneHopLess(h);
    assert Accepts(o, h1, IP_SUM) by {
      FilledIsAccepted(o, h[8 := Decrement(h[8])], IP_SUM);
      hide Accepts, Rfc1071;
    }
    hide Accepts, Rfc1071, Zeroed;
    Parts(f[..14], h1, Payload(f));
    var r := Forwarded(f);
    FrameFields(f, h);
    FrameFields(r, h1);
    assert forall i | 14 <= i < 34 :: r[i] == h1[i - 14];
    assert forall i | 0 <= i < 20 && i != 8 && i != 10 && i != 11 :: h1[i] == h[i];
  }

  lemma ReplyHeaderIsGood(o: ByteOrder, h: seq<byte>, total: nat, src: Ip4)
    requires |h| == 20 && total < TWO_16
    ensures var r := ReplyHeader(h, total, src);
            && Accepts(o, r, IP_SUM) && r[12..16] == src && r[16..20] == h[12..16]
            && r[8] == INIT_TTL && r[9] == ICMP_PROTOCOL && Word(r[2], r[3]) == total
  {
    var raw := h[..2] + [total / 256, total % 256] + h[4..8] + [INIT_TTL, ICMP_PROTOCOL, 0, 0] + src + h[12..16];
    FilledIsAccepted(o, raw, IP_SUM);
    hide Accepts, Rfc1071, Zeroed;
    var r := ReplyHeader(h, total, src);
    assert forall i | 0 <= i < 20 && i != 10 && i != 11 :: r[i] == raw[i];
    assert raw[12..16] == src && raw[16..20] == h[12..16];
  }

  lemma FrameFields(f: seq<byte>, h: seq<byte>)
    requires |f| >= HEADERS && IpHeader(f) == h
    ensures Src(f) == h[12..16] && Dst(f) == h[16..20] && Ttl(f) == h[8] && Protocol(f) == h[9]
    ensures f[16] == h[2] && f[17] == h[3]
  {
    assert forall i | 14 <= i < 34 :: f[i] == h[i - 14];
  }

  /** Every ICMP message built passes both tests and goes back where the frame came from. */
  lemma IcmpFrameIsGood(o: ByteOrder, f: seq<byte>, mac: Mac, src: Ip4, body: seq<byte>)
    requires HEADERS + 4 <= |f| <= MAX_FRAME && |body| == |f| - HEADERS && Accepts(o, body, ICMP_SUM)
    ensures var r := IcmpFrame(f, mac, src, body);
            && HeaderOk(o, r) && IcmpOk(o, r) && Payload(r) == body
            && Src(r) == src && Dst(r) == Src(f) && Ttl(r) == INIT_TTL && Protocol(r) == ICMP_PROTOCOL
            && r[..6] == f[6..12] && r[6..12] == mac && Word(r[16], r[17]) == |f| - ETH_HDR
  {
    hide Accepts, ReplyHeader, ReplyEthernet, IcmpFrame, IpHeader, Payload, Src, Dst;
    var h, total := IpHeader(f), |f| - ETH_HDR;
    var h1, e := ReplyHeader(h, total, src), ReplyEthernet(f, mac);
    ReplyHeaderIsGood(o, h, total, src);
    IcmpFrameParts(f, mac, src, body);
    var r := IcmpFrame(f, mac, src, body);
    FrameFields(r, h1);
    FrameFields(f, h);
    assert Dst(r) == h1[16..20] == h[12..16] == Src(f);
    EthernetFields(f, mac, r);
  }

  lemma IcmpFrameParts(f: seq<byte>, mac: Mac, src: Ip4, body: seq<byte>)
    requires HEADERS <= |f| <= MAX_FRAME && |body| == |f| - HEADERS
    ensures var r := IcmpFrame(f, mac, src, body);
            && IpHeader(r) == ReplyHeader(IpHeader(f), |f| - ETH_HDR, src) && Payload(r) == body
            && r[..14] == ReplyEthernet(f, mac)
  {
    hide ReplyHeader, ReplyEthernet;
    Parts(ReplyEthernet(f, mac), ReplyHeader(IpHeader(f), |f| - ETH_HDR, src), body);
  }

  lemma EthernetFields(f: seq<byte>, mac: Mac, r: seq<byte>)
    requires |f| >= HEADERS && |r| >= HEADERS && r[..14] == ReplyEthernet(f, mac)
    ensures r[..6] == f[6..12] && r[6..12] == mac
  {
    var e := ReplyEthernet(f, mac);
    assert r[..6] == e[..6] && r[6..12] == e[6..12];
  }

  /** The tests do not depend on the byte order of the host that makes them. */
  lemma TestsAreHostIndependent(o1: ByteOrder, o2: ByteOrder, f: seq<byte>)
    ensures HeaderOk(o1, f) <==> HeaderOk(o2, f)
    ensures IcmpOk(o1, f) <==> IcmpOk(o2, f)
  {
    hide Accepts, Rfc1071;
    if |f| >= HEADERS {
      AcceptsIffField(o1, IpHeader(f), IP_SUM);
      AcceptsIffField(o2, IpHeader(f), IP_SUM);
    }
    if |f| >= HEADERS + 4 {
      AcceptsIffField(o1, Payload(f), ICMP_SUM);
      AcceptsIffField(o2, Payload(f), ICMP_SUM);
    }
  }

  /** What a frame given back to the sender's side must look like at any other router. */
  ghost predicate GoodReply(f: seq<byte>, r: seq<byte>) {
    && |f| == |r| >= HEADERS + 4
    && (forall o :: HeaderOk(o, r) && IcmpOk(o, r))
    && Dst(r) == Src(f) && Ttl(r) == INIT_TTL && Protocol(r) == ICMP_PROTOCOL
  }

  ghost predicate GoodForward(f: seq<byte>, r: seq<byte>) {
    && |f| == |r| >= HEADERS
    && (forall o :: HeaderOk(o, r))
    && Payload(r) == Payload(f) && Src(r) == Src(f) && Dst(r) == Dst(f) && Protocol(r) == Protocol(f)
    && Ttl(r) == Decrement(Ttl(f))
  }

  lemma IcmpFrameIsGoodReply(f: seq<byte>, mac: Mac, src: Ip4, body: seq<byte>)
    requires HEADERS + 4 <= |f| <= MAX_FRAME && |body| == |f| - HEADERS
    requires Accepts(LittleEndian, body, ICMP_SUM)
    ensures GoodReply(f, IcmpFrame(f, mac, src, body))
  {
    hide HeaderOk, IcmpOk, Accepts, IcmpFrame;
    IcmpFrameIsGood(LittleEndian, f, mac, src, body);
    forall o ensures HeaderOk(o, IcmpFrame(f, mac, src, body)) && IcmpOk(o, IcmpFrame(f, mac, src, body)) {
      TestsAreHostIndependent(LittleEndian, o, IcmpFrame(f, mac, src, body));
    }
  }

  lemma IcmpErrorIsGood(t: Tables, inName: string, f: seq<byte>, c: Code, src: Option<Ip4>)
    requires HEADERS <= |f| <= MAX_FRAME
    ensures var v := IcmpError(t, inName, f, c, src);
            && (v.Reply? ==> GoodReply(f, v.frame))
            && (v.Faulty? <==> |f| < HEADERS + 4 || FindIface(t.ifaces, inName).None?)
  {
    hide IcmpFrame, GoodReply, ErrorBody, FindIface, Accepts;
    var v := IcmpError(t, inName, f, c, src);
    if v.Reply? {
      var i := FindIface(t.ifaces, inName).value;
      ErrorBodyIsAccepted(LittleEndian, c, |f| - HEADERS);
      IcmpFrameIsGoodReply(f, i.mac, if src.Some? then src.value else i.ip, ErrorBody(c, |f| - HEADERS));
    }
  }

  lemma ForwardedIsGoodForward(f: seq<byte>)
    requires |f| >= HEADERS
    ensures GoodForward(f, Forwarded(f))
  {
    hide HeaderOk, Forwarded;
    ForwardedIsGood(LittleEndian, f);
    forall o ensures HeaderOk(o, Forwarded(f)) { ForwardedIsGood(o, f); }
  }

  /** Every frame the router sends for an IP frame passes the next router's tests,
      whatever the byte order of either host. */
  lemma SentFramesAreGood(o: ByteOrder, t: Tables, inName: string, f: seq<byte>)
    requires |f| <= MAX_FRAME
    ensures var v := Decide(o, t, inName, f);
            && (v.Reply? ==> GoodReply(f, v.frame))
            && (v.Forward? ==> GoodForward(f, v.frame))
  {
    hide Accepts, IcmpOk, GoodReply, GoodForward, Local, ForUs, NextHop;
    if HeaderOk(o, f) {
      var own := Local(t.ifaces, Dst(f));
      if own.Some? { OwnFramesAreGood(o, t, inName, f, own.value.ip); } else { PassedFramesAreGood(o, t, inName, f); }
    }
  }

  lemma OwnFramesAreGood(o: ByteOrder, t: Tables, inName: string, f: seq<byte>, own: Ip4)
    requires HEADERS <= |f| <= MAX_FRAME
    ensures var v := ForUs(o, t, inName, f, own);
            v.Reply? ==> GoodReply(f, v.frame)
  {
    hide HeaderOk, Accepts, IcmpFrame, GoodReply, EchoBody, FindIface, IcmpError;
    IcmpErrorIsGood(t, inName, f, PORT_UNREACHABLE, Some(own));
    var i := FindIface(t.ifaces, inName);
    if IcmpOk(o, f) && i.Some? {
      EchoBodyIsAccepted(LittleEndian, Payload(f));
      IcmpFrameIsGoodReply(f, i.value.mac, own, EchoBody(Payload(f)));
    }
  }

  lemma PassedFramesAreGood(o: ByteOrder, t: Tables, inName: string, f: seq<byte>)
    requires HEADERS <= |f| <= MAX_FRAME
    ensures var v := NextHop(o, t, inName, f);
            && (v.Reply? ==> GoodReply(f, v.frame))
            && (v.Forward? ==> GoodForward(f, v.frame))
  {
    hide HeaderOk, IcmpOk, GoodReply, GoodForward, FindIface, Lookup, LoadAddr, IcmpError, Forwarded;
    IcmpErrorIsGood(t, inName, f, NET_UNREACHABLE, None);
    IcmpErrorIsGood(t, inName, f, TIME_EXCEEDED, None);
    ForwardedIsGoodForward(f);
  }

  /** No router ever drops a message another router made. */
  lemma RepliesAreNeverDropped(o: ByteOrder, t: Tables, inName: string, f: seq<byte>,
                               o1: ByteOrder, t1: Tables, inName1: string)
    requires |f| <= MAX_FRAME && Decide(o, t, inName, f).Reply?
    ensures !Decide(o1, t1, inName1, Decide(o, t, inName, f).frame).Dropped?
  {
    var r := Decide(o, t, inName, f).frame;
    SentFramesAreGood(o, t, inName, f);
    hide Decide, HeaderOk, IcmpOk, ForUs, NextHop;
    NotDropped(o1, t1, inName1, r);
  }

  lemma NotDropped(o: ByteOrder, t: Tables, inName: string, r: seq<byte>)
    requires |r| <= MAX_FRAME && HeaderOk(o, r)
    ensures Decide(o, t, inName, r).Dropped?
       <==> Owned(t.ifaces, Dst(r)) && Protocol(r) == ICMP_PROTOCOL && !IcmpOk(o, r)
  {
    var _ := LocalIsFirst(t.ifaces, Dst(r));
    hide HeaderOk, IcmpOk, IcmpFrame, Local, FindIface, Lookup, LoadAddr;
  }

  /** Exactly when the C code has no defined outcome: an answer is due and either the
      frame has no room for an ICMP header behind the IP header or the arrival interface is
      not in the list; or the frame is to be forwarded and the interface of the chosen
      route is not in the list. */
  lemma FaultyIff(o: ByteOrder, t: Tables, inName: string, f: seq<byte>)
    requires |f| <= MAX_FRAME
    ensures Decide(o, t, inName, f).Faulty? <==>
            && HeaderOk(o, f)
            && var local := Owned(t.ifaces, Dst(f));
               var route := Lookup(t.routes, LoadAddr(o, Dst(f)));
               var echo := local && Protocol(f) == ICMP_PROTOCOL;
               var error := if local then !echo else route.None? || Ttl(f) == 1;
               || (!Named(t.ifaces, inName) && (error || (echo && IcmpOk(o, f))))
               || (error && |f| < HEADERS + 4)
               || (!local && !error && !Named(t.ifaces, t.routes[route.value].iface))
  {
    assert HeaderOk(o, f) ==> |f| >= HEADERS;
    hide HeaderOk, IcmpOk, IcmpFrame, Local, FindIface, Lookup, LoadAddr, ErrorBody, Owned, Named;
    if HeaderOk(o, f) {
      var _ := LocalIsFirst(t.ifaces, Dst(f));
      var _ := FindIfaceIsFirst(t.ifaces, inName);
      var route := Lookup(t.routes, LoadAddr(o, Dst(f)));
      if route.Some? { var _ := FindIfaceIsFirst(t.ifaces, t.routes[route.value].iface); }
    }
  }

  /** On either host the loaded address stands for the bytes in network order. */
  lemma LoadedAddress(o: ByteOrder, b: Ip4)
    ensures Raw(o, LoadAddr(o, b)) == NetworkValue(b)
  {
    SwapInvolution(NetworkValue(b));
    hide SwapAddr, NetworkValue;
  }

  /** Some route covers the destination of the frame. */
  ghost predicate Reachable(o: ByteOrder, t: Tables, f: seq<byte>)
    requires |f| >= HEADERS && WellFormed(o, t.routes)
  {
    exists k | 0 <= k < |t.routes| :: Covers(o, t.routes[k], LoadAddr(o, Dst(f)))
  }

  /** Gateway and interface are those of the first longest route for the destination. */
  ghost predicate SentByLongest(o: ByteOrder, t: Tables, f: seq<byte>, gw: Addr, via: Iface)
    requires |f| >= HEADERS && WellFormed(o, t.routes)
  {
    exists k: nat :: Longest(o, t.routes, LoadAddr(o, Dst(f)), k)
                     && gw == t.routes[k].gw
                     && exists n: nat :: FirstNamed(t.ifaces, t.routes[k].iface, n) && via == t.ifaces[n]
  }

  predicate InterfacesExist(t: Tables) {
    forall k | 0 <= k < |t.routes| :: Named(t.ifaces, t.routes[k].iface)
  }

  /** A frame is handed to the gateway and interface of the first longest route for its
      destination. It is forwarded only if it is intact, for someone else, covered by a route
      and has a TTL other than 1; and then it is, as long as the routing table names
      interfaces that exist. */
  lemma ForwardsToLongest(o: ByteOrder, t: Tables, inName: string, f: seq<byte>)
    requires |f| <= MAX_FRAME && WellFormed(o, t.routes)
    ensures var v := Decide(o, t, inName, f);
            && (v.Forward? ==> SentByLongest(o, t, f, v.gw, v.via))
            && (v.Forward? ==> HeaderOk(o, f) && !Owned(t.ifaces, Dst(f)) && Reachable(o, t, f) && Ttl(f) != 1)
            && (HeaderOk(o, f) && !Owned(t.ifaces, Dst(f)) && Reachable(o, t, f) && Ttl(f) != 1 ==>
                  InterfacesExist(t) ==> v.Forward?)
  {
    hide Accepts, IcmpFrame, FindIface, Local, Lookup, LoadAddr, ErrorBody, Forwarded;
    hide Covers, Length, IcmpOk, IcmpError, Longest, Owned, Named;
    if HeaderOk(o, f) {
      var dst := LoadAddr(o, Dst(f));
      var _ := LocalIsFirst(t.ifaces, Dst(f));
      LpmIsLongest(o, t.routes, dst);
      var r := Lookup(t.routes, dst);
      if r.Some? {
        LongestCovers(o, t.routes, dst, r.value);
        var _ := FindIfaceIsFirst(t.ifaces, t.routes[r.value].iface);
        assert t.routes[r.value] == t.routes[r.value];
      }
    }
  }

  lemma LongestCovers(o: ByteOrder, routes: seq<Route>, dst: Addr, k: nat)
    requires WellFormed(o, routes) && Longest(o, routes, dst, k)
    ensures k < |routes| && Covers(o, routes[k], dst)
  {
    hide Covers, Length;
  }

  // ---------------------------------------------------------------- whole paths

  /** One router on a path, and the Ethernet address of its next hop. */
  datatype Hop = Hop(order: ByteOrder, tables: Tables, inName: string, dst: Mac)

  /** The frame after every router of the path has forwarded it; None if one did not. */
  function Travel(hops: seq<Hop>, f: seq<byte>): Option<seq<byte>>
    requires |f| <= MAX_FRAME
    decreases |hops|
  {
    if hops == [] then Some(f)
    else
      var v := Decide(hops[0].order, hops[0].tables, hops[0].inName, f);
      if !v.Forward? then None
      else
        SentFramesAreGood(hops[0].order, hops[0].tables, hops[0].inName, f);
        Travel(hops[1..], Arp.Addressed(v.frame, hops[0].dst, v.via.mac))
  }

  /** How many routers can forward a frame that carries this TTL. */
  function Budget(ttl: byte): nat {
    if ttl == 0 then 255 else ttl - 1
  }

  lemma AddressingKeepsIp(f: seq<byte>, dst: Mac, src: Mac)
    requires |f| >= HEADERS
    ensures var g := Arp.Addressed(f, dst, src); |g| == |f| && IpHeader(g) == IpHeader(f) && Payload(g) == Payload(f)
  {
    var g := Arp.Addressed(f, dst, src);
    assert forall i | 12 <= i < |f| :: g[i] == f[i];
  }

  lemma ForwardNeedsTtl(o: ByteOrder, t: Tables, inName: string, f: seq<byte>)
    requires |f| <= MAX_FRAME && Decide(o, t, inName, f).Forward?
    ensures |f| >= HEADERS && Ttl(f) != 1 && |Decide(o, t, inName, f).frame| == |f|
  {
    hide Local, FindIface, Lookup, LoadAddr, Accepts, IcmpFrame;
  }

  lemma AddressedIsGoodForward(f: seq<byte>, r: seq<byte>, dst: Mac, src: Mac)
    requires GoodForward(f, r)
    ensures GoodForward(f, Arp.Addressed(r, dst, src))
  {
    hide Accepts, IpHeader, Payload, Arp.Addressed;
    AddressingKeepsIp(r, dst, src);
    var g := Arp.Addressed(r, dst, src);
    FrameFields(r, IpHeader(r));
    FrameFields(g, IpHeader(r));
    assert forall o :: HeaderOk(o, r) ==> HeaderOk(o, g);
  }

  lemma ForwardStep(h: Hop, f: seq<byte>)
    requires |f| <= MAX_FRAME && Decide(h.order, h.tables, h.inName, f).Forward?
    ensures |f| >= HEADERS && Ttl(f) != 1
    ensures var v := Decide(h.order, h.tables, h.inName, f);
            |v.frame| == |f| && GoodForward(f, Arp.Addressed(v.frame, h.dst, v.via.mac))
  {
    SentFramesAreGood(h.order, h.tables, h.inName, f);
    ForwardNeedsTtl(h.order, h.tables, h.inName, f);
    hide Decide;
    var v := Decide(h.order, h.tables, h.inName, f);
    AddressedIsGoodForward(f, v.frame, h.dst, v.via.mac);
  }

  /** A frame is forwarded at most TTL - 1 times on any path, so no routing loop lasts; a
      frame that arrives with TTL 0 wraps and may go on for 255. The packet itself is
      unchanged at the end. */
  lemma {:induction false} HopLimit(hops: seq<Hop>, f: seq<byte>)
    requires |f| <= MAX_FRAME && hops != [] && Travel(hops, f).Some?
    ensures |f| >= HEADERS && |hops| <= Budget(Ttl(f))
    ensures var r := Travel(hops, f).value;
            && |r| == |f| && Payload(r) == Payload(f) && Src(r) == Src(f) && Dst(r) == Dst(f)
            && Ttl(r) == Budget(Ttl(f)) + 1 - |hops|
            && forall o :: HeaderOk(o, r)
    decreases |hops|
  {
    hide Decide, HeaderOk;
    var h := hops[0];
    var v := Decide(h.order, h.tables, h.inName, f);
    ForwardStep(h, f);
    hide Arp.Addressed;
    if |hops| > 1 { HopLimit(hops[1..], Arp.Addressed(v.frame, h.dst, v.via.mac)); }
  }
}
