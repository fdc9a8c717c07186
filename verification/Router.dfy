/** The IP handlers of lab1/router/sr_router.c in the form the source has them: checksum
    fields zeroed, recomputed and stored in the packet buffer, replies built in a newly
    allocated one. Each is proved against the functions of Forwarding.dfy. */
module Router {
  import opened Machine
  import opened Checksum
  import opened Lpm
  import opened Forwarding

  // ---------------------------------------------------------------- checksum fields

  lemma StoreLoad16(o: ByteOrder, b0: byte, b1: byte)
    ensures Store16(o, Load16(o, b0, b1)) == [b0, b1]
  {
  }

  /** Zeroes the checksum field of the bytes from..to and returns their checksum. */
  method ZeroAndSum(o: ByteOrder, p: array<byte>, from: nat, to: nat, at: nat) returns (c: uint16)
    requires from + at + 1 < to <= p.Length && to - from <= MAX_FRAME
    modifies p
    ensures p[..] == old(p[..])[from + at := 0][from + at + 1 := 0]
    ensures c == Htons(o, Rfc1071(Zeroed(old(p[from..to]), at)))
  {
    hide Rfc1071, Htons;
    ghost var z := Zeroed(p[from..to], at);
    p[from + at] := 0;
    p[from + at + 1] := 0;
    assert p[from..to] == z;
    CksumIntOnFrames(o, z);
    assert z[..to - from] == z;
    c := CksumInt(o, p[from..to], to - from);
  }

  method StoreField(o: ByteOrder, p: array<byte>, i: nat, x: uint16)
    requires i + 1 < p.Length
    modifies p
    ensures p[..] == old(p[..])[i := Store16(o, x)[0]][i + 1 := Store16(o, x)[1]]
  {
    p[i] := Store16(o, x)[0];
    p[i + 1] := Store16(o, x)[1];
  }

  /** The test of sr_handle_ip_packet_type and sr_ip_packet_reply: whatever the outcome,
      the buffer is left as it was. */
  method TestField(o: ByteOrder, p: array<byte>, from: nat, to: nat, at: nat) returns (ok: bool)
    requires from + at + 1 < to <= p.Length && to - from <= MAX_FRAME
    modifies p
    ensures p[..] == old(p[..])
    ensures ok == Accepts(o, old(p[from..to]), at)
  {
    hide Rfc1071, Htons, Load16, Store16, Zeroed;
    var b0, b1 := p[from + at], p[from + at + 1];
    var sum1 := Load16(o, b0, b1);
    var sum2 := ZeroAndSum(o, p, from, to, at);
    StoreLoad16(o, b0, b1);
    StoreField(o, p, from + at, sum2);
    ok := sum1 == sum2;
    if !ok { StoreField(o, p, from + at, sum1); }
  }

  /** Zeroes, recomputes and stores the checksum of the bytes from..to. */
  method FillField(o: ByteOrder, p: array<byte>, from: nat, to: nat, at: nat)
    requires from + at + 1 < to <= p.Length && to - from <= MAX_FRAME
    modifies p
    ensures p[from..to] == Filled(old(p[from..to]), at)
    ensures p[..from] == old(p[..from]) && p[to..] == old(p[to..])
  {
    hide Rfc1071, Htons, Store16;
    var c := ZeroAndSum(o, p, from, to, at);
    NetworkOrder16(o, Rfc1071(Zeroed(old(p[from..to]), at)));
    StoreField(o, p, from + at, c);
  }

  // ---------------------------------------------------------------- building replies

  function Put(s: seq<byte>, at: nat, src: seq<byte>): (r: seq<byte>)
    requires at + |src| <= |s|
    ensures |r| == |s|
  {
    s[..at] + src + s[at + |src|..]
  }

  lemma PutAt(s: seq<byte>, at: nat, src: seq<byte>, i: nat)
    requires at + |src| <= |s| && i < |s|
    ensures Put(s, at, src)[i] == if at <= i < at + |src| then src[i - at] else s[i]
  {
  }

  /** memcpy */
  method Copy(dst: array<byte>, at: nat, src: seq<byte>)
    requires at + |src| <= dst.Length
    modifies dst
    ensures dst[..] == Put(old(dst[..]), at, src)
  {
    forall i | 0 <= i < |src| { dst[at + i] := src[i]; }
  }

  method FillEthernet(o: ByteOrder, out: array<byte>, f: seq<byte>, mac: Mac)
    requires HEADERS <= |f| == out.Length
    modifies out
    ensures out[..ETH_HDR] == ReplyEthernet(f, mac) && out[ETH_HDR..] == old(out[ETH_HDR..])
  {
    hide Htons, Store16;
    Copy(out, 0, f[6..12]);
    Copy(out, 6, mac);
    NetworkOrder16(o, 0x0800);
    StoreField(o, out, 12, Htons(o, 0x0800));
  }

  /** The lines both builders have for the IP header, before the checksum. */
  method FillIpFields(o: ByteOrder, out: array<byte>, f: seq<byte>, src: Ip4)
    requires HEADERS <= |f| == out.Length <= MAX_FRAME
    modifies out
    ensures var h, total := IpHeader(f), |f| - ETH_HDR;
            out[14..34] == h[..2] + [total / 256, total % 256] + h[4..8] + [INIT_TTL, ICMP_PROTOCOL, h[10], h[11]]
                           + src + h[12..16]
    ensures out[..14] == old(out[..14]) && out[34..] == old(out[34..])
  {
    hide Htons, Store16, Put;
    ghost var z := out[..];
    var total := |f| - ETH_HDR;
    Copy(out, 14, f[14..34]);
    out[22] := INIT_TTL;
    out[23] := ICMP_PROTOCOL;
    Copy(out, 30, f[26..30]);
    NetworkOrder16(o, total);
    StoreField(o, out, 16, Htons(o, total));
    Copy(out, 26, src);
    FieldsPut(z, f, src);
    FieldsInPlace(out[..], z, f, src);
  }

  /** The buffer after these assignments. */
  ghost function WithFields(z: seq<byte>, f: seq<byte>, src: Ip4): (s: seq<byte>)
    requires HEADERS <= |f| == |z| <= MAX_FRAME
    ensures |s| == |z|
  {
    var total := |f| - ETH_HDR;
    var z1 := Put(z, 14, f[14..34])[22 := INIT_TTL][23 := ICMP_PROTOCOL];
    Put(Put(z1, 30, f[26..30])[16 := total / 256][17 := total % 256], 26, src)
  }

  function FieldByte(z: seq<byte>, f: seq<byte>, src: Ip4, i: nat): byte
    requires HEADERS <= |f| == |z| <= MAX_FRAME && i < |z|
  {
    if i < 14 || 34 <= i then z[i]
    else if i == 16 then (|f| - ETH_HDR) / 256 else if i == 17 then (|f| - ETH_HDR) % 256
    else if i == 22 then INIT_TTL else if i == 23 then ICMP_PROTOCOL
    else if 26 <= i < 30 then src[i - 26] else if 30 <= i then f[i - 4] else f[i]
  }

  lemma FieldsPut(z: seq<byte>, f: seq<byte>, src: Ip4)
    requires HEADERS <= |f| == |z| <= MAX_FRAME
    ensures |WithFields(z, f, src)| == |z|
    ensures forall i | 0 <= i < |z| :: WithFields(z, f, src)[i] == FieldByte(z, f, src, i)
  {
    var total := |f| - ETH_HDR;
    var z1 := Put(z, 14, f[14..34])[22 := INIT_TTL][23 := ICMP_PROTOCOL];
    var z2 := Put(z1, 30, f[26..30])[16 := total / 256][17 := total % 256];
    forall i | 0 <= i < |z| ensures WithFields(z, f, src)[i] == FieldByte(z, f, src, i) {
      PutAt(z, 14, f[14..34], i);
      PutAt(z1, 30, f[26..30], i);
      PutAt(z2, 26, src, i);
    }
  }

  /** The header from its bytes. */
  lemma FieldsInPlace(s: seq<byte>, z: seq<byte>, f: seq<byte>, src: Ip4)
    requires HEADERS <= |f| == |z| == |s| <= MAX_FRAME
    requires forall i | 0 <= i < |z| :: s[i] == FieldByte(z, f, src, i)
    ensures var h, total := IpHeader(f), |f| - ETH_HDR;
            s[14..34] == h[..2] + [total / 256, total % 256] + h[4..8] + [INIT_TTL, ICMP_PROTOCOL, h[10], h[11]]
                         + src + h[12..16]
    ensures s[..14] == z[..14] && s[34..] == z[34..]
  {
    var h := IpHeader(f);
    assert forall i | 0 <= i < 20 :: h[i] == f[14 + i];
    assert forall i | 0 <= i < 20 :: s[14..34][i] == s[14 + i];
  }

  method FillHeaders(o: ByteOrder, out: array<byte>, f: seq<byte>, mac: Mac, src: Ip4)
    requires HEADERS <= |f| == out.Length <= MAX_FRAME
    modifies out
    ensures out[..34] == ReplyEthernet(f, mac) + ReplyHeader(IpHeader(f), |f| - ETH_HDR, src)
    ensures out[34..] == old(out[34..])
  {
    hide ReplyEthernet, IpHeader, Rfc1071;
    FillEthernet(o, out, f, mac);
    FillIpFields(o, out, f, src);
    ghost var raw := out[14..34];
    FillField(o, out, 14, 34, IP_SUM);
    FilledIgnoresField(raw, IP_SUM, 0, 0);
    ghost var h, total := IpHeader(f), |f| - ETH_HDR;
    assert raw[10 := 0][11 := 0] ==
      h[..2] + [total / 256, total % 256] + h[4..8] + [INIT_TTL, ICMP_PROTOCOL, 0, 0] + src + h[12..16];
    assert out[..34] == out[..14] + out[14..34];
  }

  lemma FilledIgnoresField(data: seq<byte>, at: nat, b0: byte, b1: byte)
    requires at + 1 < |data|
    ensures Filled(data[at := b0][at + 1 := b1], at) == Filled(data, at)
  {
    assert Zeroed(data[at := b0][at + 1 := b1], at) == Zeroed(data, at);
  }

  lemma ClearedFront(z: seq<byte>, f: seq<byte>)
    requires HEADERS + 4 <= |f| == |z|
    ensures var s := Put(Put(z, 34, f[34..]), 34, [0, 0, 0, 0]);
            |s| == |f| && s[..34] == z[..34] && s[34..] == [0, 0, 0, 0] + Payload(f)[4..]
  {
  }

  /** send_icmp_echo_packet */
  method SendIcmpEcho(o: ByteOrder, f: seq<byte>, mac: Mac, own: Ip4) returns (out: array<byte>)
    requires HEADERS + 4 <= |f| <= MAX_FRAME
    ensures fresh(out) && out[..] == IcmpFrame(f, mac, own, EchoBody(Payload(f)))
  {
    hide ReplyEthernet, ReplyHeader, IpHeader, Rfc1071, Filled, Put;
    out := new byte[|f|];
    FillHeaders(o, out, f, mac, own);
    ghost var made := out[..];
    Copy(out, 34, f[34..]);
    Copy(out, 34, [0, 0, 0, 0]);
    ClearedFront(made, f);
    assert out[34..|f|] == out[..][34..] == [0, 0, 0, 0] + Payload(f)[4..];
    assert out[..34] == out[..][..34] == made[..34];
    FillField(o, out, 34, |f|, ICMP_SUM);
    assert out[..] == out[..34] + out[34..|f|];
  }

  lemma FourStored(z: seq<byte>, kind: byte, code: byte)
    requires HEADERS + 4 <= |z| && forall i | 34 <= i < |z| :: z[i] == 0
    ensures var s := z[34 := kind][35 := code][36 := 0][37 := 0];
            s[..34] == z[..34] && s[34..38] == [kind, code, 0, 0] && s[38..] == Zeros(|z| - 38)
  {
  }

  /** send_icmp_error_packet; null when the frame has no room for the ICMP header, which the
      source then writes past the end of its buffer. */
  method SendIcmpError(o: ByteOrder, f: seq<byte>, mac: Mac, src: Ip4, c: Code) returns (out: array?<byte>)
    requires HEADERS <= |f| <= MAX_FRAME
    ensures out == null <==> |f| < HEADERS + 4
    ensures out != null ==> fresh(out) && out[..] == IcmpFrame(f, mac, src, ErrorBody(c, |f| - HEADERS))
  {
    hide ReplyEthernet, ReplyHeader, IpHeader, Rfc1071, Filled;
    if |f| < HEADERS + 4 { return null; }
    out := new byte[|f|](i => 0);
    FillHeaders(o, out, f, mac, src);
    ghost var made := out[..];
    out[34], out[35], out[36], out[37] := c.kind, c.code, 0, 0;
    FourStored(made, c.kind, c.code);
    ghost var headers := made[..34];
    assert out[..] == made[34 := c.kind][35 := c.code][36 := 0][37 := 0];
    assert out[..34] == out[..][..34] && out[34..38] == out[..][34..38] && out[38..] == out[..][38..];
    FillField(o, out, 34, 38, ICMP_SUM);
    assert out[..] == headers + (out[34..38] + out[38..]);
  }

  // ---------------------------------------------------------------- walks

  /** sr_get_interface */
  method GetInterface(ifs: seq<Iface>, name: string) returns (r: Option<Iface>)
    ensures r == FindIface(ifs, name)
    ensures r.None? <==> forall k | 0 <= k < |ifs| :: ifs[k].name != name
    ensures r.Some? ==> exists k: nat :: FirstNamed(ifs, name, k) && r.value == ifs[k]
  {
    ghost var _ := FindIfaceIsFirst(ifs, name);
    var i := 0;
    while i < |ifs|
      invariant i <= |ifs| && FindIface(ifs[i..], name) == FindIface(ifs, name)
    {
      if ifs[i].name == name { return Some(ifs[i]); }
      assert ifs[i..][1..] == ifs[i + 1..];
      i := i + 1;
    }
    return None;
  }

  /** ip_packet_forwarding */
  method OwnAddress(ifs: seq<Iface>, ip: Ip4) returns (r: Option<Iface>)
    ensures r == Local(ifs, ip)
    ensures r.None? <==> forall k | 0 <= k < |ifs| :: ifs[k].ip != ip
    ensures r.Some? ==> exists k: nat :: FirstOwner(ifs, ip, k) && r.value == ifs[k]
  {
    ghost var _ := LocalIsFirst(ifs, ip);
    var i := 0;
    while i < |ifs|
      invariant i <= |ifs| && Local(ifs[i..], ip) == Local(ifs, ip)
    {
      if ifs[i].ip == ip { return Some(ifs[i]); }
      assert ifs[i..][1..] == ifs[i + 1..];
      i := i + 1;
    }
    return None;
  }

  // ---------------------------------------------------------------- handlers

  method ErrorVerdict(o: ByteOrder, t: Tables, inName: string, p: array<byte>, c: Code, src: Option<Ip4>)
    returns (v: Verdict)
    requires HEADERS <= p.Length <= MAX_FRAME
    ensures v == IcmpError(t, inName, p[..], c, src)
  {
    hide ErrorBody, IcmpFrame, FindIface;
    var i := GetInterface(t.ifaces, inName);
    if i.None? { return Faulty; }
    var out := SendIcmpError(o, p[..], i.value.mac, if src.Some? then src.value else i.value.ip, c);
    return if out == null then Faulty else Reply(out[..]);
  }

  /** sr_ip_packet_reply */
  method ReplyTo(o: ByteOrder, t: Tables, inName: string, p: array<byte>, own: Ip4) returns (v: Verdict)
    requires HEADERS <= p.Length <= MAX_FRAME
    modifies p
    ensures v == ForUs(o, t, inName, old(p[..]), own)
    ensures p[..] == old(p[..])
  {
    hide EchoBody, IcmpFrame, FindIface, IcmpError, Accepts;
    if p[23] == ICMP_PROTOCOL {
      if p.Length < HEADERS + 4 { return Dropped; }
      assert p[34..p.Length] == Payload(p[..]);
      var ok := TestField(o, p, 34, p.Length, ICMP_SUM);
      if !ok { return Dropped; }
      var i := GetInterface(t.ifaces, inName);
      if i.None? { return Faulty; }
      var out := SendIcmpEcho(o, p[..], i.value.mac, own);
      return Reply(out[..]);
    }
    v := ErrorVerdict(o, t, inName, p, PORT_UNREACHABLE, Some(own));
  }

  /** The TTL and checksum rewriting of sr_ip_packet_next_hop: false when the TTL ran out. */
  method TakeHop(o: ByteOrder, p: array<byte>) returns (alive: bool)
    requires HEADERS <= p.Length <= MAX_FRAME
    modifies p
    ensures alive <==> old(p[22]) != 1
    ensures p[..] == if alive then Forwarded(old(p[..])) else old(p[..])[22 := 0]
  {
    hide Rfc1071, Filled;
    ghost var h := IpHeader(p[..]);
    p[22] := Decrement(p[22]);
    alive := p[22] > 0;
    if alive {
      assert p[14..34] == h[8 := Decrement(h[8])];
      ghost var was := p[..];
      FillField(o, p, 14, 34, IP_SUM);
      assert p[..] == p[..14] + p[14..34] + p[34..];
      assert was[..14] == old(p[..])[..14] && was[34..] == old(p[..])[34..];
    }
  }

  /** An ICMP error does not depend on the TTL of the frame it answers. */
  lemma ErrorIgnoresTtl(t: Tables, inName: string, f: seq<byte>, ttl: byte, c: Code, src: Option<Ip4>)
    requires HEADERS <= |f| <= MAX_FRAME
    ensures IcmpError(t, inName, f[22 := ttl], c, src) == IcmpError(t, inName, f, c, src)
  {
    var g := f[22 := ttl];
    var h, h1 := IpHeader(f), IpHeader(g);
    assert h1 == h[8 := ttl];
    assert h1[..2] == h[..2] && h1[4..8] == h[4..8] && h1[12..16] == h[12..16];
    assert g[6..12] == f[6..12];
    hide Filled, IpHeader, FindIface, ErrorBody;
  }

  /** sr_ip_packet_next_hop */
  method NextHopOf(o: ByteOrder, t: Tables, inName: string, p: array<byte>) returns (v: Verdict)
    requires HEADERS <= p.Length <= MAX_FRAME
    modifies p
    ensures v == NextHop(o, t, inName, old(p[..]))
    ensures v.Forward? ==> p[..] == v.frame
    ensures v.Reply? ==> p[..] == old(p[..]) || (old(p[22]) == 1 && p[..] == old(p[..])[22 := 0])
  {
    hide Lpm.Lookup, LoadAddr, IcmpError, Forwarded, FindIface;
    var r := LongestPrefixMatch(t.routes, LoadAddr(o, Dst(p[..])));
    if r.None? {
      v := ErrorVerdict(o, t, inName, p, NET_UNREACHABLE, None);
      return;
    }
    ErrorIgnoresTtl(t, inName, p[..], 0, TIME_EXCEEDED, None);
    var alive := TakeHop(o, p);
    if alive {
      var via := GetInterface(t.ifaces, t.routes[r.value].iface);
      v := if via.None? then Faulty else Forward(t.routes[r.value].gw, p[..], via.value);
    } else {
      v := ErrorVerdict(o, t, inName, p, TIME_EXCEEDED, None);
    }
  }

  /** The IP case of sr_handlepacket, and sr_handle_ip_packet_type. A frame that is
      dropped, also at the header test, is left unchanged. */
  method HandleIp(o: ByteOrder, t: Tables, inName: string, p: array<byte>) returns (v: Verdict)
    requires p.Length <= MAX_FRAME
    modifies p
    ensures v == Decide(o, t, inName, old(p[..]))
    ensures v.Dropped? ==> p[..] == old(p[..])
    ensures v.Forward? ==> p[..] == v.frame
    ensures p.Length > 22 && v.Reply? ==>
              p[..] == old(p[..]) || (old(p[22]) == 1 && p[..] == old(p[..])[22 := 0])
  {
    hide Accepts, ForUs, NextHop, Local;
    if p.Length < HEADERS { return Dropped; }
    assert p[14..34] == IpHeader(p[..]);
    var ok := TestField(o, p, 14, 34, IP_SUM);
    if !ok { return Dropped; }
    var own := OwnAddress(t.ifaces, Dst(p[..]));
    if own.Some? {
      v := ReplyTo(o, t, inName, p, own.value.ip);
    } else {
      v := NextHopOf(o, t, inName, p);
    }
  }
}
