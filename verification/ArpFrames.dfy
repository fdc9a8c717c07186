/** ARP frames of the router: the request that handle_arpreq broadcasts
    (lab1/router/sr_arpcache.c) and what sr_handle_arp_packet_type (sr_router.c) makes of a
    frame of type ARP. Offsets are those of an Ethernet header (14 bytes) and an ARP header
    for IPv4 over Ethernet (28). */
module ArpFrames {
  import opened Machine
  import Arp
  import opened Forwarding
  import opened Router

  const ARP_FRAME := 42
  const BROADCAST_ADDR: Mac := [0xff, 0xff, 0xff, 0xff, 0xff, 0xff]

  /** What becomes of a frame: a binding is learned, an answer is sent, or the C code follows
      the null pointer of an unknown arrival interface. */
  datatype Outcome =
    | Ignored
    | Learned(mac: Mac, ip: Ip4)
    | Answered(frame: seq<byte>)
    | Undefined

  // ---------------------------------------------------------------- frames as byte strings

  function RequestFrame(from: Iface, ip: Ip4): (f: seq<byte>)
    ensures |f| == ARP_FRAME
  {
    BROADCAST_ADDR + from.mac + [8, 6] + [0, 1] + [8, 0] + [6, 4] + [0, 1] + from.mac + from.ip + BROADCAST_ADDR + ip
  }

  function ReplyFrame(at: Iface, f: seq<byte>): (r: seq<byte>)
    requires |f| >= ARP_FRAME
    ensures |r| == |f|
  {
    f[6..12] + at.mac + [8, 6] + f[14..20] + [0, 2] + at.mac + at.ip + f[6..12] + f[28..32] + Zeros(|f| - ARP_FRAME)
  }

  /** The ARP case of sr_handlepacket, and sr_handle_arp_packet_type. */
  function Handle(ifs: seq<Iface>, inName: string, f: seq<byte>): Outcome {
    if |f| < ARP_FRAME then Ignored
    else
      var op := Word(f[20], f[21]);
      if op == 2 then Learned(f[22..28], f[28..32])
      else if op != 1 then Ignored
      else
        match FindIface(ifs, inName)
        case None => Undefined
        case Some(i) => if f[38..42] == i.ip then Answered(ReplyFrame(i, f)) else Ignored
  }

  // ---------------------------------------------------------------- the code

  lemma PutExtends(s: seq<byte>, at: nat, src: seq<byte>)
    requires at + |src| <= |s|
    ensures Put(s, at, src)[..at + |src|] == s[..at] + src && Put(s, at, src)[at + |src|..] == s[at + |src|..]
  {
  }

  /** The buffer starts with front and ends with back. */
  ghost predicate Holds(s: seq<byte>, front: seq<byte>, back: seq<byte>) {
    |front| <= |s| && s[..|front|] == front && |back| <= |s| && s[|s| - |back|..] == back
  }

  lemma HoldsMore(s: seq<byte>, front: seq<byte>, src: seq<byte>, back: seq<byte>)
    requires Holds(s, front, back) && |front| + |src| + |back| <= |s|
    ensures Holds(Put(s, |front|, src), front + src, back)
  {
    var t, n := Put(s, |front|, src), |s| - |back|;
    PutExtends(s, |front|, src);
    hide Put;
    var k := |front| + |src|;
    assert t[n..] == t[k..][n - k..] && s[n..] == s[k..][n - k..];
  }

  /** A copy behind what is already in place. */
  method CopyNext(out: array<byte>, src: seq<byte>, ghost front: seq<byte>, at: nat, ghost back: seq<byte>)
    returns (ghost next: seq<byte>)
    requires Holds(out[..], front, back) && at == |front| && at + |src| + |back| <= out.Length
    modifies out
    ensures next == front + src && Holds(out[..], next, back)
  {
    hide Put, Holds;
    HoldsMore(out[..], front, src, back);
    Copy(out, at, src);
    next := front + src;
  }

  lemma HoldsNothing(s: seq<byte>, back: seq<byte>)
    requires |back| <= |s| && s[|s| - |back|..] == back
    ensures Holds(s, [], back)
  {
  }

  lemma HoldsAll(s: seq<byte>, front: seq<byte>, back: seq<byte>)
    requires Holds(s, front, back) && |front| + |back| == |s|
    ensures s == front + back
  {
  }

  /** Only the first part of what was copied is kept. */
  lemma HoldsPart(s: seq<byte>, front: seq<byte>, part: seq<byte>, back: seq<byte>)
    requires Holds(s, front, back) && part <= front
    ensures Holds(s, part, back)
  {
    assert s[..|part|] == s[..|front|][..|part|];
  }

  lemma ZeroBuffer(s: seq<byte>, back: seq<byte>)
    requires |back| <= |s| && back == Zeros(|back|) && forall i | 0 <= i < |s| :: s[i] == 0
    ensures Holds(s, [], back)
  {
  }

  /** The Ethernet header of an ARP frame. */
  method StartFrame(o: ByteOrder, out: array<byte>, dst: Mac, src: Mac, ghost back: seq<byte>)
    returns (ghost next: seq<byte>)
    requires Holds(out[..], [], back) && ARP_FRAME + |back| <= out.Length
    modifies out
    ensures next == dst + src + [8, 6] && Holds(out[..], next, back)
  {
    hide Htons, Store16, Holds;
    NetworkOrder16(o, 0x0806);
    next := CopyNext(out, dst, [], 0, back);
    next := CopyNext(out, src, next, 6, back);
    next := CopyNext(out, Store16(o, Htons(o, 0x0806)), next, 12, back);
  }

  /** Sender and target in the ARP header. */
  method EndFrame(out: array<byte>, sha: Mac, sip: Ip4, tha: Mac, tip: Ip4,
                  ghost front: seq<byte>, ghost back: seq<byte>)
    requires Holds(out[..], front, back) && |front| == 22 && ARP_FRAME + |back| == out.Length
    modifies out
    ensures out[..] == front + sha + sip + tha + tip + back
  {
    hide Holds;
    ghost var p := CopyNext(out, sha, front, 22, back);
    p := CopyNext(out, sip, p, 28, back);
    p := CopyNext(out, tha, p, 32, back);
    p := CopyNext(out, tip, p, 38, back);
    HoldsAll(out[..], p, back);
  }

  /** Formats and operation of the request. */
  method Formats(o: ByteOrder, out: array<byte>, ghost front: seq<byte>)
    requires Holds(out[..], front, []) && |front| == 14 && out.Length == ARP_FRAME
    modifies out
    ensures Holds(out[..], front + [0, 1] + [8, 0] + [6, 4] + [0, 1], [])
  {
    hide Htons, Store16, Holds;
    NetworkOrder16(o, 1);
    NetworkOrder16(o, 0x0800);
    ghost var p := CopyNext(out, Store16(o, Htons(o, 1)), front, 14, []);
    p := CopyNext(out, Store16(o, Htons(o, 0x0800)), p, 16, []);
    p := CopyNext(out, [6, 4], p, 18, []);
    p := CopyNext(out, Store16(o, Htons(o, 1)), p, 20, []);
  }

  /** The request of handle_arpreq. */
  method BuildRequest(o: ByteOrder, from: Iface, ip: Ip4) returns (out: array<byte>)
    ensures fresh(out) && out[..] == RequestFrame(from, ip)
  {
    hide Holds;
    out := new byte[ARP_FRAME];
    HoldsNothing(out[..], []);
    ghost var p := StartFrame(o, out, BROADCAST_ADDR, from.mac, []);
    Formats(o, out, p);
    EndFrame(out, from.mac, from.ip, BROADCAST_ADDR, ip, p + [0, 1] + [8, 0] + [6, 4] + [0, 1], []);
  }

  /** The ARP header as it came, then the operation; the rest of it is still to be written. */
  method CopyHeader(o: ByteOrder, out: array<byte>, f: seq<byte>, ghost front: seq<byte>, ghost back: seq<byte>)
    returns (ghost next: seq<byte>)
    requires Holds(out[..], front, back) && |front| == 14 && |f| >= ARP_FRAME && ARP_FRAME + |back| == out.Length
    modifies out
    ensures next == front + f[14..20] + [0, 2] && Holds(out[..], next, back)
  {
    hide Htons, Store16, Holds;
    NetworkOrder16(o, 2);
    ghost var p := CopyNext(out, f[14..42], front, 14, back);
    assert front + f[14..20] <= p by { assert f[14..42][..6] == f[14..20]; }
    HoldsPart(out[..], p, front + f[14..20], back);
    next := CopyNext(out, Store16(o, Htons(o, 2)), front + f[14..20], 20, back);
  }

  /** The answer, in a zeroed buffer as long as the request; the ARP header is copied over and
      its changed fields are then written. */
  method BuildReply(o: ByteOrder, at: Iface, f: seq<byte>) returns (out: array<byte>)
    requires |f| >= ARP_FRAME
    ensures fresh(out) && out[..] == ReplyFrame(at, f)
  {
    hide Holds, Zeros;
    out := new byte[|f|](i => 0);
    ghost var back := Zeros(|f| - ARP_FRAME);
    ZeroBuffer(out[..], back);
    ghost var p := StartFrame(o, out, f[6..12], at.mac, back);
    p := CopyHeader(o, out, f, p, back);
    EndFrame(out, at.mac, at.ip, f[6..12], f[28..32], p, back);
  }

  /** sr_handle_arp_packet_type */
  method HandleArp(o: ByteOrder, ifs: seq<Iface>, inName: string, f: seq<byte>) returns (r: Outcome)
    ensures r == Handle(ifs, inName, f)
  {
    hide ReplyFrame;
    if |f| < ARP_FRAME { return Ignored; }
    var at := GetInterface(ifs, inName);
    var op := Htons(o, Load16(o, f[20], f[21]));
    OpIsWord(o, f[20], f[21]);
    if op == 2 { return Learned(f[22..28], f[28..32]); }
    if op != 1 { return Ignored; }
    if at.None? { return Undefined; }
    if f[38..42] != at.value.ip { return Ignored; }
    var out := BuildReply(o, at.value, f);
    return Answered(out[..]);
  }

  lemma OpIsWord(o: ByteOrder, b0: byte, b1: byte)
    ensures Htons(o, Load16(o, b0, b1)) == Word(b0, b1)
  {
  }

  // ---------------------------------------------------------------- what the bytes mean

  /** The request goes to everyone, from the sending interface, and asks for the address. */
  lemma RequestBytes(from: Iface, ip: Ip4)
    ensures var f := RequestFrame(from, ip);
            && f[0..6] == [0xff, 0xff, 0xff, 0xff, 0xff, 0xff] && f[6..12] == from.mac && f[12..14] == [8, 6]
            && f[14..20] == [0, 1, 8, 0, 6, 4] && f[20..22] == [0, 1]
            && f[22..28] == from.mac && f[28..32] == from.ip && f[38..42] == ip
  {
  }

  /** The answer goes back to where the request came from, and gives the MAC address that the
      arrival interface has for the address that was asked for. */
  lemma ReplyBytes(ifs: seq<Iface>, inName: string, f: seq<byte>, k: nat)
    requires FirstNamed(ifs, inName, k) && |f| >= 42 && f[20] == 0 && f[21] == 1
    ensures Handle(ifs, inName, f).Answered? <==> f[38..42] == ifs[k].ip
    ensures f[38..42] == ifs[k].ip ==>
              var r := Handle(ifs, inName, f).frame;
              && |r| == |f| && r[0..6] == f[6..12] && r[6..12] == ifs[k].mac && r[12..14] == [8, 6]
              && r[14..20] == f[14..20] && r[20..22] == [0, 2] && r[22..28] == ifs[k].mac && r[28..32] == f[38..42]
              && r[32..38] == f[6..12] && r[38..42] == f[28..32] && forall i | 42 <= i < |r| :: r[i] == 0
  {
    var n := FindIfaceIsFirst(ifs, inName);
    assert n == k;
    hide FindIface, FirstNamed, Named;
    ReplySlices(ifs[k], f);
  }

  lemma ReplySlices(at: Iface, f: seq<byte>)
    requires |f| >= 42
    ensures var r := ReplyFrame(at, f);
            && |r| == |f| && r[0..6] == f[6..12] && r[6..12] == at.mac && r[12..14] == [8, 6]
            && r[14..20] == f[14..20] && r[20..22] == [0, 2] && r[22..28] == at.mac && r[28..32] == at.ip
            && r[32..38] == f[6..12] && r[38..42] == f[28..32] && forall i | 42 <= i < |r| :: r[i] == 0
  {
  }

  /** A request that reaches the interface with the address is answered, and the answer makes
      any router that gets it learn exactly this binding. */
  lemma RequestIsAnswered(from: Iface, ip: Ip4, ifs: seq<Iface>, inName: string, k: nat,
                          ifs1: seq<Iface>, inName1: string)
    requires FirstNamed(ifs, inName, k) && ifs[k].ip == ip
    ensures var v := Handle(ifs, inName, RequestFrame(from, ip));
            v.Answered? && v.frame[0..6] == from.mac && Handle(ifs1, inName1, v.frame) == Learned(ifs[k].mac, ip)
  {
    var f := RequestFrame(from, ip);
    RequestBytes(from, ip);
    assert f[20] == f[20..22][0] && f[21] == f[20..22][1];
    hide RequestFrame;
    ReplyBytes(ifs, inName, f, k);
    var r := Handle(ifs, inName, f).frame;
    assert r[20] == r[20..22][0] && r[21] == r[20..22][1];
  }

  /** And then the frames that waited for the address, key in the request queue, leave by the
      interface that asked, to the MAC address that was asked for. */
  lemma WaitingFramesLeave(s: Arp.State, from: Iface, ip: Ip4, key: uint32, now: int,
                           ifs: seq<Iface>, inName: string, k: nat, ifs1: seq<Iface>, inName1: string)
    requires FirstNamed(ifs, inName, k) && ifs[k].ip == ip
    requires Arp.FindIp(s.requests, key) < |s.requests|
    ensures var answer := Handle(ifs, inName, RequestFrame(from, ip));
            && answer.Answered?
            && var learned := Handle(ifs1, inName1, answer.frame);
               && learned.Learned?
               && var s1 := Arp.Reply(s, key, learned.mac, Arp.Port(from.name, from.mac), now);
                  var waiting := s.requests[Arp.FindIp(s.requests, key)].packets;
                  && |s1.sent| == |s.sent| + |waiting|
                  && forall n | 0 <= n < |waiting| ::
                       Arp.LeavesAs(s1.sent[|s.sent| + n].buf, waiting[n].buf, ifs[k].mac, from.mac)
  {
    RequestIsAnswered(from, ip, ifs, inName, k, ifs1, inName1);
    hide Handle, RequestFrame, Arp.Addressed, Arp.LeavesAs, FirstNamed;
    var waiting := s.requests[Arp.FindIp(s.requests, key)].packets;
    forall n | 0 <= n < |waiting|
      ensures Arp.LeavesAs(Arp.Addressed(waiting[n].buf, ifs[k].mac, from.mac), waiting[n].buf, ifs[k].mac, from.mac)
    {
      Arp.AddressedLeaves(waiting[n].buf, ifs[k].mac, from.mac);
    }
  }
}
