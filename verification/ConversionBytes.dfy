/** What lies on the wire after convert_to_datagram (lab3/ctcp_sys_internal.c), byte by byte:
    the IP header of section 3.1 of RFC 791, the TCP header of section 3.1 of RFC 793 and
    its checksum; and the layout of ctcp_segment_t (lab3/ctcp_sys.h) in memory. */
module ConversionBytes {
  import opened Machine
  import opened Checksum
  import opened Conversion

  /** The number that four bytes stand for, most significant first. */
  function Number(b: seq<byte>): nat
    requires |b| == 4
  {
    (b[0] as int) * 0x100_0000 + (b[1] as int) * 0x1_0000 + (b[2] as int) * 0x100 + b[3]
  }

  lemma NumberOfBytes(x: uint32)
    ensures Number(Bytes32(x)) == x
  {
    FromBytes32Inverse(x);
  }

  /** A value stored after htonl lies in memory most significant byte first. */
  lemma NetworkOrder32(o: ByteOrder, x: uint32)
    ensures Number(Store32(o, Htonl(o, x))) == x
  {
    NumberOfBytes(x);
    if o.LittleEndian? {
      var b := Bytes32(x);
      Bytes32Inverse(b[3], b[2], b[1], b[0]);
    }
  }

  /** And reading it back that way takes htonl. */
  lemma StoredNumber(o: ByteOrder, raw: uint32)
    ensures Number(Store32(o, raw)) == Htonl(o, raw)
  {
    HtonlInvolution(o, raw);
    NetworkOrder32(o, Htonl(o, raw));
  }

  lemma StoredWord(o: ByteOrder, raw: uint16)
    ensures Word(Store16(o, raw)[0], Store16(o, raw)[1]) == Htons(o, raw)
  {
    HtonsInvolution(o, raw);
    NetworkOrder16(o, Htons(o, raw));
  }

  // ---------------------------------------------------------------- the headers

  lemma TcpLayout(o: ByteOrder, h: TcpHeader)
    ensures var b := TcpBytes(o, h);
            && b[0..2] == Store16(o, h.sport) && b[2..4] == Store16(o, h.dport)
            && b[4..8] == Store32(o, h.seqno) && b[8..12] == Store32(o, h.ack)
            && b[12] == h.off && b[13] == h.flags && b[14..16] == Store16(o, h.win)
            && b[16..18] == Store16(o, h.sum) && b[18..20] == Store16(o, h.urp)
  {
    hide Store16, Store32;
  }

  lemma IpLayout(o: ByteOrder, h: IpHeader)
    ensures var b := IpBytes(o, h);
            && b[0] == h.versionIhl && b[1] == h.tos && b[2..4] == Store16(o, h.totLen)
            && b[4..6] == Store16(o, h.id) && b[6..8] == Store16(o, h.fragOff)
            && b[8] == h.ttl && b[9] == h.protocol && b[10..12] == Store16(o, h.check)
            && b[12..16] == Store32(o, h.saddr) && b[16..20] == Store32(o, h.daddr)
  {
    hide Store16, Store32;
  }

  lemma Slice2(b: seq<byte>, i: nat, s: seq<byte>)
    requires i + 2 <= |b| && |s| == 2 && b[i..i + 2] == s
    ensures b[i] == s[0] && b[i + 1] == s[1]
  {
  }

  /** The fields of the two headers. */
  lemma DatagramFields(o: ByteOrder, ipAddr: uint32, port: uint16, dst: Peer, s: Segment, toWeb: bool)
    requires FULL_HDR_SIZE + |s.data| < TWO_16
    ensures var d := ToDatagram(o, ipAddr, port, dst, s, toWeb);
            && d.tcp.sport == Htons(o, port) && d.tcp.dport == Htons(o, dst.port)
            && d.tcp.seqno == Htonl(o, (Htonl(o, s.seqno) + dst.initSeqno) % TWO_32)
            && d.tcp.ack == Htonl(o, (Htonl(o, s.ackno) + dst.theirInitSeqno) % TWO_32)
            && d.tcp.off == 0x50 && d.tcp.win == s.window && d.tcp.urp == 0
            && d.tcp.flags == (if toWeb then OrAck(s.flags % 256) else s.flags % 256)
            && d.ip.versionIhl == 0x45 && d.ip.tos == 0 && d.ip.totLen == Htons(o, 40 + |s.data|)
            && d.ip.id == Htons(o, 144) && d.ip.fragOff == 0 && d.ip.ttl == 64 && d.ip.protocol == 6
            && d.ip.saddr == ipAddr && d.ip.daddr == dst.ipAddr && d.payload == s.data
  {
    hide Htons, Htonl, Rfc1071, IpBytes, CorrectTcp, Correct, OrAck;
  }

  /** The flags f of a header are those of the segment, with the ACK bit set if asked for. */
  predicate WithAck(flags: byte, f: byte, ack: bool) {
    if ack then f / 16 % 2 == 1 && f % 16 == flags % 16 && f / 32 == flags / 32 else f == flags
  }

  lemma OrAckSetsOneBit(flags: byte)
    ensures WithAck(flags, OrAck(flags), true)
  {
  }

  /** The TCP header of a datagram: ports, numbers, data offset, flags, window, urgent
      pointer, at the places of RFC 793. port and dst.port are in host order, the relative
      sequence numbers are what ntohl makes of those in the segment, and the window is
      carried over as it lies in memory. Towards the web the flags byte has the ACK bit besides
      those of the segment. */
  lemma TcpHeaderOnWire(o: ByteOrder, ipAddr: uint32, port: uint16, dst: Peer, s: Segment, toWeb: bool)
    requires FULL_HDR_SIZE + |s.data| < TWO_16
    ensures var b := TcpBytes(o, ToDatagram(o, ipAddr, port, dst, s, toWeb).tcp);
            && b[0] == port / 256 && b[1] == port % 256
            && b[2] == dst.port / 256 && b[3] == dst.port % 256
            && Number(b[4..8]) == (Htonl(o, s.seqno) + dst.initSeqno) % TWO_32
            && Number(b[8..12]) == (Htonl(o, s.ackno) + dst.theirInitSeqno) % TWO_32
            && b[12] == 0x50 && WithAck(s.flags % 256, b[13], toWeb)
            && Word(b[14], b[15]) == Htons(o, s.window) && b[18] == b[19] == 0
  {
    hide Htons, Htonl, Store16, Store32, ToDatagram, TcpBytes, OrAck, Number;
    DatagramFields(o, ipAddr, port, dst, s, toWeb);
    var h := ToDatagram(o, ipAddr, port, dst, s, toWeb).tcp;
    var b := TcpBytes(o, h);
    TcpLayout(o, h);
    OrAckSetsOneBit(s.flags % 256);
    NetworkOrder16(o, port);
    NetworkOrder16(o, dst.port);
    NetworkOrder32(o, (Htonl(o, s.seqno) + dst.initSeqno) % TWO_32);
    NetworkOrder32(o, (Htonl(o, s.ackno) + dst.theirInitSeqno) % TWO_32);
    StoredWord(o, s.window);
    StoredZero(o);
    Slice2(b, 0, [port / 256, port % 256]);
    Slice2(b, 2, [dst.port / 256, dst.port % 256]);
    Slice2(b, 14, Store16(o, s.window));
    Slice2(b, 18, [0, 0]);
  }

  lemma StoredZero(o: ByteOrder)
    ensures Store16(o, 0) == [0, 0]
  {
  }

  lemma IpFieldsOnWire(o: ByteOrder, h: IpHeader, total: uint16, src: uint32, dst: uint32)
    requires h.versionIhl == 0x45 && h.tos == 0 && h.totLen == Htons(o, total) && h.id == Htons(o, 144)
    requires h.fragOff == 0 && h.ttl == 64 && h.protocol == 6 && h.saddr == src && h.daddr == dst
    ensures var b := IpBytes(o, h);
            && b[0] == 0x45 && b[1] == 0 && Word(b[2], b[3]) == total
            && b[4] == 0 && b[5] == 144 && b[6] == b[7] == 0 && b[8] == 64 && b[9] == 6
            && Number(b[12..16]) == Htonl(o, src) && Number(b[16..20]) == Htonl(o, dst)
  {
    hide Htons, Htonl, Store16, Store32, IpBytes, Number;
    var b := IpBytes(o, h);
    IpLayout(o, h);
    NetworkOrder16(o, total);
    NetworkOrder16(o, 144);
    StoredNumber(o, src);
    StoredNumber(o, dst);
    StoredZero(o);
    Slice2(b, 2, [total / 256, total % 256]);
    Slice2(b, 4, [0, 144]);
    Slice2(b, 6, [0, 0]);
  }

  /** The IP header: version and length, total length, identification, no fragments, TTL,
      protocol, addresses, at the places of RFC 791; and its checksum is right. */
  lemma IpHeaderOnWire(o: ByteOrder, ipAddr: uint32, port: uint16, dst: Peer, s: Segment, toWeb: bool)
    requires FULL_HDR_SIZE + |s.data| < TWO_16
    ensures var d := ToDatagram(o, ipAddr, port, dst, s, toWeb);
            var b := IpBytes(o, d.ip);
            && b[0] == 0x45 && b[1] == 0 && Word(b[2], b[3]) == 40 + |s.data|
            && b[4] == 0 && b[5] == 144 && b[6] == b[7] == 0 && b[8] == 64 && b[9] == 6
            && Number(b[12..16]) == Htonl(o, ipAddr) && Number(b[16..20]) == Htonl(o, dst.ipAddr)
            && OnesSum(b) == 0xffff && d.payload == s.data
  {
    IpHeaderIsValid(o, ipAddr, port, dst, s, toWeb);
    hide *;
    DatagramFields(o, ipAddr, port, dst, s, toWeb);
    IpFieldsOnWire(o, ToDatagram(o, ipAddr, port, dst, s, toWeb).ip, 40 + |s.data|, ipAddr, dst.ipAddr);
  }

  // ---------------------------------------------------------------- the TCP checksum

  lemma PseudoParts(o: ByteOrder, d: Datagram, len: nat)
    requires len <= |d.payload| && TCP_HDR_SIZE + len < TWO_16
    ensures PseudoBytes(o, d, len)
         == IpBytes(o, d.ip)[12..20] + [0, 6, (20 + len) / 256, (20 + len) % 256]
            + TcpBytes(o, d.tcp) + d.payload[..len]
  {
    hide Store32, TcpBytes, Htons, Store16, IpBytes;
    IpLayout(o, d.ip);
    NetworkOrder16(o, 20 + len);
    var b := IpBytes(o, d.ip);
    assert b[12..20] == b[12..16] + b[16..20];
    var addrs, t, p := Store32(o, d.ip.saddr) + Store32(o, d.ip.daddr), TcpBytes(o, d.tcp), d.payload[..len];
    assert [0, IPPROTO_TCP] + [(20 + len) / 256, (20 + len) % 256] == [0, 6, (20 + len) / 256, (20 + len) % 256];
    Regroup(addrs, [0, IPPROTO_TCP], [(20 + len) / 256, (20 + len) % 256], t, p);
  }

  lemma Regroup(a: seq<byte>, b: seq<byte>, c: seq<byte>, t: seq<byte>, p: seq<byte>)
    ensures a + b + c + t + p == a + (b + c) + t + p
  {
  }

  /** Filling in what cksum_tcp gives for a zero th_sum makes the sum all ones. */
  lemma PseudoFilled(o: ByteOrder, d: Datagram, len: nat)
    requires len <= |d.payload| && TCP_HDR_SIZE + len < TWO_16 && d.tcp.sum == 0
    ensures OnesSum(PseudoBytes(o, d.(tcp := d.tcp.(sum := CorrectTcp(o, d, len))), len)) == 0xffff
  {
    hide OnesSum, Rfc1071, Htons, PseudoBytes;
    var z := PseudoBytes(o, d, len);
    var c := Rfc1071(z);
    assert d.(tcp := d.tcp.(sum := 0)) == d;
    var full := PseudoBytes(o, d.(tcp := d.tcp.(sum := Htons(o, c))), len);
    NetworkOrder16(o, c);
    SumInPlace(o, d, len, Htons(o, c));
    ZeroField(o, d, len);
    assert Zeroed(z, 28) == z;
    assert full == Filled(z, 28);
    FilledIsAccepted(o, z, 28);
  }

  /** th_sum lies at byte 28 of these. */
  lemma SumInPlace(o: ByteOrder, d: Datagram, len: nat, sum: uint16)
    requires len <= |d.payload| && TCP_HDR_SIZE + len < TWO_16
    ensures PseudoBytes(o, d.(tcp := d.tcp.(sum := sum)), len)
         == PseudoBytes(o, d, len)[28 := Store16(o, sum)[0]][29 := Store16(o, sum)[1]]
  {
    hide Store32, Htons, Store16;
  }

  lemma ZeroField(o: ByteOrder, d: Datagram, len: nat)
    requires len <= |d.payload| && TCP_HDR_SIZE + len < TWO_16 && d.tcp.sum == 0
    ensures PseudoBytes(o, d, len)[28] == 0 && PseudoBytes(o, d, len)[29] == 0
  {
    hide Store32, Htons, Store16;
    StoredZero(o);
  }

  /** A datagram whose th_sum is what cksum_tcp gives. */
  lemma SummedDatagram(o: ByteOrder, d: Datagram)
    requires TCP_HDR_SIZE + |d.payload| < TWO_16 && d.tcp.sum == CorrectTcp(o, d, |d.payload|)
    ensures OnesSum(PseudoBytes(o, d, |d.payload|)) == 0xffff
  {
    hide Rfc1071, Htons, PseudoBytes, OnesSum;
    var bare := d.(tcp := d.tcp.(sum := 0));
    PseudoFilled(o, bare, |d.payload|);
    assert d == bare.(tcp := bare.tcp.(sum := CorrectTcp(o, bare, |d.payload|)));
  }

  lemma NoDifference(correct: uint16, cksum: uint16, own: uint16)
    requires cksum == own
    ensures (correct + (own - cksum)) % TWO_16 == correct
  {
  }

  /** The sum of RFC 793 covers the two addresses, a zero byte, the protocol number, the
      length of header and data, the header and the data. For a segment with the right
      checksum it is all ones, the test of every TCP receiver. */
  lemma TcpChecksumIsValid(o: ByteOrder, ipAddr: uint32, port: uint16, dst: Peer, s: Segment, toWeb: bool)
    requires FULL_HDR_SIZE + |s.data| < TWO_16 && Intact(o, s)
    ensures var d := ToDatagram(o, ipAddr, port, dst, s, toWeb);
            OnesSum(IpBytes(o, d.ip)[12..20] + [0, 6, (20 + |s.data|) / 256, (20 + |s.data|) % 256]
                    + TcpBytes(o, d.tcp) + s.data) == 0xffff
  {
    var d := ToDatagram(o, ipAddr, port, dst, s, toWeb);
    assert s.cksum == Correct(o, s);
    hide *;
    SumSent(o, ipAddr, port, dst, s, toWeb);
    NoDifference(CorrectTcp(o, d, |s.data|), s.cksum, Correct(o, s));
    SummedDatagram(o, d);
    PseudoParts(o, d, |s.data|);
    assert s.data[..|s.data|] == s.data;
  }

  // ---------------------------------------------------------------- the segment in memory

  /** ctcp_segment_t: numbers that were stored with htonl and htons lie most significant byte
      first, at these offsets. */
  lemma SegmentLayout(o: ByteOrder, s: Segment)
    ensures var b := SegmentBytes(o, s);
            && |b| == 20 + |s.data|
            && Number(b[0..4]) == Htonl(o, s.seqno) && Number(b[4..8]) == Htonl(o, s.ackno)
            && Word(b[8], b[9]) == Htons(o, s.len) && Number(b[12..16]) == Htonl(o, s.flags)
            && Word(b[16], b[17]) == Htons(o, s.window) && Word(b[18], b[19]) == Htons(o, s.cksum)
            && b[20..] == s.data
  {
    hide Store16, Store32, Htons, Htonl, SegmentBytes, Number;
    SegmentParts(o, s);
    var b := SegmentBytes(o, s);
    StoredNumber(o, s.seqno);
    StoredNumber(o, s.ackno);
    StoredNumber(o, s.flags);
    StoredWord(o, s.len);
    StoredWord(o, s.window);
    StoredWord(o, s.cksum);
    Slice2(b, 8, Store16(o, s.len));
    Slice2(b, 16, Store16(o, s.window));
    Slice2(b, 18, Store16(o, s.cksum));
  }

  lemma SegmentParts(o: ByteOrder, s: Segment)
    ensures var b := SegmentBytes(o, s);
            && b[0..4] == Store32(o, s.seqno) && b[4..8] == Store32(o, s.ackno) && b[8..10] == Store16(o, s.len)
            && b[12..16] == Store32(o, s.flags) && b[16..18] == Store16(o, s.window)
            && b[18..20] == Store16(o, s.cksum) && b[20..] == s.data
  {
    hide Store16, Store32;
  }
}
