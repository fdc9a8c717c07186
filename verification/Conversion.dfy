/** Conversion between cTCP segments and IP datagrams: convert_to_datagram and
    convert_to_ctcp of lab3/ctcp_sys_internal.c over cksum_tcp, create_datagram and
    flipbit of ctcp_sys_internal.h.

    Multi-byte fields hold the raw value of the C struct member, so the same wire bytes
    are a different number on hosts of different byte order; the results hold for both. */
module Conversion {
  import opened Machine
  import opened Checksum

  const CTCP_HDR_SIZE := 20
  const IP_HDR_SIZE := 20
  const TCP_HDR_SIZE := 20
  const FULL_HDR_SIZE := 40
  const CKSUM_AT := 18
  const TH_ACK := 0x10
  const IPPROTO_TCP := 6

  /** ctcp_segment_t; pad0 and pad1 are the bytes the compiler puts before flags. */
  datatype Segment = Segment(
    seqno: uint32, ackno: uint32, len: uint16, pad0: byte, pad1: byte,
    flags: uint32, window: uint16, cksum: uint16, data: seq<byte>)

  datatype IpHeader = IpHeader(
    versionIhl: byte, tos: byte, totLen: uint16, id: uint16, fragOff: uint16,
    ttl: byte, protocol: byte, check: uint16, saddr: uint32, daddr: uint32)

  datatype TcpHeader = TcpHeader(
    sport: uint16, dport: uint16, seqno: uint32, ack: uint32, off: byte,
    flags: byte, win: uint16, sum: uint16, urp: uint16)

  datatype Datagram = Datagram(ip: IpHeader, tcp: TcpHeader, payload: seq<byte>)

  /** The parts of conn_t and of the configuration that conversion needs. */
  datatype Peer = Peer(ipAddr: uint32, port: uint16, initSeqno: uint32, theirInitSeqno: uint32)

  // ---------------------------------------------------------------- memory layout

  function SegmentBytes(o: ByteOrder, s: Segment): (b: seq<byte>)
    ensures |b| == CTCP_HDR_SIZE + |s.data|
  {
    Store32(o, s.seqno) + Store32(o, s.ackno) + Store16(o, s.len) + [s.pad0, s.pad1]
      + Store32(o, s.flags) + Store16(o, s.window) + Store16(o, s.cksum) + s.data
  }

  function Load32(o: ByteOrder, b: seq<byte>): uint32
    requires |b| == 4
  {
    if o.LittleEndian? then FromBytes32(b[3], b[2], b[1], b[0]) else FromBytes32(b[0], b[1], b[2], b[3])
  }

  /** The segment that a piece of memory holds. */
  function SegmentIn(o: ByteOrder, b: seq<byte>): Segment
    requires |b| >= CTCP_HDR_SIZE
  {
    Segment(Load32(o, b[0..4]), Load32(o, b[4..8]), Load16(o, b[8], b[9]), b[10], b[11],
            Load32(o, b[12..16]), Load16(o, b[16], b[17]), Load16(o, b[18], b[19]), b[20..])
  }

  function IpBytes(o: ByteOrder, h: IpHeader): (b: seq<byte>)
    ensures |b| == IP_HDR_SIZE
  {
    [h.versionIhl, h.tos] + Store16(o, h.totLen) + Store16(o, h.id) + Store16(o, h.fragOff)
      + [h.ttl, h.protocol] + Store16(o, h.check) + Store32(o, h.saddr) + Store32(o, h.daddr)
  }

  function TcpBytes(o: ByteOrder, h: TcpHeader): (b: seq<byte>)
    ensures |b| == TCP_HDR_SIZE
  {
    Store16(o, h.sport) + Store16(o, h.dport) + Store32(o, h.seqno) + Store32(o, h.ack)
      + [h.off, h.flags] + Store16(o, h.win) + Store16(o, h.sum) + Store16(o, h.urp)
  }

  /** The pseudoheader, TCP header and data that the TCP checksum covers. */
  function PseudoBytes(o: ByteOrder, d: Datagram, len: nat): (b: seq<byte>)
    requires len <= |d.payload| && TCP_HDR_SIZE + len < TWO_16
    ensures |b| == 12 + TCP_HDR_SIZE + len
  {
    Store32(o, d.ip.saddr) + Store32(o, d.ip.daddr) + [0, IPPROTO_TCP]
      + Store16(o, Htons(o, TCP_HDR_SIZE + len)) + TcpBytes(o, d.tcp) + d.payload[..len]
  }

  // ---------------------------------------------------------------- the conversions

  /** The checksum a segment should carry. */
  function Correct(o: ByteOrder, s: Segment): uint16 {
    Htons(o, Rfc1071(SegmentBytes(o, s.(cksum := 0))))
  }

  /** How far the checksum it does carry is off. */
  function Error(o: ByteOrder, s: Segment): uint16 {
    (s.cksum - Correct(o, s)) % TWO_16
  }

  /** cksum_tcp of a datagram whose th_sum is taken as zero. */
  function CorrectTcp(o: ByteOrder, d: Datagram, len: nat): uint16
    requires len <= |d.payload| && TCP_HDR_SIZE + len < TWO_16
  {
    Htons(o, Rfc1071(PseudoBytes(o, d.(tcp := d.tcp.(sum := 0)), len)))
  }

  function OrAck(flags: byte): byte {
    if flags / TH_ACK % 2 == 1 then flags else flags + TH_ACK
  }

  /** create_datagram with len bytes of payload. */
  function EmptyDatagram(o: ByteOrder, src: uint32, dst: uint32, len: nat): Datagram
    requires TCP_HDR_SIZE <= len && IP_HDR_SIZE + len < TWO_16
  {
    var ip := IpHeader(0x45, 0, Htons(o, IP_HDR_SIZE + len), Htons(o, 144), 0, 64, IPPROTO_TCP, 0, src, dst);
    var payload := seq(len - TCP_HDR_SIZE, i => 0);
    Datagram(ip.(check := Htons(o, Rfc1071(IpBytes(o, ip)))), TcpHeader(0, 0, 0, 0, 0, 0, 0, 0, 0), payload)
  }

  /** The TCP header of convert_to_datagram before its checksum is known. */
  function TcpFields(o: ByteOrder, port: uint16, dst: Peer, s: Segment, toWeb: bool): TcpHeader {
    var flags := s.flags % 256;
    TcpHeader(
      Htons(o, port), Htons(o, dst.port),
      Htonl(o, (Htonl(o, s.seqno) + dst.initSeqno) % TWO_32),
      Htonl(o, (Htonl(o, s.ackno) + dst.theirInitSeqno) % TWO_32),
      0x50, if toWeb then OrAck(flags) else flags, s.window, 0, 0)
  }

  /** convert_to_datagram */
  function ToDatagram(o: ByteOrder, ipAddr: uint32, port: uint16, dst: Peer, s: Segment, toWeb: bool): Datagram
    requires FULL_HDR_SIZE + |s.data| < TWO_16
  {
    var tcp := TcpFields(o, port, dst, s, toWeb);
    var d := EmptyDatagram(o, ipAddr, dst.ipAddr, TCP_HDR_SIZE + |s.data|).(tcp := tcp, payload := s.data);
    d.(tcp := tcp.(sum := (CorrectTcp(o, d, |s.data|) + (Correct(o, s) - s.cksum)) % TWO_16))
  }

  function DataLength(o: ByteOrder, d: Datagram): uint16 {
    (Htons(o, d.ip.totLen) - FULL_HDR_SIZE) % TWO_16
  }

  /** The total length covers both headers and no more than the payload there is. */
  predicate WellFormed(o: ByteOrder, d: Datagram) {
    FULL_HDR_SIZE <= Htons(o, d.ip.totLen) <= FULL_HDR_SIZE + |d.payload|
  }

  /** convert_to_ctcp */
  function ToCtcp(o: ByteOrder, src: Peer, d: Datagram): Segment
    requires WellFormed(o, d)
  {
    var n := DataLength(o, d);
    var s := Segment(
      Htonl(o, (Htonl(o, d.tcp.seqno) - src.theirInitSeqno) % TWO_32),
      Htonl(o, (Htonl(o, d.tcp.ack) - src.initSeqno) % TWO_32),
      Htons(o, n + CTCP_HDR_SIZE), 0, 0, d.tcp.flags, d.tcp.win, 0, d.payload[..n]);
    s.(cksum := (Correct(o, s) + (CorrectTcp(o, d, n) - d.tcp.sum)) % TWO_16)
  }

  // ---------------------------------------------------------------- round trip

  /** Two ends of one connection. */
  predicate Mirrored(here: Peer, there: Peer) {
    here.initSeqno == there.theirInitSeqno && here.theirInitSeqno == there.initSeqno
  }

  lemma Offset32(x: uint32, offset: uint32)
    ensures ((x + offset) % TWO_32 - offset) % TWO_32 == x
  {
  }

  lemma SeqnoRoundTrip(o: ByteOrder, raw: uint32, offset: uint32)
    ensures Htonl(o, (Htonl(o, Htonl(o, (Htonl(o, raw) + offset) % TWO_32)) - offset) % TWO_32) == raw
  {
    hide Htonl;
    HtonlInvolution(o, (Htonl(o, raw) + offset) % TWO_32);
    Offset32(Htonl(o, raw), offset);
    HtonlInvolution(o, raw);
  }

  lemma LengthRoundTrip(o: ByteOrder, ipAddr: uint32, port: uint16, dst: Peer, s: Segment, toWeb: bool)
    requires FULL_HDR_SIZE + |s.data| < TWO_16
    ensures var d := ToDatagram(o, ipAddr, port, dst, s, toWeb);
            WellFormed(o, d) && DataLength(o, d) == |s.data| && d.payload == s.data
  {
    hide Htonl, Rfc1071, Htons, CorrectTcp, Correct;
    HtonsInvolution(o, FULL_HDR_SIZE + |s.data|);
  }

  lemma DifferenceCarried(correct: int, cksum: int, tcp: int, correct1: int)
    ensures ((correct1 + (tcp - (tcp + (correct - cksum)) % TWO_16)) % TWO_16 - correct1) % TWO_16
         == (cksum - correct) % TWO_16
  {
    var q := (tcp + (correct - cksum)) / TWO_16;
    assert (tcp + (correct - cksum)) % TWO_16 == tcp + correct - cksum - q * TWO_16;
    var x := correct1 + cksum - correct;
    assert correct1 + (tcp - (tcp + (correct - cksum)) % TWO_16) == x + q * TWO_16;
    MultipleDrops(x, q);
    MultipleDrops(cksum - correct, -(x / TWO_16));
    assert x % TWO_16 - correct1 == (cksum - correct) + (-(x / TWO_16)) * TWO_16;
  }

  lemma MultipleDrops(x: int, k: int)
    ensures (x + k * TWO_16) % TWO_16 == x % TWO_16
  {
    assert x == x / TWO_16 * TWO_16 + x % TWO_16;
    assert x + k * TWO_16 == (x / TWO_16 + k) * TWO_16 + x % TWO_16;
  }

  lemma TcpFieldsSent(o: ByteOrder, ipAddr: uint32, port: uint16, dst: Peer, s: Segment, toWeb: bool)
    requires FULL_HDR_SIZE + |s.data| < TWO_16
    ensures var h := ToDatagram(o, ipAddr, port, dst, s, toWeb).tcp;
            && h.seqno == Htonl(o, (Htonl(o, s.seqno) + dst.initSeqno) % TWO_32)
            && h.ack == Htonl(o, (Htonl(o, s.ackno) + dst.theirInitSeqno) % TWO_32)
            && h.win == s.window && h.flags == (if toWeb then OrAck(s.flags % 256) else s.flags % 256)
  {
    hide Htonl, Htons, Rfc1071, CorrectTcp, Correct, OrAck;
  }

  lemma SumSent(o: ByteOrder, ipAddr: uint32, port: uint16, dst: Peer, s: Segment, toWeb: bool)
    requires FULL_HDR_SIZE + |s.data| < TWO_16
    ensures var d := ToDatagram(o, ipAddr, port, dst, s, toWeb);
            && d.payload == s.data
            && d.tcp.sum == (CorrectTcp(o, d, |s.data|) + (Correct(o, s) - s.cksum)) % TWO_16
  {
    hide Htonl, Htons, Correct, PseudoBytes, Rfc1071;
  }

  lemma SumReceived(o: ByteOrder, src: Peer, d: Datagram)
    requires WellFormed(o, d)
    ensures var r, n := ToCtcp(o, src, d), DataLength(o, d);
            && n <= |d.payload| && TCP_HDR_SIZE + n < TWO_16
            && r.cksum == (Correct(o, r) + (CorrectTcp(o, d, n) - d.tcp.sum)) % TWO_16
  {
    hide Htonl, SegmentBytes, PseudoBytes, Rfc1071;
  }

  /** Converting a segment at one end and back at the other restores sequence numbers,
      window, data and length, and the low eight flag bits with ACK added for the web; and
      whatever happens to the flags, the checksum is off by exactly as much as before, so a
      right one stays right and a wrong one stays wrong. */
  lemma ConversionRoundTrip(o: ByteOrder, ipAddr: uint32, port: uint16, dst: Peer, src: Peer, s: Segment, toWeb: bool)
    requires FULL_HDR_SIZE + |s.data| < TWO_16 && Mirrored(dst, src)
    ensures var d := ToDatagram(o, ipAddr, port, dst, s, toWeb);
            && WellFormed(o, d)
            && var r := ToCtcp(o, src, d);
               && r.seqno == s.seqno && r.ackno == s.ackno && r.window == s.window && r.data == s.data
               && r.len == Htons(o, CTCP_HDR_SIZE + |s.data|)
               && r.flags == (if toWeb then OrAck(s.flags % 256) else s.flags % 256)
               && Error(o, r) == Error(o, s)
  {
    hide ToDatagram, Correct, CorrectTcp, Htons, Htonl, OrAck, WellFormed, DataLength;
    var d := ToDatagram(o, ipAddr, port, dst, s, toWeb);
    LengthRoundTrip(o, ipAddr, port, dst, s, toWeb);
    TcpFieldsSent(o, ipAddr, port, dst, s, toWeb);
    SeqnoRoundTrip(o, s.seqno, dst.initSeqno);
    SeqnoRoundTrip(o, s.ackno, dst.theirInitSeqno);
    assert s.data[..|s.data|] == s.data;
    SumSent(o, ipAddr, port, dst, s, toWeb);
    SumReceived(o, src, d);
    DifferenceCarried(Correct(o, s), s.cksum, CorrectTcp(o, d, |s.data|), Correct(o, ToCtcp(o, src, d)));
  }

  /** Bytes behind the total length, such as Ethernet padding, make no difference. */
  lemma PaddingIgnored(o: ByteOrder, src: Peer, d: Datagram, padding: seq<byte>)
    requires WellFormed(o, d)
    ensures var longer := d.(payload := d.payload + padding);
            WellFormed(o, longer) && ToCtcp(o, src, longer) == ToCtcp(o, src, d)
  {
    hide Htonl, Htons, Rfc1071, SegmentBytes, PseudoBytes, Correct;
    var longer, n := d.(payload := d.payload + padding), DataLength(o, d);
    assert longer.payload[..n] == d.payload[..n];
    SamePseudo(o, d, longer, n);
  }

  lemma SamePseudo(o: ByteOrder, d: Datagram, longer: Datagram, n: nat)
    requires n <= |d.payload| && n <= |longer.payload| && TCP_HDR_SIZE + n < TWO_16
    requires longer.ip == d.ip && longer.tcp == d.tcp && longer.payload[..n] == d.payload[..n]
    ensures CorrectTcp(o, longer, n) == CorrectTcp(o, d, n)
  {
    hide Htons, Rfc1071, Store32, TcpBytes;
  }

  // ---------------------------------------------------------------- corruption

  lemma Load32Inverse(o: ByteOrder, b: seq<byte>)
    requires |b| == 4
    ensures Store32(o, Load32(o, b)) == b
  {
    if o.LittleEndian? { Bytes32Inverse(b[3], b[2], b[1], b[0]); } else { Bytes32Inverse(b[0], b[1], b[2], b[3]); }
  }

  lemma Load16Inverse(o: ByteOrder, b0: byte, b1: byte)
    ensures Store16(o, Load16(o, b0, b1)) == [b0, b1]
  {
  }

  /** Memory and struct fields are two views of the same segment. */
  lemma LayoutInverse(o: ByteOrder, b: seq<byte>)
    requires |b| >= CTCP_HDR_SIZE
    ensures SegmentBytes(o, SegmentIn(o, b)) == b
  {
    hide Store16, Load16, Load32, Store32;
    Load32Inverse(o, b[0..4]);
    Load32Inverse(o, b[4..8]);
    Load32Inverse(o, b[12..16]);
    Load16Inverse(o, b[8], b[9]);
    Load16Inverse(o, b[16], b[17]);
    Load16Inverse(o, b[18], b[19]);
  }

  /** The receiver's full-length checksum test. */
  predicate Intact(o: ByteOrder, s: Segment) {
    s.cksum == Correct(o, s)
  }

  lemma IntactIsAccepted(o: ByteOrder, s: Segment)
    ensures Intact(o, s) <==> Accepts(o, SegmentBytes(o, s), CKSUM_AT)
  {
    var b, z := SegmentBytes(o, s), SegmentBytes(o, s.(cksum := 0));
    hide Rfc1071, Store32;
    assert b[18..20] == Store16(o, s.cksum);
    assert b[18] == Store16(o, s.cksum)[0] && b[19] == Store16(o, s.cksum)[1];
    LoadStore16(o, s.cksum);
    assert Zeroed(b, CKSUM_AT) == z;
  }

  /** flipbit on a segment in memory. */
  function Corrupted(o: ByteOrder, s: Segment, bit: nat): Segment
    requires bit < 8 * (CTCP_HDR_SIZE + |s.data|)
  {
    SegmentIn(o, Flip(SegmentBytes(o, s), bit))
  }

  /** A single inverted bit turns an accepted byte string into a rejected one. */
  lemma FlipRejected(o: ByteOrder, data: seq<byte>, at: nat, bit: nat)
    requires at % 2 == 0 && at + 1 < |data| && bit < 8 * |data| && Accepts(o, data, at)
    ensures !Accepts(o, Flip(data, bit), at)
  {
    hide Accepts, Flip, Rfc1071, OnesSum, WordSum;
    AcceptsIffAllOnes(o, data, at);
    AcceptsIffAllOnes(o, Flip(data, bit), at);
    FlipChangesChecksum(data, bit);
    AllOnesChecksum(data);
    AllOnesChecksum(Flip(data, bit));
  }

  lemma AllOnesChecksum(data: seq<byte>)
    ensures OnesSum(data) == 0xffff ==> Rfc1071(data) == 0xffff
  {
  }

  /** Whichever bit of an intact segment flipbit inverts, the result is not intact; and a
      bit of the window, the checksum or the data, which conversion carries over, is still
      detected by the full-length test after conversion at the other end. */
  lemma CorruptionDetected(o: ByteOrder, ipAddr: uint32, port: uint16, dst: Peer, src: Peer,
                           s: Segment, bit: nat, toWeb: bool)
    requires FULL_HDR_SIZE + |s.data| < TWO_16 && Mirrored(dst, src)
    requires Intact(o, s) && bit < 8 * (CTCP_HDR_SIZE + |s.data|)
    ensures var c := Corrupted(o, s, bit);
            && !Intact(o, c) && |c.data| == |s.data|
            && var d := ToDatagram(o, ipAddr, port, dst, c, toWeb);
               WellFormed(o, d) && !Intact(o, ToCtcp(o, src, d))
  {
    var c := Corrupted(o, s, bit);
    hide Accepts, ToDatagram, ToCtcp, Correct, Flip, WellFormed, SegmentBytes, SegmentIn;
    IntactIsAccepted(o, s);
    FlipRejected(o, SegmentBytes(o, s), CKSUM_AT, bit);
    LayoutInverse(o, Flip(SegmentBytes(o, s), bit));
    IntactIsAccepted(o, c);
    CorruptedSize(o, s, bit);
    ConversionRoundTrip(o, ipAddr, port, dst, src, c, toWeb);
    IntactIffNoError(o, c);
    IntactIffNoError(o, ToCtcp(o, src, ToDatagram(o, ipAddr, port, dst, c, toWeb)));
  }

  lemma CorruptedSize(o: ByteOrder, s: Segment, bit: nat)
    requires bit < 8 * (CTCP_HDR_SIZE + |s.data|)
    ensures |Corrupted(o, s, bit).data| == |s.data|
  {
  }

  lemma IntactIffNoError(o: ByteOrder, s: Segment)
    ensures Intact(o, s) <==> Error(o, s) == 0
  {
    hide Correct;
  }

  // ---------------------------------------------------------------- the buffers

  class SegmentBuffer {
    var seqno: uint32
    var ackno: uint32
    var len: uint16
    var pad0: byte
    var pad1: byte
    var flags: uint32
    var window: uint16
    var cksum: uint16
    var data: seq<byte>

    /** calloc for a segment with n bytes of data. */
    constructor (n: nat)
      ensures View() == Segment(0, 0, 0, 0, 0, 0, 0, 0, seq(n, i => 0))
    {
      seqno, ackno, len, pad0, pad1, flags, window, cksum := 0, 0, 0, 0, 0, 0, 0, 0;
      data := seq(n, i => 0);
    }

    function View(): Segment
      reads this
    {
      Segment(seqno, ackno, len, pad0, pad1, flags, window, cksum, data)
    }
  }

  class DatagramBuffer {
    var ip: IpHeader
    var tcp: TcpHeader
    var payload: seq<byte>

    function View(): Datagram
      reads this
    {
      Datagram(ip, tcp, payload)
    }

    /** create_datagram */
    constructor (o: ByteOrder, src: uint32, dst: uint32, len: nat)
      requires TCP_HDR_SIZE <= len && IP_HDR_SIZE + len < TWO_16
      ensures View() == EmptyDatagram(o, src, dst, len)
    {
      hide Rfc1071, IpBytes;
      var header := IpHeader(0, 0, 0, 0, 0, 0, 0, 0, 0, 0);
      header := header.(versionIhl := 0x45, totLen := Htons(o, IP_HDR_SIZE + len), id := Htons(o, 144));
      header := header.(ttl := 64, protocol := IPPROTO_TCP, saddr := src, daddr := dst);
      var sum := Cksum(o, IpBytes(o, header));
      ip := header.(check := sum);
      tcp := TcpHeader(0, 0, 0, 0, 0, 0, 0, 0, 0);
      payload := seq(len - TCP_HDR_SIZE, i => 0);
    }

    /** cksum_tcp of the datagram as it stands. */
    method CksumTcp(o: ByteOrder, len: nat) returns (sum: uint16)
      requires len <= |payload| && 12 + TCP_HDR_SIZE + len < TWO_16
      ensures sum == Htons(o, Rfc1071(PseudoBytes(o, View(), len)))
    {
      hide Rfc1071;
      sum := Cksum(o, PseudoBytes(o, View(), len));
    }
  }

  /** cksum over the whole segment with its checksum field zeroed for the time being. */
  method CksumSegment(o: ByteOrder, segment: SegmentBuffer) returns (sum: uint16)
    requires CTCP_HDR_SIZE + |segment.data| < TWO_16
    modifies segment
    ensures sum == Correct(o, segment.View()) && segment.View() == old(segment.View())
  {
    hide Rfc1071, SegmentBytes;
    var was := segment.cksum;
    segment.cksum := 0;
    sum := Cksum(o, SegmentBytes(o, segment.View()));
    segment.cksum := was;
  }

  /** The fields of the TCP header other than its checksum. */
  method FillTcp(o: ByteOrder, port: uint16, dst: Peer, segment: SegmentBuffer, toWeb: bool, d: DatagramBuffer)
    requires d.tcp.sum == d.tcp.urp == 0
    modifies d
    ensures d.View() == old(d.View()).(tcp := TcpFields(o, port, dst, segment.View(), toWeb))
  {
    hide Htonl, Htons;
    d.tcp := d.tcp.(sport := Htons(o, port), dport := Htons(o, dst.port));
    d.tcp := d.tcp.(seqno := Htonl(o, (Htonl(o, segment.seqno) + dst.initSeqno) % TWO_32));
    d.tcp := d.tcp.(ack := Htonl(o, (Htonl(o, segment.ackno) + dst.theirInitSeqno) % TWO_32));
    d.tcp := d.tcp.(off := 0x50, flags := segment.flags % 256);
    if toWeb { d.tcp := d.tcp.(flags := OrAck(d.tcp.flags)); }
    d.tcp := d.tcp.(win := segment.window, sum := 0);
  }

  /** convert_to_datagram */
  method ConvertToDatagram(o: ByteOrder, ipAddr: uint32, port: uint16, dst: Peer, segment: SegmentBuffer, toWeb: bool)
    returns (d: DatagramBuffer)
    requires FULL_HDR_SIZE + |segment.data| < TWO_16
    modifies segment
    ensures fresh(d) && segment.View() == old(segment.View())
    ensures d.View() == ToDatagram(o, ipAddr, port, dst, segment.View(), toWeb)
  {
    hide Rfc1071, SegmentBytes, PseudoBytes, Htonl, Htons, Correct, CorrectTcp, TcpFields;
    d := new DatagramBuffer(o, ipAddr, dst.ipAddr, TCP_HDR_SIZE + |segment.data|);
    d.payload := segment.data;
    FillTcp(o, port, dst, segment, toWeb, d);
    TcpSumIsZero(o, port, dst, segment.View(), toWeb);
    var sum := segment.cksum;
    var correct := CksumSegment(o, segment);
    var tcpSum := CksumWithoutField(o, d, d.View(), |segment.data|);
    d.tcp := d.tcp.(sum := (tcpSum + (correct - sum)) % TWO_16);
  }

  lemma TcpSumIsZero(o: ByteOrder, port: uint16, dst: Peer, s: Segment, toWeb: bool)
    ensures TcpFields(o, port, dst, s, toWeb).sum == 0
  {
  }

  /** convert_to_ctcp; like the source it leaves th_sum zero in the datagram. Null when the
      total length is below both headers or beyond the payload, where the source reads past
      the end of the packet. */
  method ConvertToCtcp(o: ByteOrder, src: Peer, d: DatagramBuffer) returns (segment: SegmentBuffer?)
    modifies d
    ensures segment == null <==> !WellFormed(o, old(d.View()))
    ensures segment != null ==> fresh(segment) && segment.View() == ToCtcp(o, src, old(d.View()))
    ensures d.View() == if segment == null then old(d.View()) else old(d.View()).(tcp := old(d.tcp).(sum := 0))
  {
    hide Rfc1071, SegmentBytes, PseudoBytes, Htonl, Htons, Correct, CorrectTcp;
    var total := Htons(o, d.ip.totLen);
    if total < FULL_HDR_SIZE || total > FULL_HDR_SIZE + |d.payload| { return null; }
    var n := (total - FULL_HDR_SIZE) % TWO_16;
    ghost var was := d.View();
    segment := ConvertFields(o, src, d, n);
    var own := CksumSegment(o, segment);
    segment.cksum := own;
    var sum := d.tcp.sum;
    d.tcp := d.tcp.(sum := 0);
    var correct := CksumWithoutField(o, d, was, n);
    segment.cksum := (own + (correct - sum)) % TWO_16;
  }

  /** Everything but the checksum. */
  method ConvertFields(o: ByteOrder, src: Peer, d: DatagramBuffer, n: uint16) returns (segment: SegmentBuffer)
    requires n + CTCP_HDR_SIZE < TWO_16 && n <= |d.payload|
    ensures fresh(segment) && segment.View() == Segment(
              Htonl(o, (Htonl(o, d.tcp.seqno) - src.theirInitSeqno) % TWO_32),
              Htonl(o, (Htonl(o, d.tcp.ack) - src.initSeqno) % TWO_32),
              Htons(o, n + CTCP_HDR_SIZE), 0, 0, d.tcp.flags, d.tcp.win, 0, d.payload[..n])
  {
    hide Htonl, Htons;
    segment := new SegmentBuffer(n);
    segment.seqno := Htonl(o, (Htonl(o, d.tcp.seqno) - src.theirInitSeqno) % TWO_32);
    segment.ackno := Htonl(o, (Htonl(o, d.tcp.ack) - src.initSeqno) % TWO_32);
    segment.len := Htons(o, n + CTCP_HDR_SIZE);
    segment.flags := d.tcp.flags;
    segment.window := d.tcp.win;
    segment.cksum := 0;
    segment.data := d.payload[..n];
  }

  /** cksum_tcp once th_sum has been zeroed. */
  method CksumWithoutField(o: ByteOrder, d: DatagramBuffer, ghost was: Datagram, n: nat) returns (sum: uint16)
    requires n <= |was.payload| && FULL_HDR_SIZE + n < TWO_16 && d.View() == was.(tcp := was.tcp.(sum := 0))
    ensures sum == CorrectTcp(o, was, n)
  {
    hide Rfc1071, PseudoBytes;
    sum := d.CksumTcp(o, n);
  }

  /** flipbit; the exclusive or with a one-bit mask inverts that bit. */
  method FlipBit(memory: array<byte>, bit: nat)
    requires bit < 8 * memory.Length
    modifies memory
    ensures memory[..] == Flip(old(memory[..]), bit)
  {
    memory[bit / 8] := FlipInByte(memory[bit / 8], bit % 8);
  }

  /** Every datagram leaves with a valid IP header checksum. */
  lemma IpHeaderIsValid(o: ByteOrder, ipAddr: uint32, port: uint16, dst: Peer, s: Segment, toWeb: bool)
    requires FULL_HDR_SIZE + |s.data| < TWO_16
    ensures OnesSum(IpBytes(o, ToDatagram(o, ipAddr, port, dst, s, toWeb).ip)) == 0xffff
  {
    hide Rfc1071, OnesSum, Correct, CorrectTcp, Htonl;
    var ip := ToDatagram(o, ipAddr, port, dst, s, toWeb).ip;
    HeaderFilled(o, ip.(check := 0));
  }

  lemma HeaderFilled(o: ByteOrder, h: IpHeader)
    requires h.check == 0
    ensures OnesSum(IpBytes(o, h.(check := Htons(o, Rfc1071(IpBytes(o, h)))))) == 0xffff
  {
    hide Rfc1071, OnesSum, Store32;
    var b, sum := IpBytes(o, h), Rfc1071(IpBytes(o, h));
    var filled := IpBytes(o, h.(check := Htons(o, sum)));
    NetworkOrder16(o, sum);
    assert b[10] == 0 && b[11] == 0;
    assert Zeroed(b, 10) == b;
    assert filled == Filled(b, 10);
    FilledIsAccepted(o, b, 10);
  }

  // ---------------------------------------------------------------- the receiver's test

  /** strlen of the data; the memory behind the segment is taken to start with a NUL. */
  function StrLen(data: seq<byte>): (n: nat)
    ensures n <= |data| && 0 !in data[..n] && (n < |data| ==> data[n] == 0)
  {
    if data == [] || data[0] == 0 then 0 else 1 + StrLen(data[1..])
  }

  /** The test of ctcp_receive: the checksum is computed over the header and strlen bytes. */
  predicate StringTest(o: ByteOrder, s: Segment) {
    s.cksum == Htons(o, Rfc1071(SegmentBytes(o, s.(cksum := 0))[..CTCP_HDR_SIZE + StrLen(s.data)]))
  }

  /** The data behind the first NUL, from an even offset on. */
  function Tail(data: seq<byte>): seq<byte> {
    var n := StrLen(data);
    if n == |data| then [] else data[n + n % 2..]
  }

  /** What follows the word that position n is in. */
  function After(b: seq<byte>, n: nat): seq<byte> {
    if n + n % 2 <= |b| then b[n + n % 2..] else []
  }

  lemma AfterStep(b: seq<byte>, n: nat)
    requires 2 <= n <= |b|
    ensures After(b, n) == After(b[2..], n - 2) && b[..n][2..] == b[2..][..n - 2]
  {
    assert (n - 2) % 2 == n % 2;
  }

  lemma PrefixStart(b: seq<byte>, n: nat)
    requires n <= |b| && n < 2 && (n % 2 == 1 && n < |b| ==> b[n] == 0)
    ensures WordSum(b) == WordSum(b[..n]) + WordSum(After(b, n))
  {
    hide WordSum;
    WordSumEnd(b[..n]);
    if n == 0 {
      assert b[0..] == b;
    } else {
      WordSumEnd(b);
      if |b| >= 2 { WordSumStep(b); }
      WordSumEnd([]);
    }
  }

  lemma {:induction false} PrefixSum(b: seq<byte>, n: nat)
    requires n <= |b| && (n % 2 == 1 && n < |b| ==> b[n] == 0)
    ensures WordSum(b) == WordSum(b[..n]) + WordSum(After(b, n))
    decreases n
  {
    hide After, WordSum;
    if n < 2 {
      PrefixStart(b, n);
    } else {
      AfterStep(b, n);
      assert (n - 2) % 2 == n % 2;
      WordSumStep(b);
      WordSumStep(b[..n]);
      PrefixSum(b[2..], n - 2);
    }
  }

  lemma SameResidueIff(x: nat, y: nat)
    ensures 0xffff - (x + y) % 0xffff == 0xffff - x % 0xffff <==> y % 0xffff == 0
  {
    MultipleOfSum(x % 0xffff, y % 0xffff);
    ModAddMultiple(x % 0xffff + y % 0xffff, x / 0xffff + y / 0xffff);
    assert x + y == x % 0xffff + y % 0xffff + (x / 0xffff + y / 0xffff) * 0xffff;
  }

  lemma MultipleOfSum(a: nat, b: nat)
    requires a < 0xffff && b < 0xffff
    ensures (a + b) % 0xffff == a <==> b == 0
  {
  }

  /** An intact segment passes the receiver's own test exactly if what follows the first NUL
      byte of its data sums up to 0 modulo 65535, so always if there is no NUL. A segment
      that fails does so however often it is sent again. */
  lemma StringTestIff(o: ByteOrder, s: Segment)
    requires Intact(o, s)
    ensures StringTest(o, s) <==> WordSum(Tail(s.data)) % 0xffff == 0
    ensures 0 !in s.data ==> StringTest(o, s)
  {
    hide Rfc1071, WordSum, SegmentBytes, Htons, Tail;
    var b, n := SegmentBytes(o, s.(cksum := 0)), CTCP_HDR_SIZE + StrLen(s.data);
    DataLast(o, s.(cksum := 0));
    PrefixChecksumIff(b, s.data, n);
    HtonsInjective(o, Rfc1071(b[..n]), Rfc1071(b));
    NothingBehind(s.data);
  }

  lemma DataLast(o: ByteOrder, s: Segment)
    ensures SegmentBytes(o, s)[CTCP_HDR_SIZE..] == s.data
  {
    hide Store32, Store16;
  }

  lemma PrefixChecksumIff(b: seq<byte>, data: seq<byte>, n: nat)
    requires |b| >= CTCP_HDR_SIZE && b[CTCP_HDR_SIZE..] == data && n == CTCP_HDR_SIZE + StrLen(data)
    ensures Rfc1071(b[..n]) == Rfc1071(b) <==> WordSum(Tail(data)) % 0xffff == 0
  {
    hide Rfc1071, WordSum, Tail, After;
    DataBehind(b, data, n);
    PrefixSum(b, n);
    ClosedForm(b);
    ClosedForm(b[..n]);
    SameResidueIff(WordSum(b[..n]), WordSum(Tail(data)));
  }

  lemma DataBehind(b: seq<byte>, data: seq<byte>, n: nat)
    requires |b| >= CTCP_HDR_SIZE && b[CTCP_HDR_SIZE..] == data && n == CTCP_HDR_SIZE + StrLen(data)
    ensures n <= |b| && (n % 2 == 1 && n < |b| ==> b[n] == 0)
    ensures After(b, n) == Tail(data)
  {
    hide WordSum;
    var k := StrLen(data);
    if k < |data| { assert b[n] == data[k]; }
    EvenShift(k);
    if k < |data| && n + n % 2 <= |b| { assert b[n + n % 2..] == data[k + k % 2..]; }
  }

  lemma EvenShift(k: nat)
    ensures (CTCP_HDR_SIZE + k) % 2 == k % 2
  {
  }

  lemma NothingBehind(data: seq<byte>)
    ensures 0 !in data ==> WordSum(Tail(data)) == 0
  {
    var n := StrLen(data);
    if n < |data| { assert data[n] in data; }
  }

  lemma CarriesCorrect(o: ByteOrder, s: Segment)
    ensures Intact(o, s.(cksum := Correct(o, s)))
  {
    hide Rfc1071, SegmentBytes, Htons;
    assert s.(cksum := Correct(o, s)).(cksum := 0) == s.(cksum := 0);
  }

  lemma TailOfNul()
    ensures Tail([0, 1]) == [0, 1] && WordSum([0, 1]) == 1
  {
    hide WordSum;
    var data: seq<byte> := [0, 1];
    assert data[0..] == data && data[2..] == [];
    WordSumStep(data);
    WordSumEnd(data[2..]);
  }

  /** The smallest data that fails: one NUL and one other byte. */
  lemma NulIsRefused(o: ByteOrder, s: Segment)
    requires s.data == [0, 1]
    ensures !StringTest(o, s.(cksum := Correct(o, s)))
  {
    hide *;
    CarriesCorrect(o, s);
    TailOfNul();
    StringTestIff(o, s.(cksum := Correct(o, s)));
  }
}
