/** Fixed-width values as the C sources see them: bytes, 16- and 32-bit unsigned
    integers, and the host byte order that htons/htonl depend on. Every result
    of the project that mentions a ByteOrder holds for both of them. */
module Machine {
  const TWO_16 := 0x1_0000
  const TWO_32 := 0x1_0000_0000

  type byte = x: int | 0 <= x < 0x100
  type uint16 = x: int | 0 <= x < 0x1_0000
  type uint32 = x: int | 0 <= x < 0x1_0000_0000

  datatype ByteOrder = LittleEndian | BigEndian

  datatype Option<+T> = None | Some(value: T)

  /** A MAC address and an IPv4 address as they lie in memory. */
  type Mac = m: seq<byte> | |m| == 6 witness [0, 0, 0, 0, 0, 0]
  type Ip4 = b: seq<byte> | |b| == 4 witness [0, 0, 0, 0]

  function Zeros(n: nat): (z: seq<byte>)
    ensures |z| == n
  {
    seq(n, i => 0)
  }

  /** The numbers 0, 1, ..., n - 1. */
  function Upto(n: nat): seq<nat> {
    seq(n, i => i)
  }

  /** Big-endian value of two bytes: what a pair of bytes means on the wire. */
  function Word(hi: byte, lo: byte): uint16 {
    hi * 256 + lo
  }

  function Swap16(x: uint16): uint16 {
    x % 256 * 256 + x / 256
  }

  /** htons and ntohs (they are the same function). */
  function Htons(order: ByteOrder, x: uint16): uint16 {
    if order.LittleEndian? then Swap16(x) else x
  }

  /** The two memory bytes of a uint16_t. */
  function Store16(order: ByteOrder, x: uint16): (b: seq<byte>)
    ensures |b| == 2
  {
    if order.LittleEndian? then [x % 256, x / 256] else [x / 256, x % 256]
  }

  /** The uint16_t that two memory bytes hold. */
  function Load16(order: ByteOrder, b0: byte, b1: byte): uint16 {
    if order.LittleEndian? then Word(b1, b0) else Word(b0, b1)
  }

  /** The four bytes of a 32-bit value, most significant first. */
  function Bytes32(x: uint32): (b: seq<byte>)
    ensures |b| == 4
  {
    [x / 0x100_0000, x / 0x1_0000 % 256, x / 256 % 256, x % 256]
  }

  function FromBytes32(b3: byte, b2: byte, b1: byte, b0: byte): uint32 {
    ((b3 * 256 + b2) * 256 + b1) * 256 + b0
  }

  function Swap32(x: uint32): uint32 {
    var b := Bytes32(x);
    FromBytes32(b[3], b[2], b[1], b[0])
  }

  /** htonl and ntohl. */
  function Htonl(order: ByteOrder, x: uint32): uint32 {
    if order.LittleEndian? then Swap32(x) else x
  }

  function Store32(order: ByteOrder, x: uint32): (b: seq<byte>)
    ensures |b| == 4
  {
    var b := Bytes32(x);
    if order.LittleEndian? then [b[3], b[2], b[1], b[0]] else b
  }

  lemma Digits(hi: nat, lo: byte)
    ensures (hi * 256 + lo) / 256 == hi && (hi * 256 + lo) % 256 == lo
  {
  }

  lemma HtonsInvolution(order: ByteOrder, x: uint16)
    ensures Htons(order, Htons(order, x)) == x
  {
    Digits(x / 256, x % 256);
    Digits(x % 256, x / 256);
  }

  lemma Bytes32Inverse(b3: byte, b2: byte, b1: byte, b0: byte)
    ensures Bytes32(FromBytes32(b3, b2, b1, b0)) == [b3, b2, b1, b0]
  {
    var x2, x1 := b3 * 256 + b2, (b3 * 256 + b2) * 256 + b1;
    Digits(b3, b2);
    Digits(x2, b1);
    Digits(x1, b0);
    Quotients(x1 * 256 + b0);
  }

  lemma Quotients(x: nat)
    ensures x / 0x1_0000 == x / 256 / 256 && x / 0x100_0000 == x / 256 / 256 / 256
  {
  }

  lemma FromBytes32Inverse(x: uint32)
    ensures var b := Bytes32(x); FromBytes32(b[0], b[1], b[2], b[3]) == x
  {
    Quotients(x);
    var q1, q2, q3 := x / 256, x / 256 / 256, x / 256 / 256 / 256;
    assert x == q1 * 256 + x % 256 && q1 == q2 * 256 + q1 % 256 && q2 == q3 * 256 + q2 % 256;
  }

  lemma Swap32Involution(x: uint32)
    ensures Swap32(Swap32(x)) == x
  {
    var b := Bytes32(x);
    Bytes32Inverse(b[3], b[2], b[1], b[0]);
    FromBytes32Inverse(x);
  }

  lemma HtonlInvolution(order: ByteOrder, x: uint32)
    ensures Htonl(order, Htonl(order, x)) == x
  {
    if order.LittleEndian? { Swap32Involution(x); }
  }

  /** A value stored after htons lies in memory most significant byte first,
      whatever the host. */
  lemma NetworkOrder16(order: ByteOrder, x: uint16)
    ensures Store16(order, Htons(order, x)) == [x / 256, x % 256]
    ensures Load16(order, x / 256, x % 256) == Htons(order, x)
  {
  }

  lemma LoadStore16(order: ByteOrder, x: uint16)
    ensures Load16(order, Store16(order, x)[0], Store16(order, x)[1]) == x
  {
  }

  lemma WrapAdd32(x: nat, n: nat)
    ensures (x % TWO_32 + n) % TWO_32 == (x + n) % TWO_32
  {
  }

  lemma WrapAdd16(x: nat, n: nat)
    ensures (x % TWO_16 + n) % TWO_16 == (x + n) % TWO_16
  {
  }

  lemma SmallMod32(x: nat)
    requires x <= TWO_32
    ensures x % TWO_32 == if x < TWO_32 then x else 0
  {
  }
}
