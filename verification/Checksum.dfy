/** The Internet checksum of lab3/ctcp_utils.c and lab1/router/sr_utils.c against
    its definition in sections 1 and 2 of RFC 1071. */
module Checksum {
  import opened Machine

  // ---------------------------------------------------------------- reference

  /** One's complement addition of 16-bit words: the carry out of the top is added
      back in at the bottom. */
  function OnesAdd(a: uint16, b: uint16): uint16 {
    if a + b > 0xffff then a + b - 0xffff else a + b
  }

  /** One's complement sum of a byte string read as big-endian words, an odd last
      byte being padded with a zero byte on the right. */
  function OnesSum(data: seq<byte>): uint16
    decreases |data|
  {
    if data == [] then 0
    else if |data| == 1 then Word(data[0], 0)
    else OnesAdd(Word(data[0], data[1]), OnesSum(data[2..]))
  }

  /** The checksum as a wire word: the complement of the sum, with 0 written as 0xffff. */
  function Rfc1071(data: seq<byte>): uint16 {
    if OnesSum(data) == 0xffff then 0xffff else 0xffff - OnesSum(data)
  }

  /** The example of section 3 of RFC 1071: the sum of these bytes is ddf2, so their
      checksum is 220d. */
  lemma ExampleOfTheRfc()
    ensures OnesSum([0x00, 0x01, 0xf2, 0x03, 0xf4, 0xf5, 0xf6, 0xf7]) == 0xddf2
    ensures Rfc1071([0x00, 0x01, 0xf2, 0x03, 0xf4, 0xf5, 0xf6, 0xf7]) == 0x220d
  {
    var d4: seq<byte>, d3: seq<byte>, d2: seq<byte>, d1: seq<byte> :=
      [0x00, 0x01, 0xf2, 0x03, 0xf4, 0xf5, 0xf6, 0xf7], [0xf2, 0x03, 0xf4, 0xf5, 0xf6, 0xf7],
      [0xf4, 0xf5, 0xf6, 0xf7], [0xf6, 0xf7];
    assert d4[2..] == d3 && d3[2..] == d2 && d2[2..] == d1 && d1[2..] == [];
    assert OnesSum(d1) == 0xf6f7 && OnesSum(d2) == OnesAdd(0xf4f5, 0xf6f7) == 0xebed;
    assert OnesSum(d3) == OnesAdd(0xf203, 0xebed) == 0xddf1;
  }

  // ---------------------------------------------------------------- what the code adds up

  /** The plain sum of the words. */
  function WordSum(data: seq<byte>): nat
    decreases |data|
  {
    if data == [] then 0
    else if |data| == 1 then Word(data[0], 0)
    else Word(data[0], data[1]) + WordSum(data[2..])
  }

  lemma WordSumStep(data: seq<byte>)
    requires |data| >= 2
    ensures WordSum(data) == Word(data[0], data[1]) + WordSum(data[2..])
  {
  }

  lemma WordSumEnd(data: seq<byte>)
    ensures data == [] ==> WordSum(data) == 0
    ensures |data| == 1 ==> WordSum(data) == Word(data[0], 0)
  {
  }

  /** The carry-folding loop. */
  function Fold(sum: nat): nat
    decreases sum
  {
    if sum <= 0xffff then sum else Fold(sum / 0x1_0000 + sum % 0x1_0000)
  }

  /** The value cksum returns for an accumulated sum: htons of the low half of the
      complement, or 0xffff in place of 0. */
  function Finish(order: ByteOrder, sum: nat): uint16
    requires Fold(sum) <= 0xffff
  {
    var s := Htons(order, 0xffff - Fold(sum));
    if s != 0 then s else 0xffff
  }

  // ---------------------------------------------------------------- folding

  lemma FoldStep(sum: nat)
    requires sum > 0xffff
    ensures 0 < sum / 0x1_0000 + sum % 0x1_0000 < sum
    ensures (sum / 0x1_0000 + sum % 0x1_0000) % 0xffff == sum % 0xffff
  {
    var q, r := sum / 0x1_0000, sum % 0x1_0000;
    assert sum == (q + r) + q * 0xffff;
    ModAddMultiple(q + r, q);
  }

  lemma ModAddMultiple(x: int, k: int)
    ensures (x + k * 0xffff) % 0xffff == x % 0xffff
  {
    assert x == x / 0xffff * 0xffff + x % 0xffff;
    assert x + k * 0xffff == (x / 0xffff + k) * 0xffff + x % 0xffff;
  }

  /** Folding keeps the sum modulo 65535, fits 16 bits, and gives 0 only for the sum 0. */
  lemma {:induction false} FoldPreserves(sum: nat)
    ensures Fold(sum) <= 0xffff
    ensures Fold(sum) % 0xffff == sum % 0xffff
    ensures Fold(sum) == 0 <==> sum == 0
    decreases sum
  {
    if sum > 0xffff {
      FoldStep(sum);
      FoldPreserves(sum / 0x1_0000 + sum % 0x1_0000);
    }
  }

  /** Folding the plain sum is one's complement addition of the words. */
  lemma {:induction false} FoldIsOnesSum(data: seq<byte>)
    ensures Fold(WordSum(data)) == OnesSum(data)
    decreases |data|
  {
    if |data| >= 2 {
      var w, rest := Word(data[0], data[1]), data[2..];
      FoldIsOnesSum(rest);
      FoldPreserves(WordSum(rest));
      FoldPreserves(WordSum(data));
      ResidueOfSum(w, WordSum(rest), OnesSum(rest));
      SameFold(WordSum(data), OnesSum(data));
    }
  }

  lemma ResidueOfSum(w: uint16, sum: nat, ones: uint16)
    requires ones % 0xffff == sum % 0xffff
    ensures OnesAdd(w, ones) % 0xffff == (w + sum) % 0xffff
  {
    ModAddMultiple(w + sum % 0xffff, sum / 0xffff);
    ModAddMultiple(w + ones % 0xffff, ones / 0xffff);
    ModAddMultiple(w + ones, -1);
  }

  /** A 16-bit value with the right residue that vanishes with the sum is its fold. */
  lemma SameFold(sum: nat, ones: uint16)
    requires ones % 0xffff == sum % 0xffff
    requires ones == 0 <==> sum == 0
    ensures Fold(sum) == ones
  {
    FoldPreserves(sum);
  }

  /** The checksum depends on the sum modulo 65535 only, and in the simplest way. */
  lemma ClosedForm(data: seq<byte>)
    ensures Rfc1071(data) == 0xffff - WordSum(data) % 0xffff
  {
    FoldIsOnesSum(data);
    FoldPreserves(WordSum(data));
  }

  lemma FinishClosedForm(order: ByteOrder, sum: nat)
    ensures Fold(sum) <= 0xffff
    ensures Finish(order, sum) == Htons(order, 0xffff - sum % 0xffff)
  {
    hide Fold, Htons;
    FoldPreserves(sum);
    NonZero(order, 0xffff - Fold(sum));
    NonZero(order, 0xffff - sum % 0xffff);
    OneOfTwo(Fold(sum), sum);
    HtonsOnes(order);
  }

  lemma NonZero(order: ByteOrder, x: uint16)
    ensures Htons(order, x) == 0 <==> x == 0
  {
    HtonsInvolution(order, x);
  }

  lemma HtonsOnes(order: ByteOrder)
    ensures Htons(order, 0xffff) == 0xffff
  {
  }

  /** A 16-bit value with the residue of the sum is that residue, or all ones for residue 0. */
  lemma OneOfTwo(fold: uint16, sum: nat)
    requires fold % 0xffff == sum % 0xffff
    ensures fold == sum % 0xffff || (fold == 0xffff && sum % 0xffff == 0)
  {
  }

  // ---------------------------------------------------------------- the two C functions

  lemma WordSumBound(data: seq<byte>)
    ensures WordSum(data) <= (|data| + 1) / 2 * 0xffff
    decreases |data|
  {
    if |data| >= 2 { WordSumBound(data[2..]); }
  }

  lemma {:induction false} WordSumAppend(a: seq<byte>, b: seq<byte>)
    requires |a| % 2 == 0
    ensures WordSum(a + b) == WordSum(a) + WordSum(b)
    decreases |a|
  {
    if a == [] {
      assert a + b == b;
    } else {
      assert (a + b)[2..] == a[2..] + b;
      WordSumAppend(a[2..], b);
    }
  }

  /** lab3/ctcp_utils.c: the length is 16 bits wide, so the 32-bit accumulator
      never wraps and the result is the RFC 1071 checksum in network order. */
  method Cksum(order: ByteOrder, data: seq<byte>) returns (r: uint16)
    requires |data| < TWO_16
    ensures r == Htons(order, Rfc1071(data))
  {
    hide WordSum, Rfc1071, Htons, Fold;
    var sum: uint32 := 0;
    var at, len := 0, |data|;
    WordSumBound(data);
    assert data[0..] == data;
    while len >= 2
      invariant 0 <= at <= |data| && len == |data| - at
      invariant sum + WordSum(data[at..]) == WordSum(data)
    {
      WordSumStep(data[at..]);
      sum := sum + Word(data[at], data[at + 1]);
      assert data[at..][2..] == data[at + 2..];
      at, len := at + 2, len - 2;
    }
    WordSumEnd(data[at..]);
    if len > 0 { sum := sum + Word(data[at], 0); }
    r := FoldAndFinish(order, sum);
    FinishClosedForm(order, WordSum(data));
    ClosedForm(data);
  }

  /** The loop and the two lines after it, shared by both C functions. */
  method FoldAndFinish(order: ByteOrder, total: uint32) returns (r: uint16)
    ensures Fold(total) <= 0xffff
    ensures r == Finish(order, total)
  {
    FoldPreserves(total);
    var sum := total;
    while sum > 0xffff
      invariant Fold(sum) == Fold(total)
    {
      FoldStep(sum);
      sum := sum / 0x1_0000 + sum % 0x1_0000;
    }
    r := Htons(order, 0xffff - sum);
    if r == 0 { r := 0xffff; }
  }

  /** lab1/router/sr_utils.c: the length is an int, so the accumulator may wrap; a
      length of zero or less reads nothing. */
  method CksumInt(order: ByteOrder, data: seq<byte>, length: int) returns (r: uint16)
    requires length <= |data|
    ensures var read := data[..if length < 0 then 0 else length];
            && Fold(WordSum(read) % TWO_32) <= 0xffff
            && r == Finish(order, WordSum(read) % TWO_32)
  {
    hide WordSum, Rfc1071, Htons, Fold;
    ghost var read := data[..if length < 0 then 0 else length];
    ghost var exact: nat := 0;
    var sum: uint32 := 0;
    var at, len := 0, length;
    assert read[0..] == read;
    while len >= 2
      invariant 0 <= at <= |read| && len == length - at
      invariant sum == exact % TWO_32 && exact + WordSum(read[at..]) == WordSum(read)
    {
      WordSumStep(read[at..]);
      assert read[at..][2..] == read[at + 2..];
      sum, exact := AddWord(sum, exact, Word(data[at], data[at + 1]));
      at, len := at + 2, len - 2;
    }
    WordSumEnd(read[at..]);
    if len > 0 {
      assert |read[at..]| == 1;
      sum, exact := AddWord(sum, exact, Word(data[at], 0));
    } else {
      assert read[at..] == [];
    }
    r := FoldAndFinish(order, sum);
  }

  /** One addition in the 32-bit accumulator, beside the exact sum. */
  method AddWord(sum: uint32, ghost exact: nat, w: uint16) returns (sum1: uint32, ghost exact1: nat)
    requires sum == exact % TWO_32
    ensures exact1 == exact + w && sum1 == exact1 % TWO_32
  {
    WrapAdd32(exact, w);
    sum1, exact1 := (sum + w) % TWO_32, exact + w;
  }

  /** Losing k carries out of the accumulator moves the residue by k. */
  lemma WrapResidue(sum: nat)
    requires sum < 0x8000_0000 * 0x8000
    ensures (sum % TWO_32) % 0xffff == sum % 0xffff <==> sum < TWO_32
  {
    var k, low := sum / TWO_32, sum % TWO_32;
    assert sum == (low + k) + k * 0x10001 * 0xffff;
    ModAddMultiple(low + k, k * 0x10001);
    assert 0 <= k < 0xffff;
    if k > 0 { ResiduesDiffer(low, k); }
  }

  lemma ResiduesDiffer(x: int, k: int)
    requires 0 < k < 0xffff
    ensures (x + k) % 0xffff != x % 0xffff
  {
  }

  lemma HtonsInjective(order: ByteOrder, x: uint16, y: uint16)
    ensures Htons(order, x) == Htons(order, y) <==> x == y
  {
    HtonsInvolution(order, x);
    HtonsInvolution(order, y);
  }

  /** The int-length version computes the RFC 1071 checksum exactly when the word sum
      fits the 32-bit accumulator, whatever the int length. */
  lemma CksumIntExact(order: ByteOrder, data: seq<byte>)
    requires |data| < 0x8000_0000
    ensures Fold(WordSum(data) % TWO_32) <= 0xffff
    ensures Finish(order, WordSum(data) % TWO_32) == Htons(order, Rfc1071(data))
       <==> WordSum(data) < TWO_32
  {
    WordSumBound(data);
    ClosedForm(data);
    FinishExact(order, WordSum(data));
  }

  lemma FinishExact(order: ByteOrder, sum: nat)
    requires sum < 0x8000_0000 * 0x8000
    ensures Fold(sum % TWO_32) <= 0xffff
    ensures Finish(order, sum % TWO_32) == Htons(order, 0xffff - sum % 0xffff) <==> sum < TWO_32
  {
    FinishClosedForm(order, sum % TWO_32);
    WrapResidue(sum);
    HtonsInjective(order, 0xffff - (sum % TWO_32) % 0xffff, 0xffff - sum % 0xffff);
  }

  /** Up to 131074 bytes always fit, so every Ethernet frame does. */
  lemma CksumIntOnFrames(order: ByteOrder, data: seq<byte>)
    requires |data| <= 131074
    ensures Fold(WordSum(data) % TWO_32) <= 0xffff
    ensures Finish(order, WordSum(data) % TWO_32) == Htons(order, Rfc1071(data))
  {
    FrameSumFits(data);
    CksumIntExact(order, data);
  }

  lemma FrameSumFits(data: seq<byte>)
    requires |data| <= 131074
    ensures WordSum(data) < TWO_32
  {
    WordSumBound(data);
  }

  function AllOnes(n: nat): (data: seq<byte>)
    ensures |data| == n
  {
    seq(n, i => 0xff)
  }

  lemma {:induction false} AllOnesSum(k: nat)
    ensures WordSum(AllOnes(2 * k)) == k * 0xffff
    decreases k
  {
    if k > 0 {
      WordSumStep(AllOnes(2 * k));
      assert AllOnes(2 * k)[2..] == AllOnes(2 * (k - 1));
      AllOnesSum(k - 1);
    }
  }

  /** Two bytes more, and the checksum can be wrong. */
  lemma CksumIntFails(order: ByteOrder)
    ensures Fold(WordSum(AllOnes(131076)) % TWO_32) <= 0xffff
    ensures var data := AllOnes(131076);
            Finish(order, WordSum(data) % TWO_32) != Htons(order, Rfc1071(data))
  {
    hide AllOnes, Rfc1071, Finish, WordSum, Htons, Fold;
    AllOnesSum(65538);
    CksumIntExact(order, AllOnes(131076));
  }

  // ---------------------------------------------------------------- updating a byte

  /** What one byte contributes to the word sum. */
  function Weight(i: nat): nat {
    if i % 2 == 0 then 256 else 1
  }

  lemma {:induction false} WordSumUpdate(data: seq<byte>, i: nat, b: byte)
    requires i < |data|
    ensures WordSum(data[i := b]) == WordSum(data) + (b - data[i]) * Weight(i)
    decreases |data|
  {
    if |data| >= 2 {
      if i < 2 {
        assert data[i := b][2..] == data[2..];
      } else {
        assert data[i := b][2..] == data[2..][i - 2 := b];
        WordSumUpdate(data[2..], i - 2, b);
      }
    }
  }

  /** Zeroing the 16-bit field at an even offset takes its wire word off the sum. */
  lemma WordSumZeroField(data: seq<byte>, at: nat)
    requires at % 2 == 0 && at + 1 < |data|
    ensures WordSum(data) == WordSum(Zeroed(data, at)) + Word(data[at], data[at + 1])
  {
    assert Weight(at) == 256 && Weight(at + 1) == 1;
    WordSumUpdate(data, at, 0);
    WordSumUpdate(data[at := 0], at + 1, 0);
  }

  // ---------------------------------------------------------------- zero and recompute

  function Zeroed(data: seq<byte>, at: nat): (z: seq<byte>)
    requires at + 1 < |data|
    ensures |z| == |data|
  {
    data[at := 0][at + 1 := 0]
  }

  /** The data with its checksum field filled in, most significant byte first. */
  function Filled(data: seq<byte>, at: nat): (f: seq<byte>)
    requires at + 1 < |data|
    ensures |f| == |data|
  {
    var c := Rfc1071(Zeroed(data, at));
    data[at := c / 256][at + 1 := c % 256]
  }

  /** The test of every receive path: zero the field, recompute, compare the two
      uint16_t values. */
  predicate Accepts(order: ByteOrder, data: seq<byte>, at: nat)
    requires at + 1 < |data|
  {
    Load16(order, data[at], data[at + 1]) == Htons(order, Rfc1071(Zeroed(data, at)))
  }

  /** RFC 1071's own test is that the sum over everything, field included, is all ones.
      Zero-and-recompute is that test plus "the field is not zero". */
  lemma AcceptsIffAllOnes(order: ByteOrder, data: seq<byte>, at: nat)
    requires at % 2 == 0 && at + 1 < |data|
    ensures Accepts(order, data, at)
       <==> OnesSum(data) == 0xffff && Word(data[at], data[at + 1]) != 0
  {
    var f, rest := Word(data[at], data[at + 1]), WordSum(Zeroed(data, at));
    AcceptsIffField(order, data, at);
    ClosedForm(Zeroed(data, at));
    WordSumZeroField(data, at);
    AllOnesResidue(data);
    FieldCompletes(f, rest, WordSum(data));
  }

  /** On either host the comparison is one of wire words. */
  lemma AcceptsIffField(order: ByteOrder, data: seq<byte>, at: nat)
    requires at + 1 < |data|
    ensures Accepts(order, data, at) <==> Word(data[at], data[at + 1]) == Rfc1071(Zeroed(data, at))
  {
    var f := Word(data[at], data[at + 1]);
    assert f / 256 == data[at] && f % 256 == data[at + 1];
    NetworkOrder16(order, f);
    HtonsInjective(order, f, Rfc1071(Zeroed(data, at)));
  }

  lemma AllOnesResidue(data: seq<byte>)
    ensures OnesSum(data) == 0xffff <==> WordSum(data) != 0 && WordSum(data) % 0xffff == 0
  {
    FoldIsOnesSum(data);
    FoldPreserves(WordSum(data));
  }

  lemma FieldCompletes(f: uint16, rest: nat, total: nat)
    requires total == rest + f
    ensures f == 0xffff - rest % 0xffff <==> f != 0 && total != 0 && total % 0xffff == 0
  {
    ModAddMultiple(rest % 0xffff + f, rest / 0xffff);
  }

  /** Filling in the field makes the test succeed on any host. */
  lemma FilledIsAccepted(order: ByteOrder, data: seq<byte>, at: nat)
    requires at + 1 < |data|
    ensures Accepts(order, Filled(data, at), at)
    ensures OnesSum(Filled(data, at)) == 0xffff || at % 2 == 1
  {
    var f := Filled(data, at);
    assert Zeroed(f, at) == Zeroed(data, at);
    NetworkOrder16(order, Rfc1071(Zeroed(data, at)));
    if at % 2 == 0 { AcceptsIffAllOnes(order, f, at); }
  }

  // ---------------------------------------------------------------- single-bit errors

  /** A byte with one bit inverted. */
  function FlipInByte(b: byte, bit: nat): byte
    requires bit < 8
  {
    var mask := [1, 2, 4, 8, 16, 32, 64, 128][bit];
    if b / mask % 2 == 1 then b - mask else b + mask
  }

  function Flip(data: seq<byte>, bit: nat): (r: seq<byte>)
    requires bit < 8 * |data|
    ensures |r| == |data|
  {
    data[bit / 8 := FlipInByte(data[bit / 8], bit % 8)]
  }

  lemma LessByQuotient(q1: int, r1: int, q2: int, r2: int, d: int)
    requires q1 < q2 && 0 <= r1 < d && 0 <= r2 < d
    ensures q1 * d + r1 < q2 * d + r2
  {
    var more := q2 - q1 - 1;
    assert q2 * d == q1 * d + more * d + d && more * d >= 0;
  }

  lemma DivMod(q: nat, r: nat, d: nat)
    requires r < d
    ensures (q * d + r) / d == q && (q * d + r) % d == r
  {
    var b := q * d + r;
    var q1, r1 := b / d, b % d;
    assert b == q1 * d + r1 && 0 <= r1 < d;
    if q1 != q {
      if q1 < q { LessByQuotient(q1, r1, q, r, d); } else { LessByQuotient(q, r, q1, r1, d); }
    }
  }

  lemma OneBitApart(hi: nat, x: nat, lo: nat, mask: nat)
    requires mask > 0 && x <= 1 && lo < mask
    ensures var b := (hi * 2 + x) * mask + lo;
            b % mask == lo && b / mask / 2 == hi && b / mask % 2 == x
  {
    DivMod(hi * 2 + x, lo, mask);
  }

  /** Only the bit asked for changes: the bits below it and those above it stay. */
  lemma FlipInvertsOneBit(b: byte, bit: nat)
    requires bit < 8
    ensures var f, mask := FlipInByte(b, bit), [1, 2, 4, 8, 16, 32, 64, 128][bit];
            f % mask == b % mask && f / mask / 2 == b / mask / 2 && f / mask % 2 == 1 - b / mask % 2
  {
    var mask := [1, 2, 4, 8, 16, 32, 64, 128][bit];
    var hi, x, lo := b / mask / 2, b / mask % 2, b % mask;
    assert b / mask == hi * 2 + x;
    assert FlipInByte(b, bit) == (hi * 2 + (1 - x)) * mask + lo by { FlipIs(b, bit, b / mask, lo); }
    hide FlipInByte;
    OneBitApart(hi, 1 - x, lo, mask);
  }

  lemma FlipIs(b: byte, bit: nat, q: nat, lo: nat)
    requires bit < 8
    requires var mask := [1, 2, 4, 8, 16, 32, 64, 128][bit]; q == b / mask && lo == b % mask
    ensures var mask := [1, 2, 4, 8, 16, 32, 64, 128][bit];
            FlipInByte(b, bit) == (q / 2 * 2 + (1 - q % 2)) * mask + lo
  {
    var mask := [1, 2, 4, 8, 16, 32, 64, 128][bit];
    assert b == q * mask + lo;
    assert q == q / 2 * 2 + q % 2;
    if q % 2 == 1 { assert (q - 1) * mask == q * mask - mask; } else { assert (q + 1) * mask == q * mask + mask; }
  }

  lemma FlipMoves(b: byte, bit: nat, weight: nat)
    requires bit < 8 && (weight == 1 || weight == 256)
    ensures var d := (FlipInByte(b, bit) - b) * weight; d != 0 && -0xffff < d < 0xffff
  {
    var mask := [1, 2, 4, 8, 16, 32, 64, 128][bit];
    assert mask == 1 || mask == 2 || mask == 4 || mask == 8 || mask == 16 || mask == 32 || mask == 64 || mask == 128;
  }

  /** No single-bit error leaves the checksum unchanged, at even and odd lengths. */
  lemma FlipChangesChecksum(data: seq<byte>, bit: nat)
    requires bit < 8 * |data|
    ensures Rfc1071(Flip(data, bit)) != Rfc1071(data)
  {
    hide Rfc1071, WordSum, FlipInByte;
    var i, b := bit / 8, FlipInByte(data[bit / 8], bit % 8);
    WordSumUpdate(data, i, b);
    ClosedForm(data);
    ClosedForm(Flip(data, bit));
    FlipMoves(data[i], bit % 8, Weight(i));
    ResidueMoves(WordSum(data), (b - data[i]) * Weight(i));
  }

  lemma ResidueMoves(x: int, d: int)
    requires d != 0 && -0xffff < d < 0xffff
    ensures (x + d) % 0xffff != x % 0xffff
  {
    if d > 0 { ResiduesDiffer(x, d); } else { ResiduesDiffer(x + d, -d); }
  }
}
