/** The sample digests of Appendices A and B of FIPS PUB 180-1, computed from the functions
    of Sha1.dfy eight rounds at a time, and what its bit functions do at each position. */
module Sha1Vectors {
  import opened Sha1

  // ---------------------------------------------------------------- bit functions

  /** The bit at position i, 0 being the least significant. */
  function Bit(x: Word, i: Word): Word
    requires i < 32
  {
    (x >> i) & 1
  }

  function Mask(i: Word): Word
    requires i < 32
  {
    1 << i
  }

  function And(x: Word, m: Word): Word {
    x & m
  }

  lemma BitMask(x: Word, i: Word)
    requires i < 32
    ensures And(x, Mask(i)) == if Bit(x, i) == 1 then Mask(i) else 0
    ensures (Bit(x, i) == 0 || Bit(x, i) == 1) && Mask(i) != 0
  {
  }

  lemma ChooseMask(b: Word, c: Word, d: Word, m: Word)
    ensures b & m == m ==> Choose(b, c, d) & m == c & m
    ensures b & m == 0 ==> Choose(b, c, d) & m == d & m
  {
  }

  lemma ChooseAnd(b: Word, c: Word, d: Word, m: Word)
    ensures And(b, m) == m ==> And(Choose(b, c, d), m) == And(c, m)
    ensures And(b, m) == 0 ==> And(Choose(b, c, d), m) == And(d, m)
  {
    hide Choose;
    ChooseMask(b, c, d, m);
  }

  /** Choose has the bit of c where b has a one, and the bit of d where b has a zero. */
  lemma ChooseBit(b: Word, c: Word, d: Word, i: Word)
    requires i < 32
    ensures Bit(Choose(b, c, d), i) == if Bit(b, i) == 1 then Bit(c, i) else Bit(d, i)
  {
    hide *;
    BitMask(b, i);
    BitMask(c, i);
    BitMask(d, i);
    BitMask(Choose(b, c, d), i);
    ChooseAnd(b, c, d, Mask(i));
  }

  lemma MajorityMask(b: Word, c: Word, d: Word, m: Word)
    ensures b & m == c & m || b & m == d & m ==> Majority(b, c, d) & m == b & m
    ensures c & m == d & m ==> Majority(b, c, d) & m == c & m
  {
  }

  lemma MajorityAnd(b: Word, c: Word, d: Word, m: Word)
    ensures And(b, m) == And(c, m) || And(b, m) == And(d, m) ==> And(Majority(b, c, d), m) == And(b, m)
    ensures And(c, m) == And(d, m) ==> And(Majority(b, c, d), m) == And(c, m)
  {
    hide Majority;
    MajorityMask(b, c, d, m);
  }

  /** Majority has the bit that at least two of the three have. */
  lemma MajorityBit(b: Word, c: Word, d: Word, i: Word)
    requires i < 32
    ensures Bit(Majority(b, c, d), i) == if Bit(b, i) == Bit(c, i) then Bit(b, i) else Bit(d, i)
  {
    hide *;
    BitMask(b, i);
    BitMask(c, i);
    BitMask(d, i);
    BitMask(Majority(b, c, d), i);
    MajorityAnd(b, c, d, Mask(i));
  }

  /** Parity does not depend on the order of its arguments, and two that are equal leave
      the third. */
  lemma ParityLeavesThird(b: Word, c: Word, d: Word)
    ensures Parity(b, c, c) == b && Parity(c, b, c) == b && Parity(c, c, b) == b
    ensures Parity(b, c, d) == Parity(c, d, b) == Parity(d, c, b)
  {
  }

  /** The rotations that the standard uses move each bit n places up, around the end. */
  lemma RotlBit(n: Word, x: Word, i: Word)
    requires i < 32
    ensures n == 1 ==> Bit(Rotl(1, x), (i + n) % 32) == Bit(x, i)
    ensures n == 5 ==> Bit(Rotl(5, x), (i + n) % 32) == Bit(x, i)
    ensures n == 30 ==> Bit(Rotl(30, x), (i + n) % 32) == Bit(x, i)
  {
  }

  // ---------------------------------------------------------------- eight at a time

  function Mix(a: Word, b: Word, c: Word, d: Word): Word {
    Rotl(1, a ^ b ^ c ^ d)
  }

  /** The eight schedule words after the sixteen in u and v. */
  function NextWords(u: seq<Word>, v: seq<Word>): (w: seq<Word>)
    requires |u| == |v| == 8
    ensures |w| == 8
  {
    var w0 := Mix(v[5], v[0], u[2], u[0]);
    var w1 := Mix(v[6], v[1], u[3], u[1]);
    var w2 := Mix(v[7], v[2], u[4], u[2]);
    var w3 := Mix(w0, v[3], u[5], u[3]);
    var w4 := Mix(w1, v[4], u[6], u[4]);
    var w5 := Mix(w2, v[5], u[7], u[5]);
    var w6 := Mix(w3, v[6], v[0], u[6]);
    var w7 := Mix(w4, v[7], v[1], u[7]);
    [w0, w1, w2, w3, w4, w5, w6, w7]
  }

  function FourRounds(r: Regs, t: nat, w0: Word, w1: Word, w2: Word, w3: Word): Regs {
    Round(Round(Round(Round(r, t, w0), t + 1, w1), t + 2, w2), t + 3, w3)
  }

  /** Eight words of the schedule from t on. */
  ghost predicate HasWords(block: seq<Byte>, t: nat, w: seq<Word>)
    requires |block| == 64
  {
    && |w| == 8
    && W(block, t) == w[0] && W(block, t + 1) == w[1] && W(block, t + 2) == w[2] && W(block, t + 3) == w[3]
    && W(block, t + 4) == w[4] && W(block, t + 5) == w[5] && W(block, t + 6) == w[6] && W(block, t + 7) == w[7]
  }

  lemma MixStep(block: seq<Byte>, t: nat)
    requires |block| == 64 && t >= 16
    ensures W(block, t) == Mix(W(block, t - 3), W(block, t - 8), W(block, t - 14), W(block, t - 16))
  {
    hide Rotl;
    WStep(block, t);
  }

  lemma WordsFollow(block: seq<Byte>, t: nat, u: seq<Word>, v: seq<Word>)
    requires |block| == 64 && t >= 16 && HasWords(block, t - 16, u) && HasWords(block, t - 8, v)
    ensures HasWords(block, t, NextWords(u, v))
  {
    hide Mix, W;
    MixStep(block, t);
    MixStep(block, t + 1);
    MixStep(block, t + 2);
    MixStep(block, t + 3);
    MixStep(block, t + 4);
    MixStep(block, t + 5);
    MixStep(block, t + 6);
    MixStep(block, t + 7);
  }

  lemma RoundsFollow(block: seq<Byte>, h: Regs, t: nat, w: seq<Word>)
    requires |block| == 64 && HasWords(block, t, w)
    ensures var r := FourRounds(Rounds(block, h, t), t, w[0], w[1], w[2], w[3]);
            Rounds(block, h, t + 8) == FourRounds(r, t + 4, w[4], w[5], w[6], w[7])
  {
    hide Round, W, Rounds;
    NextRound(block, h, t, Rounds(block, h, t));
    NextRound(block, h, t + 1, Rounds(block, h, t + 1));
    NextRound(block, h, t + 2, Rounds(block, h, t + 2));
    NextRound(block, h, t + 3, Rounds(block, h, t + 3));
    NextRound(block, h, t + 4, Rounds(block, h, t + 4));
    NextRound(block, h, t + 5, Rounds(block, h, t + 5));
    NextRound(block, h, t + 6, Rounds(block, h, t + 6));
    NextRound(block, h, t + 7, Rounds(block, h, t + 7));
  }

  /** The registers before round t. */
  ghost predicate HasRegs(block: seq<Byte>, h: Regs, t: nat, r: Regs)
    requires |block| == 64
  {
    Rounds(block, h, t) == r
  }

  /** And the schedule words for the next sixteen rounds. */
  ghost predicate Reached(block: seq<Byte>, h: Regs, t: nat, u: seq<Word>, v: seq<Word>, r: Regs)
    requires |block| == 64
  {
    HasWords(block, t, u) && HasWords(block, t + 8, v) && HasRegs(block, h, t, r)
  }

  /** m stands half way. */
  lemma EightRounds(block: seq<Byte>, h: Regs, t: nat, w: seq<Word>, r: Regs, m: Regs, r1: Regs)
    requires |block| == 64 && HasWords(block, t, w) && HasRegs(block, h, t, r)
    requires FourRounds(r, t, w[0], w[1], w[2], w[3]) == m && FourRounds(m, t + 4, w[4], w[5], w[6], w[7]) == r1
    ensures HasRegs(block, h, t + 8, r1)
  {
    hide FourRounds, Rounds, HasWords;
    RoundsFollow(block, h, t, w);
  }

  lemma Stage(block: seq<Byte>, h: Regs, t: nat, u: seq<Word>, v: seq<Word>, w: seq<Word>,
              r: Regs, m: Regs, r1: Regs)
    requires |block| == 64 && Reached(block, h, t, u, v, r) && NextWords(u, v) == w
    requires FourRounds(r, t, u[0], u[1], u[2], u[3]) == m && FourRounds(m, t + 4, u[4], u[5], u[6], u[7]) == r1
    ensures Reached(block, h, t + 8, v, w, r1)
  {
    hide FourRounds, Rounds, HasWords, NextWords;
    EightRounds(block, h, t, u, r, m, r1);
    WordsFollow(block, t + 16, u, v);
  }

  /** Four words of a block. */
  ghost predicate Row(block: seq<Byte>, t: nat, w0: Word, w1: Word, w2: Word, w3: Word)
    requires |block| == 64 && t <= 12
  {
    && BlockWord(block, t) == w0 && BlockWord(block, t + 1) == w1
    && BlockWord(block, t + 2) == w2 && BlockWord(block, t + 3) == w3
  }

  /** Most significant byte first. */
  function FromBytes(b0: Byte, b1: Byte, b2: Byte, b3: Byte): Word {
    ((b0 as Word) << 24) | ((b1 as Word) << 16) | ((b2 as Word) << 8) | (b3 as Word)
  }

  lemma WordAt(block: seq<Byte>, t: nat)
    requires |block| == 64 && t < 16
    ensures BlockWord(block, t) == FromBytes(block[4 * t], block[4 * t + 1], block[4 * t + 2], block[4 * t + 3])
  {
  }

  lemma RowWords(block: seq<Byte>, t: nat, b: seq<Byte>)
    requires |block| == 64 && t <= 12 && |b| == 16 && block[4 * t..4 * t + 16] == b
    ensures Row(block, t, FromBytes(b[0], b[1], b[2], b[3]), FromBytes(b[4], b[5], b[6], b[7]),
                FromBytes(b[8], b[9], b[10], b[11]), FromBytes(b[12], b[13], b[14], b[15]))
  {
    hide BlockWord, FromBytes;
    assert forall i | 0 <= i < 16 :: block[4 * t + i] == b[i];
    WordAt(block, t);
    WordAt(block, t + 1);
    WordAt(block, t + 2);
    WordAt(block, t + 3);
  }

  lemma EightWords(block: seq<Byte>, t: nat, w: seq<Word>)
    requires |block| == 64 && t <= 8 && |w| == 8
    requires Row(block, t, w[0], w[1], w[2], w[3]) && Row(block, t + 4, w[4], w[5], w[6], w[7])
    ensures HasWords(block, t, w)
  {
    hide BlockWord, W;
    WStep(block, t);
    WStep(block, t + 1);
    WStep(block, t + 2);
    WStep(block, t + 3);
    WStep(block, t + 4);
    WStep(block, t + 5);
    WStep(block, t + 6);
    WStep(block, t + 7);
  }

  /** The bytes of a block sixteen at a time. */
  ghost predicate HasRows(block: seq<Byte>, a: seq<Byte>, b: seq<Byte>, c: seq<Byte>, d: seq<Byte>) {
    && |block| == 64 && |a| == |b| == |c| == |d| == 16
    && block[0..16] == a && block[16..32] == b && block[32..48] == c && block[48..64] == d
  }

  lemma AtStart(block: seq<Byte>, h: Regs, a: seq<Byte>, b: seq<Byte>, c: seq<Byte>, d: seq<Byte>,
                u: seq<Word>, v: seq<Word>)
    requires HasRows(block, a, b, c, d) && |u| == |v| == 8
    requires u == RowOf(a) + RowOf(b) && v == RowOf(c) + RowOf(d)
    ensures Reached(block, h, 0, u, v, h)
  {
    hide FromBytes, BlockWord, W, Rounds;
    RowWords(block, 0, a);
    RowWords(block, 4, b);
    RowWords(block, 8, c);
    RowWords(block, 12, d);
    EightWords(block, 0, u);
    EightWords(block, 8, v);
    RoundsStep(block, h, 0);
  }

  /** The four words in sixteen bytes. */
  function RowOf(b: seq<Byte>): (w: seq<Word>)
    requires |b| == 16
    ensures |w| == 4
  {
    [FromBytes(b[0], b[1], b[2], b[3]), FromBytes(b[4], b[5], b[6], b[7]),
     FromBytes(b[8], b[9], b[10], b[11]), FromBytes(b[12], b[13], b[14], b[15])]
  }

  // ---------------------------------------------------------------- Appendix A: one block

  lemma AbcStart(block: seq<Byte>)
    requires HasRows(block,
                     [0x61, 0x62, 0x63, 0x80, 0, 0, 0, 0, 0, 0, 0, 0, 0, 0, 0, 0],
                     [0, 0, 0, 0, 0, 0, 0, 0, 0, 0, 0, 0, 0, 0, 0, 0],
                     [0, 0, 0, 0, 0, 0, 0, 0, 0, 0, 0, 0, 0, 0, 0, 0],
                     [0, 0, 0, 0, 0, 0, 0, 0, 0, 0, 0, 0, 0, 0, 0, 0x18])
    ensures Reached(block, INITIAL, 0,
                    [0x61626380, 0x00000000, 0x00000000, 0x00000000, 0x00000000, 0x00000000, 0x00000000, 0x00000000],
                    [0x00000000, 0x00000000, 0x00000000, 0x00000000, 0x00000000, 0x00000000, 0x00000000, 0x00000018],
                    Regs(0x67452301, 0xEFCDAB89, 0x98BADCFE, 0x10325476, 0xC3D2E1F0))
  {
    var a := [0x61, 0x62, 0x63, 0x80, 0, 0, 0, 0, 0, 0, 0, 0, 0, 0, 0, 0];
    var b := [0, 0, 0, 0, 0, 0, 0, 0, 0, 0, 0, 0, 0, 0, 0, 0];
    var c := [0, 0, 0, 0, 0, 0, 0, 0, 0, 0, 0, 0, 0, 0, 0, 0];
    var d := [0, 0, 0, 0, 0, 0, 0, 0, 0, 0, 0, 0, 0, 0, 0, 0x18];
    var u := [0x61626380, 0x00000000, 0x00000000, 0x00000000, 0x00000000, 0x00000000, 0x00000000, 0x00000000];
    var v := [0x00000000, 0x00000000, 0x00000000, 0x00000000, 0x00000000, 0x00000000, 0x00000000, 0x00000018];
    hide HasRows, Reached;
    assert RowOf(a) + RowOf(b) == u && RowOf(c) + RowOf(d) == v;
    hide RowOf;
    AtStart(block, INITIAL, a, b, c, d, u, v);
  }

  lemma AbcTo16(block: seq<Byte>)
    requires |block| == 64
    requires Reached(block, INITIAL, 0,
                     [0x61626380, 0x00000000, 0x00000000, 0x00000000, 0x00000000, 0x00000000, 0x00000000, 0x00000000],
                     [0x00000000, 0x00000000, 0x00000000, 0x00000000, 0x00000000, 0x00000000, 0x00000000, 0x00000018],
                     Regs(0x67452301, 0xEFCDAB89, 0x98BADCFE, 0x10325476, 0xC3D2E1F0))
    ensures Reached(block, INITIAL, 16,
                    [0xC2C4C700, 0x00000000, 0x00000030, 0x85898E01, 0x00000000, 0x00000060, 0x0B131C03, 0x00000030],
                    [0x85898EC1, 0x16263806, 0x00000000, 0x00000180, 0x2C4C700C, 0x000000F0, 0x93AFB507, 0x5898E048],
                    Regs(0x20BDD62F, 0x196BEE77, 0x644A3DA5, 0x1181ED99, 0x18C623F9))
  {
    hide Reached, HasWords, W, Rounds;
    var u := [0x61626380, 0x00000000, 0x00000000, 0x00000000, 0x00000000, 0x00000000, 0x00000000, 0x00000000];
    var v := [0x00000000, 0x00000000, 0x00000000, 0x00000000, 0x00000000, 0x00000000, 0x00000000, 0x00000018];
    var x := [0xC2C4C700, 0x00000000, 0x00000030, 0x85898E01, 0x00000000, 0x00000060, 0x0B131C03, 0x00000030];
    var y := [0x85898EC1, 0x16263806, 0x00000000, 0x00000180, 0x2C4C700C, 0x000000F0, 0x93AFB507, 0x5898E048];
    var r := Regs(0x9E8C07D4, 0x993E30C1, 0x0FF1F290, 0xB3F52677, 0xF3763846);
    Stage(block, INITIAL, 0, u, v, x, Regs(0x67452301, 0xEFCDAB89, 0x98BADCFE, 0x10325476, 0xC3D2E1F0),
          Regs(0xCDD8E11B, 0xA1390F08, 0x626414DB, 0xC045BF0C, 0x59D148C0), r);
    Stage(block, INITIAL, 8, v, x, y, r,
          Regs(0x63188FE4, 0xFBDA9E89, 0x60D47E4A, 0x12DAB8CA, 0x27A301F5),
          Regs(0x20BDD62F, 0x196BEE77, 0x644A3DA5, 0x1181ED99, 0x18C623F9));
  }

  lemma AbcTo32(block: seq<Byte>)
    requires |block| == 64
    requires Reached(block, INITIAL, 16,
                     [0xC2C4C700, 0x00000000, 0x00000030, 0x85898E01, 0x00000000, 0x00000060, 0x0B131C03, 0x00000030],
                     [0x85898EC1, 0x16263806, 0x00000000, 0x00000180, 0x2C4C700C, 0x000000F0, 0x93AFB507, 0x5898E048],
                     Regs(0x20BDD62F, 0x196BEE77, 0x644A3DA5, 0x1181ED99, 0x18C623F9))
    ensures Reached(block, INITIAL, 32,
                    [0x8E9A9202, 0x00000600, 0xB131C0F0, 0x16263BC6, 0x4EBED41E, 0x626380A1, 0x16263806, 0x000018C0],
                    [0xD2E138C4, 0x00000F00, 0x3AFB5079, 0x898E04E5, 0xE2BA3C2B, 0x000060C0, 0x053A37CD, 0x74458547],
                    Regs(0x3B845D33, 0x1267B407, 0x717EEBD7, 0xA0DC2D4B, 0xD2AA1365))
  {
    hide Reached, HasWords, W, Rounds;
    var u := [0xC2C4C700, 0x00000000, 0x00000030, 0x85898E01, 0x00000000, 0x00000060, 0x0B131C03, 0x00000030];
    var v := [0x85898EC1, 0x16263806, 0x00000000, 0x00000180, 0x2C4C700C, 0x000000F0, 0x93AFB507, 0x5898E048];
    var x := [0x8E9A9202, 0x00000600, 0xB131C0F0, 0x16263BC6, 0x4EBED41E, 0x626380A1, 0x16263806, 0x000018C0];
    var y := [0xD2E138C4, 0x00000F00, 0x3AFB5079, 0x898E04E5, 0xE2BA3C2B, 0x000060C0, 0x053A37CD, 0x74458547];
    var r := Regs(0xD541F12D, 0x21283486, 0x0CE88EFF, 0x868DEC32, 0x7F67875F);
    Stage(block, INITIAL, 16, u, v, x, Regs(0x20BDD62F, 0x196BEE77, 0x644A3DA5, 0x1181ED99, 0x18C623F9),
          Regs(0xFD9E1D7D, 0xDC64901D, 0x20AA99CA, 0xD3A49608, 0xC82F758B), r);
    Stage(block, INITIAL, 24, v, x, y, r,
          Regs(0x4AA84D97, 0xBE35FBD5, 0x12104EE9, 0xB1D59F71, 0x75507C4B),
          Regs(0x3B845D33, 0x1267B407, 0x717EEBD7, 0xA0DC2D4B, 0xD2AA1365));
  }

  lemma AbcTo48(block: seq<Byte>)
    requires |block| == 64
    requires Reached(block, INITIAL, 32,
                     [0x8E9A9202, 0x00000600, 0xB131C0F0, 0x16263BC6, 0x4EBED41E, 0x626380A1, 0x16263806, 0x000018C0],
                     [0xD2E138C4, 0x00000F00, 0x3AFB5079, 0x898E04E5, 0xE2BA3C2B, 0x000060C0, 0x053A37CD, 0x74458547],
                     Regs(0x3B845D33, 0x1267B407, 0x717EEBD7, 0xA0DC2D4B, 0xD2AA1365))
    ensures Reached(block, INITIAL, 48,
                    [0xDA9415ED, 0x26380A16, 0x626383A1, 0x4EBF54DE, 0x3835B44B, 0x0000F600, 0x1E84C7A3, 0x98E04D98],
                    [0x651D16A0, 0x62658CA1, 0x458544D6, 0x44584CB7, 0x7BA06619, 0x6380AEA2, 0x0AE55269, 0x627B49A1],
                    Regs(0xBEAD02CA, 0xA01B846C, 0x8714787C, 0x503CA382, 0xFB86C6AB))
  {
    hide Reached, HasWords, W, Rounds;
    var u := [0x8E9A9202, 0x00000600, 0xB131C0F0, 0x16263BC6, 0x4EBED41E, 0x626380A1, 0x16263806, 0x000018C0];
    var v := [0xD2E138C4, 0x00000F00, 0x3AFB5079, 0x898E04E5, 0xE2BA3C2B, 0x000060C0, 0x053A37CD, 0x74458547];
    var x := [0xDA9415ED, 0x26380A16, 0x626383A1, 0x4EBF54DE, 0x3835B44B, 0x0000F600, 0x1E84C7A3, 0x98E04D98];
    var y := [0x651D16A0, 0x62658CA1, 0x458544D6, 0x44584CB7, 0x7BA06619, 0x6380AEA2, 0x0AE55269, 0x627B49A1];
    var r := Regs(0x32DE1CBA, 0x4C986405, 0xF718E5CF, 0x03D447F6, 0xF72EEC32);
    Stage(block, INITIAL, 32, u, v, x, Regs(0x3B845D33, 0x1267B407, 0x717EEBD7, 0xA0DC2D4B, 0xD2AA1365),
          Regs(0xDCBBB0CB, 0x21796AD4, 0x4B03AF04, 0x811BEA82, 0xCEE1174C), r);
    Stage(block, INITIAL, 40, v, x, y, r,
          Regs(0xEE1B1AAF, 0x7F193DC5, 0x25C28357, 0xFF21F7B7, 0x8CB7872E),
          Regs(0xBEAD02CA, 0xA01B846C, 0x8714787C, 0x503CA382, 0xFB86C6AB));
  }

  lemma AbcTo64(block: seq<Byte>)
    requires |block| == 64
    requires Reached(block, INITIAL, 48,
                     [0xDA9415ED, 0x26380A16, 0x626383A1, 0x4EBF54DE, 0x3835B44B, 0x0000F600, 0x1E84C7A3, 0x98E04D98],
                     [0x651D16A0, 0x62658CA1, 0x458544D6, 0x44584CB7, 0x7BA06619, 0x6380AEA2, 0x0AE55269, 0x627B49A1],
                     Regs(0xBEAD02CA, 0xA01B846C, 0x8714787C, 0x503CA382, 0xFB86C6AB))
    ensures Reached(block, INITIAL, 64,
                    [0x7CD45C9D, 0x000F0000, 0xFB50753A, 0xEC6765E8, 0xBA3C2BE2, 0x0060C000, 0x3A37CD05, 0x458546F4],
                    [0xB8599DD6, 0x380A1A26, 0x01E02203, 0xE7CC3456, 0xE6E60B69, 0x00F60A00, 0x5795EF4F, 0x822E0879],
                    Regs(0x6B61C9E1, 0xB66C020B, 0x9523272C, 0xF5D5B051, 0x8FD4B796))
  {
    hide Reached, HasWords, W, Rounds;
    var u := [0xDA9415ED, 0x26380A16, 0x626383A1, 0x4EBF54DE, 0x3835B44B, 0x0000F600, 0x1E84C7A3, 0x98E04D98];
    var v := [0x651D16A0, 0x62658CA1, 0x458544D6, 0x44584CB7, 0x7BA06619, 0x6380AEA2, 0x0AE55269, 0x627B49A1];
    var x := [0x7CD45C9D, 0x000F0000, 0xFB50753A, 0xEC6765E8, 0xBA3C2BE2, 0x0060C000, 0x3A37CD05, 0x458546F4];
    var y := [0xB8599DD6, 0x380A1A26, 0x01E02203, 0xE7CC3456, 0xE6E60B69, 0x00F60A00, 0x5795EF4F, 0x822E0879];
    var r := Regs(0x5E6456AF, 0x7B71F76D, 0x09FA7C76, 0x792410DB, 0x8E11EB59);
    Stage(block, INITIAL, 48, u, v, x, Regs(0xBEAD02CA, 0xA01B846C, 0x8714787C, 0x503CA382, 0xFB86C6AB),
          Regs(0x3847AD66, 0x641DB2CE, 0x4481CC71, 0xEEBCE4CD, 0xAFAB40B2), r);
    Stage(block, INITIAL, 56, v, x, y, r,
          Regs(0x3F52DE5A, 0x09D785FD, 0x3498BFD4, 0xF211824F, 0xD79915AB),
          Regs(0x6B61C9E1, 0xB66C020B, 0x9523272C, 0xF5D5B051, 0x8FD4B796));
  }

  lemma AbcTo80(block: seq<Byte>)
    requires |block| == 64
    requires Reached(block, INITIAL, 64,
                     [0x7CD45C9D, 0x000F0000, 0xFB50753A, 0xEC6765E8, 0xBA3C2BE2, 0x0060C000, 0x3A37CD05, 0x458546F4],
                     [0xB8599DD6, 0x380A1A26, 0x01E02203, 0xE7CC3456, 0xE6E60B69, 0x00F60A00, 0x5795EF4F, 0x822E0879],
                     Regs(0x6B61C9E1, 0xB66C020B, 0x9523272C, 0xF5D5B051, 0x8FD4B796))
    ensures Reached(block, INITIAL, 80,
                    [0x7E577CE2, 0x07EF2103, 0x8544E945, 0xEB39DAB8, 0xC205991A, 0x80AECB63, 0x7D84CA48, 0x7B499B62],
                    [0x8E8010A8, 0x4B5B8A77, 0x3216B69A, 0x0507E88D, 0x705BEE96, 0x60C0FF00, 0xA28362D0, 0x1DA6B91D],
                    Regs(0x42541B35, 0x5738D5E1, 0x21834873, 0x681E6DF6, 0xD8FDF6AD))
  {
    hide Reached, HasWords, W, Rounds;
    var u := [0x7CD45C9D, 0x000F0000, 0xFB50753A, 0xEC6765E8, 0xBA3C2BE2, 0x0060C000, 0x3A37CD05, 0x458546F4];
    var v := [0xB8599DD6, 0x380A1A26, 0x01E02203, 0xE7CC3456, 0xE6E60B69, 0x00F60A00, 0x5795EF4F, 0x822E0879];
    var x := [0x7E577CE2, 0x07EF2103, 0x8544E945, 0xEB39DAB8, 0xC205991A, 0x80AECB63, 0x7D84CA48, 0x7B499B62];
    var y := [0x8E8010A8, 0x4B5B8A77, 0x3216B69A, 0x0507E88D, 0x705BEE96, 0x60C0FF00, 0xA28362D0, 0x1DA6B91D];
    var r := Regs(0x39859DE7, 0xC199F8C7, 0x8FC96230, 0x125C24F0, 0xDE37534A);
    Stage(block, INITIAL, 64, u, v, x, Regs(0x6B61C9E1, 0xB66C020B, 0x9523272C, 0xF5D5B051, 0x8FD4B796),
          Regs(0x78DD4D2B, 0x0C3DF2B4, 0x4405957E, 0x0677E9EB, 0x5AD87278), r);
    Stage(block, INITIAL, 72, v, x, y, r,
          Regs(0x63F7DAB7, 0x5EE76897, 0xC45E4FDB, 0x3B6D0B79, 0xCE616779),
          Regs(0x42541B35, 0x5738D5E1, 0x21834873, 0x681E6DF6, 0xD8FDF6AD));
  }

  lemma AbcCompressed(block: seq<Byte>)
    requires HasRows(block,
                     [0x61, 0x62, 0x63, 0x80, 0, 0, 0, 0, 0, 0, 0, 0, 0, 0, 0, 0],
                     [0, 0, 0, 0, 0, 0, 0, 0, 0, 0, 0, 0, 0, 0, 0, 0],
                     [0, 0, 0, 0, 0, 0, 0, 0, 0, 0, 0, 0, 0, 0, 0, 0],
                     [0, 0, 0, 0, 0, 0, 0, 0, 0, 0, 0, 0, 0, 0, 0, 0x18])
    ensures Compress(INITIAL, block) == Regs(0xA9993E36, 0x4706816A, 0xBA3E2571, 0x7850C26C, 0x9CD0D89D)
  {
    AbcStart(block);
    hide HasRows, HasWords, W, Rounds;
    AbcTo16(block);
    AbcTo32(block);
    AbcTo48(block);
    AbcTo64(block);
    AbcTo80(block);
  }

  lemma ZeroRow(n: nat, z: seq<Byte>)
    requires |z| == n && forall i | 0 <= i < n :: z[i] == 0
    ensures Zeros(n) == z
  {
  }

  lemma SmallWords()
    ensures WordBytes(0) == [0, 0, 0, 0] && WordBytes(24) == [0, 0, 0, 0x18] && WordBytes(448) == [0, 0, 0x01, 0xc0]
  {
  }

  lemma ShortLengths()
    ensures LengthBytes(3) == [0, 0, 0, 0, 0, 0, 0, 0x18] && LengthBytes(56) == [0, 0, 0, 0, 0, 0, 0x01, 0xc0]
  {
    SmallWords();
    hide WordBytes;
  }

  lemma FourRows(a: seq<Byte>, b: seq<Byte>, c: seq<Byte>, d: seq<Byte>)
    requires |a| == |b| == |c| == |d| == 16
    ensures HasRows(a + b + c + d, a, b, c, d)
  {
  }

  /** Four bytes, zeros, eight bytes. */
  lemma MostlyZeros(a: seq<Byte>, l: seq<Byte>)
    requires |a| == 4 && |l| == 8
    ensures HasRows(a + Zeros(52) + l, a + Zeros(12), Zeros(16), Zeros(16), Zeros(8) + l)
  {
    FourRows(a + Zeros(12), Zeros(16), Zeros(16), Zeros(8) + l);
    assert a + Zeros(52) + l == a + Zeros(12) + Zeros(16) + Zeros(16) + (Zeros(8) + l);
  }

  lemma AbcBlock()
    ensures var block := [0x61, 0x62, 0x63] + Padding(3);
            HasRows(block,
                    [0x61, 0x62, 0x63, 0x80, 0, 0, 0, 0, 0, 0, 0, 0, 0, 0, 0, 0],
                    [0, 0, 0, 0, 0, 0, 0, 0, 0, 0, 0, 0, 0, 0, 0, 0],
                    [0, 0, 0, 0, 0, 0, 0, 0, 0, 0, 0, 0, 0, 0, 0, 0],
                    [0, 0, 0, 0, 0, 0, 0, 0, 0, 0, 0, 0, 0, 0, 0, 0x18])
  {
    hide Padding, LengthBytes, HasRows, Zeros;
    LastBlocks(3);
    ShortLengths();
    var a, l: seq<Byte> := [0x61, 0x62, 0x63, 0x80], [0, 0, 0, 0, 0, 0, 0, 0x18];
    assert a + [0, 0, 0, 0, 0, 0, 0, 0, 0, 0, 0, 0]
        == [0x61, 0x62, 0x63, 0x80, 0, 0, 0, 0, 0, 0, 0, 0, 0, 0, 0, 0];
    assert [0, 0, 0, 0, 0, 0, 0, 0] + l == [0, 0, 0, 0, 0, 0, 0, 0, 0, 0, 0, 0, 0, 0, 0, 0x18];
    assert [0x61, 0x62, 0x63] + ([0x80] + Zeros(52) + l) == a + Zeros(52) + l;
    MostlyZeros(a, l);
    ZeroRow(12, [0, 0, 0, 0, 0, 0, 0, 0, 0, 0, 0, 0]);
    ZeroRow(16, [0, 0, 0, 0, 0, 0, 0, 0, 0, 0, 0, 0, 0, 0, 0, 0]);
    ZeroRow(8, [0, 0, 0, 0, 0, 0, 0, 0]);
  }

  /** The digest of "abc". */
  lemma DigestOfAbc()
    ensures Digest([0x61, 0x62, 0x63]) == Regs(0xA9993E36, 0x4706816A, 0xBA3E2571, 0x7850C26C, 0x9CD0D89D)
  {
    var message: seq<Byte> := [0x61, 0x62, 0x63];
    var block := message + Padding(3);
    AbcBlock();
    hide HasRows, Compress, Blocks, Padding, INITIAL;
    AbcCompressed(block);
    EmptyMessage();
    BlocksAppend([], block);
    assert [] + block == block;
  }

  // ---------------------------------------------------------------- Appendix B: two blocks

  lemma FirstStart(block: seq<Byte>)
    requires HasRows(block,
                     [0x61, 0x62, 0x63, 0x64, 0x62, 0x63, 0x64, 0x65, 0x63, 0x64, 0x65, 0x66, 0x64, 0x65, 0x66, 0x67],
                     [0x65, 0x66, 0x67, 0x68, 0x66, 0x67, 0x68, 0x69, 0x67, 0x68, 0x69, 0x6a, 0x68, 0x69, 0x6a, 0x6b],
                     [0x69, 0x6a, 0x6b, 0x6c, 0x6a, 0x6b, 0x6c, 0x6d, 0x6b, 0x6c, 0x6d, 0x6e, 0x6c, 0x6d, 0x6e, 0x6f],
                     [0x6d, 0x6e, 0x6f, 0x70, 0x6e, 0x6f, 0x70, 0x71, 0x80, 0, 0, 0, 0, 0, 0, 0])
    ensures Reached(block, INITIAL, 0,
                    [0x61626364, 0x62636465, 0x63646566, 0x64656667, 0x65666768, 0x66676869, 0x6768696A, 0x68696A6B],
                    [0x696A6B6C, 0x6A6B6C6D, 0x6B6C6D6E, 0x6C6D6E6F, 0x6D6E6F70, 0x6E6F7071, 0x80000000, 0x00000000],
                    Regs(0x67452301, 0xEFCDAB89, 0x98BADCFE, 0x10325476, 0xC3D2E1F0))
  {
    var a := [0x61, 0x62, 0x63, 0x64, 0x62, 0x63, 0x64, 0x65, 0x63, 0x64, 0x65, 0x66, 0x64, 0x65, 0x66, 0x67];
    var b := [0x65, 0x66, 0x67, 0x68, 0x66, 0x67, 0x68, 0x69, 0x67, 0x68, 0x69, 0x6a, 0x68, 0x69, 0x6a, 0x6b];
    var c := [0x69, 0x6a, 0x6b, 0x6c, 0x6a, 0x6b, 0x6c, 0x6d, 0x6b, 0x6c, 0x6d, 0x6e, 0x6c, 0x6d, 0x6e, 0x6f];
    var d := [0x6d, 0x6e, 0x6f, 0x70, 0x6e, 0x6f, 0x70, 0x71, 0x80, 0, 0, 0, 0, 0, 0, 0];
    var u := [0x61626364, 0x62636465, 0x63646566, 0x64656667, 0x65666768, 0x66676869, 0x6768696A, 0x68696A6B];
    var v := [0x696A6B6C, 0x6A6B6C6D, 0x6B6C6D6E, 0x6C6D6E6F, 0x6D6E6F70, 0x6E6F7071, 0x80000000, 0x00000000];
    hide HasRows, Reached;
    assert RowOf(a) + RowOf(b) == u && RowOf(c) + RowOf(d) == v;
    hide RowOf;
    AtStart(block, INITIAL, a, b, c, d, u, v);
  }

  lemma FirstTo16(block: seq<Byte>)
    requires |block| == 64
    requires Reached(block, INITIAL, 0,
                     [0x61626364, 0x62636465, 0x63646566, 0x64656667, 0x65666768, 0x66676869, 0x6768696A, 0x68696A6B],
                     [0x696A6B6C, 0x6A6B6C6D, 0x6B6C6D6E, 0x6C6D6E6F, 0x6D6E6F70, 0x6E6F7071, 0x80000000, 0x00000000],
                     Regs(0x67452301, 0xEFCDAB89, 0x98BADCFE, 0x10325476, 0xC3D2E1F0))
    ensures Reached(block, INITIAL, 16,
                    [0x0A063A3E, 0xD8DADCDF, 0xDADCDEC0, 0xC8D2B4BE, 0x6F757B5B, 0x757B5967, 0x8DA16D70, 0xDAEEFABA],
                    [0xFAF6CAB6, 0xA6FB675A, 0x0C604CC8, 0x604CC02C, 0x49C0E6E2, 0x2EE8CBBC, 0xCFD72EC4, 0x97E9810E],
                    Regs(0x42637E39, 0xB2E7A8BE, 0x4CBE52A1, 0xA180D207, 0xB867B2A8))
  {
    hide Reached, HasWords, W, Rounds;
    var u := [0x61626364, 0x62636465, 0x63646566, 0x64656667, 0x65666768, 0x66676869, 0x6768696A, 0x68696A6B];
    var v := [0x696A6B6C, 0x6A6B6C6D, 0x6B6C6D6E, 0x6C6D6E6F, 0x6D6E6F70, 0x6E6F7071, 0x80000000, 0x00000000];
    var x := [0x0A063A3E, 0xD8DADCDF, 0xDADCDEC0, 0xC8D2B4BE, 0x6F757B5B, 0x757B5967, 0x8DA16D70, 0xDAEEFABA];
    var y := [0xFAF6CAB6, 0xA6FB675A, 0x0C604CC8, 0x604CC02C, 0x49C0E6E2, 0x2EE8CBBC, 0xCFD72EC4, 0x97E9810E];
    var r := Regs(0x45833F0F, 0xDB04CB58, 0x65AE1462, 0xCCFD2B96, 0x0B13DBAB);
    Stage(block, INITIAL, 0, u, v, x, Regs(0x67452301, 0xEFCDAB89, 0x98BADCFE, 0x10325476, 0xC3D2E1F0),
          Regs(0x2C4F6EAC, 0x5109913A, 0xBAFCED14, 0xC045BF05, 0x59D148C0), r);
    Stage(block, INITIAL, 8, v, x, y, r,
          Regs(0xE19ECAA2, 0x8993EA77, 0x98D42BF6, 0xB15970D7, 0xD160CFC3),
          Regs(0x42637E39, 0xB2E7A8BE, 0x4CBE52A1, 0xA180D207, 0xB867B2A8));
  }

  lemma FirstTo32(block: seq<Byte>)
    requires |block| == 64
    requires Reached(block, INITIAL, 16,
                     [0x0A063A3E, 0xD8DADCDF, 0xDADCDEC0, 0xC8D2B4BE, 0x6F757B5B, 0x757B5967, 0x8DA16D70, 0xDAEEFABA],
                     [0xFAF6CAB6, 0xA6FB675A, 0x0C604CC8, 0x604CC02C, 0x49C0E6E2, 0x2EE8CBBC, 0xCFD72EC4, 0x97E9810E],
                     Regs(0x42637E39, 0xB2E7A8BE, 0x4CBE52A1, 0xA180D207, 0xB867B2A8))
    ensures Reached(block, INITIAL, 32,
                    [0x0989CBE8, 0xF24843FE, 0x5C40D0BA, 0xA8D9CC3B, 0xB2B9666E, 0xBA7B71B7, 0x20B28A72, 0xB28AF500],
                    [0x8AC87842, 0x289ADDF4, 0x56D51F21, 0xD96B7FD2, 0x3868E778, 0xAB5E4848, 0x7F0E2118, 0xDE87A111],
                    Regs(0x52E31F60, 0xA9C84BEC, 0x816D15EC, 0x78448908, 0x3549A991))
  {
    hide Reached, HasWords, W, Rounds;
    var u := [0x0A063A3E, 0xD8DADCDF, 0xDADCDEC0, 0xC8D2B4BE, 0x6F757B5B, 0x757B5967, 0x8DA16D70, 0xDAEEFABA];
    var v := [0xFAF6CAB6, 0xA6FB675A, 0x0C604CC8, 0x604CC02C, 0x49C0E6E2, 0x2EE8CBBC, 0xCFD72EC4, 0x97E9810E];
    var x := [0x0989CBE8, 0xF24843FE, 0x5C40D0BA, 0xA8D9CC3B, 0xB2B9666E, 0xBA7B71B7, 0x20B28A72, 0xB28AF500];
    var y := [0x8AC87842, 0x289ADDF4, 0x56D51F21, 0xD96B7FD2, 0x3868E778, 0xAB5E4848, 0x7F0E2118, 0xDE87A111];
    var r := Regs(0xFD224575, 0xE2B92DC4, 0xC254445D, 0x6560DB69, 0x9B111594);
    Stage(block, INITIAL, 16, u, v, x, Regs(0x42637E39, 0xB2E7A8BE, 0x4CBE52A1, 0xA180D207, 0xB867B2A8),
          Regs(0x6C445652, 0x944B1BD1, 0x509AE70D, 0x1AC1A012, 0x5098DF8E), r);
    Stage(block, INITIAL, 24, v, x, y, r,
          Regs(0xD526A644, 0x2972F7C7, 0x96850B06, 0xBBAE0B66, 0x7F48915D),
          Regs(0x52E31F60, 0xA9C84BEC, 0x816D15EC, 0x78448908, 0x3549A991));
  }

  lemma FirstTo48(block: seq<Byte>)
    requires |block| == 64
    requires Reached(block, INITIAL, 32,
                     [0x0989CBE8, 0xF24843FE, 0x5C40D0BA, 0xA8D9CC3B, 0xB2B9666E, 0xBA7B71B7, 0x20B28A72, 0xB28AF500],
                     [0x8AC87842, 0x289ADDF4, 0x56D51F21, 0xD96B7FD2, 0x3868E778, 0xAB5E4848, 0x7F0E2118, 0xDE87A111],
                     Regs(0x52E31F60, 0xA9C84BEC, 0x816D15EC, 0x78448908, 0x3549A991))
    ensures Reached(block, INITIAL, 48,
                    [0xE8BE56B0, 0x1A0AE652, 0xCD5611C8, 0x46EF29DC, 0x60D3DA6D, 0xDDF3BA6E, 0x2737F5E9, 0x4888A710],
                    [0xD2A1177B, 0x9999633B, 0xD6C69D03, 0xCCF6127B, 0x7C58FE6D, 0xFDD99C68, 0xF8E32074, 0xE0BA3C7D],
                    Regs(0xC8A69090, 0xA2AD4F02, 0xB1BA8907, 0x26307A99, 0x58CFA558))
  {
    hide Reached, HasWords, W, Rounds;
    var u := [0x0989CBE8, 0xF24843FE, 0x5C40D0BA, 0xA8D9CC3B, 0xB2B9666E, 0xBA7B71B7, 0x20B28A72, 0xB28AF500];
    var v := [0x8AC87842, 0x289ADDF4, 0x56D51F21, 0xD96B7FD2, 0x3868E778, 0xAB5E4848, 0x7F0E2118, 0xDE87A111];
    var x := [0xE8BE56B0, 0x1A0AE652, 0xCD5611C8, 0x46EF29DC, 0x60D3DA6D, 0xDDF3BA6E, 0x2737F5E9, 0x4888A710];
    var y := [0xD2A1177B, 0x9999633B, 0xD6C69D03, 0xCCF6127B, 0x7C58FE6D, 0xFDD99C68, 0xF8E32074, 0xE0BA3C7D];
    var r := Regs(0xADEB7478, 0x24957F22, 0x50FE1EBA, 0x564CFF26, 0xAADF0CBB);
    Stage(block, INITIAL, 32, u, v, x, Regs(0x52E31F60, 0xA9C84BEC, 0x816D15EC, 0x78448908, 0x3549A991),
          Regs(0xAB7C32EE, 0xE9AC987C, 0x4C71D5AA, 0x16BCC90B, 0x14B8C7D8), r);
    Stage(block, INITIAL, 40, v, x, y, r,
          Regs(0x633E9561, 0xF9BCB8DE, 0x1E6F3EC2, 0x35C39404, 0x2B7ADD1E),
          Regs(0xC8A69090, 0xA2AD4F02, 0xB1BA8907, 0x26307A99, 0x58CFA558));
  }

  lemma FirstTo64(block: seq<Byte>)
    requires |block| == 64
    requires Reached(block, INITIAL, 48,
                     [0xE8BE56B0, 0x1A0AE652, 0xCD5611C8, 0x46EF29DC, 0x60D3DA6D, 0xDDF3BA6E, 0x2737F5E9, 0x4888A710],
                     [0xD2A1177B, 0x9999633B, 0xD6C69D03, 0xCCF6127B, 0x7C58FE6D, 0xFDD99C68, 0xF8E32074, 0xE0BA3C7D],
                     Regs(0xC8A69090, 0xA2AD4F02, 0xB1BA8907, 0x26307A99, 0x58CFA558))
    ensures Reached(block, INITIAL, 64,
                    [0x152198D6, 0x7B3F1982, 0x37F2D5B7, 0x8596323E, 0x810790D6, 0xBEA0A942, 0x11C7E1B1, 0x6158D101],
                    [0x5FCD77D9, 0x7F2F12E6, 0xF868CFB1, 0xD6E997E9, 0xF526B852, 0xB7578DCC, 0x55D99DF4, 0x1FF69958],
                    Regs(0x513F9CA0, 0x2BFAF7A8, 0x10203537, 0xCD8952C4, 0xE7BDDD70))
  {
    hide Reached, HasWords, W, Rounds;
    var u := [0xE8BE56B0, 0x1A0AE652, 0xCD5611C8, 0x46EF29DC, 0x60D3DA6D, 0xDDF3BA6E, 0x2737F5E9, 0x4888A710];
    var v := [0xD2A1177B, 0x9999633B, 0xD6C69D03, 0xCCF6127B, 0x7C58FE6D, 0xFDD99C68, 0xF8E32074, 0xE0BA3C7D];
    var x := [0x152198D6, 0x7B3F1982, 0x37F2D5B7, 0x8596323E, 0x810790D6, 0xBEA0A942, 0x11C7E1B1, 0x6158D101];
    var y := [0x5FCD77D9, 0x7F2F12E6, 0xF868CFB1, 0xD6E997E9, 0xF526B852, 0xB7578DCC, 0x55D99DF4, 0x1FF69958];
    var r := Regs(0x776C3910, 0x36D1230A, 0x7B7AA56C, 0x33A24B84, 0x234B9DB2);
    Stage(block, INITIAL, 48, u, v, x, Regs(0xC8A69090, 0xA2AD4F02, 0xB1BA8907, 0x26307A99, 0x58CFA558),
          Regs(0x8D2E76C8, 0x86E358BA, 0x1FA11BD6, 0x220D0580, 0x3229A424), r);
    Stage(block, INITIAL, 56, v, x, y, r,
          Regs(0x9EF775C3, 0xF03D3782, 0xEB029E53, 0xE9A06DC8, 0x1DDB0E44),
          Regs(0x513F9CA0, 0x2BFAF7A8, 0x10203537, 0xCD8952C4, 0xE7BDDD70));
  }

  lemma FirstTo80(block: seq<Byte>)
    requires |block| == 64
    requires Reached(block, INITIAL, 64,
                     [0x152198D6, 0x7B3F1982, 0x37F2D5B7, 0x8596323E, 0x810790D6, 0xBEA0A942, 0x11C7E1B1, 0x6158D101],
                     [0x5FCD77D9, 0x7F2F12E6, 0xF868CFB1, 0xD6E997E9, 0xF526B852, 0xB7578DCC, 0x55D99DF4, 0x1FF69958],
                     Regs(0x513F9CA0, 0x2BFAF7A8, 0x10203537, 0xCD8952C4, 0xE7BDDD70))
    ensures Reached(block, INITIAL, 80,
                    [0x94936EE9, 0xA8BF495D, 0xA2D62710, 0xF298C4F8, 0x9AB300D1, 0x94F3A53F, 0xD2979EC9, 0x3664B4DD],
                    [0x4F8AE77D, 0xA7DCA537, 0x33F9C85D, 0xB9587341, 0x3B210081, 0x1F56F3EC, 0x550A3D2B, 0x7418C8B3],
                    Regs(0x8CE34517, 0xD3AD7C25, 0x6B4E1883, 0x74351CD2, 0x86838382))
  {
    hide Reached, HasWords, W, Rounds;
    var u := [0x152198D6, 0x7B3F1982, 0x37F2D5B7, 0x8596323E, 0x810790D6, 0xBEA0A942, 0x11C7E1B1, 0x6158D101];
    var v := [0x5FCD77D9, 0x7F2F12E6, 0xF868CFB1, 0xD6E997E9, 0xF526B852, 0xB7578DCC, 0x55D99DF4, 0x1FF69958];
    var x := [0x94936EE9, 0xA8BF495D, 0xA2D62710, 0xF298C4F8, 0x9AB300D1, 0x94F3A53F, 0xD2979EC9, 0x3664B4DD];
    var y := [0x4F8AE77D, 0xA7DCA537, 0x33F9C85D, 0xB9587341, 0x3B210081, 0x1F56F3EC, 0x550A3D2B, 0x7418C8B3];
    var r := Regs(0x84065712, 0x112B96E3, 0xFF7DBBFF, 0x4B1EC1EF, 0x5B45F27F);
    Stage(block, INITIAL, 64, u, v, x, Regs(0x513F9CA0, 0x2BFAF7A8, 0x10203537, 0xCD8952C4, 0xE7BDDD70),
          Regs(0x6D17C9FD, 0x14A82DA9, 0x440DF4B5, 0x79625720, 0x144FE728), r);
    Stage(block, INITIAL, 72, v, x, y, r,
          Regs(0x1A0E0E0A, 0x352D9F4B, 0x7148438D, 0x6AE27EDC, 0xA10195C4),
          Regs(0x8CE34517, 0xD3AD7C25, 0x6B4E1883, 0x74351CD2, 0x86838382));
  }

  lemma FirstCompressed(block: seq<Byte>)
    requires HasRows(block,
                     [0x61, 0x62, 0x63, 0x64, 0x62, 0x63, 0x64, 0x65, 0x63, 0x64, 0x65, 0x66, 0x64, 0x65, 0x66, 0x67],
                     [0x65, 0x66, 0x67, 0x68, 0x66, 0x67, 0x68, 0x69, 0x67, 0x68, 0x69, 0x6a, 0x68, 0x69, 0x6a, 0x6b],
                     [0x69, 0x6a, 0x6b, 0x6c, 0x6a, 0x6b, 0x6c, 0x6d, 0x6b, 0x6c, 0x6d, 0x6e, 0x6c, 0x6d, 0x6e, 0x6f],
                     [0x6d, 0x6e, 0x6f, 0x70, 0x6e, 0x6f, 0x70, 0x71, 0x80, 0, 0, 0, 0, 0, 0, 0])
    ensures Compress(INITIAL, block) == Regs(0xF4286818, 0xC37B27AE, 0x0408F581, 0x84677148, 0x4A566572)
  {
    FirstStart(block);
    hide HasRows, HasWords, W, Rounds;
    FirstTo16(block);
    FirstTo32(block);
    FirstTo48(block);
    FirstTo64(block);
    FirstTo80(block);
  }

  const HALF_WAY := Regs(0xF4286818, 0xC37B27AE, 0x0408F581, 0x84677148, 0x4A566572)

  // ---------------------------------------------------------------- Appendix B, the second block

  lemma SecondStart(block: seq<Byte>)
    requires HasRows(block,
                     [0, 0, 0, 0, 0, 0, 0, 0, 0, 0, 0, 0, 0, 0, 0, 0],
                     [0, 0, 0, 0, 0, 0, 0, 0, 0, 0, 0, 0, 0, 0, 0, 0],
                     [0, 0, 0, 0, 0, 0, 0, 0, 0, 0, 0, 0, 0, 0, 0, 0],
                     [0, 0, 0, 0, 0, 0, 0, 0, 0, 0, 0, 0, 0, 0, 0x01, 0xc0])
    ensures Reached(block, HALF_WAY, 0,
                    [0x00000000, 0x00000000, 0x00000000, 0x00000000, 0x00000000, 0x00000000, 0x00000000, 0x00000000],
                    [0x00000000, 0x00000000, 0x00000000, 0x00000000, 0x00000000, 0x00000000, 0x00000000, 0x000001C0],
                    Regs(0xF4286818, 0xC37B27AE, 0x0408F581, 0x84677148, 0x4A566572))
  {
    var a := [0, 0, 0, 0, 0, 0, 0, 0, 0, 0, 0, 0, 0, 0, 0, 0];
    var b := [0, 0, 0, 0, 0, 0, 0, 0, 0, 0, 0, 0, 0, 0, 0, 0];
    var c := [0, 0, 0, 0, 0, 0, 0, 0, 0, 0, 0, 0, 0, 0, 0, 0];
    var d := [0, 0, 0, 0, 0, 0, 0, 0, 0, 0, 0, 0, 0, 0, 0x01, 0xc0];
    var u := [0x00000000, 0x00000000, 0x00000000, 0x00000000, 0x00000000, 0x00000000, 0x00000000, 0x00000000];
    var v := [0x00000000, 0x00000000, 0x00000000, 0x00000000, 0x00000000, 0x00000000, 0x00000000, 0x000001C0];
    hide HasRows, Reached;
    assert RowOf(a) + RowOf(b) == u && RowOf(c) + RowOf(d) == v;
    hide RowOf;
    AtStart(block, HALF_WAY, a, b, c, d, u, v);
  }

  lemma SecondTo16(block: seq<Byte>)
    requires |block| == 64
    requires Reached(block, HALF_WAY, 0,
                     [0x00000000, 0x00000000, 0x00000000, 0x00000000, 0x00000000, 0x00000000, 0x00000000, 0x00000000],
                     [0x00000000, 0x00000000, 0x00000000, 0x00000000, 0x00000000, 0x00000000, 0x00000000, 0x000001C0],
                     Regs(0xF4286818, 0xC37B27AE, 0x0408F581, 0x84677148, 0x4A566572))
    ensures Reached(block, HALF_WAY, 16,
                    [0x00000000, 0x00000000, 0x00000380, 0x00000000, 0x00000000, 0x00000700, 0x00000000, 0x00000380],
                    [0x00000E00, 0x00000000, 0x00000000, 0x00001C00, 0x00000000, 0x00000D80, 0x00003800, 0x00000480],
                    Regs(0xD9772360, 0x258B0BAA, 0x2898132A, 0xFFB35EEF, 0xD0E89E4B))
  {
    hide Reached, HasWords, W, Rounds;
    var u := [0x00000000, 0x00000000, 0x00000000, 0x00000000, 0x00000000, 0x00000000, 0x00000000, 0x00000000];
    var v := [0x00000000, 0x00000000, 0x00000000, 0x00000000, 0x00000000, 0x00000000, 0x00000000, 0x000001C0];
    var x := [0x00000000, 0x00000000, 0x00000380, 0x00000000, 0x00000000, 0x00000700, 0x00000000, 0x00000380];
    var y := [0x00000E00, 0x00000000, 0x00000000, 0x00001C00, 0x00000000, 0x00000D80, 0x00003800, 0x00000480];
    var r := Regs(0xC6946813, 0xE7FA0377, 0x1510E457, 0xD078D09D, 0xBBBDD0F1);
    Stage(block, HALF_WAY, 0, u, v, x, Regs(0xF4286818, 0xC37B27AE, 0x0408F581, 0x84677148, 0x4A566572),
          Regs(0xEEF743C6, 0xC352BB05, 0xD34F7163, 0x4B7C95FA, 0x3D0A1A06), r);
    Stage(block, HALF_WAY, 8, v, x, y, r,
          Regs(0x43A2792F, 0x6BA94F63, 0xAE14E2B2, 0x7F778778, 0xF1A51A04),
          Regs(0xD9772360, 0x258B0BAA, 0x2898132A, 0xFFB35EEF, 0xD0E89E4B));
  }

  lemma SecondTo32(block: seq<Byte>)
    requires |block| == 64
    requires Reached(block, HALF_WAY, 16,
                     [0x00000000, 0x00000000, 0x00000380, 0x00000000, 0x00000000, 0x00000700, 0x00000000, 0x00000380],
                     [0x00000E00, 0x00000000, 0x00000000, 0x00001C00, 0x00000000, 0x00000D80, 0x00003800, 0x00000480],
                     Regs(0xD9772360, 0x258B0BAA, 0x2898132A, 0xFFB35EEF, 0xD0E89E4B))
    ensures Reached(block, HALF_WAY, 32,
                    [0x00000000, 0x00007000, 0x00000E00, 0x00003600, 0x0000E000, 0x00000E00, 0x00000000, 0x0001CE00],
                    [0x00000000, 0x0000D800, 0x00038000, 0x00004F00, 0x00000000, 0x00070E00, 0x0000EE00, 0x00037500],
                    Regs(0x8A4AF384, 0x17986223, 0x028BEC42, 0xC90A6F97, 0xD7105B6B))
  {
    hide Reached, HasWords, W, Rounds;
    var u := [0x00000000, 0x00000000, 0x00000380, 0x00000000, 0x00000000, 0x00000700, 0x00000000, 0x00000380];
    var v := [0x00000E00, 0x00000000, 0x00000000, 0x00001C00, 0x00000000, 0x00000D80, 0x00003800, 0x00000480];
    var x := [0x00000000, 0x00007000, 0x00000E00, 0x00003600, 0x0000E000, 0x00000E00, 0x00000000, 0x0001CE00];
    var y := [0x00000000, 0x0000D800, 0x00038000, 0x00004F00, 0x00000000, 0x00070E00, 0x0000EE00, 0x00037500];
    var r := Regs(0x8FBAA5B9, 0x9AD594B9, 0x7BA1C02F, 0xCDD20BD7, 0xF6264854);
    Stage(block, HALF_WAY, 16, u, v, x, Regs(0xD9772360, 0x258B0BAA, 0x2898132A, 0xFFB35EEF, 0xD0E89E4B),
          Regs(0xD8992153, 0xC2EB709F, 0x2946D62F, 0x9541F6DB, 0x365DC8D8), r);
    Stage(block, HALF_WAY, 24, v, x, y, r,
          Regs(0x5C416DAF, 0x50BCE434, 0x7BB14148, 0xE23ED619, 0x63EEA96E),
          Regs(0x8A4AF384, 0x17986223, 0x028BEC42, 0xC90A6F97, 0xD7105B6B));
  }

  lemma SecondTo48(block: seq<Byte>)
    requires |block| == 64
    requires Reached(block, HALF_WAY, 32,
                     [0x00000000, 0x00007000, 0x00000E00, 0x00003600, 0x0000E000, 0x00000E00, 0x00000000, 0x0001CE00],
                     [0x00000000, 0x0000D800, 0x00038000, 0x00004F00, 0x00000000, 0x00070E00, 0x0000EE00, 0x00037500],
                     Regs(0x8A4AF384, 0x17986223, 0x028BEC42, 0xC90A6F97, 0xD7105B6B))
    ensures Reached(block, HALF_WAY, 48,
                    [0x000E0000, 0x0000E000, 0x00003600, 0x001CEE00, 0x00000000, 0x000DF000, 0x00380000, 0x0004C600],
                    [0x0000E000, 0x0070EE00, 0x000EE000, 0x00369E00, 0x00E00000, 0x000ED600, 0x0000E000, 0x01CEA600],
                    Regs(0x46F93B68, 0x7316056A, 0xB0F40CFA, 0xCF2BB5EB, 0x7B074F58))
  {
    hide Reached, HasWords, W, Rounds;
    var u := [0x00000000, 0x00007000, 0x00000E00, 0x00003600, 0x0000E000, 0x00000E00, 0x00000000, 0x0001CE00];
    var v := [0x00000000, 0x0000D800, 0x00038000, 0x00004F00, 0x00000000, 0x00070E00, 0x0000EE00, 0x00037500];
    var x := [0x000E0000, 0x0000E000, 0x00003600, 0x001CEE00, 0x00000000, 0x000DF000, 0x00380000, 0x0004C600];
    var y := [0x0000E000, 0x0070EE00, 0x000EE000, 0x00369E00, 0x00E00000, 0x000ED600, 0x0000E000, 0x01CEA600];
    var r := Regs(0x03BB6310, 0x84E2A5F2, 0x21F56E03, 0xB3BD6B84, 0x1A5B6901);
    Stage(block, HALF_WAY, 32, u, v, x, Regs(0x8A4AF384, 0x17986223, 0x028BEC42, 0xC90A6F97, 0xD7105B6B),
          Regs(0x696DA404, 0x295CC25B, 0xFC57C13C, 0xDAD8A664, 0x2292BCE1), r);
    Stage(block, HALF_WAY, 40, v, x, y, r,
          Regs(0xEC1D3D61, 0x28589152, 0x2FEC95DA, 0xF0B63DD7, 0x00EED8C4),
          Regs(0x46F93B68, 0x7316056A, 0xB0F40CFA, 0xCF2BB5EB, 0x7B074F58));
  }

  lemma SecondTo64(block: seq<Byte>)
    requires |block| == 64
    requires Reached(block, HALF_WAY, 48,
                     [0x000E0000, 0x0000E000, 0x00003600, 0x001CEE00, 0x00000000, 0x000DF000, 0x00380000, 0x0004C600],
                     [0x0000E000, 0x0070EE00, 0x000EE000, 0x00369E00, 0x00E00000, 0x000ED600, 0x0000E000, 0x01CEA600],
                     Regs(0x46F93B68, 0x7316056A, 0xB0F40CFA, 0xCF2BB5EB, 0x7B074F58))
    ensures Reached(block, HALF_WAY, 64,
                    [0x00000000, 0x00D80000, 0x0380E000, 0x004F0000, 0x00000000, 0x070E0000, 0x00EE0000, 0x03751C00],
                    [0x0E000000, 0x00E0E000, 0x00363800, 0x1CEE9000, 0x00000000, 0x0DF09000, 0x3800E000, 0x04C77400],
                    Regs(0xD504902B, 0xF66D9BF4, 0x24D85327, 0xDEAAC406, 0xE996063D))
  {
    hide Reached, HasWords, W, Rounds;
    var u := [0x000E0000, 0x0000E000, 0x00003600, 0x001CEE00, 0x00000000, 0x000DF000, 0x00380000, 0x0004C600];
    var v := [0x0000E000, 0x0070EE00, 0x000EE000, 0x00369E00, 0x00E00000, 0x000ED600, 0x0000E000, 0x01CEA600];
    var x := [0x00000000, 0x00D80000, 0x0380E000, 0x004F0000, 0x00000000, 0x070E0000, 0x00EE0000, 0x03751C00];
    var y := [0x0E000000, 0x00E0E000, 0x00363800, 0x1CEE9000, 0x00000000, 0x0DF09000, 0x3800E000, 0x04C77400];
    var r := Regs(0x6DA72E7F, 0x2BDBB8CB, 0x10C7596F, 0x05E5F88A, 0x627EF507);
    Stage(block, HALF_WAY, 48, u, v, x, Regs(0x46F93B68, 0x7316056A, 0xB0F40CFA, 0xCF2BB5EB, 0x7B074F58),
          Regs(0x89FBD41D, 0x7E4672C0, 0x21435047, 0xB7239FC9, 0x11BE4EDA), r);
    Stage(block, HALF_WAY, 56, v, x, y, r,
          Regs(0xA65818F7, 0x5B086C42, 0xB9E15956, 0xEA1256A6, 0xDB69CB9F),
          Regs(0xD504902B, 0xF66D9BF4, 0x24D85327, 0xDEAAC406, 0xE996063D));
  }

  lemma SecondTo80(block: seq<Byte>)
    requires |block| == 64
    requires Reached(block, HALF_WAY, 64,
                     [0x00000000, 0x00D80000, 0x0380E000, 0x004F0000, 0x00000000, 0x070E0000, 0x00EE0000, 0x03751C00],
                     [0x0E000000, 0x00E0E000, 0x00363800, 0x1CEE9000, 0x00000000, 0x0DF09000, 0x3800E000, 0x04C77400],
                     Regs(0xD504902B, 0xF66D9BF4, 0x24D85327, 0xDEAAC406, 0xE996063D))
    ensures Reached(block, HALF_WAY, 80,
                    [0x00E0E000, 0x70EE0000, 0x0EE35800, 0x369EE000, 0xE0000000, 0x0ED1A800, 0x00E00000, 0xCEA51001],
                    [0x000EE000, 0xD800E000, 0x80E0E003, 0x4F1C0000, 0x00000000, 0x0E0D5807, 0xEE380000, 0x7518C803],
                    Regs(0x906FD62C, 0x58C0AAC0, 0xB6A55520, 0x74E9B89D, 0x9AF00B7F))
  {
    hide Reached, HasWords, W, Rounds;
    var u := [0x00000000, 0x00D80000, 0x0380E000, 0x004F0000, 0x00000000, 0x070E0000, 0x00EE0000, 0x03751C00];
    var v := [0x0E000000, 0x00E0E000, 0x00363800, 0x1CEE9000, 0x00000000, 0x0DF09000, 0x3800E000, 0x04C77400];
    var x := [0x00E0E000, 0x70EE0000, 0x0EE35800, 0x369EE000, 0xE0000000, 0x0ED1A800, 0x00E00000, 0xCEA51001];
    var y := [0x000EE000, 0xD800E000, 0x80E0E003, 0x4F1C0000, 0x00000000, 0x0E0D5807, 0xEE380000, 0x7518C803];
    var r := Regs(0xAE1B8E7B, 0x8B2C7573, 0x66277459, 0xDDB0158E, 0xFD889AEF);
    Stage(block, HALF_WAY, 64, u, v, x, Regs(0xD504902B, 0xF66D9BF4, 0x24D85327, 0xDEAAC406, 0xE996063D),
          Regs(0xF6226BBF, 0x083E90C3, 0x62DA1E06, 0x982A7698, 0xF541240A), r);
    Stage(block, HALF_WAY, 72, v, x, y, r,
          Regs(0x6BC02DFE, 0xD28D83AD, 0xC5BCEEAE, 0xB2861037, 0xEB86E39E),
          Regs(0x906FD62C, 0x58C0AAC0, 0xB6A55520, 0x74E9B89D, 0x9AF00B7F));
  }

  lemma SecondCompressed(block: seq<Byte>)
    requires HasRows(block,
                     [0, 0, 0, 0, 0, 0, 0, 0, 0, 0, 0, 0, 0, 0, 0, 0],
                     [0, 0, 0, 0, 0, 0, 0, 0, 0, 0, 0, 0, 0, 0, 0, 0],
                     [0, 0, 0, 0, 0, 0, 0, 0, 0, 0, 0, 0, 0, 0, 0, 0],
                     [0, 0, 0, 0, 0, 0, 0, 0, 0, 0, 0, 0, 0, 0, 0x01, 0xc0])
    ensures Compress(HALF_WAY, block) == Regs(0x84983E44, 0x1C3BD26E, 0xBAAE4AA1, 0xF95129E5, 0xE54670F1)
  {
    SecondStart(block);
    hide HasRows, HasWords, W, Rounds;
    SecondTo16(block);
    SecondTo32(block);
    SecondTo48(block);
    SecondTo64(block);
    SecondTo80(block);
  }

  /** The message of Appendix B. */
  const ALPHABET: seq<Byte> :=
    [0x61, 0x62, 0x63, 0x64, 0x62, 0x63, 0x64, 0x65, 0x63, 0x64, 0x65, 0x66, 0x64, 0x65, 0x66, 0x67]
    + [0x65, 0x66, 0x67, 0x68, 0x66, 0x67, 0x68, 0x69, 0x67, 0x68, 0x69, 0x6a, 0x68, 0x69, 0x6a, 0x6b]
    + [0x69, 0x6a, 0x6b, 0x6c, 0x6a, 0x6b, 0x6c, 0x6d, 0x6b, 0x6c, 0x6d, 0x6e, 0x6c, 0x6d, 0x6e, 0x6f]
    + [0x6d, 0x6e, 0x6f, 0x70, 0x6e, 0x6f, 0x70, 0x71]

  /** Three rows, half a row, the end mark, zeros, eight bytes. */
  lemma SplitRows(a: seq<Byte>, b: seq<Byte>, c: seq<Byte>, d: seq<Byte>, l: seq<Byte>)
    requires |a| == |b| == |c| == 16 && |d| == |l| == 8
    ensures var all := a + b + c + d + ([0x80] + Zeros(63) + l);
            && |all| == 128 && HasRows(all[..64], a, b, c, d + [0x80] + Zeros(7))
            && HasRows(all[64..], Zeros(16), Zeros(16), Zeros(16), Zeros(8) + l)
  {
    var all := a + b + c + d + ([0x80] + Zeros(63) + l);
    var e := d + [0x80] + Zeros(7);
    FourRows(a, b, c, e);
    FourRows(Zeros(16), Zeros(16), Zeros(16), Zeros(8) + l);
    var x, y := a + b + c + e, Zeros(16) + Zeros(16) + Zeros(16) + (Zeros(8) + l);
    assert all == x + y;
    assert all[..64] == x && all[64..] == y;
  }

  lemma TwoBlocks()
    ensures |ALPHABET| == 56
    ensures var all := ALPHABET + Padding(56);
            && |all| == 128
            && HasRows(all[..64],
                       [0x61, 0x62, 0x63, 0x64, 0x62, 0x63, 0x64, 0x65, 0x63, 0x64, 0x65, 0x66, 0x64, 0x65, 0x66, 0x67],
                       [0x65, 0x66, 0x67, 0x68, 0x66, 0x67, 0x68, 0x69, 0x67, 0x68, 0x69, 0x6a, 0x68, 0x69, 0x6a, 0x6b],
                       [0x69, 0x6a, 0x6b, 0x6c, 0x6a, 0x6b, 0x6c, 0x6d, 0x6b, 0x6c, 0x6d, 0x6e, 0x6c, 0x6d, 0x6e, 0x6f],
                       [0x6d, 0x6e, 0x6f, 0x70, 0x6e, 0x6f, 0x70, 0x71, 0x80, 0, 0, 0, 0, 0, 0, 0])
            && HasRows(all[64..],
                       [0, 0, 0, 0, 0, 0, 0, 0, 0, 0, 0, 0, 0, 0, 0, 0],
                       [0, 0, 0, 0, 0, 0, 0, 0, 0, 0, 0, 0, 0, 0, 0, 0],
                       [0, 0, 0, 0, 0, 0, 0, 0, 0, 0, 0, 0, 0, 0, 0, 0],
                       [0, 0, 0, 0, 0, 0, 0, 0, 0, 0, 0, 0, 0, 0, 0x01, 0xc0])
  {
    hide Padding, LengthBytes, HasRows, Zeros;
    LastBlocks(56);
    ShortLengths();
    var a, b, c, d: seq<Byte> :=
      [0x61, 0x62, 0x63, 0x64, 0x62, 0x63, 0x64, 0x65, 0x63, 0x64, 0x65, 0x66, 0x64, 0x65, 0x66, 0x67],
      [0x65, 0x66, 0x67, 0x68, 0x66, 0x67, 0x68, 0x69, 0x67, 0x68, 0x69, 0x6a, 0x68, 0x69, 0x6a, 0x6b],
      [0x69, 0x6a, 0x6b, 0x6c, 0x6a, 0x6b, 0x6c, 0x6d, 0x6b, 0x6c, 0x6d, 0x6e, 0x6c, 0x6d, 0x6e, 0x6f],
      [0x6d, 0x6e, 0x6f, 0x70, 0x6e, 0x6f, 0x70, 0x71];
    assert d + [0x80] + [0, 0, 0, 0, 0, 0, 0]
        == [0x6d, 0x6e, 0x6f, 0x70, 0x6e, 0x6f, 0x70, 0x71, 0x80, 0, 0, 0, 0, 0, 0, 0];
    var z, l: seq<Byte> := [0, 0, 0, 0, 0, 0, 0, 0], [0, 0, 0, 0, 0, 0, 0x01, 0xc0];
    assert z + l == [0, 0, 0, 0, 0, 0, 0, 0, 0, 0, 0, 0, 0, 0, 0x01, 0xc0];
    assert ALPHABET == a + b + c + d && (119 - 56 % 64) % 64 == 63;
    SplitRows(a, b, c, d, l);
    ZeroRow(16, [0, 0, 0, 0, 0, 0, 0, 0, 0, 0, 0, 0, 0, 0, 0, 0]);
    ZeroRow(8, z);
    ZeroRow(7, [0, 0, 0, 0, 0, 0, 0]);
  }

  lemma DigestOfAlphabet()
    ensures Digest(ALPHABET) == Regs(0x84983E44, 0x1C3BD26E, 0xBAAE4AA1, 0xF95129E5, 0xE54670F1)
  {
    TwoBlocks();
    hide HasRows, Compress, Blocks, Padding, INITIAL, ALPHABET;
    var all := ALPHABET + Padding(56);
    FirstCompressed(all[..64]);
    SecondCompressed(all[64..]);
    EmptyMessage();
    BlocksAppend([], all[..64]);
    assert [] + all[..64] == all[..64] && all[..64] + all[64..] == all;
    BlocksAppend(all[..64], all[64..]);
  }
}
