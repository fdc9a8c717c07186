/** The streaming SHA-1 of lab1/router/sha1.c against FIPS PUB 180-1. */
module Sha1 {
  import Machine

  const TWO_64 := 0x1_0000_0000_0000_0000

  type Byte = bv8
  type Word = bv32

  // ---------------------------------------------------------------- FIPS PUB 180-1

  /** Section 3: the circular left shift. */
  function Rotl(n: Word, x: Word): Word
    requires n <= 32
  {
    (x << n) | (x >> (32 - n))
  }

  function Choose(b: Word, c: Word, d: Word): Word {
    (b & c) | ((!b) & d)
  }

  function Parity(b: Word, c: Word, d: Word): Word {
    b ^ c ^ d
  }

  function Majority(b: Word, c: Word, d: Word): Word {
    (b & c) | (b & d) | (c & d)
  }

  /** Section 5. */
  function F(t: nat, b: Word, c: Word, d: Word): Word {
    if t < 20 then Choose(b, c, d)
    else if t < 40 then Parity(b, c, d)
    else if t < 60 then Majority(b, c, d)
    else Parity(b, c, d)
  }

  /** Section 6. */
  function K(t: nat): Word {
    if t < 20 then 0x5A827999 else if t < 40 then 0x6ED9EBA1 else if t < 60 then 0x8F1BBCDC else 0xCA62C1D6
  }

  /** The t-th word of a block, most significant byte first. */
  function BlockWord(block: seq<Byte>, t: nat): Word
    requires |block| == 64 && t < 16
  {
    ((block[t * 4] as Word) << 24) | ((block[t * 4 + 1] as Word) << 16)
      | ((block[t * 4 + 2] as Word) << 8) | (block[t * 4 + 3] as Word)
  }

  /** Section 7, steps a and b: the message schedule. */
  function W(block: seq<Byte>, t: nat): Word
    requires |block| == 64
  {
    if t < 16 then BlockWord(block, t)
    else Rotl(1, W(block, t - 3) ^ W(block, t - 8) ^ W(block, t - 14) ^ W(block, t - 16))
  }

  datatype Regs = Regs(a: Word, b: Word, c: Word, d: Word, e: Word)

  /** Step d, given the values of the function and the constant of the round. */
  function Shift(r: Regs, f: Word, w: Word, k: Word): Regs {
    var temp := Rotl(5, r.a) + f + r.e + w + k;
    Regs(temp, r.a, Rotl(30, r.b), r.c, r.d)
  }

  function Round(r: Regs, t: nat, w: Word): Regs {
    Shift(r, F(t, r.b, r.c, r.d), w, K(t))
  }

  /** Steps c and d up to t rounds. */
  function Rounds(block: seq<Byte>, h: Regs, t: nat): Regs
    requires |block| == 64
  {
    if t == 0 then h else Round(Rounds(block, h, t - 1), t - 1, W(block, t - 1))
  }

  /** Step e. */
  function Compress(h: Regs, block: seq<Byte>): Regs
    requires |block| == 64
  {
    Plus(h, Rounds(block, h, 80))
  }

  function Plus(h: Regs, r: Regs): Regs {
    Regs(Add32(h.a, r.a), Add32(h.b, r.b), Add32(h.c, r.c), Add32(h.d, r.d), Add32(h.e, r.e))
  }

  /** Addition modulo 2^32. */
  function Add32(x: Word, y: Word): Word {
    x + y
  }

  const INITIAL := Regs(0x67452301, 0xEFCDAB89, 0x98BADCFE, 0x10325476, 0xC3D2E1F0)

  /** All blocks of a padded message, in order. */
  function Blocks(padded: seq<Byte>): Regs
    requires |padded| % 64 == 0
    decreases |padded|
  {
    if padded == [] then INITIAL
    else Compress(Blocks(padded[..|padded| - 64]), padded[|padded| - 64..])
  }

  function Zeros(n: nat): (z: seq<Byte>)
    ensures |z| == n
  {
    seq(n, _ => 0)
  }

  function WordBytes(x: nat): (b: seq<Byte>)
    ensures |b| == 4
  {
    [(x / 0x100_0000 % 256) as Byte, (x / 0x1_0000 % 256) as Byte, (x / 256 % 256) as Byte, (x % 256) as Byte]
  }

  /** Section 4: a one bit, zeros up to 448 bits modulo 512, the length in bits as two words. */
  function Padding(length: nat): (p: seq<Byte>)
    ensures (length + |p|) % 64 == 0
  {
    FillsBlock(length);
    [0x80] + Zeros((119 - length % 64) % 64)
      + WordBytes(8 * length / Machine.TWO_32) + WordBytes(8 * length % Machine.TWO_32)
  }

  lemma FillsBlock(length: nat)
    ensures (length + (1 + (119 - length % 64) % 64 + 8)) % 64 == 0
  {
    var q, r := length / 64, length % 64;
    assert length == 64 * q + r;
    if r <= 55 { assert (119 - r) % 64 == 55 - r; } else { assert (119 - r) % 64 == 119 - r; }
  }

  function Digest(message: seq<Byte>): Regs {
    Blocks(message + Padding(|message|))
  }

  // ---------------------------------------------------------------- lemmas

  lemma WStep(block: seq<Byte>, t: nat)
    requires |block| == 64
    ensures W(block, t)
         == if t < 16 then BlockWord(block, t)
            else Rotl(1, W(block, t - 3) ^ W(block, t - 8) ^ W(block, t - 14) ^ W(block, t - 16))
  {
  }

  lemma RoundsStep(block: seq<Byte>, h: Regs, t: nat)
    requires |block| == 64
    ensures Rounds(block, h, t) == if t == 0 then h else Round(Rounds(block, h, t - 1), t - 1, W(block, t - 1))
  {
  }

  lemma RoundOf(r: Regs, t: nat, w: Word)
    ensures t < 20 ==> Round(r, t, w) == Shift(r, Choose(r.b, r.c, r.d), w, 0x5A827999)
    ensures 20 <= t < 40 ==> Round(r, t, w) == Shift(r, Parity(r.b, r.c, r.d), w, 0x6ED9EBA1)
    ensures 40 <= t < 60 ==> Round(r, t, w) == Shift(r, Majority(r.b, r.c, r.d), w, 0x8F1BBCDC)
    ensures 60 <= t ==> Round(r, t, w) == Shift(r, Parity(r.b, r.c, r.d), w, 0xCA62C1D6)
  {
    hide Shift, Choose, Parity, Majority;
  }

  lemma NextRound(block: seq<Byte>, h: Regs, t: nat, r: Regs)
    requires |block| == 64 && r == Rounds(block, h, t)
    ensures Rounds(block, h, t + 1) == Round(r, t, W(block, t))
  {
    hide Round, W;
  }

  lemma EmptyMessage()
    ensures Blocks([]) == INITIAL
  {
  }

  lemma BlocksAppend(padded: seq<Byte>, block: seq<Byte>)
    requires |padded| % 64 == 0 && |block| == 64
    ensures Blocks(padded + block) == Compress(Blocks(padded), block)
  {
    var all := padded + block;
    assert all[..|all| - 64] == padded && all[|all| - 64..] == block;
  }

  /** The length in bits as the last eight bytes. */
  function LengthBytes(length: nat): (b: seq<Byte>)
    ensures |b| == 8
  {
    WordBytes(8 * length / Machine.TWO_32) + WordBytes(8 * length % Machine.TWO_32)
  }

  /** How the two branches of SHA1PadMessage fill the last block or two. */
  lemma PaddingShape(done: seq<Byte>, rest: seq<Byte>)
    requires |done| % 64 == 0 && |rest| < 64
    ensures var len := |done| + |rest|;
            done + rest + Padding(len)
              == if |rest| <= 55 then done + (rest + [0x80] + Zeros(55 - |rest|) + LengthBytes(len))
                 else done + (rest + [0x80] + Zeros(63 - |rest|)) + (Zeros(56) + LengthBytes(len))
  {
    hide Padding, LengthBytes, Zeros;
    var len := |done| + |rest|;
    LastBlocks(len);
    ZeroRuns(|rest|);
    var fill, last := Zeros((119 - |rest|) % 64), LengthBytes(len);
    assert len % 64 == |rest|;
    Regroup(done, rest, [0x80], fill, last);
    if |rest| > 55 { Regroup2(done, rest, [0x80], Zeros(63 - |rest|), Zeros(56), last); }
  }

  lemma LastBlocks(len: nat)
    ensures Padding(len) == [0x80] + Zeros((119 - len % 64) % 64) + LengthBytes(len)
  {
    hide WordBytes, Zeros;
  }

  lemma ZeroRuns(n: nat)
    requires n < 64
    ensures n <= 55 ==> Zeros((119 - n) % 64) == Zeros(55 - n)
    ensures n > 55 ==> Zeros((119 - n) % 64) == Zeros(63 - n) + Zeros(56)
  {
    if n <= 55 { assert (119 - n) % 64 == 55 - n; } else { assert (119 - n) % 64 == 119 - n; }
  }

  lemma Regroup(a: seq<Byte>, b: seq<Byte>, c: seq<Byte>, d: seq<Byte>, e: seq<Byte>)
    ensures a + b + (c + d + e) == a + (b + c + d + e)
  {
  }

  lemma Regroup2(a: seq<Byte>, b: seq<Byte>, c: seq<Byte>, d: seq<Byte>, e: seq<Byte>, f: seq<Byte>)
    ensures a + b + (c + (d + e) + f) == a + (b + c + d) + (e + f)
  {
  }

  lemma Split(done: seq<Byte>, rest: seq<Byte>)
    requires |done| % 64 == 0 && |rest| < 64
    ensures var m := done + rest;
            && |m| % 64 == |rest| && m[..|m| - |rest|] == done && m[|m| - |rest|..] == rest
  {
  }

  /** Adding 8 to the two-word bit count. */
  lemma CountByte(length: nat)
    requires 8 * length < TWO_64
    ensures var lo, hi := 8 * length % Machine.TWO_32, 8 * length / Machine.TWO_32;
            && (lo + 8) % Machine.TWO_32 == 8 * (length + 1) % Machine.TWO_32
            && (if (lo + 8) % Machine.TWO_32 == 0 then hi + 1 else hi) == 8 * (length + 1) / Machine.TWO_32
            && (8 * (length + 1) >= TWO_64 <==> (lo + 8) % Machine.TWO_32 == 0 && (hi + 1) % Machine.TWO_32 == 0)
  {
  }

  // ---------------------------------------------------------------- the context

  class Sha1Context {
    const messageDigest: array<Word>
    var lengthLow: nat
    var lengthHigh: nat
    const messageBlock: array<Byte>
    var messageBlockIndex: nat
    var computed: bool
    var corrupted: bool
    ghost var message: seq<Byte>

    constructor ()
      ensures fresh(messageDigest) && fresh(messageBlock)
      ensures messageDigest.Length == 5 && messageBlock.Length == 64
    {
      messageDigest := new Word[5];
      messageBlock := new Byte[64];
    }

    ghost predicate Sized() {
      messageDigest.Length == 5 && messageBlock.Length == 64
    }

    function Hash(): Regs
      requires messageDigest.Length == 5
      reads messageDigest
    {
      Regs(messageDigest[0], messageDigest[1], messageDigest[2], messageDigest[3], messageDigest[4])
    }

    /** Between calls: whole blocks are in the digest, the rest is in the block buffer. */
    ghost predicate Streaming()
      reads this, messageDigest, messageBlock
    {
      && Sized() && 8 * |message| < TWO_64
      && messageBlockIndex == |message| % 64
      && messageBlock[..messageBlockIndex] == message[|message| - messageBlockIndex..]
      && Hash() == Blocks(message[..|message| - messageBlockIndex])
      && lengthHigh == 8 * |message| / Machine.TWO_32 && lengthLow == 8 * |message| % Machine.TWO_32
    }

    ghost predicate Valid()
      reads this, messageDigest, messageBlock
    {
      && Sized() && messageBlockIndex < 64
      && (!corrupted && !computed ==> Streaming())
      && (!corrupted && computed ==> Hash() == Digest(message))
    }

    /** SHA1Reset */
    method Reset()
      requires Sized()
      modifies this, messageDigest
      ensures Valid() && !computed && !corrupted && message == []
    {
      hide Blocks, Digest;
      lengthLow, lengthHigh, messageBlockIndex := 0, 0, 0;
      SetDigest(Regs(0x67452301, 0xEFCDAB89, 0x98BADCFE, 0x10325476, 0xC3D2E1F0));
      computed, corrupted := false, false;
      message := [];
      EmptyMessage();
      hide INITIAL;
      assert Hash() == Blocks([]);
      Split([], []);
      assert messageBlock[..messageBlockIndex] == message[|message| - messageBlockIndex..];
      assert message[..|message| - messageBlockIndex] == [];
      assert Streaming();
    }

    method LoadWord(t: nat) returns (w: Word)
      requires Sized() && t < 16
      ensures w == BlockWord(messageBlock[..], t)
    {
      w := (messageBlock[t * 4] as Word) << 24;
      w := w | ((messageBlock[t * 4 + 1] as Word) << 16);
      w := w | ((messageBlock[t * 4 + 2] as Word) << 8);
      w := w | (messageBlock[t * 4 + 3] as Word);
    }

    /** The message schedule of SHA1ProcessMessageBlock. */
    method Schedule() returns (w: array<Word>)
      requires Sized()
      ensures fresh(w) && w.Length == 80
      ensures forall t | 0 <= t < 80 :: w[t] == W(messageBlock[..], t)
    {
      hide BlockWord, Rotl, W;
      w := new Word[80];
      ghost var block := messageBlock[..];
      for t := 0 to 16
        invariant forall i | 0 <= i < t :: w[i] == W(block, i)
      {
        var word := LoadWord(t);
        w[t] := word;
        WStep(block, t);
      }
      for t := 16 to 80
        invariant forall i | 0 <= i < t :: w[i] == W(block, i)
      {
        w[t] := Rotl(1, w[t - 3] ^ w[t - 8] ^ w[t - 14] ^ w[t - 16]);
        WStep(block, t);
      }
    }

    /** The four loops over the word buffers. */
    method EightyRounds(w: array<Word>, h: Regs, ghost block: seq<Byte>) returns (r: Regs)
      requires |block| == 64 && w.Length == 80 && forall t | 0 <= t < 80 :: w[t] == W(block, t)
      ensures r == Rounds(block, h, 80)
    {
      hide Shift, W, Rounds, Round, F, K, Choose, Parity, Majority;
      r := h;
      RoundsStep(block, h, 0);
      for t := 0 to 20
        invariant r == Rounds(block, h, t)
      {
        NextRound(block, h, t, r);
        RoundOf(r, t, w[t]);
        r := Shift(r, Choose(r.b, r.c, r.d), w[t], 0x5A827999);
      }
      for t := 20 to 40
        invariant r == Rounds(block, h, t)
      {
        NextRound(block, h, t, r);
        RoundOf(r, t, w[t]);
        r := Shift(r, Parity(r.b, r.c, r.d), w[t], 0x6ED9EBA1);
      }
      for t := 40 to 60
        invariant r == Rounds(block, h, t)
      {
        NextRound(block, h, t, r);
        RoundOf(r, t, w[t]);
        r := Shift(r, Majority(r.b, r.c, r.d), w[t], 0x8F1BBCDC);
      }
      for t := 60 to 80
        invariant r == Rounds(block, h, t)
      {
        NextRound(block, h, t, r);
        RoundOf(r, t, w[t]);
        r := Shift(r, Parity(r.b, r.c, r.d), w[t], 0xCA62C1D6);
      }
    }

    method SetDigest(r: Regs)
      requires Sized()
      modifies messageDigest
      ensures Hash() == r
    {
      messageDigest[0] := r.a;
      messageDigest[1] := r.b;
      messageDigest[2] := r.c;
      messageDigest[3] := r.d;
      messageDigest[4] := r.e;
    }

    /** SHA1ProcessMessageBlock */
    method ProcessMessageBlock()
      requires Sized()
      modifies this`messageBlockIndex, messageDigest
      ensures Hash() == Compress(old(Hash()), messageBlock[..]) && messageBlockIndex == 0
    {
      hide W, Rounds, Add32;
      var w := Schedule();
      var h := Hash();
      var r := EightyRounds(w, h, messageBlock[..]);
      SetDigest(Regs(Add32(h.a, r.a), Add32(h.b, r.b), Add32(h.c, r.c), Add32(h.d, r.d), Add32(h.e, r.e)));
      messageBlockIndex := 0;
    }

    /** Length_Low += 8 with its carry. */
    method CountEight()
      requires lengthHigh == 8 * |message| / Machine.TWO_32 && lengthLow == 8 * |message| % Machine.TWO_32
      requires 8 * |message| < TWO_64
      modifies this`lengthLow, this`lengthHigh, this`corrupted
      ensures lengthLow == 8 * (|message| + 1) % Machine.TWO_32
      ensures 8 * (|message| + 1) < TWO_64 ==> lengthHigh == 8 * (|message| + 1) / Machine.TWO_32
      ensures corrupted == (old(corrupted) || 8 * (|message| + 1) >= TWO_64)
    {
      CountByte(|message|);
      lengthLow := (lengthLow + 8) % Machine.TWO_32;
      if lengthLow == 0 {
        lengthHigh := (lengthHigh + 1) % Machine.TWO_32;
        if lengthHigh == 0 { corrupted := true; }
      }
    }

    /** Whole blocks are in the digest and the rest, perhaps a full block, in the buffer. */
    ghost predicate Buffered(done: seq<Byte>, rest: seq<Byte>)
      reads this`messageBlockIndex, messageDigest, messageBlock
    {
      && Sized() && |done| % 64 == 0 && messageBlockIndex == |rest| <= 64
      && messageBlock[..messageBlockIndex] == rest
      && Hash() == Blocks(done)
    }

    /** Process the buffer if it is full. */
    method ProcessIfFull(ghost done: seq<Byte>, ghost rest: seq<Byte>)
      returns (ghost done1: seq<Byte>, ghost rest1: seq<Byte>)
      requires Buffered(done, rest)
      modifies this`messageBlockIndex, messageDigest
      ensures Buffered(done1, rest1) && |rest1| < 64 && done1 + rest1 == done + rest
    {
      hide Blocks, Compress;
      done1, rest1 := done, rest;
      if messageBlockIndex == 64 {
        done1, rest1 := ProcessFull(done, rest);
      }
    }

    method PutByte(b: Byte, ghost done: seq<Byte>, ghost rest: seq<Byte>)
      requires Buffered(done, rest) && messageBlockIndex < 64
      modifies this`messageBlockIndex, messageBlock
      ensures Buffered(done, rest + [b])
    {
      hide Blocks;
      messageBlock[messageBlockIndex] := b;
      messageBlockIndex := messageBlockIndex + 1;
    }

    /** Whole blocks and rest of the message so far. */
    ghost predicate HoldsMessage(done: seq<Byte>, rest: seq<Byte>)
      reads this, messageDigest, messageBlock
    {
      Buffered(done, rest) && |rest| < 64 && done + rest == message
    }

    lemma StreamingParts() returns (done: seq<Byte>, rest: seq<Byte>)
      requires Streaming()
      ensures HoldsMessage(done, rest)
    {
      hide Blocks;
      done, rest := message[..|message| - messageBlockIndex], message[|message| - messageBlockIndex..];
    }

    lemma PartsStreaming(done: seq<Byte>, rest: seq<Byte>)
      requires HoldsMessage(done, rest) && 8 * |message| < TWO_64
      requires lengthHigh == 8 * |message| / Machine.TWO_32 && lengthLow == 8 * |message| % Machine.TWO_32
      ensures Streaming()
    {
      hide Blocks;
      Split(done, rest);
    }

    /** The body of the loop of SHA1Input. */
    method AddByte(b: Byte)
      requires Valid() && !computed && !corrupted
      modifies this, messageDigest, messageBlock
      ensures Valid() && !computed && message == old(message) + [b]
      ensures corrupted <==> 8 * |message| >= TWO_64
    {
      hide Blocks, Digest, Streaming;
      ghost var done, rest := StreamingParts();
      LengthsOf();
      PutByte(b, done, rest);
      CountEight();
      done, rest := ProcessIfFull(done, rest + [b]);
      message := message + [b];
      assert message == done + rest;
      if !corrupted { PartsStreaming(done, rest); }
    }

    lemma LengthsOf()
      requires Streaming()
      ensures lengthHigh == 8 * |message| / Machine.TWO_32 && lengthLow == 8 * |message| % Machine.TWO_32
      ensures 8 * |message| < TWO_64
    {
      hide Blocks;
    }

    lemma NotFull()
      requires Valid() && !computed && !corrupted
      ensures 8 * |message| < TWO_64
    {
      hide Blocks;
    }

    /** Corrupted = 1 */
    method Spoil()
      requires Valid()
      modifies this`corrupted
      ensures Valid() && corrupted
    {
      hide Blocks, Digest;
      corrupted := true;
    }

    /** SHA1Input */
    method Input(data: seq<Byte>)
      requires Valid()
      modifies this, messageDigest, messageBlock
      ensures Valid() && computed == old(computed)
      ensures corrupted == (old(corrupted) || (data != [] && (computed || 8 * (|old(message)| + |data|) >= TWO_64)))
      ensures !corrupted ==> message == old(message) + data
    {
      hide Valid, Streaming, Sized;
      if data == [] { return; }
      if computed || corrupted {
        Spoil();
        return;
      }
      NotFull();
      var k := 0;
      assert data[..0] == [];
      while k < |data| && !corrupted
        invariant k <= |data| && Valid() && !computed
        invariant message == old(message) + data[..k]
        invariant corrupted <==> k > 0 && 8 * |message| >= TWO_64
        invariant k == 0 ==> 8 * |message| < TWO_64
      {
        AddByte(data[k]);
        assert data[..k + 1] == data[..k] + [data[k]];
        k := k + 1;
      }
      assert !corrupted ==> data[..k] == data;
    }

    /** while (Message_Block_Index < end) Message_Block[Message_Block_Index++] = 0; */
    method FillZeros(end: nat, ghost done: seq<Byte>, ghost rest: seq<Byte>)
      requires Buffered(done, rest) && |rest| <= end <= 64
      modifies this`messageBlockIndex, messageBlock
      ensures Buffered(done, rest + Zeros(end - |rest|))
    {
      hide Blocks;
      ghost var zeros: seq<Byte> := [];
      while messageBlockIndex < end
        invariant zeros == Zeros(|zeros|) && |rest| + |zeros| <= end
        invariant Buffered(done, rest + zeros)
        decreases end - messageBlockIndex
      {
        PutByte(0, done, rest + zeros);
        assert rest + zeros + [0] == rest + (zeros + [0]);
        zeros := zeros + [0];
      }
    }

    method PutWord(at: nat, x: nat)
      requires Sized() && at + 4 <= 64
      modifies messageBlock
      ensures messageBlock[..] == old(messageBlock[..at]) + WordBytes(x) + old(messageBlock[at + 4..])
    {
      messageBlock[at] := (x / 0x100_0000 % 256) as Byte;
      messageBlock[at + 1] := (x / 0x1_0000 % 256) as Byte;
      messageBlock[at + 2] := (x / 256 % 256) as Byte;
      messageBlock[at + 3] := (x % 256) as Byte;
    }

    /** The message length goes into the last eight bytes. */
    method PutLength(ghost done: seq<Byte>, ghost rest: seq<Byte>)
      requires Buffered(done, rest) && |rest| == 56
      requires lengthHigh == 8 * |message| / Machine.TWO_32 && lengthLow == 8 * |message| % Machine.TWO_32
      modifies this`messageBlockIndex, messageBlock
      ensures Buffered(done, rest + LengthBytes(|message|)) && messageBlockIndex == 64
    {
      hide Blocks, WordBytes;
      PutWord(56, lengthHigh);
      PutWord(60, lengthLow);
      messageBlockIndex := 64;
      assert messageBlock[..64] == rest + (WordBytes(lengthHigh) + WordBytes(lengthLow));
    }

    /** The padding up to the length, in one block or two. */
    method PadToLength(ghost done: seq<Byte>, ghost rest: seq<Byte>)
      returns (ghost done1: seq<Byte>, ghost rest1: seq<Byte>)
      requires Buffered(done, rest) && |rest| < 64
      modifies this`messageBlockIndex, messageDigest, messageBlock
      ensures Buffered(done1, rest1) && |rest1| == 56
      ensures var len := |done| + |rest|; done1 + (rest1 + LengthBytes(len)) == done + rest + Padding(len)
    {
      hide Blocks, Compress, Padding, LengthBytes, Zeros;
      PaddingShape(done, rest);
      if messageBlockIndex > 55 {
        PutByte(0x80, done, rest);
        FillZeros(64, done, rest + [0x80]);
        done1, rest1 := ProcessFull(done, rest + [0x80] + Zeros(63 - |rest|));
        FillZeros(56, done1, rest1);
        rest1 := Zeros(56);
        assert [] + Zeros(56) == Zeros(56);
      } else {
        PutByte(0x80, done, rest);
        FillZeros(56, done, rest + [0x80]);
        done1, rest1 := done, rest + [0x80] + Zeros(55 - |rest|);
      }
    }

    /** SHA1PadMessage */
    method PadMessage()
      requires Streaming()
      modifies this`messageBlockIndex, messageDigest, messageBlock
      ensures Hash() == Digest(message) && messageBlockIndex == 0
    {
      hide Blocks, Compress, Padding, LengthBytes, Streaming;
      ghost var done, rest := StreamingParts();
      LengthsOf();
      done, rest := PadToLength(done, rest);
      PutLength(done, rest);
      done, rest := ProcessFull(done, rest + LengthBytes(|message|));
      assert done + [] == done;
    }

    method ProcessFull(ghost done: seq<Byte>, ghost rest: seq<Byte>)
      returns (ghost done1: seq<Byte>, ghost rest1: seq<Byte>)
      requires Buffered(done, rest) && |rest| == 64
      modifies this`messageBlockIndex, messageDigest
      ensures Buffered(done1, rest1) && done1 == done + rest && rest1 == []
    {
      hide Blocks, Compress;
      assert rest == messageBlock[..];
      ProcessMessageBlock();
      BlocksAppend(done, messageBlock[..]);
      done1, rest1 := done + rest, [];
    }

    /** SHA1Result */
    method Result() returns (ok: bool)
      requires Valid()
      modifies this, messageDigest, messageBlock
      ensures Valid() && message == old(message) && corrupted == old(corrupted)
      ensures ok <==> !corrupted
      ensures ok ==> computed && Hash() == Digest(message)
    {
      hide Blocks, Digest;
      if corrupted { return false; }
      if !computed {
        PadMessage();
        computed := true;
      }
      return true;
    }
  }

  function Concat(chunks: seq<seq<Byte>>): seq<Byte>
    decreases |chunks|
  {
    if chunks == [] then [] else Concat(chunks[..|chunks| - 1]) + chunks[|chunks| - 1]
  }

  /** Reset, one Input for each chunk, Result: for every way of cutting a message the digest
      is that of FIPS PUB 180-1, and the result is refused exactly from 2^64 bits on. */
  method HashChunks(chunks: seq<seq<Byte>>) returns (ok: bool, digest: Regs)
    ensures ok <==> 8 * |Concat(chunks)| < TWO_64
    ensures ok ==> digest == Digest(Concat(chunks))
  {
    hide Digest;
    var context := new Sha1Context();
    context.Reset();
    var k := 0;
    while k < |chunks|
      invariant k <= |chunks| && context.Valid() && !context.computed
      invariant fresh(context) && fresh(context.messageDigest) && fresh(context.messageBlock)
      invariant context.corrupted <==> 8 * |Concat(chunks[..k])| >= TWO_64
      invariant !context.corrupted ==> context.message == Concat(chunks[..k])
    {
      assert chunks[..k + 1][..k] == chunks[..k];
      context.Input(chunks[k]);
      k := k + 1;
    }
    assert chunks[..k] == chunks;
    ok := context.Result();
    digest := context.Hash();
  }
}
