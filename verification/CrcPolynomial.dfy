/**
 CRC-32C as section 12.1 of RFC 3720 defines it: the remainder of a division of polynomials over GF(2). A
 polynomial is the sequence of its coefficients, the highest degree first.
 */
module CrcPolynomial {
  import opened Words
  import opened Crc32c

  /** The degrees that occur in the generator. */
  const GENERATOR: set<int> := {32, 28, 27, 26, 25, 23, 22, 20, 19, 18, 14, 13, 11, 10, 9, 8, 6, 0}

  /** Its coefficients below x^n. */
  function Coefficients(n: nat): (g: seq<bool>)
    ensures |g| == n
  {
    seq(n, i => n - 1 - i in GENERATOR)
  }

  function Low32(): (g: seq<bool>)
    ensures |g| == 32
  {
    Coefficients(32)
  }

  /** Adds `b` to the coefficients that `a` starts with. */
  function AddFront(a: seq<bool>, b: seq<bool>): (r: seq<bool>)
    requires |b| <= |a|
    ensures |r| == |a|
  {
    seq(|a|, i requires 0 <= i < |a| => if i < |b| then a[i] != b[i] else a[i])
  }

  /** The remainder of long division by the generator: it is subtracted wherever the leading coefficient is 1. */
  function Remainder(p: seq<bool>): (r: seq<bool>)
    requires |p| >= 32
    ensures |r| == 32
    decreases |p|
  {
    if |p| == 32 then p
    else Remainder(if p[0] then AddFront(p[1..], Low32()) else p[1..])
  }

  // ----- That this is the remainder -----

  /** Adds polynomials of the same length. */
  function Add(a: seq<bool>, b: seq<bool>): (r: seq<bool>)
    requires |a| == |b|
    ensures |r| == |a|
  {
    AddFront(a, b)
  }

  function Zeros(n: nat): (z: seq<bool>)
    ensures |z| == n
  {
    seq(n, i => false)
  }

  /** The product with the generator. */
  function TimesGenerator(q: seq<bool>): (r: seq<bool>)
    ensures |r| == |q| + 32
  {
    if q == [] then Zeros(32)
    else
      var rest := [false] + TimesGenerator(q[1..]);
      if q[0] then AddFront(rest, [true] + Low32()) else rest
  }

  /** Every polynomial is a multiple of the generator and its remainder, of lower degree than the generator. */
  lemma {:induction false} Division(p: seq<bool>) returns (q: seq<bool>)
    requires |p| >= 32
    ensures |q| == |p| - 32 && p == Add(TimesGenerator(q), Zeros(|q|) + Remainder(p))
    decreases |p|
  {
    if |p| == 32 {
      q := [];
    } else {
      var p' := if p[0] then AddFront(p[1..], Low32()) else p[1..];
      var q' := Division(p');
      q := [p[0]] + q';
      assert q[1..] == q';
      DivisionStep(p, p', q', Remainder(p'));
    }
  }

  lemma DivisionStep(p: seq<bool>, p': seq<bool>, q': seq<bool>, r: seq<bool>)
    requires |p| > 32 && |q'| == |p| - 33 && |r| == 32
    requires p' == if p[0] then AddFront(p[1..], Low32()) else p[1..]
    requires p' == Add(TimesGenerator(q'), Zeros(|q'|) + r)
    ensures p == Add(TimesGenerator([p[0]] + q'), Zeros(|q'| + 1) + r)
  {
    hide TimesGenerator, Low32, AddFront, Zeros;
    TimesMore(p[0], q');
    ZerosMore(|q'|, r);
    StepBack(p, p', TimesGenerator(q'), Zeros(|q'|) + r, Low32(), TimesGenerator([p[0]] + q'));
  }

  lemma TimesMore(b: bool, q: seq<bool>)
    ensures var rest := [false] + TimesGenerator(q);
            TimesGenerator([b] + q) == if b then AddFront(rest, [true] + Low32()) else rest
  {
    hide Low32, AddFront;
    assert ([b] + q)[1..] == q;
  }

  lemma ZerosMore(n: nat, r: seq<bool>)
    ensures Zeros(n + 1) + r == [false] + (Zeros(n) + r)
  {
  }

  /** A step of the division, undone. */
  lemma StepBack(p: seq<bool>, p': seq<bool>, t: seq<bool>, z: seq<bool>, g: seq<bool>, t': seq<bool>)
    requires 1 <= |p| == |t| + 1 && |z| == |t| && |g| <= |t|
    requires p' == if p[0] then AddFront(p[1..], g) else p[1..]
    requires p' == AddFront(t, z) && t' == if p[0] then AddFront([false] + t, [true] + g) else [false] + t
    ensures p == AddFront(t', [false] + z)
  {
    forall i | 0 <= i < |p|
      ensures AddFront(t', [false] + z)[i] == p[i]
    {
      if i > 0 { assert p'[i - 1] == (t[i - 1] != z[i - 1]); }
    }
  }

  // ----- The register -----

  /** A bit of message through the register, whose first bit is the coefficient of x^31. */
  function Feed(s: seq<bool>, b: bool): (r: seq<bool>)
    requires |s| == 32
    ensures |r| == 32
  {
    var shifted := s[1..] + [false];
    if s[0] != b then AddFront(shifted, Low32()) else shifted
  }

  function FeedAll(s: seq<bool>, m: seq<bool>): (r: seq<bool>)
    requires |s| == 32
    ensures |r| == 32
    decreases |m|
  {
    if m == [] then s else FeedAll(Feed(s, m[0]), m[1..])
  }

  /**
   What a register makes of a message is the remainder of the message times x^32, with the register added to
   its first 32 coefficients.
   */
  lemma {:induction false} RegisterIsRemainder(s: seq<bool>, m: seq<bool>)
    requires |s| == 32
    ensures FeedAll(s, m) == Remainder(AddFront(m + Zeros(32), s))
    decreases |m|
  {
    var p := AddFront(m + Zeros(32), s);
    if m == [] {
      assert p == s;
    } else {
      var p' := if p[0] then AddFront(p[1..], Low32()) else p[1..];
      var next := AddFront(m[1..] + Zeros(32), Feed(s, m[0]));
      FeedStep(s, m, p, p', next);
      RegisterIsRemainder(Feed(s, m[0]), m[1..]);
    }
  }

  lemma FeedStep(s: seq<bool>, m: seq<bool>, p: seq<bool>, p': seq<bool>, next: seq<bool>)
    requires |s| == 32 && m != [] && p == AddFront(m + Zeros(32), s)
    requires p' == if p[0] then AddFront(p[1..], Low32()) else p[1..]
    requires next == AddFront(m[1..] + Zeros(32), Feed(s, m[0]))
    ensures p' == next
  {
    assert p[0] == (s[0] != m[0]);
    forall i | 0 <= i < |p'|
      ensures p'[i] == next[i]
    {
      assert (m + Zeros(32))[i + 1] == (m[1..] + Zeros(32))[i];
    }
  }

  // ----- Words as polynomials -----

  function LowBit(c: bv32): bool { c & 1 == 1 }

  /** The lowest `n` bits of a word, the lowest first. */
  function BitsOf(c: bv32, n: nat): (s: seq<bool>)
    ensures |s| == n
  {
    if n == 0 then [] else [LowBit(c)] + BitsOf(Half(c), n - 1)
  }

  /** A register, in reversed bit order: its lowest bit is the coefficient of x^31. */
  function Reg(c: bv32): (s: seq<bool>)
    ensures |s| == 32
  {
    BitsOf(c, 32)
  }

  function ShiftBy(c: bv32, n: nat): bv32
    decreases n
  {
    if n == 0 then c else ShiftBy(Half(c), n - 1)
  }

  lemma ShiftEight(c: bv32, n: nat)
    ensures ShiftBy(c, n + 8) == ShiftBy(Shr8(c), n)
  {
    EightHalves(c);
    hide Half, Shr8;
    var d := Half(Half(Half(Half(c))));
    assert ShiftBy(c, n + 8) == ShiftBy(Half(c), n + 7) == ShiftBy(Half(Half(c)), n + 6) ==
           ShiftBy(Half(Half(Half(c))), n + 5);
    assert ShiftBy(d, n + 4) == ShiftBy(Half(d), n + 3) == ShiftBy(Half(Half(d)), n + 2) ==
           ShiftBy(Half(Half(Half(d))), n + 1);
  }

  lemma EightHalves(c: bv32)
    ensures Half(Half(Half(Half(Half(Half(Half(Half(c)))))))) == Shr8(c)
  {
  }

  lemma FourBytes(c: bv32)
    ensures Shr8(Shr8(Shr8(Shr8(c)))) == 0
  {
  }

  lemma ShiftedOut(c: bv32)
    ensures ShiftBy(c, 32) == 0
  {
    FourBytes(c);
    hide Shr8;
    ShiftEight(c, 24);
    ShiftEight(Shr8(c), 16);
    ShiftEight(Shr8(Shr8(c)), 8);
    ShiftEight(Shr8(Shr8(Shr8(c))), 0);
  }

  lemma {:induction false} BitsOfLast(c: bv32, n: nat)
    ensures BitsOf(c, n + 1) == BitsOf(c, n) + [LowBit(ShiftBy(c, n))]
    decreases n
  {
    hide Half, LowBit;
    if n > 0 { BitsOfLast(Half(c), n - 1); }
  }

  lemma RegHalf(c: bv32)
    ensures Reg(c)[0] == LowBit(c) && Reg(Half(c)) == Reg(c)[1..] + [false]
  {
    assert !LowBit(0);
    hide Half, LowBit;
    assert BitsOf(c, 32) == [LowBit(c)] + BitsOf(Half(c), 31);
    BitsOfLast(Half(c), 31);
    assert ShiftBy(c, 32) == ShiftBy(Half(c), 31);
    ShiftedOut(c);
  }

  lemma LowBitXor(a: bv32, b: bv32)
    ensures LowBit(Xor(a, b)) == (LowBit(a) != LowBit(b))
  {
    assert (a ^ b) & 1 == (a & 1) ^ (b & 1);
    assert a & 1 == 0 || a & 1 == 1;
    assert b & 1 == 0 || b & 1 == 1;
  }

  lemma {:induction false} BitsOfXor(a: bv32, b: bv32, n: nat)
    ensures BitsOf(Xor(a, b), n) == AddFront(BitsOf(a, n), BitsOf(b, n))
    decreases n
  {
    hide Half, LowBit, Xor;
    if n > 0 {
      LowBitXor(a, b);
      HalfLinear(a, b);
      BitsOfXor(Half(a), Half(b), n - 1);
    }
  }

  /** Different words are different polynomials. */
  lemma RegInjective(a: bv32, b: bv32)
    requires Reg(a) == Reg(b)
    ensures a == b
  {
    BitsOfXor(a, b, 32);
    ShiftedOut(Xor(a, b));
    NoBits(Xor(a, b), 32);
    assert a ^ b == 0 ==> a == b;
  }

  lemma {:induction false} NoBits(c: bv32, n: nat)
    requires ShiftBy(c, n) == 0 && forall i :: 0 <= i < n ==> !BitsOf(c, n)[i]
    ensures c == 0
    decreases n
  {
    if n > 0 {
      var s, t := BitsOf(c, n), BitsOf(Half(c), n - 1);
      assert !s[0];
      assert forall i :: 0 <= i < |t| ==> t[i] == s[i + 1];
      NoBits(Half(c), n - 1);
      HalfZero(c);
    }
  }

  lemma HalfZero(c: bv32)
    requires Half(c) == 0 && !LowBit(c)
    ensures c == 0
  {
    assert c & 1 == 0 || c & 1 == 1;
  }

  // ----- The polynomial -----

  /** Four bits at once. */
  lemma Nibble(c: bv32, h: bv32, b0: bool, b1: bool, b2: bool, b3: bool, n: nat)
    requires b0 == (c & 1 == 1) && b1 == (c & 2 == 2) && b2 == (c & 4 == 4) && b3 == (c & 8 == 8)
    requires h == c >> 4
    ensures BitsOf(c, n + 4) == [b0, b1, b2, b3] + BitsOf(h, n)
  {
    Halves(c);
    NibbleBits(c);
    hide Half, LowBit;
    TwoBits(c, n + 2);
    TwoBits(Half(Half(c)), n);
  }

  lemma Halves(c: bv32)
    ensures Half(c) == c >> 1 && Half(Half(c)) == c >> 2 && Half(Half(Half(c))) == c >> 3
    ensures Half(Half(Half(Half(c)))) == c >> 4
  {
  }

  lemma NibbleBits(c: bv32)
    ensures LowBit(c) == (c & 1 == 1) && LowBit(Half(c)) == (c & 2 == 2) && LowBit(Half(Half(c))) == (c & 4 == 4)
    ensures LowBit(Half(Half(Half(c)))) == (c & 8 == 8)
  {
  }

  lemma TwoBits(c: bv32, n: nat)
    ensures BitsOf(c, n + 2) == [LowBit(c), LowBit(Half(c))] + BitsOf(Half(Half(c)), n)
  {
    hide Half, LowBit;
    assert BitsOf(c, n + 2) == [LowBit(c)] + BitsOf(Half(c), n + 1);
  }

  /** Four more coefficients. */
  lemma FourMore(c: bv32, h: bv32, b0: bool, b1: bool, b2: bool, b3: bool, n: nat)
    requires b0 == (c & 1 == 1) && b1 == (c & 2 == 2) && b2 == (c & 4 == 4) && b3 == (c & 8 == 8) && h == c >> 4
    requires b0 == (n + 3 in GENERATOR) && b1 == (n + 2 in GENERATOR) && b2 == (n + 1 in GENERATOR)
    requires b3 == (n in GENERATOR)
    requires BitsOf(h, n) == Coefficients(n)
    ensures BitsOf(c, n + 4) == Coefficients(n + 4)
  {
    Nibble(c, h, b0, b1, b2, b3, n);
    hide BitsOf;
    assert Coefficients(n + 4) == [b0, b1, b2, b3] + Coefficients(n);
  }

  /** The generator in reversed bit order is the constant of crc32c.c. */
  lemma PolyIs()
    ensures Reg(POLY) == Low32()
  {
    hide BitsOf, Coefficients;
    NoCoefficients();
    FourMore(0x00000008, 0x00000000, false, false, false, true, 0);
    FourMore(0x00000082, 0x00000008, false, true, false, false, 4);
    FourMore(0x0000082f, 0x00000082, true, true, true, true, 8);
    FourMore(0x000082f6, 0x0000082f, false, true, true, false, 12);
    FourMore(0x00082f63, 0x000082f6, true, true, false, false, 16);
    FourMore(0x0082f63b, 0x00082f63, true, true, false, true, 20);
    FourMore(0x082f63b7, 0x0082f63b, true, true, true, false, 24);
    FourMore(0x82f63b78, 0x082f63b7, false, false, false, true, 28);
  }

  lemma NoCoefficients()
    ensures BitsOf(0, 0) == Coefficients(0)
  {
  }

  // ----- Feeding bits and bytes -----

  function Bit(b: bool): bv32 { if b then 1 else 0 }

  lemma BitParts(c: bv32, b: bool)
    ensures Half(Xor(c, Bit(b))) == Half(c) && LowBit(Xor(c, Bit(b))) == (LowBit(c) != b)
  {
    assert LowBit(Bit(b)) == b;
    HalfBit(c, b);
    hide Half, LowBit, Xor, Bit;
    LowBitXor(c, Bit(b));
  }

  lemma HalfBit(c: bv32, b: bool)
    ensures Half(Xor(c, Bit(b))) == Half(c)
  {
  }

  lemma TapIs(c: bv32)
    ensures Tap(c) == if LowBit(c) then POLY else 0
  {
  }

  lemma FeedIs(c: bv32, b: bool)
    ensures Reg(BitStep(Xor(c, Bit(b)))) == Feed(Reg(c), b)
  {
    var d := Xor(c, Bit(b));
    hide *;
    BitParts(c, b);
    TapIs(d);
    BitStepParts(d);
    RegHalf(c);
    FeedParts(Half(c), Reg(c), LowBit(d), b);
  }

  lemma FeedParts(h: bv32, s: seq<bool>, tap: bool, b: bool)
    requires |s| == 32 && Reg(h) == s[1..] + [false] && tap == (s[0] != b)
    ensures Reg(Xor(h, if tap then POLY else 0)) == Feed(s, b)
  {
    hide BitsOf, Xor;
    if tap {
      BitsOfXor(h, POLY, 32);
      PolyIs();
    } else {
      XorZero(h);
    }
  }

  function Even(w: bv32): bv32 { Xor(w, Bit(LowBit(w))) }

  lemma EvenSum(w: bv32)
    ensures w == Xor(Bit(LowBit(w)), Even(w))
  {
    hide Xor, LowBit, Bit;
    var b := Bit(LowBit(w));
    XorComm(b, Xor(w, b));
    XorAssoc(w, b, b);
    XorZero(w);
    XorZero(b);
  }

  lemma EvenStep(w: bv32)
    ensures BitStep(Even(w)) == Half(w)
  {
    hide Xor, LowBit, Bit, BitStep, Half, Tap;
    BitParts(w, LowBit(w));
    BitStepParts(Even(w));
    TapIs(Even(w));
    XorZero(Half(w));
  }

  lemma FirstBit(c: bv32, w: bv32)
    ensures BitStep(Xor(c, w)) == Xor(BitStep(Xor(c, Bit(LowBit(w)))), Half(w))
  {
    hide *;
    EvenSum(w);
    EvenStep(w);
    XorAssoc(c, Bit(LowBit(w)), Even(w));
    BitStepLinear(Xor(c, Bit(LowBit(w))), Even(w));
  }

  /** Feeding the bits of a word is adding the word and feeding zeros. */
  lemma {:induction false} FeedWord(c: bv32, w: bv32, n: nat)
    requires ShiftBy(w, n) == 0
    ensures Reg(Bits(Xor(c, w), n)) == FeedAll(Reg(c), BitsOf(w, n))
    decreases n
  {
    hide Half, LowBit, Xor, BitStep, Feed, Reg, Bit;
    if n == 0 {
      XorZero(c);
    } else {
      var b := LowBit(w);
      var d := BitStep(Xor(c, Bit(b)));
      FirstBit(c, w);
      FeedIs(c, b);
      FeedWord(d, Half(w), n - 1);
      assert BitsOf(w, n)[0] == b && BitsOf(w, n)[1..] == BitsOf(Half(w), n - 1);
    }
  }

  /** The bits of a message, in the order in which they are sent: the lowest bit of each byte first. */
  function MessageBits(s: seq<bv8>): (m: seq<bool>)
    ensures |m| == 8 * |s|
  {
    if s == [] then [] else BitsOf(Word(s[0]), 8) + MessageBits(s[1..])
  }

  lemma {:induction false} FeedConcat(s: seq<bool>, a: seq<bool>, b: seq<bool>)
    requires |s| == 32
    ensures FeedAll(s, a + b) == FeedAll(FeedAll(s, a), b)
    decreases |a|
  {
    hide Feed;
    if a == [] {
      assert a + b == b;
    } else {
      assert (a + b)[1..] == a[1..] + b;
      FeedConcat(Feed(s, a[0]), a[1..], b);
    }
  }

  lemma WordShort(b: bv8)
    ensures ShiftBy(Word(b), 8) == 0
  {
    assert Shr8(Word(b)) == 0;
    hide Word, Shr8;
    ShiftEight(Word(b), 0);
  }

  lemma {:induction false} RawFeeds(c: bv32, s: seq<bv8>)
    ensures Reg(Raw(c, s)) == FeedAll(Reg(c), MessageBits(s))
    decreases |s|
  {
    hide Reg, Word, Bits, BitsOf;
    if s != [] {
      WordShort(s[0]);
      FeedWord(c, Word(s[0]), 8);
      FeedConcat(Reg(c), BitsOf(Word(s[0]), 8), MessageBits(s[1..]));
      RawFeeds(ByteStep(c, s[0]), s[1..]);
    }
  }

  /**
   For every message and every checksum to go on from: the checksum is the complement of the remainder of the
   message times x^32, with the complement of the earlier checksum added to its first 32 coefficients.
   */
  lemma CrcIsRemainder(c: bv32, s: seq<bv8>, r: bv32)
    ensures r == Crc(c, s) <==> Reg(Not(r)) == Remainder(AddFront(MessageBits(s) + Zeros(32), Reg(Not(c))))
  {
    hide Reg, Raw, Not, AddFront, Remainder, MessageBits;
    RawFeeds(Not(c), s);
    RegisterIsRemainder(Reg(Not(c)), MessageBits(s));
    CrcParts(c, s, r);
    if Reg(Not(r)) == Reg(Raw(Not(c), s)) { RegInjective(Not(r), Raw(Not(c), s)); }
  }

  lemma CrcParts(c: bv32, s: seq<bv8>, r: bv32)
    ensures r == Crc(c, s) <==> Not(r) == Raw(Not(c), s)
  {
    hide Not, Raw;
    NotNot(r);
    NotNot(Raw(Not(c), s));
  }

  /** A new checksum complements the first 32 coefficients. */
  lemma StartsWithOnes()
    ensures Reg(Not(0)) == Ones(32)
  {
    hide BitsOf, Ones;
    NoOnes();
    FourOnes(0x0000000f, 0x00000000, 0);
    FourOnes(0x000000ff, 0x0000000f, 4);
    FourOnes(0x00000fff, 0x000000ff, 8);
    FourOnes(0x0000ffff, 0x00000fff, 12);
    FourOnes(0x000fffff, 0x0000ffff, 16);
    FourOnes(0x00ffffff, 0x000fffff, 20);
    FourOnes(0x0fffffff, 0x00ffffff, 24);
    FourOnes(0xffffffff, 0x0fffffff, 28);
  }

  function Ones(n: nat): (s: seq<bool>)
    ensures |s| == n
  {
    seq(n, i => true)
  }

  lemma NoOnes()
    ensures BitsOf(0, 0) == Ones(0)
  {
  }

  lemma FourOnes(c: bv32, h: bv32, n: nat)
    requires c & 15 == 15 && h == c >> 4 && BitsOf(h, n) == Ones(n)
    ensures BitsOf(c, n + 4) == Ones(n + 4)
  {
    assert c & 1 == 1 && c & 2 == 2 && c & 4 == 4 && c & 8 == 8;
    Nibble(c, h, true, true, true, true, n);
    hide BitsOf;
    assert Ones(n + 4) == [true, true, true, true] + Ones(n);
  }

  // ----- Known checksums -----

  lemma ByteOf(c: bv32, b: bv8)
    ensures ByteStep(c, b)
         == BitStep(BitStep(BitStep(BitStep(BitStep(BitStep(BitStep(BitStep(Xor(c, Word(b))))))))))
  {
    hide BitStep, Xor, Word;
    var d := Xor(c, Word(b));
    assert Bits(d, 8) == Bits(BitStep(BitStep(BitStep(BitStep(d)))), 4) by {
      assert Bits(d, 8) == Bits(BitStep(d), 7) == Bits(BitStep(BitStep(d)), 6);
    }
  }

  lemma RawByte(c: bv32, b: bv8, s: seq<bv8>)
    ensures Raw(c, [b] + s) == Raw(ByteStep(c, b), s)
  {
    hide ByteStep;
    assert ([b] + s)[1..] == s;
  }

  const DIGITS: seq<bv8> := [0x31, 0x32, 0x33, 0x34, 0x35, 0x36, 0x37, 0x38, 0x39]

  lemma DigitBytes()
    ensures ByteStep(0xffffffff, 0x31) == 0x6f0a661c
    ensures ByteStep(0x6f0a661c, 0x32) == 0x8caa3b9f
    ensures ByteStep(0x8caa3b9f, 0x33) == 0xef84d04d
    ensures ByteStep(0xef84d04d, 0x34) == 0x09c50b11
    ensures ByteStep(0x09c50b11, 0x35) == 0xe72edcca
    ensures ByteStep(0xe72edcca, 0x36) == 0xbeca8e79
    ensures ByteStep(0xbeca8e79, 0x37) == 0xedbd6815
    ensures ByteStep(0xedbd6815, 0x38) == 0x9f787f65
    ensures ByteStep(0x9f787f65, 0x39) == 0x1cf96d7c
  {
    hide ByteStep, Bits;
    ByteOf(0xffffffff, 0x31);
    ByteOf(0x6f0a661c, 0x32);
    ByteOf(0x8caa3b9f, 0x33);
    ByteOf(0xef84d04d, 0x34);
    ByteOf(0x09c50b11, 0x35);
    ByteOf(0xe72edcca, 0x36);
    ByteOf(0xbeca8e79, 0x37);
    ByteOf(0xedbd6815, 0x38);
    ByteOf(0x9f787f65, 0x39);
  }

  /** The check value of CRC-32C: of the digits from 1 to 9. */
  lemma CheckValue()
    ensures Crc(0, DIGITS) == 0xe3069283
  {
    hide ByteStep;
    DigitBytes();
    assert DIGITS[0..] == DIGITS && DIGITS[9..] == [];
    DropOne(0xffffffff, 0);
    DropOne(0x6f0a661c, 1);
    DropOne(0x8caa3b9f, 2);
    DropOne(0xef84d04d, 3);
    DropOne(0x09c50b11, 4);
    DropOne(0xe72edcca, 5);
    DropOne(0xbeca8e79, 6);
    DropOne(0xedbd6815, 7);
    DropOne(0x9f787f65, 8);
  }

  lemma DropOne(c: bv32, i: nat)
    requires i < 9
    ensures Raw(c, DIGITS[i..]) == Raw(ByteStep(c, DIGITS[i]), DIGITS[i + 1..])
  {
    hide ByteStep;
    assert DIGITS[i..][1..] == DIGITS[i + 1..];
  }

  lemma {:induction false} RawZeros(c: bv32, n: nat)
    ensures Raw(c, seq(n, i => 0)) == Bits(c, 8 * n)
    decreases n
  {
    var s: seq<bv8> := seq(n, i => 0);
    if n == 0 {
      assert s == [];
    } else {
      assert s[1..] == seq(n - 1, i => 0);
      RawZeros(ByteStep(c, 0), n - 1);
      XorZero(c);
      assert Word(0) == 0;
      BitsAdd(c, 8, 8 * (n - 1));
    }
  }

  lemma ZeroBytes0()
    ensures Bits(0xffffffff, 64) == 0x73d74d75
  {
    hide Bits;
    ZeroByte(0xffffffff, 0xad82acae, 56);
    ZeroByte(0xad82acae, 0x0e9e882d, 48);
    ZeroByte(0x0e9e882d, 0x9f9b5c85, 40);
    ZeroByte(0x9f9b5c85, 0xb798b438, 32);
    ZeroByte(0xb798b438, 0xba8d89ca, 24);
    ZeroByte(0xba8d89ca, 0xa8d58375, 16);
    ZeroByte(0xa8d58375, 0x44c19592, 8);
    ZeroByte(0x44c19592, 0x73d74d75, 0);
    BitsNone(0x73d74d75);
  }

  lemma ZeroBytes1()
    ensures Bits(0x73d74d75, 64) == 0xbd8f6515
  {
    hide Bits;
    ZeroByte(0x73d74d75, 0x441a975c, 56);
    ZeroByte(0x441a975c, 0x1c220f94, 48);
    ZeroByte(0x1c220f94, 0x552e4907, 40);
    ZeroByte(0x552e4907, 0xd49f4aa2, 32);
    ZeroByte(0xd49f4aa2, 0x43a45a1b, 24);
    ZeroByte(0x43a45a1b, 0x8994c80e, 16);
    ZeroByte(0x8994c80e, 0xacf12bef, 8);
    ZeroByte(0xacf12bef, 0xbd8f6515, 0);
    BitsNone(0xbd8f6515);
  }

  lemma ZeroBytes2()
    ensures Bits(0xbd8f6515, 64) == 0x7b041311
  {
    hide Bits;
    ZeroByte(0xbd8f6515, 0x25125c16, 56);
    ZeroByte(0x25125c16, 0x36da32db, 48);
    ZeroByte(0x36da32db, 0x4a6c90a2, 40);
    ZeroByte(0x4a6c90a2, 0x433aa9c1, 32);
    ZeroByte(0x433aa9c1, 0x31a59f6e, 24);
    ZeroByte(0x31a59f6e, 0xcd8f89da, 16);
    ZeroByte(0xcd8f89da, 0xb8fc461a, 8);
    ZeroByte(0xb8fc461a, 0x7b041311, 0);
    BitsNone(0x7b041311);
  }

  lemma ZeroBytes3()
    ensures Bits(0x7b041311, 64) == 0x756ec955
  {
    hide Bits;
    ZeroByte(0x7b041311, 0xe24e407f, 56);
    ZeroByte(0xe24e407f, 0x2f692669, 48);
    ZeroByte(0x2f692669, 0x195b2188, 40);
    ZeroByte(0x195b2188, 0x08363896, 32);
    ZeroByte(0x08363896, 0xb4012dc7, 24);
    ZeroByte(0xb4012dc7, 0x17f34302, 16);
    ZeroByte(0x17f34302, 0xe12c83b4, 8);
    ZeroByte(0xe12c83b4, 0x756ec955, 0);
    BitsNone(0x756ec955);
  }

  lemma ZeroByte(c: bv32, d: bv32, n: nat)
    requires BitStep(BitStep(BitStep(BitStep(BitStep(BitStep(BitStep(BitStep(c)))))))) == d
    ensures Bits(c, n + 8) == Bits(d, n)
  {
    hide BitStep;
    ByteOf(c, 0);
    assert Xor(c, Word(0)) == c;
    BitsAdd(c, 8, n);
  }

  /** 32 bytes of zeros, from appendix B.4 of RFC 3720. */
  lemma ZerosValue()
    ensures Crc(0, seq(32, i => 0)) == 0x8a9136aa
  {
    hide Bits, Raw;
    RawZeros(0xffffffff, 32);
    ZeroBytes0();
    BitsAdd(0xffffffff, 64, 192);
    ZeroBytes1();
    BitsAdd(0x73d74d75, 64, 128);
    ZeroBytes2();
    BitsAdd(0xbd8f6515, 64, 64);
    ZeroBytes3();
    BitsAdd(0x7b041311, 64, 0);
    BitsNone(0x756ec955);
  }
}
