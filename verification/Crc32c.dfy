/**
 CRC-32C: the bit-at-a-time definition and its linearity over GF(2), from which every fast form
 is derived.
 */
module Crc32c {
  import opened Words

  /** The iSCSI polynomial in reversed bit order. */
  const POLY: bv32 := 0x82f63b78

  function Xor(a: bv32, b: bv32): bv32 { a ^ b }

  function Not(a: bv32): bv32 { a ^ 0xffffffff }

  /** One zero bit through the register. */
  function BitStep(c: bv32): bv32 {
    if c & 1 == 1 then (c >> 1) ^ POLY else c >> 1
  }

  /** `n` zero bits through the register. */
  function Bits(c: bv32, n: nat): bv32
    decreases n
  {
    if n == 0 then c else Bits(BitStep(c), n - 1)
  }

  function Word(b: bv8): bv32 { b as bv32 }

  /** One byte of message. */
  function ByteStep(c: bv32, b: bv8): bv32 {
    Bits(Xor(c, Word(b)), 8)
  }

  /** A whole message, without the complements at either end. */
  function Raw(c: bv32, s: seq<bv8>): bv32
    decreases |s|
  {
    if s == [] then c else Raw(ByteStep(c, s[0]), s[1..])
  }

  /** CRC-32C of `s` continued from `c`, a bit at a time: section 12.1 of RFC 3720. */
  function Crc(c: bv32, s: seq<bv8>): bv32 {
    Not(Raw(Not(c), s))
  }

  // ----- Exclusive or -----

  lemma XorComm(a: bv32, b: bv32)
    ensures Xor(a, b) == Xor(b, a)
  {
  }

  lemma XorAssoc(a: bv32, b: bv32, c: bv32)
    ensures Xor(Xor(a, b), c) == Xor(a, Xor(b, c))
  {
  }

  lemma XorZero(a: bv32)
    ensures Xor(a, 0) == a && Xor(0, a) == a && Xor(a, a) == 0
  {
  }

  lemma NotNot(a: bv32)
    ensures Not(Not(a)) == a
  {
  }

  // ----- Linearity -----

  lemma XorExchange(a: bv32, b: bv32, c: bv32, d: bv32)
    ensures Xor(Xor(a, b), Xor(c, d)) == Xor(Xor(a, c), Xor(b, d))
  {
    hide Xor;
    calc {
      Xor(Xor(a, b), Xor(c, d));
    == { XorAssoc(a, b, Xor(c, d)); XorAssoc(b, c, d); }
      Xor(a, Xor(Xor(b, c), d));
    == { XorComm(b, c); XorAssoc(c, b, d); }
      Xor(a, Xor(c, Xor(b, d)));
    == { XorAssoc(a, c, Xor(b, d)); }
      Xor(Xor(a, c), Xor(b, d));
    }
  }

  function Half(c: bv32): bv32 { c >> 1 }

  function Tap(c: bv32): bv32 { if c & 1 == 1 then POLY else 0 }

  lemma BitStepParts(c: bv32)
    ensures BitStep(c) == Xor(Half(c), Tap(c))
  {
    XorZero(Half(c));
  }

  lemma HalfLinear(a: bv32, b: bv32)
    ensures Half(Xor(a, b)) == Xor(Half(a), Half(b))
  {
  }

  lemma TapLinear(a: bv32, b: bv32)
    ensures Tap(Xor(a, b)) == Xor(Tap(a), Tap(b))
  {
    assert (a ^ b) & 1 == (a & 1) ^ (b & 1);
    if a & 1 == 1 {
    } else {
      assert a & 1 == 0;
    }
  }

  lemma BitStepLinear(a: bv32, b: bv32)
    ensures BitStep(Xor(a, b)) == Xor(BitStep(a), BitStep(b))
  {
    hide *;
    BitStepParts(a);
    BitStepParts(b);
    BitStepParts(Xor(a, b));
    HalfLinear(a, b);
    TapLinear(a, b);
    XorExchange(Half(a), Half(b), Tap(a), Tap(b));
  }

  /** Zero bits act linearly on the register. */
  lemma {:induction false} BitsLinear(a: bv32, b: bv32, n: nat)
    ensures Bits(Xor(a, b), n) == Xor(Bits(a, n), Bits(b, n))
    decreases n
  {
    hide Xor, BitStep;
    if n > 0 {
      BitStepLinear(a, b);
      BitsLinear(BitStep(a), BitStep(b), n - 1);
    }
  }

  lemma {:induction false} BitsAdd(c: bv32, m: nat, n: nat)
    ensures Bits(c, m + n) == Bits(Bits(c, m), n)
    decreases m
  {
    hide BitStep;
    if m > 0 { BitsAdd(BitStep(c), m - 1, n); }
  }

  lemma {:induction false} BitsOfZero(n: nat)
    ensures Bits(0, n) == 0
    decreases n
  {
    if n > 0 {
      assert BitStep(0) == 0;
      BitsOfZero(n - 1);
    }
  }

  /** A message in two parts. */
  lemma {:induction false} RawConcat(c: bv32, s: seq<bv8>, t: seq<bv8>)
    ensures Raw(c, s + t) == Raw(Raw(c, s), t)
    decreases |s|
  {
    hide ByteStep;
    if s == [] {
      assert s + t == t;
    } else {
      assert (s + t)[0] == s[0] && (s + t)[1..] == s[1..] + t;
      RawConcat(ByteStep(c, s[0]), s[1..], t);
    }
  }

  /** The starting register and the message contribute independently. */
  lemma {:induction false} RawSplit(c: bv32, s: seq<bv8>)
    ensures Raw(c, s) == Xor(Bits(c, 8 * |s|), Raw(0, s))
    decreases |s|
  {
    hide Xor, BitStep, Word, Bits;
    if s == [] {
      BitsNone(c);
      XorZero(c);
    } else {
      var b, t := Word(s[0]), s[1..];
      var n := 8 * |t|;
      BitsLinear(c, b, 8);
      XorZero(b);
      RawSplit(ByteStep(c, s[0]), t);
      RawSplit(ByteStep(0, s[0]), t);
      BitsLinear(Bits(c, 8), Bits(b, 8), n);
      XorAssoc(Bits(Bits(c, 8), n), Bits(Bits(b, 8), n), Raw(0, t));
      BitsAdd(c, 8, n);
    }
  }

  lemma BitsNone(c: bv32)
    ensures Bits(c, 0) == c
  {
  }

  /** The law callers rely on: a checksum may be continued over the next piece of a message. */
  lemma CrcConcat(c: bv32, s: seq<bv8>, t: seq<bv8>)
    ensures Crc(Crc(c, s), t) == Crc(c, s + t)
  {
    hide Not, Raw;
    NotNot(Raw(Not(c), s));
    RawConcat(Not(c), s, t);
  }

  // ----- Bytes of the register -----

  function Low(c: bv32): bv8 { (c & 0xff) as bv8 }

  function Shr8(c: bv32): bv32 { c >> 8 }

  function High(c: bv32): bv32 { c & 0xffffff00 }

  lemma LowHigh(c: bv32)
    ensures Xor(Word(Low(c)), High(c)) == c
  {
  }

  lemma BitsEven2(c: bv32, n: nat)
    requires c & 3 == 0
    ensures Bits(c, n + 2) == Bits(c >> 2, n)
  {
    assert BitStep(c) == c >> 1 && BitStep(c >> 1) == (c >> 1) >> 1 == c >> 2;
    hide BitStep;
    assert Bits(c, n + 2) == Bits(BitStep(c), n + 1);
  }

  lemma BitsEven4(c: bv32, n: nat)
    requires c & 15 == 0
    ensures Bits(c, n + 4) == Bits(c >> 4, n)
  {
    hide Bits, BitStep;
    assert c & 3 == 0 && (c >> 2) & 3 == 0 && (c >> 2) >> 2 == c >> 4;
    BitsEven2(c, n + 2);
    BitsEven2(c >> 2, n);
  }

  lemma ClearNibbles(c: bv32)
    requires c & 0xff == 0
    ensures c & 15 == 0 && (c >> 4) & 15 == 0 && (c >> 4) >> 4 == c >> 8
  {
  }

  /** Eight zero bits shift a register whose low byte is clear. */
  lemma ClearByteShifts(c: bv32)
    requires c & 0xff == 0
    ensures Bits(c, 8) == Shr8(c)
  {
    hide Bits, BitStep;
    ClearNibbles(c);
    BitsEven4(c, 4);
    BitsEven4(c >> 4, 0);
    BitsNone(c >> 8);
  }

  /** The table step: the low byte goes through eight bits, the rest moves down. */
  lemma TableStep(c: bv32)
    ensures Bits(c, 8) == Xor(Bits(Word(Low(c)), 8), Shr8(c))
  {
    hide Xor, Bits, BitStep, Word, Low, Shr8;
    LowHigh(c);
    BitsLinear(Word(Low(c)), High(c), 8);
    HighClear(c);
    ClearByteShifts(High(c));
  }

  lemma HighClear(c: bv32)
    ensures High(c) & 0xff == 0 && Shr8(High(c)) == Shr8(c)
  {
  }

  // ----- Folding the register into the message -----

  /** The message with the bytes of `c`, lowest first, added to its own. */
  function XorInto(t: seq<bv8>, c: bv32): (r: seq<bv8>)
    ensures |r| == |t|
    decreases |t|
  {
    if t == [] then [] else [Xor8(t[0], Low(c))] + XorInto(t[1..], Shr8(c))
  }

  /** `c` has no more than `n` bytes. */
  predicate FitsIn(c: bv32, n: nat)
    decreases n
  {
    if n == 0 then c == 0 else FitsIn(Shr8(c), n - 1)
  }

  lemma FoldByte(a: bv32, c: bv32, b: bv8)
    ensures ByteStep(Xor(a, c), b) == Xor(ByteStep(a, Xor8(b, Low(c))), Shr8(c))
  {
    hide Xor, Bits, Word, Low, Shr8, Xor8;
    FoldXor(a, c, b);
    BitsLinear(Xor(a, Word(Xor8(b, Low(c)))), High(c), 8);
    HighClear(c);
    ClearByteShifts(High(c));
  }

  lemma FoldXor(a: bv32, c: bv32, b: bv8)
    ensures Xor(Xor(a, c), Word(b)) == Xor(Xor(a, Word(Xor8(b, Low(c)))), High(c))
  {
    hide Xor, Word, Low, High, Xor8;
    LowHigh(c);
    WordXor(b, Low(c));
    var l, w, h := Word(Low(c)), Word(b), High(c);
    calc {
      Xor(Xor(a, Xor(l, h)), w);
    == { XorAssoc(a, Xor(l, h), w); XorComm(Xor(l, h), w); XorAssoc(w, l, h); }
      Xor(a, Xor(Xor(w, l), h));
    == { XorAssoc(a, Xor(w, l), h); }
      Xor(Xor(a, Xor(w, l)), h);
    }
  }

  lemma WordXor(a: bv8, b: bv8)
    ensures Word(Xor8(a, b)) == Xor(Word(a), Word(b))
  {
  }

  /** A register that fits in the message can be added to the message instead. */
  lemma {:induction false} FoldRegister(a: bv32, c: bv32, t: seq<bv8>)
    requires FitsIn(c, |t|)
    ensures Raw(Xor(a, c), t) == Raw(a, XorInto(t, c))
    decreases |t|
  {
    hide Xor, ByteStep, Low, Shr8, Xor8;
    if t == [] {
      XorZero(a);
    } else {
      var x := Xor8(t[0], Low(c));
      FoldByte(a, c, t[0]);
      FoldRegister(ByteStep(a, x), Shr8(c), t[1..]);
      var r := XorInto(t, c);
      assert r[0] == x && r[1..] == XorInto(t[1..], Shr8(c));
    }
  }

  lemma RawCons(c: bv32, b: bv8, t: seq<bv8>)
    ensures Raw(c, [b] + t) == Raw(ByteStep(c, b), t)
  {
    hide ByteStep;
    assert ([b] + t)[0] == b && ([b] + t)[1..] == t;
  }

  /** The contribution of each message byte alone. */
  lemma RawByte(b: bv8, t: seq<bv8>)
    ensures Raw(0, [b] + t) == Xor(Bits(Word(b), 8 * |t| + 8), Raw(0, t))
  {
    hide Xor, Bits, Word, Raw;
    RawCons(0, b, t);
    XorZero(Word(b));
    RawSplit(ByteStep(0, b), t);
    BitsAdd(Word(b), 8, 8 * |t|);
  }
}
