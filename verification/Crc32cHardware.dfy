/**
 The three-way form: GF(2) matrices that apply powers of two of zero bytes to a register, tables
 built from them, and the interleaved checksum they recombine.
 */
module Crc32cHardware {
  import opened Words
  import opened Crc32c
  import opened Crc32cSoftware

  // ----- Registers as vectors over GF(2) -----

  function Dbl(c: bv32): bv32 { c << 1 }

  /** `c` moved up by `i` bits. */
  function Up(c: bv32, i: nat): bv32
    decreases i
  {
    if i == 0 then c else Up(Dbl(c), i - 1)
  }

  function Odd(c: bv32): bv32 { c & 1 }

  lemma {:induction false} UpLinear(a: bv32, b: bv32, i: nat)
    ensures Up(Xor(a, b), i) == Xor(Up(a, i), Up(b, i))
    decreases i
  {
    hide Xor, Dbl;
    if i > 0 {
      DblLinear(a, b);
      UpLinear(Dbl(a), Dbl(b), i - 1);
    }
  }

  lemma DblLinear(a: bv32, b: bv32)
    ensures Dbl(Xor(a, b)) == Xor(Dbl(a), Dbl(b))
  {
  }

  lemma {:induction false} UpZero(i: nat)
    ensures Up(0, i) == 0
  {
    if i > 0 { UpZero(i - 1); }
  }

  lemma HalfBack(c: bv32)
    ensures Xor(Odd(c), Dbl(Half(c))) == c
    ensures c & 1 == 1 ==> Odd(c) == 1
    ensures c & 1 != 1 ==> Odd(c) == 0
  {
  }

  /** Taking the lowest bit off a vector. */
  lemma UpSplit(c: bv32, i: nat)
    ensures Up(c, i) == Xor(Up(Odd(c), i), Up(Half(c), i + 1))
  {
    hide Xor, Dbl, Half, Odd;
    HalfBack(c);
    UpLinear(Odd(c), Dbl(Half(c)), i);
  }

  // ----- Every vector has 32 bits -----

  /** The bits left after moving down by `i`. */
  function Mask(i: nat): bv32
    decreases i
  {
    if i == 0 then 0xffffffff else Half(Mask(i - 1))
  }

  lemma Mask8(i: nat)
    ensures Mask(i + 8) == Shr8(Mask(i))
  {
    hide Half, Shr8;
    assert Mask(i + 2) == Half(Mask(i + 1));
    assert Mask(i + 4) == Half(Mask(i + 3)) && Mask(i + 3) == Half(Mask(i + 2));
    assert Mask(i + 6) == Half(Mask(i + 5)) && Mask(i + 5) == Half(Mask(i + 4));
    assert Mask(i + 8) == Half(Mask(i + 7)) && Mask(i + 7) == Half(Mask(i + 6));
    EightHalves(Mask(i));
  }

  lemma EightHalves(c: bv32)
    ensures Half(Half(Half(Half(Half(Half(Half(Half(c)))))))) == Shr8(c)
  {
  }

  lemma MaskEnd()
    ensures Mask(24) == 0xff && Mask(32) == 0
  {
    Mask8(0);
    Mask8(8);
    Mask8(16);
    Mask8(24);
    assert Mask(0) == 0xffffffff;
  }

  /** `c` has no bit above those of `Mask(i)`. */
  predicate Below(c: bv32, i: nat) { c & !Mask(i) == 0 }

  lemma BelowStart(c: bv32)
    ensures Below(c, 0)
  {
  }

  lemma BelowHalf(c: bv32, i: nat)
    requires Below(c, i)
    ensures Below(Half(c), i + 1)
  {
    BelowHalfBits(c, Mask(i));
  }

  lemma BelowHalfBits(c: bv32, m: bv32)
    requires c & !m == 0
    ensures Half(c) & !Half(m) == 0
  {
  }

  lemma BelowEnd(c: bv32)
    requires Below(c, 32)
    ensures c == 0
  {
    MaskEnd();
  }

  // ----- Matrices that stand for zero bits -----

  /** Column `i` of `m` is what `n` zero bits make of bit `i`. */
  ghost predicate Applies(m: array<bv32>, n: nat)
    reads m
  {
    && m.Length == 32
    && forall i :: 0 <= i < 32 ==> m[i] == Bits(Up(1, i), n)
  }

  /** One turn of gf2_matrix_times: the lowest bit moves from the vector to the sum. */
  lemma TimesStep(sum: bv32, v: bv32, i: nat, n: nat)
    ensures v & 1 == 1 ==>
              Xor(Xor(sum, Bits(Up(1, i), n)), Bits(Up(Half(v), i + 1), n)) == Xor(sum, Bits(Up(v, i), n))
    ensures v & 1 != 1 ==>
              Xor(sum, Bits(Up(Half(v), i + 1), n)) == Xor(sum, Bits(Up(v, i), n))
  {
    HalfBack(v);
    hide Xor, Bits, Half, Odd, Up;
    UpSplit(v, i);
    var rest := Up(Half(v), i + 1);
    BitsLinear(Up(Odd(v), i), rest, n);
    XorAssoc(sum, Bits(Up(1, i), n), Bits(rest, n));
    UpZero(i);
    BitsOfZero(n);
    XorZero(Bits(rest, n));
  }

  /** gf2_matrix_times: a matrix of `n` zero bits applies them to any vector. */
  method MatrixTimes(mat: array<bv32>, vec: bv32, ghost n: nat) returns (sum: bv32)
    requires Applies(mat, n)
    ensures sum == Bits(vec, n)
  {
    hide Xor, Bits, Half, Up, Below;
    sum := 0;
    var v, i := vec, 0;
    BelowStart(vec);
    UpNone(vec);
    XorZero(Bits(vec, n));
    while v != 0
      invariant 0 <= i <= 32 && Below(v, i)
      invariant Xor(sum, Bits(Up(v, i), n)) == Bits(vec, n)
      decreases 32 - i
    {
      if i == 32 { BelowEnd(v); }
      TimesStep(sum, v, i, n);
      BelowHalf(v, i);
      if v & 1 == 1 {
        sum := Xor(sum, mat[i]);
      }
      v := Half(v);
      i := i + 1;
    }
    UpZero(i);
    BitsOfZero(n);
    XorZero(sum);
  }

  lemma UpNone(c: bv32)
    ensures Up(c, 0) == c
  {
  }

  /** gf2_matrix_square: twice as many zero bits. */
  method MatrixSquare(square: array<bv32>, mat: array<bv32>, ghost n: nat)
    requires Applies(mat, n) && square.Length == 32 && square != mat
    modifies square
    ensures Applies(square, 2 * n)
  {
    hide Bits, Up;
    var i := 0;
    while i < 32
      invariant 0 <= i <= 32 && Applies(mat, n)
      invariant forall k :: 0 <= k < i ==> square[k] == Bits(Up(1, k), 2 * n)
    {
      square[i] := MatrixTimes(mat, mat[i], n);
      BitsAdd(Up(1, i), n, n);
      i := i + 1;
    }
  }

  // ----- The operator for a length -----

  /** The largest power of two no more than `len`, and 1 for 0. */
  function PowerFloor(len: nat): nat {
    if len <= 1 then 1 else 2 * PowerFloor(len / 2)
  }

  function Pow2(k: nat): nat { if k == 0 then 1 else 2 * Pow2(k - 1) }

  /** It is the one power of two in (len / 2, len], and 1 for 0. */
  lemma {:induction false} PowerFloorIs(len: nat) returns (k: nat)
    ensures PowerFloor(len) == Pow2(k) && if len == 0 then k == 0 else Pow2(k) <= len < Pow2(k + 1)
  {
    k := 0;
    if len > 1 {
      k := PowerFloorIs(len / 2);
      k := k + 1;
    }
  }

  lemma {:induction false} UpLast(c: bv32, i: nat)
    ensures Up(c, i + 1) == Dbl(Up(c, i))
    decreases i
  {
    hide Dbl;
    if i > 0 { UpLast(Dbl(c), i - 1); }
  }

  lemma BelowDbl(c: bv32, i: nat)
    requires i > 0 && Below(c, i)
    ensures Below(Dbl(c), i - 1) && Half(Dbl(c)) == c
  {
    hide Dbl, Half, Mask;
    MaskNext(i - 1);
    BelowDblBits(c, Mask(i - 1));
  }

  lemma MaskNext(i: nat)
    ensures Mask(i + 1) == Half(Mask(i))
  {
  }

  lemma BelowDblBits(c: bv32, m: bv32)
    requires c & !Half(m) == 0
    ensures Dbl(c) & !m == 0 && Half(Dbl(c)) == c
  {
  }

  lemma {:induction false} UnitBelow(i: nat)
    requires i < 32
    ensures Below(Up(1, i), 31 - i)
  {
    if i == 0 {
      MaskEnd();
      assert Mask(31) == Half(Mask(30)) && Mask(30) == Half(Mask(29)) && Mask(29) == Half(Mask(28));
      assert Mask(28) == Half(Mask(27)) && Mask(27) == Half(Mask(26)) && Mask(26) == Half(Mask(25));
      assert Mask(25) == Half(Mask(24));
      assert Mask(31) == 1;
    } else {
      hide Below, Dbl;
      UnitBelow(i - 1);
      UpLast(1, i - 1);
      BelowDbl(Up(1, i - 1), 32 - i);
    }
  }

  /** A bit above the lowest only moves down. */
  lemma UnitStep(i: nat)
    requires 0 < i < 32
    ensures Bits(Up(1, i), 1) == Up(1, i - 1)
  {
    hide Below, Up, Half, Dbl, Tap, Xor, BitStep;
    UpLast(1, i - 1);
    UnitBelow(i - 1);
    BelowDbl(Up(1, i - 1), 32 - i);
    BitStepParts(Up(1, i));
    DblEven(Up(1, i - 1));
    XorZero(Up(1, i - 1));
    assert Bits(Up(1, i), 1) == Bits(BitStep(Up(1, i)), 0);
  }

  lemma DblEven(c: bv32)
    ensures Tap(Dbl(c)) == 0
  {
  }

  lemma UnitFirst()
    ensures Bits(Up(1, 0), 1) == POLY
  {
    UpNone(1);
    assert BitStep(1) == POLY;
  }

  /** The operator for a single zero bit. */
  method OneBit(odd: array<bv32>)
    requires odd.Length == 32
    modifies odd
    ensures Applies(odd, 1)
  {
    hide Bits, Up, Dbl;
    UnitFirst();
    UpNone(1);
    odd[0] := POLY;
    var row: bv32 := 1;
    var n := 1;
    while n < 32
      invariant 1 <= n <= 32 && row == Up(1, n - 1)
      invariant forall i :: 0 <= i < n ==> odd[i] == Bits(Up(1, i), 1)
    {
      UnitStep(n);
      UpLast(1, n - 1);
      odd[n] := row;
      row := Dbl(row);
      n := n + 1;
    }
  }

  function Scaled(bits: nat, len: nat): nat { bits * PowerFloor(len) }

  lemma ScaledEight(len: nat)
    ensures Scaled(8, len) == 8 * PowerFloor(len)
  {
  }

  lemma Regroup(bits: nat, p: nat)
    ensures (2 * bits) * (4 * p) == (8 * bits) * p
  {
  }

  lemma Halvings(left: nat, bits: nat)
    ensures left / 2 == 0 ==> Scaled(2 * bits, left) == 2 * bits
    ensures left / 2 != 0 && left / 2 / 2 == 0 ==> Scaled(2 * bits, left) == 4 * bits
    ensures left / 2 != 0 && left / 2 / 2 != 0 ==> Scaled(2 * bits, left) == Scaled(8 * bits, left / 2 / 2)
  {
    var half := left / 2;
    if half == 0 {
      assert PowerFloor(left) == 1;
    } else if half / 2 == 0 {
      assert PowerFloor(left) == 2 * PowerFloor(half) && PowerFloor(half) == 1;
    } else {
      var p := PowerFloor(half / 2);
      assert PowerFloor(left) == 2 * PowerFloor(half) && PowerFloor(half) == 2 * p;
      assert Scaled(2 * bits, left) == (2 * bits) * (4 * p);
      Regroup(bits, p);
    }
  }

  /**
   crc32c_zeros_op: the operator for the largest power of two of zero bytes within `len`, one byte
   when `len` is 0.
   */
  method ZerosOp(len: nat) returns (even: array<bv32>, ghost k: nat)
    ensures fresh(even) && Applies(even, 8 * PowerFloor(len))
    ensures PowerFloor(len) == Pow2(k) && if len == 0 then k == 0 else Pow2(k) <= len < Pow2(k + 1)
  {
    hide Bits, Up, Applies, Scaled, PowerFloor, Pow2;
    k := PowerFloorIs(len);
    ScaledEight(len);
    even := new bv32[32](_ => 0);
    var odd := new bv32[32](_ => 0);
    OneBit(odd);
    MatrixSquare(even, odd, 1);
    MatrixSquare(odd, even, 2);
    ghost var bits: nat := 4;
    var left := len;
    while true
      invariant fresh(even) && fresh(odd) && even != odd && even.Length == 32 && odd.Length == 32
      invariant Applies(odd, bits) && Scaled(2 * bits, left) == 8 * PowerFloor(len)
      decreases left
    {
      Halvings(left, bits);
      MatrixSquare(even, odd, bits);
      left := left / 2;
      if left == 0 {
        return;
      }
      MatrixSquare(odd, even, 2 * bits);
      bits := 4 * bits;
      left := left / 2;
      if left == 0 {
        break;
      }
    }
    forall i | 0 <= i < 32 {
      even[i] := odd[i];
    }
    SameColumns(even, odd, bits);
  }

  lemma SameColumns(a: array<bv32>, b: array<bv32>, n: nat)
    requires a.Length == 32 && Applies(b, n) && forall i :: 0 <= i < 32 ==> a[i] == b[i]
    ensures Applies(a, n)
  {
    hide Bits, Up;
  }

  // ----- Operators as tables -----

  function Shl8(c: bv32): bv32 { c << 8 }

  /** Byte `b` at byte position `k` of a register. */
  function Placed(b: bv8, k: nat): bv32 {
    if k == 0 then Word(b) else Shl8(Placed(b, k - 1))
  }

  function ByteOf(i: nat): bv8
    requires i < 256
  {
    i as bv8
  }

  /** Row `k` holds every byte at position `k` after `n` zero bits. */
  ghost predicate ZerosOk(z: array2<bv32>, n: nat)
    reads z
  {
    && z.Length0 == 4 && z.Length1 == 256
    && forall i :: 0 <= i < 256 ==> ColumnOk(z, i, n)
  }

  ghost predicate ColumnOk(z: array2<bv32>, i: nat, n: nat)
    requires z.Length0 == 4 && z.Length1 == 256 && i < 256
    reads z
  {
    && z[0, i] == Bits(Placed(ByteOf(i), 0), n) && z[1, i] == Bits(Placed(ByteOf(i), 1), n)
    && z[2, i] == Bits(Placed(ByteOf(i), 2), n) && z[3, i] == Bits(Placed(ByteOf(i), 3), n)
  }

  /** The four table entries of byte `i`. */
  method Column(z: array2<bv32>, op: array<bv32>, i: nat, ghost n: nat)
    requires z.Length0 == 4 && z.Length1 == 256 && i < 256 && Applies(op, n)
    modifies z
    ensures ColumnOk(z, i, n)
    ensures forall j :: 0 <= j < 256 && j != i && old(ColumnOk(z, j, n)) ==> ColumnOk(z, j, n)
  {
    hide Bits, Up, Word, Placed, Shl8, Applies, ByteOf;
    PlacedIs(ByteOf(i));
    var e := Word(ByteOf(i));
    z[0, i] := MatrixTimes(op, e, n);
    z[1, i] := MatrixTimes(op, Shl8(e), n);
    z[2, i] := MatrixTimes(op, Shl8(Shl8(e)), n);
    z[3, i] := MatrixTimes(op, Shl8(Shl8(Shl8(e))), n);
  }

  /** crc32c_zeros. */
  method Zeros(len: nat) returns (z: array2<bv32>)
    ensures fresh(z) && ZerosOk(z, 8 * PowerFloor(len))
  {
    hide Bits, Placed, PowerFloor, ByteOf;
    z := new bv32[4, 256]((_, _) => 0);
    ghost var n := 8 * PowerFloor(len);
    var op;
    ghost var k;
    op, k := ZerosOp(len);
    var i := 0;
    while i < 256
      invariant 0 <= i <= 256 && Applies(op, n)
      invariant forall j :: 0 <= j < i ==> ColumnOk(z, j, n)
    {
      Column(z, op, i, n);
      i := i + 1;
    }
  }

  lemma FourBytes(c: bv32)
    ensures c == Xor(Xor(Xor(Placed(Low(c), 0), Placed(Low(Shr8(c)), 1)), Placed(Low(Shr8(Shr8(c))), 2)),
                     Placed(Low(Shr8(Shr8(Shr8(c)))), 3))
  {
    hide Placed, Xor, Low, Shr8;
    var b0, b1, b2, b3 := Low(c), Low(Shr8(c)), Low(Shr8(Shr8(c))), Low(Shr8(Shr8(Shr8(c))));
    PlacedIs(b0);
    PlacedIs(b1);
    PlacedIs(b2);
    PlacedIs(b3);
    FourBytesBits(c);
  }

  lemma PlacedIs(b: bv8)
    ensures Placed(b, 0) == Word(b) && Placed(b, 1) == Shl8(Word(b))
    ensures Placed(b, 2) == Shl8(Shl8(Word(b))) && Placed(b, 3) == Shl8(Shl8(Shl8(Word(b))))
  {
    hide Shl8, Word;
    assert Placed(b, 1) == Shl8(Placed(b, 0));
    assert Placed(b, 2) == Shl8(Placed(b, 1));
    assert Placed(b, 3) == Shl8(Placed(b, 2));
  }

  lemma FourBytesBits(c: bv32)
    ensures c == Xor(Xor(Xor(Word(Low(c)), Shl8(Word(Low(Shr8(c))))), Shl8(Shl8(Word(Low(Shr8(Shr8(c))))))),
                     Shl8(Shl8(Shl8(Word(Low(Shr8(Shr8(Shr8(c)))))))))
  {
  }

  /** crc32c_shift: the four tables apply the operator they were built from. */
  method Shift(z: array2<bv32>, c: bv32, ghost n: nat) returns (r: bv32)
    requires ZerosOk(z, n)
    ensures r == Bits(c, n)
  {
    hide Bits, Placed, Xor, Low, Shr8, ByteOf;
    var b0, b1, b2, b3 := Low(c), Low(Shr8(c)), Low(Shr8(Shr8(c))), Low(Shr8(Shr8(Shr8(c))));
    FourBytes(c);
    BitsLinear(Xor(Xor(Placed(b0, 0), Placed(b1, 1)), Placed(b2, 2)), Placed(b3, 3), n);
    BitsLinear(Xor(Placed(b0, 0), Placed(b1, 1)), Placed(b2, 2), n);
    BitsLinear(Placed(b0, 0), Placed(b1, 1), n);
    IndexBack(b0);
    IndexBack(b1);
    IndexBack(b2);
    IndexBack(b3);
    assert ColumnOk(z, Index(b0), n) && ColumnOk(z, Index(b1), n) && ColumnOk(z, Index(b2), n)
           && ColumnOk(z, Index(b3), n);
    r := Xor(Xor(Xor(z[0, Index(b0)], z[1, Index(b1)]), z[2, Index(b2)]), z[3, Index(b3)]);
  }

  lemma IndexBack(b: bv8)
    ensures ByteOf(Index(b)) == b
  {
  }

  // ----- Three messages at once -----

  const LONG := 8192
  const SHORT := 256

  lemma PowerDouble(n: nat)
    requires n > 0
    ensures PowerFloor(2 * n) == 2 * PowerFloor(n)
  {
  }

  lemma PowerLong()
    ensures PowerFloor(LONG) == LONG
  {
    hide PowerFloor;
    PowerShort();
    PowerDouble(256);
    PowerDouble(512);
    PowerDouble(1024);
    PowerDouble(2048);
    PowerDouble(4096);
  }

  lemma PowerShort()
    ensures PowerFloor(SHORT) == SHORT
  {
    assert PowerFloor(1) == 1;
    hide PowerFloor;
    PowerDouble(1);
    PowerDouble(2);
    PowerDouble(4);
    PowerDouble(8);
    PowerDouble(16);
    PowerDouble(32);
    PowerDouble(64);
    PowerDouble(128);
  }

  /** crc32c_init_hw. */
  method InitHardware() returns (longs: array2<bv32>, shorts: array2<bv32>)
    ensures ZerosOk(longs, 8 * LONG) && ZerosOk(shorts, 8 * SHORT)
  {
    hide ZerosOk, PowerFloor;
    PowerLong();
    PowerShort();
    longs := Zeros(LONG);
    shorts := Zeros(SHORT);
  }

  lemma RawGrow(c: bv32, s: seq<bv8>, from: nat, i: nat)
    requires from <= i && i + 8 <= |s|
    ensures Raw(c, s[from..i + 8]) == Raw(Raw(c, s[from..i]), s[i..i + 8])
  {
    hide Raw;
    assert s[from..i + 8] == s[from..i] + s[i..i + 8];
    RawConcat(c, s[from..i], s[i..i + 8]);
  }

  lemma RawEmpty(c: bv32, s: seq<bv8>, i: nat)
    requires i <= |s|
    ensures Raw(c, s[i..i]) == c
  {
  }

  /** Two adjacent stretches, the second checksummed from zero. */
  lemma Recombine(c: bv32, s: seq<bv8>, from: nat, mid: nat, to: nat)
    requires from <= mid <= to <= |s|
    ensures Raw(c, s[from..to]) == Xor(Bits(Raw(c, s[from..mid]), 8 * (to - mid)), Raw(0, s[mid..to]))
  {
    hide Raw, Xor, Bits;
    assert s[from..to] == s[from..mid] + s[mid..to];
    RawConcat(c, s[from..mid], s[mid..to]);
    RawSplit(Raw(c, s[from..mid]), s[mid..to]);
  }

  /** Three blocks in parallel registers, joined by shifting: one turn of either outer loop. */
  method ThreeWay(z: array2<bv32>, c: bv32, s: seq<bv8>, next: nat, block: nat) returns (r: bv32)
    requires ZerosOk(z, 8 * block) && block > 0 && block % 8 == 0 && next + 3 * block <= |s|
    ensures r == Raw(c, s[next..next + 3 * block])
  {
    hide Raw, Xor, Bits, ZerosOk;
    var c0, c1, c2 := c, 0, 0;
    var b1, b2 := next + block, next + 2 * block;
    RawEmpty(c, s, next);
    RawEmpty(0, s, b1);
    RawEmpty(0, s, b2);
    var k := 0;
    while k < block
      invariant 0 <= k <= block && k % 8 == 0
      invariant c0 == Raw(c, s[next..next + k])
      invariant c1 == Raw(0, s[b1..b1 + k]) && c2 == Raw(0, s[b2..b2 + k])
    {
      RawGrow(c, s, next, next + k);
      RawGrow(0, s, b1, b1 + k);
      RawGrow(0, s, b2, b2 + k);
      c0 := Quad(c0, s, next + k);
      c1 := Quad(c1, s, b1 + k);
      c2 := Quad(c2, s, b2 + k);
      k := k + 8;
    }
    Recombine(c, s, next, b1, b2);
    Recombine(c, s, next, b2, b2 + block);
    var t := Shift(z, c0, 8 * block);
    t := Shift(z, Xor(t, c1), 8 * block);
    r := Xor(t, c2);
  }

  /** The instruction crc32q: eight bytes of message, without complements. */
  function Quad(c: bv32, s: seq<bv8>, i: nat): bv32
    requires i + 8 <= |s|
  {
    Raw(c, s[i..i + 8])
  }

  lemma RawOn(c: bv32, s: seq<bv8>, i: nat, j: nat)
    requires i <= j <= |s|
    ensures Raw(c, s[..j]) == Raw(Raw(c, s[..i]), s[i..j])
  {
    hide Raw;
    assert s[..j] == s[..i] + s[i..j];
    RawConcat(c, s[..i], s[i..j]);
  }

  /**
   crc32c_hw: for every buffer at every address, the bit-at-a-time checksum, and so the same result
   as the table-driven form.
   */
  method Hardware(longs: array2<bv32>, shorts: array2<bv32>, crc: bv32, buf: seq<bv8>, address: nat)
    returns (r: bv32)
    requires ZerosOk(longs, 8 * LONG) && ZerosOk(shorts, 8 * SHORT)
    ensures r == Crc(crc, buf)
  {
    hide Raw, ByteStep, ZerosOk;
    ghost var c := Not(crc);
    var crc0, i := Not(crc), 0;
    RawStart(c, buf);
    while i < |buf| && (address + i) % 8 != 0
      invariant 0 <= i <= |buf| && crc0 == Raw(c, buf[..i])
    {
      RawLast(c, buf, i);
      crc0 := ByteStep(crc0, buf[i]);
      i := i + 1;
    }
    while |buf| - i >= LONG * 3
      invariant 0 <= i <= |buf| && crc0 == Raw(c, buf[..i])
    {
      RawOn(c, buf, i, i + 3 * LONG);
      crc0 := ThreeWay(longs, crc0, buf, i, LONG);
      i := i + LONG * 3;
    }
    while |buf| - i >= SHORT * 3
      invariant 0 <= i <= |buf| && crc0 == Raw(c, buf[..i])
    {
      RawOn(c, buf, i, i + 3 * SHORT);
      crc0 := ThreeWay(shorts, crc0, buf, i, SHORT);
      i := i + SHORT * 3;
    }
    var end := i + (|buf| - i) / 8 * 8;
    while i < end
      invariant 0 <= i <= end && (end - i) % 8 == 0 && crc0 == Raw(c, buf[..i])
    {
      RawOn(c, buf, i, i + 8);
      crc0 := Quad(crc0, buf, i);
      i := i + 8;
    }
    while i < |buf|
      invariant 0 <= i <= |buf| && crc0 == Raw(c, buf[..i])
    {
      RawLast(c, buf, i);
      crc0 := ByteStep(crc0, buf[i]);
      i := i + 1;
    }
    assert buf[..i] == buf;
    r := Not(crc0);
  }
}
