/** The table-driven form: crc32c_init_sw and crc32c_sw, eight bytes at a time. */
module Crc32cSoftware {
  import opened Words
  import opened Crc32c

  /** The register that holds byte number `n`. */
  function Entry(n: nat): bv32
    requires n < 256
  {
    Word(n as bv8)
  }

  function Index(b: bv8): (i: nat)
    ensures i < 256
  {
    b as nat
  }

  lemma EntryIndex(b: bv8)
    ensures Entry(Index(b)) == Word(b)
  {
  }

  /** Row `k` holds the register of each byte after `k + 1` bytes of zero bits. */
  ghost predicate TableOk(t: array2<bv32>)
    reads t
  {
    && t.Length0 == 8 && t.Length1 == 256
    && forall k, n :: 0 <= k < 8 && 0 <= n < 256 ==> t[k, n] == Bits(Entry(n), 8 * k + 8)
  }

  /** Eight bit steps, unrolled as in crc32c_init_sw. */
  lemma EightSteps(c: bv32)
    ensures Bits(c, 8) ==
            BitStep(BitStep(BitStep(BitStep(BitStep(BitStep(BitStep(BitStep(c))))))))
  {
    hide BitStep;
    var c2 := BitStep(BitStep(c));
    var c4 := BitStep(BitStep(c2));
    var c6 := BitStep(BitStep(c4));
    assert Bits(c, 8) == Bits(c2, 6) by { assert Bits(c, 8) == Bits(BitStep(c), 7); }
    assert Bits(c2, 6) == Bits(c4, 4) by { assert Bits(c2, 6) == Bits(BitStep(c2), 5); }
    assert Bits(c4, 4) == Bits(c6, 2) by { assert Bits(c4, 4) == Bits(BitStep(c4), 3); }
    assert Bits(c6, 2) == Bits(BitStep(c6), 1);
  }

  /** crc32c_init_sw. */
  method InitSoftware() returns (t: array2<bv32>)
    ensures fresh(t) && TableOk(t)
  {
    hide Bits, BitStep, Entry;
    t := new bv32[8, 256]((_, _) => 0);
    var n := 0;
    while n < 256
      invariant 0 <= n <= 256
      invariant forall m :: 0 <= m < n ==> t[0, m] == Bits(Entry(m), 8)
    {
      var crc := Entry(n);
      EightSteps(crc);
      crc := BitStep(BitStep(BitStep(BitStep(BitStep(BitStep(BitStep(BitStep(crc))))))));
      t[0, n] := crc;
      n := n + 1;
    }
    n := 0;
    while n < 256
      invariant 0 <= n <= 256
      invariant forall m :: 0 <= m < 256 ==> t[0, m] == Bits(Entry(m), 8)
      invariant forall k, m :: 0 <= k < 8 && 0 <= m < n ==> t[k, m] == Bits(Entry(m), 8 * k + 8)
    {
      var crc := t[0, n];
      var k := 1;
      while k < 8
        invariant 1 <= k <= 8 && crc == Bits(Entry(n), 8 * k)
        invariant forall m :: 0 <= m < 256 ==> t[0, m] == Bits(Entry(m), 8)
        invariant forall j, m :: 0 <= j < 8 && 0 <= m < n ==> t[j, m] == Bits(Entry(m), 8 * j + 8)
        invariant forall j :: 0 <= j < k ==> t[j, n] == Bits(Entry(n), 8 * j + 8)
      {
        EntryIndex(Low(crc));
        TableStep(crc);
        BitsAdd(Entry(n), 8 * k, 8);
        crc := Xor(t[0, Index(Low(crc))], Shr8(crc));
        t[k, n] := crc;
        k := k + 1;
      }
      n := n + 1;
    }
  }

  // ----- The 64-bit register -----

  function Wide(c: bv32): bv64 { c as bv64 }

  function Narrow(x: bv64): bv32 { (x & 0xffffffff) as bv32 }

  function Wide8(b: bv8): bv64 { b as bv64 }

  lemma WideByte(c: bv32, b: bv8)
    ensures Low64(Xor64(Wide(c), Wide8(b))) == Low(Xor(c, Word(b)))
  {
  }

  lemma WideXor(a: bv32, b: bv32)
    ensures Xor64(Wide(a), Wide(b)) == Wide(Xor(a, b))
  {
  }

  lemma WideShift(c: bv32)
    ensures Shr64(Wide(c)) == Wide(Shr8(c)) && Low64(Wide(c)) == Low(c)
  {
  }

  lemma ShiftIgnoresLow(c: bv32, b: bv8)
    ensures Shr8(Xor(c, Word(b))) == Shr8(c)
  {
  }

  lemma NarrowWide(c: bv32)
    ensures Narrow(Wide(c)) == c
  {
  }

  /** One byte by table: the step of the leading and trailing loops. */
  method ByteByTable(t: array2<bv32>, crc: bv64, b: bv8, ghost c: bv32) returns (r: bv64)
    requires TableOk(t) && crc == Wide(c)
    ensures r == Wide(ByteStep(c, b))
  {
    hide Bits, BitStep, Entry, Wide, Low64, Xor64, Shr64, Wide8, Xor, Word, Low, Shr8;
    WideByte(c, b);
    var i := Low64(Xor64(crc, Wide8(b)));
    EntryIndex(i);
    TableStep(Xor(c, Word(b)));
    ShiftIgnoresLow(c, b);
    var e := t[0, Index(i)];
    WideShift(c);
    WideXor(e, Shr8(c));
    r := Xor64(Wide(e), Shr64(crc));
  }

  // ----- Eight bytes at once -----

  /** Eight message bytes as le64toh reads them. */
  function Load(b: seq<bv8>): bv64
    requires |b| == 8
  {
    Word8(b[0], b[1], b[2], b[3], b[4], b[5], b[6], b[7])
  }

  /** The exclusive or of eight table entries, one row for each byte of `x`. */
  function Slices(t: array2<bv32>, x: bv64): bv32
    requires t.Length0 == 8 && t.Length1 == 256
    reads t
  {
    Xor(Xor(Xor(Xor(Xor(Xor(Xor(
      t[7, Index(ByteAt(x, 0))], t[6, Index(ByteAt(x, 1))]), t[5, Index(ByteAt(x, 2))]),
      t[4, Index(ByteAt(x, 3))]), t[3, Index(ByteAt(x, 4))]), t[2, Index(ByteAt(x, 5))]),
      t[1, Index(ByteAt(x, 6))]), t[0, Index(ByteAt(x, 7))])
  }

  lemma XorLeft(a: bv32, b: bv32, c: bv32, d: bv32, e: bv32, f: bv32, g: bv32, h: bv32)
    ensures Xor(Xor(Xor(Xor(Xor(Xor(Xor(a, b), c), d), e), f), g), h)
         == Xor(a, Xor(b, Xor(c, Xor(d, Xor(e, Xor(f, Xor(g, Xor(h, 0))))))))
  {
    hide Xor;
    XorZero(h);
    XorAssoc(Xor(Xor(Xor(Xor(Xor(a, b), c), d), e), f), g, h);
    XorAssoc(Xor(Xor(Xor(Xor(a, b), c), d), e), f, Xor(g, h));
    XorAssoc(Xor(Xor(Xor(a, b), c), d), e, Xor(f, Xor(g, h)));
    XorAssoc(Xor(Xor(a, b), c), d, Xor(e, Xor(f, Xor(g, h))));
    XorAssoc(Xor(a, b), c, Xor(d, Xor(e, Xor(f, Xor(g, h)))));
    XorAssoc(a, b, Xor(c, Xor(d, Xor(e, Xor(f, Xor(g, h))))));
  }

  /** The register after eight bytes from zero, byte by byte. */
  lemma RawEight(x: seq<bv8>)
    requires |x| == 8
    ensures Raw(0, x) ==
            Xor(Bits(Word(x[0]), 64), Xor(Bits(Word(x[1]), 56), Xor(Bits(Word(x[2]), 48), Xor(Bits(Word(x[3]), 40),
            Xor(Bits(Word(x[4]), 32), Xor(Bits(Word(x[5]), 24), Xor(Bits(Word(x[6]), 16), Xor(Bits(Word(x[7]), 8),
            0))))))))
  {
    hide Xor, Bits, Word, Raw;
    RawTail(x, 0);
    RawTail(x, 1);
    RawTail(x, 2);
    RawTail(x, 3);
    RawLastFour(x);
    assert x[0..] == x;
  }

  lemma RawLastFour(x: seq<bv8>)
    requires |x| == 8
    ensures Raw(0, x[4..]) ==
            Xor(Bits(Word(x[4]), 32), Xor(Bits(Word(x[5]), 24), Xor(Bits(Word(x[6]), 16), Xor(Bits(Word(x[7]), 8), 0))))
  {
    hide Xor, Bits, Word, Raw;
    RawTail(x, 4);
    RawTail(x, 5);
    RawTail(x, 6);
    RawTail(x, 7);
    RawNone(x[8..]);
  }

  lemma RawNone(x: seq<bv8>)
    requires x == []
    ensures Raw(0, x) == 0
  {
  }

  lemma RawTail(x: seq<bv8>, i: nat)
    requires |x| == 8 && i < 8
    ensures Raw(0, x[i..]) == Xor(Bits(Word(x[i]), 64 - 8 * i), Raw(0, x[i + 1..]))
  {
    hide Xor, Bits, Word, Raw;
    assert x[i..] == [x[i]] + x[i + 1..];
    RawByte(x[i], x[i + 1..]);
  }

  function ShrBytes(c: bv32, k: nat): bv32
    decreases k
  {
    if k == 0 then c else ShrBytes(Shr8(c), k - 1)
  }

  lemma {:induction false} ByteAtWide(c: bv32, k: nat)
    ensures ByteAt(Wide(c), k) == Low(ShrBytes(c, k))
    decreases k
  {
    hide Wide, Low64, Shr64, Shr8, Low;
    WideShift(c);
    if k > 0 { ByteAtWide(Shr8(c), k - 1); }
  }

  lemma {:induction false} XorIntoAt(t: seq<bv8>, c: bv32, k: nat)
    requires k < |t|
    ensures XorInto(t, c)[k] == Xor8(t[k], Low(ShrBytes(c, k)))
    decreases k
  {
    hide Xor8, Low, Shr8;
    if k > 0 { XorIntoAt(t[1..], Shr8(c), k - 1); }
  }

  lemma LoadAt(b: seq<bv8>, k: nat)
    requires |b| == 8 && k < 8
    ensures ByteAt(Load(b), k) == b[k]
  {
    hide Word8, ByteAt;
    ByteAtWord(b[0], b[1], b[2], b[3], b[4], b[5], b[6], b[7], k);
  }

  /** Adding the register to the loaded word adds it to the message. */
  lemma FoldedByte(b: seq<bv8>, c: bv32, k: nat)
    requires |b| == 8 && k < 8
    ensures ByteAt(Xor64(Wide(c), Load(b)), k) == XorInto(b, c)[k]
  {
    hide *;
    ByteAtXor(Wide(c), Load(b), k);
    ByteAtWide(c, k);
    LoadAt(b, k);
    XorIntoAt(b, c, k);
    Xor8Comm(b[k], Low(ShrBytes(c, k)));
  }

  lemma Xor8Comm(a: bv8, b: bv8)
    ensures Xor8(a, b) == Xor8(b, a)
  {
  }

  lemma RegisterFits(c: bv32)
    ensures FitsIn(c, 8)
  {
    FitsZero(4);
    var c2, c4 := Shr8(Shr8(c)), Shr8(Shr8(Shr8(Shr8(c))));
    assert c4 == 0;
    hide Shr8;
    assert FitsIn(c2, 6) by { assert FitsIn(c2, 6) == FitsIn(Shr8(c2), 5); }
    assert FitsIn(c, 8) by { assert FitsIn(c, 8) == FitsIn(Shr8(c), 7); }
  }

  lemma {:induction false} FitsZero(n: nat)
    ensures FitsIn(0, n)
  {
    if n > 0 { FitsZero(n - 1); }
  }

  lemma EntryBits(t: array2<bv32>, k: nat, b: bv8)
    requires TableOk(t) && k < 8
    ensures t[k, Index(b)] == Bits(Word(b), 8 * k + 8)
  {
    hide Bits, Entry;
    EntryIndex(b);
  }

  /** Eight table entries advance the register over eight bytes. */
  lemma EightBytes(t: array2<bv32>, b: seq<bv8>, c: bv32)
    requires TableOk(t) && |b| == 8
    ensures Slices(t, Xor64(Wide(c), Load(b))) == Raw(c, b)
  {
    hide *;
    var x := XorInto(b, c);
    RegisterFits(c);
    FoldRegister(0, c, b);
    XorZero(c);
    RawEight(x);
    SlicesOf(t, Xor64(Wide(c), Load(b)), b, c);
    XorLeft(Bits(Word(x[0]), 64), Bits(Word(x[1]), 56), Bits(Word(x[2]), 48), Bits(Word(x[3]), 40),
            Bits(Word(x[4]), 32), Bits(Word(x[5]), 24), Bits(Word(x[6]), 16), Bits(Word(x[7]), 8));
  }

  lemma SlicesOf(t: array2<bv32>, w: bv64, b: seq<bv8>, c: bv32)
    requires TableOk(t) && |b| == 8 && w == Xor64(Wide(c), Load(b))
    ensures var x := XorInto(b, c);
            Slices(t, w) ==
            Xor(Xor(Xor(Xor(Xor(Xor(Xor(Bits(Word(x[0]), 64), Bits(Word(x[1]), 56)), Bits(Word(x[2]), 48)),
            Bits(Word(x[3]), 40)),
                Bits(Word(x[4]), 32)), Bits(Word(x[5]), 24)), Bits(Word(x[6]), 16)), Bits(Word(x[7]), 8))
  {
    hide Xor, Bits, Word, Xor64, Wide, Load, XorInto, ByteAt, Entry;
    var x := XorInto(b, c);
    FoldedByte(b, c, 0);
    FoldedByte(b, c, 1);
    FoldedByte(b, c, 2);
    FoldedByte(b, c, 3);
    FoldedByte(b, c, 4);
    FoldedByte(b, c, 5);
    FoldedByte(b, c, 6);
    FoldedByte(b, c, 7);
    EntryBits(t, 7, x[0]);
    EntryBits(t, 6, x[1]);
    EntryBits(t, 5, x[2]);
    EntryBits(t, 4, x[3]);
    EntryBits(t, 3, x[4]);
    EntryBits(t, 2, x[5]);
    EntryBits(t, 1, x[6]);
    EntryBits(t, 0, x[7]);
  }

  lemma RawLast(c: bv32, s: seq<bv8>, i: nat)
    requires i < |s|
    ensures Raw(c, s[..i + 1]) == ByteStep(Raw(c, s[..i]), s[i])
  {
    hide ByteStep;
    assert s[..i + 1] == s[..i] + [s[i]];
    RawConcat(c, s[..i], [s[i]]);
    assert [s[i]][1..] == [];
  }

  lemma RawNext8(c: bv32, s: seq<bv8>, i: nat)
    requires i + 8 <= |s|
    ensures Raw(c, s[..i + 8]) == Raw(Raw(c, s[..i]), s[i..i + 8])
  {
    hide Raw;
    assert s[..i + 8] == s[..i] + s[i..i + 8];
    RawConcat(c, s[..i], s[i..i + 8]);
  }

  /**
   crc32c_sw: single bytes up to an eight-byte boundary, then eight at a time, then the rest. For
   every buffer, at every address, it is the bit-at-a-time checksum.
   */
  method Software(t: array2<bv32>, crci: bv32, buf: seq<bv8>, address: nat) returns (r: bv32)
    requires TableOk(t)
    ensures r == Crc(crci, buf)
  {
    hide Raw, ByteStep, Bits, Entry, Wide, Xor64, Slices, Load, Narrow;
    ghost var c := Not(crci);
    var crc := Wide(Not(crci));
    var i := 0;
    RawStart(c, buf);
    while i < |buf| && (address + i) % 8 != 0
      invariant 0 <= i <= |buf| && crc == Wide(Raw(c, buf[..i]))
    {
      RawLast(c, buf, i);
      crc := ByteByTable(t, crc, buf[i], Raw(c, buf[..i]));
      i := i + 1;
    }
    while |buf| - i >= 8
      invariant 0 <= i <= |buf| && crc == Wide(Raw(c, buf[..i]))
    {
      RawNext8(c, buf, i);
      EightBytes(t, buf[i..i + 8], Raw(c, buf[..i]));
      crc := Wide(Slices(t, Xor64(crc, Load(buf[i..i + 8]))));
      i := i + 8;
    }
    while i < |buf|
      invariant 0 <= i <= |buf| && crc == Wide(Raw(c, buf[..i]))
    {
      RawLast(c, buf, i);
      crc := ByteByTable(t, crc, buf[i], Raw(c, buf[..i]));
      i := i + 1;
    }
    assert buf[..i] == buf;
    NarrowWide(Raw(c, buf));
    r := Not(Narrow(crc));
  }

  lemma RawStart(c: bv32, s: seq<bv8>)
    ensures Raw(c, s[..0]) == c
  {
  }
}
