/** LZ4_count: the length of a match, found a machine word at a time. */
module MatchCount {
  import opened Bytes
  import opened Words

  // ----- Trailing zeros -----

  /** The number of trailing zero bits, as __builtin_ctzll defines it. */
  function Ctz(v: bv64): (n: nat)
    requires v != 0
    decreases v
  {
    if v & 1 == 1 then 0 else CtzHalf(v); 1 + Ctz(v >> 1)
  }

  lemma CtzHalf(v: bv64)
    requires v != 0 && v & 1 != 1
    ensures v >> 1 != 0 && v >> 1 < v
  {
  }

  lemma CtzTwice(v: bv64)
    requires v != 0 && v & 3 == 0
    ensures v >> 2 != 0 && Ctz(v) == 2 + Ctz(v >> 2)
  {
    assert (v >> 1) >> 1 == v >> 2;
    assert Ctz(v) == 1 + Ctz(v >> 1);
  }

  lemma CtzNibble(v: bv64)
    requires v != 0
    ensures v & 15 == 0 ==> v >> 4 != 0 && Ctz(v) == 4 + Ctz(v >> 4)
    ensures v & 15 != 0 ==> Ctz(v) < 4
  {
    if v & 3 == 0 {
      CtzTwice(v);
      if v & 15 == 0 {
        CtzTwice(v >> 2);
        assert (v >> 2) >> 2 == v >> 4;
      } else {
        assert Ctz(v >> 2) < 2;
      }
    }
  }

  /** A zero low byte adds eight. */
  lemma CtzByte(v: bv64)
    requires v != 0
    ensures v & 0xff == 0 ==> v >> 8 != 0 && Ctz(v) == 8 + Ctz(v >> 8)
    ensures v & 0xff != 0 ==> Ctz(v) < 8
  {
    hide Ctz;
    CtzNibble(v);
    if v & 15 == 0 {
      CtzNibble(v >> 4);
      assert (v >> 4) >> 4 == v >> 8;
    }
  }

  /** LZ4_NbCommonBytes on a little-endian 64-bit machine. */
  function NbCommonBytes(v: bv64): nat
    requires v != 0
  {
    Ctz(v) / 8
  }

  // ----- Words of memory -----

  function Bits(b: Byte): bv8 { b as bv8 }

  lemma BitsBack(b: Byte)
    ensures Bits(b) as int == b
  {
    BackAndForth(b);
  }

  lemma BackAndForth(b: Byte)
    ensures (b as bv8) as int == b
  {
    var q := b / 16;
    if q == 0 {} else if q == 1 {} else if q == 2 {} else if q == 3 {}
    else if q == 4 {} else if q == 5 {} else if q == 6 {} else if q == 7 {}
    else if q == 8 {} else if q == 9 {} else if q == 10 {} else if q == 11 {}
    else if q == 12 {} else if q == 13 {} else if q == 14 {}
  }

  lemma BitsInjective(a: Byte, b: Byte)
    ensures Bits(a) == Bits(b) <==> a == b
  {
    hide Bits;
    BitsBack(a);
    BitsBack(b);
  }

  /** LZ4_read_ARCH on a little-endian 64-bit machine. */
  function ReadArch(m: seq<Byte>, p: nat): bv64
    requires p + 8 <= |m|
  {
    Word8(Bits(m[p]), Bits(m[p + 1]), Bits(m[p + 2]), Bits(m[p + 3]),
          Bits(m[p + 4]), Bits(m[p + 5]), Bits(m[p + 6]), Bits(m[p + 7]))
  }

  lemma CommonStep(d: bv64)
    requires d != 0
    ensures Low64(d) == 0 ==> Shr64(d) != 0 && NbCommonBytes(d) == 1 + NbCommonBytes(Shr64(d))
    ensures Low64(d) != 0 ==> NbCommonBytes(d) == 0
  {
    hide Ctz;
    CtzByte(d);
  }

  /** The count of common bytes is the position of the lowest byte that is not zero. */
  lemma {:induction false} CommonBytes(d: bv64, k: nat)
    ensures d == 0 ==> ByteAt(d, k) == 0
    ensures d != 0 && k < NbCommonBytes(d) ==> ByteAt(d, k) == 0
    ensures d != 0 && k == NbCommonBytes(d) ==> ByteAt(d, k) != 0
    decreases k
  {
    hide Ctz, NbCommonBytes;
    if d != 0 { CommonStep(d); }
    if k > 0 { CommonBytes(Shr64(d), k - 1); }
  }

  lemma PickRead(m: seq<Byte>, p: nat, k: nat)
    requires p + 8 <= |m|
    ensures var b := Pick(Bits(m[p]), Bits(m[p + 1]), Bits(m[p + 2]), Bits(m[p + 3]),
                          Bits(m[p + 4]), Bits(m[p + 5]), Bits(m[p + 6]), Bits(m[p + 7]), k);
            b == if k < 8 then Bits(m[p + k]) else 0
  {
    hide Bits;
  }

  lemma ByteAtRead(m: seq<Byte>, p: nat, k: nat)
    requires p + 8 <= |m|
    ensures ByteAt(ReadArch(m, p), k) == if k < 8 then Bits(m[p + k]) else 0
  {
    hide Bits, Word8, ByteAt, Pick;
    ByteAtWord(Bits(m[p]), Bits(m[p + 1]), Bits(m[p + 2]), Bits(m[p + 3]),
               Bits(m[p + 4]), Bits(m[p + 5]), Bits(m[p + 6]), Bits(m[p + 7]), k);
    PickRead(m, p, k);
  }

  /** The bytes of the difference of two words say where they differ. */
  lemma DiffByte(m: seq<Byte>, p: nat, q: nat, k: nat)
    requires p + 8 <= |m| && q + 8 <= |m|
    ensures ByteAt(Xor64(ReadArch(m, p), ReadArch(m, q)), k) == 0 <==> k >= 8 || m[p + k] == m[q + k]
  {
    hide *;
    ByteAtXor(ReadArch(m, p), ReadArch(m, q), k);
    Xor8Zero(ByteAt(ReadArch(m, p), k), ByteAt(ReadArch(m, q), k));
    ByteAtRead(m, p, k);
    ByteAtRead(m, q, k);
    if k < 8 { BitsInjective(m[p + k], m[q + k]); }
  }

  /** Comparing two words: equal exactly when all eight bytes are, and otherwise the first difference is found. */
  lemma WordCompare(m: seq<Byte>, p: nat, q: nat)
    requires p + 8 <= |m| && q + 8 <= |m|
    ensures var d := Xor64(ReadArch(m, p), ReadArch(m, q));
            if d == 0 then m[p..p + 8] == m[q..q + 8]
            else var k := NbCommonBytes(d); k < 8 && m[p..p + k] == m[q..q + k] && m[p + k] != m[q + k]
  {
    hide ReadArch, NbCommonBytes, ByteAt, Xor64;
    var d := Xor64(ReadArch(m, p), ReadArch(m, q));
    var k := if d == 0 then 8 else NbCommonBytes(d);
    CommonBytes(d, k);
    DiffByte(m, p, q, k);
    assert k <= 8;
    forall i | p <= i < p + k
      ensures m[i] == m[q + i - p]
    {
      CommonBytes(d, i - p);
      DiffByte(m, p, q, i - p);
    }
  }

  // ----- Counting -----

  /** The `n` bytes at `p` and at `q` are the same. */
  ghost predicate Agree(m: seq<Byte>, p: nat, q: nat, n: nat) {
    p + n <= |m| && q + n <= |m| && m[p..p + n] == m[q..q + n]
  }

  /** `n` is how far the bytes at `p` and `q` agree, stopping at `limit`. */
  ghost predicate CommonLength(m: seq<Byte>, p: nat, q: nat, limit: nat, n: nat) {
    && p + n <= limit <= |m| && q + (limit - p) <= |m|
    && Agree(m, p, q, n)
    && (p + n < limit ==> m[p + n] != m[q + n])
  }

  /** Equality of two bytes, as LZ4_read16 values; of four, as LZ4_read32 values. */
  predicate Same2(m: seq<Byte>, p: nat, q: nat)
    requires p + 2 <= |m| && q + 2 <= |m|
  {
    m[p] == m[q] && m[p + 1] == m[q + 1]
  }

  predicate Same4(m: seq<Byte>, p: nat, q: nat)
    requires p + 4 <= |m| && q + 4 <= |m|
  {
    Same2(m, p, q) && Same2(m, p + 2, q + 2)
  }

  lemma AgreeOne(m: seq<Byte>, p: nat, q: nat, n: nat)
    requires Agree(m, p, q, n) && p + n < |m| && q + n < |m| && m[p + n] == m[q + n]
    ensures Agree(m, p, q, n + 1)
  {
    assert m[p..p + (n + 1)] == m[p..p + n] + [m[p + n]];
    assert m[q..q + (n + 1)] == m[q..q + n] + [m[q + n]];
  }

  lemma AgreeTwo(m: seq<Byte>, p: nat, q: nat, n: nat)
    requires Agree(m, p, q, n) && p + n + 2 <= |m| && q + n + 2 <= |m| && Same2(m, p + n, q + n)
    ensures Agree(m, p, q, n + 2)
  {
    hide Agree;
    AgreeOne(m, p, q, n);
    AgreeOne(m, p, q, n + 1);
  }

  lemma AgreeJoin(m: seq<Byte>, p: nat, q: nat, a: nat, b: nat)
    requires Agree(m, p, q, a) && Agree(m, p + a, q + a, b)
    ensures Agree(m, p, q, a + b)
  {
    assert m[p..p + (a + b)] == m[p..p + a] + m[p + a..p + a + b];
    assert m[q..q + (a + b)] == m[q..q + a] + m[q + a..q + a + b];
  }

  /** How far the bytes at `p` and `q` agree, stopping at `limit`; nothing when the limit is not ahead. */
  ghost function Common(m: seq<Byte>, p: nat, q: nat, limit: int): (n: nat)
    ensures Agree(m, p, q, n) || (n == 0 && (p > |m| || q > |m|))
    ensures p + n <= limit || n == 0
    decreases limit - p
  {
    if p < limit && p < |m| && q < |m| && m[p] == m[q] then
      AgreeFirst(m, p, q, Common(m, p + 1, q + 1, limit));
      1 + Common(m, p + 1, q + 1, limit)
    else 0
  }

  lemma AgreeFirst(m: seq<Byte>, p: nat, q: nat, n: nat)
    requires p < |m| && q < |m| && m[p] == m[q] && Agree(m, p + 1, q + 1, n)
    ensures Agree(m, p, q, n + 1)
  {
    assert m[p..p + (n + 1)] == [m[p]] + m[p + 1..p + 1 + n];
    assert m[q..q + (n + 1)] == [m[q]] + m[q + 1..q + 1 + n];
  }

  /** Bytes that agree are counted, and nothing else is. */
  lemma {:induction false} CommonIs(m: seq<Byte>, p: nat, q: nat, limit: nat, n: nat)
    requires Agree(m, p, q, n) && p + n <= limit
    ensures Common(m, p, q, limit) >= n
    ensures CommonLength(m, p, q, limit, n) ==> Common(m, p, q, limit) == n
    decreases n
  {
    if n > 0 {
      assert m[p..p + n][0] == m[q..q + n][0];
      assert m[p + 1..p + 1 + (n - 1)] == m[p..p + n][1..] && m[q + 1..q + 1 + (n - 1)] == m[q..q + n][1..];
      CommonIs(m, p + 1, q + 1, limit, n - 1);
    }
  }

  /** LZ4_count. */
  method Count(m: seq<Byte>, pIn: nat, pMatch: nat, limit: int) returns (n: nat)
    requires limit <= |m| && pMatch + (limit - pIn) <= |m|
    ensures n == Common(m, pIn, pMatch, limit)
  {
    hide *;
    CommonNone(m, pIn, pMatch, limit);
    var i := 0;
    while pIn + i + 7 < limit
      invariant if pIn < limit then pIn + i <= limit && Agree(m, pIn, pMatch, i) else i == 0
    {
      var diff := Xor64(ReadArch(m, pMatch + i), ReadArch(m, pIn + i));
      WordStep(m, pIn, pMatch, limit, i);
      if diff != 0 { return i + NbCommonBytes(diff); }
      i := i + 8;
    }
    n := CountTail(m, pIn, pMatch, limit, i);
    if pIn < limit { CommonLengthIs(m, pIn, pMatch, limit, n); }
  }

  /** One word compared. */
  lemma WordStep(m: seq<Byte>, p: nat, q: nat, limit: nat, i: nat)
    requires limit <= |m| && q + (limit - p) <= |m| && p + i + 7 < limit && Agree(m, p, q, i)
    ensures var diff := Xor64(ReadArch(m, q + i), ReadArch(m, p + i));
            if diff == 0 then Agree(m, p, q, i + 8) else Common(m, p, q, limit) == i + NbCommonBytes(diff)
  {
    hide *;
    var diff := Xor64(ReadArch(m, q + i), ReadArch(m, p + i));
    var k := if diff == 0 then 8 else NbCommonBytes(diff);
    WordAgree(m, p + i, q + i);
    AgreeJoin(m, p, q, i, k);
    if diff != 0 { StopsAt(m, p, q, limit, i + k); }
  }

  lemma WordAgree(m: seq<Byte>, p: nat, q: nat)
    requires p + 8 <= |m| && q + 8 <= |m|
    ensures var d := Xor64(ReadArch(m, q), ReadArch(m, p));
            if d == 0 then Agree(m, p, q, 8)
            else var k := NbCommonBytes(d); k < 8 && Agree(m, p, q, k) && m[p + k] != m[q + k]
  {
    hide NbCommonBytes, ReadArch, Xor64;
    WordCompare(m, q, p);
  }

  lemma StopsAt(m: seq<Byte>, p: nat, q: nat, limit: nat, n: nat)
    requires p + n < limit <= |m| && q + (limit - p) <= |m| && Agree(m, p, q, n) && m[p + n] != m[q + n]
    ensures Common(m, p, q, limit) == n
  {
    CommonIs(m, p, q, limit, n);
  }

  lemma CommonLengthIs(m: seq<Byte>, p: nat, q: nat, limit: nat, n: nat)
    requires CommonLength(m, p, q, limit, n)
    ensures Common(m, p, q, limit) == n
  {
    CommonIs(m, p, q, limit, n);
  }

  lemma CommonNone(m: seq<Byte>, p: nat, q: nat, limit: int)
    ensures p <= |m| && q <= |m| ==> Agree(m, p, q, 0)
    ensures p >= limit ==> Common(m, p, q, limit) == 0
  {
  }

  /** The last bytes before the limit, four, two and one at a time. */
  method CountTail(m: seq<Byte>, pIn: nat, pMatch: nat, limit: int, i0: nat) returns (n: nat)
    requires limit <= |m| && pMatch + (limit - pIn) <= |m| && limit < pIn + i0 + 8
    requires pIn < limit ==> pIn + i0 <= limit && Agree(m, pIn, pMatch, i0)
    requires pIn >= limit ==> i0 == 0
    ensures if pIn < limit then CommonLength(m, pIn, pMatch, limit, n) else n == 0
  {
    hide Agree, Common;
    n := i0;
    if pIn + n + 3 < limit && Same4(m, pMatch + n, pIn + n) {
      AgreeTwo(m, pIn, pMatch, n);
      AgreeTwo(m, pIn, pMatch, n + 2);
      n := n + 4;
    }
    if pIn + n + 1 < limit && Same2(m, pMatch + n, pIn + n) {
      AgreeTwo(m, pIn, pMatch, n);
      n := n + 2;
    }
    if pIn + n < limit && m[pMatch + n] == m[pIn + n] {
      AgreeOne(m, pIn, pMatch, n);
      n := n + 1;
    }
  }
}
