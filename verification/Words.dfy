/** 64-bit machine words as eight bytes, lowest first, as a little-endian machine loads them. */
module Words {

  function Xor8(a: bv8, b: bv8): bv8 { a ^ b }

  function Xor64(x: bv64, y: bv64): bv64 { x ^ y }

  function Low64(x: bv64): bv8 { (x & 0xff) as bv8 }

  function Shr64(x: bv64): bv64 { x >> 8 }

  function ByteAt(x: bv64, k: nat): bv8
    decreases k
  {
    if k == 0 then Low64(x) else ByteAt(Shr64(x), k - 1)
  }

  function Word8(b0: bv8, b1: bv8, b2: bv8, b3: bv8, b4: bv8, b5: bv8, b6: bv8, b7: bv8): bv64 {
    b0 as bv64 | (b1 as bv64 << 8) | (b2 as bv64 << 16) | (b3 as bv64 << 24)
    | (b4 as bv64 << 32) | (b5 as bv64 << 40) | (b6 as bv64 << 48) | (b7 as bv64 << 56)
  }

  function Pick(b0: bv8, b1: bv8, b2: bv8, b3: bv8, b4: bv8, b5: bv8, b6: bv8, b7: bv8, k: nat): bv8 {
    if k == 0 then b0 else if k == 1 then b1 else if k == 2 then b2 else if k == 3 then b3
    else if k == 4 then b4 else if k == 5 then b5 else if k == 6 then b6 else if k == 7 then b7 else 0
  }

  lemma WordShift(b0: bv8, b1: bv8, b2: bv8, b3: bv8, b4: bv8, b5: bv8, b6: bv8, b7: bv8)
    ensures Low64(Word8(b0, b1, b2, b3, b4, b5, b6, b7)) == b0
    ensures Shr64(Word8(b0, b1, b2, b3, b4, b5, b6, b7)) == Word8(b1, b2, b3, b4, b5, b6, b7, 0)
  {
  }

  lemma PickShift(b0: bv8, b1: bv8, b2: bv8, b3: bv8, b4: bv8, b5: bv8, b6: bv8, b7: bv8, k: nat)
    ensures k == 0 ==> Pick(b0, b1, b2, b3, b4, b5, b6, b7, k) == b0
    ensures k > 0 ==> Pick(b0, b1, b2, b3, b4, b5, b6, b7, k) == Pick(b1, b2, b3, b4, b5, b6, b7, 0, k - 1)
  {
  }

  lemma ByteAtShift(x: bv64, k: nat)
    ensures ByteAt(x, 0) == Low64(x)
    ensures k > 0 ==> ByteAt(x, k) == ByteAt(Shr64(x), k - 1)
  {
  }

  /** A word holds the bytes it was made of. */
  lemma {:induction false} ByteAtWord(b0: bv8, b1: bv8, b2: bv8, b3: bv8, b4: bv8, b5: bv8, b6: bv8, b7: bv8, k: nat)
    ensures ByteAt(Word8(b0, b1, b2, b3, b4, b5, b6, b7), k) == Pick(b0, b1, b2, b3, b4, b5, b6, b7, k)
    decreases k
  {
    hide *;
    WordShift(b0, b1, b2, b3, b4, b5, b6, b7);
    PickShift(b0, b1, b2, b3, b4, b5, b6, b7, k);
    ByteAtShift(Word8(b0, b1, b2, b3, b4, b5, b6, b7), k);
    if k > 0 { ByteAtWord(b1, b2, b3, b4, b5, b6, b7, 0, k - 1); }
  }

  lemma XorShift(x: bv64, y: bv64)
    ensures Shr64(Xor64(x, y)) == Xor64(Shr64(x), Shr64(y))
    ensures Low64(Xor64(x, y)) == Xor8(Low64(x), Low64(y))
  {
  }

  /** Exclusive or acts byte by byte. */
  lemma {:induction false} ByteAtXor(x: bv64, y: bv64, k: nat)
    ensures ByteAt(Xor64(x, y), k) == Xor8(ByteAt(x, k), ByteAt(y, k))
    decreases k
  {
    hide *;
    XorShift(x, y);
    ByteAtShift(x, k);
    ByteAtShift(y, k);
    ByteAtShift(Xor64(x, y), k);
    if k > 0 { ByteAtXor(Shr64(x), Shr64(y), k - 1); }
  }

  lemma Xor8Zero(a: bv8, b: bv8)
    ensures Xor8(a, b) == 0 <==> a == b
  {
  }
}
