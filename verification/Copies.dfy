/**
 The copy primitives of the LZ4 decoder, over one flat memory indexed by address.
 Copies of a fixed stride may write past the requested end; every contract says exactly
 which cells change, and that the copied cells carry the period of a byte-at-a-time copy.
 */
module Copies {
  import opened Bytes

  /** The most a do-while copy of stride `w` from `d` until `e` can write. */
  function Span(d: int, e: int, w: nat): (n: nat)
    requires w > 0
    ensures n >= e - d
  {
    if e <= d then w else e - d + w - 1
  }

  /** Every cell in [from, to) repeats the cell `offset` places before it. */
  ghost predicate Periodic(m: seq<Byte>, from: nat, to: nat, offset: nat) {
    offset <= from && to <= |m| && forall k :: from <= k < to ==> m[k] == m[k - offset]
  }

  /** `m` and `n` agree everywhere outside [from, to). */
  ghost predicate SameOutside(m: seq<Byte>, n: seq<Byte>, from: int, to: int) {
    |m| == |n| && forall k :: 0 <= k < |m| && !(from <= k < to) ==> m[k] == n[k]
  }

  lemma SameSlice(m: seq<Byte>, n: seq<Byte>, from: int, to: int, a: nat, b: nat)
    requires SameOutside(m, n, from, to)
    requires a <= b <= |m| && (b <= from || to <= a)
    ensures m[a..b] == n[a..b]
  {
  }

  method MemCopy(mem: array<Byte>, d: nat, s: nat, n: nat)
    requires d + n <= mem.Length && s + n <= mem.Length
    modifies mem
    ensures SameOutside(mem[..], old(mem[..]), d, d + n)
    ensures mem[d..d + n] == old(mem[s..s + n])
  {
    forall k | 0 <= k < n { mem[d + k] := mem[s + k]; }
  }

  /** memcpy from an input buffer. */
  method CopyIn(mem: array<Byte>, d: nat, src: seq<Byte>, s: nat, n: nat)
    requires d + n <= mem.Length && s + n <= |src|
    modifies mem
    ensures SameOutside(mem[..], old(mem[..]), d, d + n)
    ensures mem[d..d + n] == src[s..s + n]
  {
    forall k | 0 <= k < n { mem[d + k] := src[s + k]; }
  }

  /** LZ4_wildCopy8 and LZ4_wildCopy32 from the compressed input. */
  method WildCopyIn(mem: array<Byte>, d: nat, src: seq<Byte>, s: nat, e: nat, w: nat)
    requires w > 0 && d <= e
    requires d + Span(d, e, w) <= mem.Length && s + Span(d, e, w) <= |src|
    modifies mem
    ensures SameOutside(mem[..], old(mem[..]), d, d + Span(d, e, w))
    ensures mem[d..e] == src[s..s + (e - d)]
  {
    CopyIn(mem, d, src, s, w);
    var i := w;
    while d + i < e
      invariant w <= i <= Span(d, e, w)
      invariant SameOutside(mem[..], old(mem[..]), d, d + i)
      invariant mem[d..d + i] == src[s..s + i]
    {
      ExtendIn(mem, d, src, s, i, w);
      i := i + w;
    }
    assert mem[d..e] == mem[d..d + i][..e - d] && src[s..s + (e - d)] == src[s..s + i][..e - d];
  }

  /** Copies `n` more bytes after the first `i`. */
  method ExtendIn(mem: array<Byte>, d: nat, src: seq<Byte>, s: nat, i: nat, n: nat)
    requires d + i + n <= mem.Length && s + i + n <= |src|
    requires mem[d..d + i] == src[s..s + i]
    modifies mem
    ensures SameOutside(mem[..], old(mem[..]), d + i, d + i + n)
    ensures mem[d..d + (i + n)] == src[s..s + (i + n)]
  {
    ghost var m := mem[..];
    CopyIn(mem, d + i, src, s + i, n);
    SameSlice(mem[..], m, d + i, d + i + n, d, d + i);
    assert mem[d..d + (i + n)] == mem[d..d + i] + mem[d + i..d + i + n];
    assert src[s..s + (i + n)] == src[s..s + i] + src[s + i..s + i + n];
  }

  // ----- Copies within the memory -----

  /** A copy of `n` cells from `dist` back, when the source does not overlap the target, is periodic. */
  lemma CopyIsPeriodic(m: seq<Byte>, old_: seq<Byte>, d: nat, dist: nat, n: nat)
    requires n <= dist <= d && d + n <= |m|
    requires SameOutside(m, old_, d, d + n) && m[d..d + n] == old_[d - dist..d - dist + n]
    ensures Periodic(m, d, d + n, dist)
  {
    forall k | d <= k < d + n
      ensures m[k] == m[k - dist]
    {
      assert m[k] == m[d..d + n][k - d] == old_[d - dist..d - dist + n][k - d];
    }
  }

  lemma PeriodicJoin(m: seq<Byte>, old_: seq<Byte>, a: nat, b: nat, c: nat, offset: nat)
    requires a <= b <= c && SameOutside(m, old_, b, |m|)
    requires Periodic(old_, a, b, offset) && Periodic(m, b, c, offset)
    ensures Periodic(m, a, c, offset)
  {
  }

  /** Copies `n` cells from `dist` back, extending the periodic run that starts at `from`. */
  method ExtendPeriodic(mem: array<Byte>, ghost from: nat, d: nat, dist: nat, n: nat)
    requires from <= d && n <= dist <= from && d + n <= mem.Length
    requires Periodic(mem[..], from, d, dist)
    modifies mem
    ensures SameOutside(mem[..], old(mem[..]), d, d + n)
    ensures Periodic(mem[..], from, d + n, dist)
  {
    ghost var m := mem[..];
    MemCopy(mem, d, d - dist, n);
    CopyIsPeriodic(mem[..], m, d, dist, n);
    PeriodicJoin(mem[..], m, from, d, d + n, dist);
  }

  /** LZ4_wildCopy8 within the memory: the source is at least a stride behind. */
  method WildCopy8(mem: array<Byte>, d: nat, s: nat, e: nat)
    requires s + 8 <= d && d + Span(d, e, 8) <= mem.Length
    modifies mem
    ensures SameOutside(mem[..], old(mem[..]), d, d + Span(d, e, 8))
    ensures Periodic(mem[..], d, e, d - s)
  {
    ExtendPeriodic(mem, d, d, d - s, 8);
    var i := 8;
    while d + i < e
      invariant 8 <= i <= Span(d, e, 8)
      invariant SameOutside(mem[..], old(mem[..]), d, d + i)
      invariant Periodic(mem[..], d, d + i, d - s)
    {
      ExtendPeriodic(mem, d, d + i, d - s, 8);
      i := i + 8;
    }
  }

  /** LZ4_wildCopy32: two 16-byte copies a turn, so that a distance of 16 is enough. */
  method WildCopy32(mem: array<Byte>, d: nat, s: nat, e: nat)
    requires s + 16 <= d && d + Span(d, e, 32) <= mem.Length
    modifies mem
    ensures SameOutside(mem[..], old(mem[..]), d, d + Span(d, e, 32))
    ensures Periodic(mem[..], d, e, d - s)
  {
    ExtendPeriodic(mem, d, d, d - s, 16);
    ExtendPeriodic(mem, d, d + 16, d - s, 16);
    var i := 32;
    while d + i < e
      invariant 32 <= i <= Span(d, e, 32)
      invariant SameOutside(mem[..], old(mem[..]), d, d + i)
      invariant Periodic(mem[..], d, d + i, d - s)
    {
      ExtendPeriodic(mem, d, d + i, d - s, 16);
      ExtendPeriodic(mem, d, d + i + 16, d - s, 16);
      i := i + 32;
    }
  }

  /** A byte-at-a-time copy of `n` cells, overlap allowed. */
  method ByteCopy(mem: array<Byte>, d: nat, s: nat, n: nat)
    requires s <= d && d + n <= mem.Length
    modifies mem
    ensures SameOutside(mem[..], old(mem[..]), d, d + n)
    ensures Periodic(mem[..], d, d + n, d - s)
  {
    var i := 0;
    while i < n
      invariant 0 <= i <= n
      invariant SameOutside(mem[..], old(mem[..]), d, d + i)
      invariant Periodic(mem[..], d, d + i, d - s)
    {
      mem[d + i] := mem[s + i];
      i := i + 1;
    }
  }

  // ----- Short offsets -----

  const inc32table: seq<int> := [0, 1, 2, 1, 0, 4, 4, 4]
  const dec64table: seq<int> := [0, 0, 0, -1, -4, 1, 2, 3]

  /** Following `steps` periods back stays on equal cells. */
  lemma {:induction false} PeriodicBack(m: seq<Byte>, from: nat, to: nat, offset: nat, k: nat, steps: nat)
    requires 1 <= offset && Periodic(m, from, to, offset)
    requires k < to && steps * offset <= k && (steps > 0 ==> from + (steps - 1) * offset <= k)
    ensures m[k] == m[k - steps * offset]
    decreases steps
  {
    if steps > 0 {
      assert (steps - 1) * offset == steps * offset - offset;
      assert steps > 1 ==> (steps - 2) * offset == (steps - 1) * offset - offset;
      if steps == 1 {
        assert m[k] == m[k - offset];
      } else {
        assert 1 * offset <= (steps - 1) * offset;
        PeriodicBack(m, from, to, offset, k - offset, steps - 1);
      }
    }
  }

  /**
   Eight cells of period `offset` followed by cells of period `dist`, a multiple of `offset`
   that reaches back to no more than `offset` before the start, all have period `offset`.
   */
  lemma {:induction false} MultiplePeriod(m: seq<Byte>, d: nat, e: nat, offset: nat, dist: nat, steps: nat)
    requires 1 <= offset && dist == steps * offset && 8 <= dist <= offset + 7 && dist <= d + 8
    requires d + 8 <= e && Periodic(m, d, d + 8, offset) && Periodic(m, d + 8, e, dist)
    ensures Periodic(m, d, e, offset)
    decreases e
  {
    if e > d + 8 {
      MultiplePeriod(m, d, e - 1, offset, dist, steps);
      assert (steps - 1) * offset == dist - offset;
      assert steps > 1 ==> (steps - 2) * offset == dist - offset - offset;
      PeriodicBack(m, d, e - 1, offset, e - 1 - offset, steps - 1);
    }
  }

  /**
   The first eight bytes of a match at a short offset (lz4.c's inc32table and dec64table):
   four single bytes, then four more from an adjusted source. The source it leaves behind is
   at least eight bytes back and, for a proper offset, a whole number of offsets away.
   */
  method OverlapStart(mem: array<Byte>, op: nat, offset: nat) returns (from: nat, ghost steps: nat)
    requires offset < 8 && offset <= op && op + 8 <= mem.Length
    modifies mem
    ensures SameOutside(mem[..], old(mem[..]), op, op + 8)
    ensures Periodic(mem[..], op, op + 8, offset)
    ensures from <= op
    ensures offset >= 1 ==> op + 8 - from == steps * offset && op + 8 - from <= offset + 7
  {
    hide Periodic;
    OverlapTables(offset);
    mem[op], mem[op + 1], mem[op + 2], mem[op + 3] := 0, 0, 0, 0;
    from := op - offset;
    ByteCopy(mem, op, from, 4);
    ghost var m := mem[..];
    from := from + inc32table[offset];
    MemCopy(mem, op + 4, from, 4);
    if offset >= 1 {
      OverlapSecondHalf(mem[..], m, op, offset);
    } else {
      PeriodZero(mem[..], op, op + 8);
    }
    from := from - dec64table[offset];
    steps := Steps(offset);
  }

  function Steps(offset: nat): nat {
    if offset == 1 then 8 else if offset == 2 then 4 else if offset == 3 then 3 else 2
  }

  lemma PeriodZero(m: seq<Byte>, from: nat, to: nat)
    requires to <= |m|
    ensures Periodic(m, from, to, 0)
  {
  }

  /** The adjusted source is a whole number of offsets, and at least eight bytes, behind. */
  lemma OverlapTables(offset: nat)
    requires offset < 8
    ensures 0 <= inc32table[offset] <= 4 && (offset >= 1 ==> inc32table[offset] <= offset)
    ensures var dist := offset + 8 - inc32table[offset] + dec64table[offset];
            && 8 <= dist <= offset + 8
            && (offset >= 1 ==> dist == Steps(offset) * offset && dist <= offset + 7)
    ensures offset == 0 ==> inc32table[offset] == 0
  {
    if offset == 1 {
    } else if offset == 2 {
    } else if offset == 3 {
    } else if offset == 4 {
    } else if offset == 5 {
    } else if offset == 6 {
    }
  }

  lemma OverlapSecondHalf(m: seq<Byte>, before: seq<Byte>, op: nat, offset: nat)
    requires 1 <= offset < 8 && offset <= op && op + 8 <= |m|
    requires SameOutside(m, before, op + 4, op + 8) && Periodic(before, op, op + 4, offset)
    requires var s := op - offset + inc32table[offset]; m[op + 4..op + 8] == before[s..s + 4]
    ensures Periodic(m, op, op + 8, offset)
  {
    var s := op - offset + inc32table[offset];
    var w := m[op + 4..op + 8];
    assert m[op + 4] == w[0] == before[s] && m[op + 5] == w[1] == before[s + 1];
    assert m[op + 6] == w[2] == before[s + 2] && m[op + 7] == w[3] == before[s + 3];
    assert before[op] == before[op - offset] && before[op + 1] == before[op + 1 - offset];
    assert before[op + 2] == before[op + 2 - offset] && before[op + 3] == before[op + 3 - offset];
    forall k | op <= k < op + 8
      ensures m[k] == m[k - offset]
    {
      if k < op + 4 {
      } else if offset == 1 { assert m[k] == m[op];
      } else if offset == 2 {
      } else if offset == 3 {
      }
    }
  }

  /** LZ4_memcpy_using_offset_base. */
  method CopyUsingOffsetBase(mem: array<Byte>, op: nat, offset: nat, end: nat)
    requires offset <= op <= end && end + 16 <= mem.Length
    modifies mem
    ensures SameOutside(mem[..], old(mem[..]), op, end + 16)
    ensures offset >= 1 ==> Periodic(mem[..], op, end, offset)
  {
    var from: nat;
    ghost var steps;
    if offset < 8 {
      from, steps := OverlapStart(mem, op, offset);
    } else {
      ExtendPeriodic(mem, op, op, offset, 8);
      from, steps := op - offset + 8, 1;
    }
    ghost var m := mem[..];
    WildCopy8(mem, op + 8, from, if end < op + 8 then op + 8 else end);
    if offset >= 1 {
      TwoPeriods(mem[..], m, op, end, offset, op + 8 - from, steps);
    }
  }

  /** After the first eight bytes, a copy at a multiple of the offset completes the same period. */
  lemma TwoPeriods(m: seq<Byte>, before: seq<Byte>, op: nat, end: nat, offset: nat, dist: nat, steps: nat)
    requires 1 <= offset <= op <= end && op + 8 <= |m|
    requires Periodic(before, op, op + 8, offset) && SameOutside(m, before, op + 8, |m|)
    requires Periodic(m, op + 8, if end < op + 8 then op + 8 else end, dist)
    requires dist == steps * offset && 8 <= dist <= op + 8 && (dist <= offset + 7 || dist == offset)
    ensures Periodic(m, op, end, offset)
  {
    assert Periodic(m, op, op + 8, offset);
    if end > op + 8 && dist != offset {
      MultiplePeriod(m, op, end, offset, dist, steps);
    }
  }

  /** LZ4_memcpy_using_offset: offsets 1, 2 and 4 repeat an eight-byte pattern. */
  method CopyUsingOffset(mem: array<Byte>, op: nat, offset: nat, end: nat)
    requires offset <= op <= end && end + 16 <= mem.Length
    modifies mem
    ensures SameOutside(mem[..], old(mem[..]), op, end + 16)
    ensures offset >= 1 ==> Periodic(mem[..], op, end, offset)
  {
    mem[op], mem[op + 1], mem[op + 2], mem[op + 3] := 0, 0, 0, 0;
    if offset == 1 || offset == 2 || offset == 4 {
      var w := mem[op - offset..op];
      var v := if offset == 1 then w + w + w + w + w + w + w + w else if offset == 2 then w + w + w + w else w + w;
      PatternCopy(mem, op, offset, end, v);
    } else {
      CopyUsingOffsetBase(mem, op, offset, end);
    }
  }

  method PatternCopy(mem: array<Byte>, op: nat, offset: nat, end: nat, v: seq<Byte>)
    requires offset == 1 || offset == 2 || offset == 4
    requires offset <= op <= end && end + 16 <= mem.Length
    requires |v| == 8 && v[..offset] == mem[op - offset..op] && forall k :: offset <= k < 8 ==> v[k] == v[k - offset]
    modifies mem
    ensures SameOutside(mem[..], old(mem[..]), op, end + 16)
    ensures Periodic(mem[..], op, end, offset)
  {
    CopyIn(mem, op, v, 0, 8);
    PatternStart(mem[..], old(mem[..]), op, offset, v);
    ghost var m := mem[..];
    var i := 8;
    while op + i < end
      invariant 8 <= i <= end - op + 8
      invariant SameOutside(mem[..], m, op + 8, op + i)
      invariant mem[op + i - 8..op + i] == v
      invariant Periodic(mem[..], op + 8, op + i, 8)
    {
      ghost var m' := mem[..];
      CopyIn(mem, op + i, v, 0, 8);
      CopyIsPeriodic(mem[..], m', op + i, 8, 8);
      i := i + 8;
    }
    TwoPeriods(mem[..], m, op, end, offset, 8, 8 / offset);
  }

  lemma PatternStart(m: seq<Byte>, before: seq<Byte>, op: nat, offset: nat, v: seq<Byte>)
    requires 1 <= offset <= op && op + 8 <= |m| && |v| == 8 && offset <= 8
    requires SameOutside(m, before, op, op + 8) && m[op..op + 8] == v
    requires v[..offset] == before[op - offset..op] && forall k :: offset <= k < 8 ==> v[k] == v[k - offset]
    ensures Periodic(m, op, op + 8, offset)
  {
    forall k | op <= k < op + 8
      ensures m[k] == m[k - offset]
    {
      assert m[k] == m[op..op + 8][k - op] == v[k - op];
      if k < op + offset {
        assert v[k - op] == v[..offset][k - op] == before[op - offset..op][k - op];
      } else {
        assert m[k - offset] == m[op..op + 8][k - op - offset];
      }
    }
  }

  /** The match copy of the fast loop, for a match that lies within the block. */
  method FastCopy(mem: array<Byte>, op: nat, offset: nat, end: nat)
    requires offset <= op <= end && end + 32 <= mem.Length
    modifies mem
    ensures SameOutside(mem[..], old(mem[..]), op, end + 32)
    ensures offset >= 1 ==> Periodic(mem[..], op, end, offset)
  {
    if offset < 16 {
      CopyUsingOffset(mem, op, offset, end);
    } else {
      WildCopy32(mem, op, op - offset, end);
    }
  }

  /**
   The match copy of the safe loop, for a match that lies within the block: it may write
   anywhere up to `oend`, and refuses a match that reaches into the last five bytes.
   */
  method SafeCopy(mem: array<Byte>, op: nat, offset: nat, length: nat, oend: nat) returns (ok: bool)
    requires offset <= op && op + 12 <= oend <= mem.Length && length >= 4
    modifies mem
    ensures SameOutside(mem[..], old(mem[..]), op, oend)
    ensures ok <==> op + length + 5 <= oend
    ensures ok && offset >= 1 ==> Periodic(mem[..], op, op + length, offset)
  {
    var cpy := op + length;
    var from: nat;
    ghost var steps;
    if offset < 8 {
      from, steps := OverlapStart(mem, op, offset);
    } else {
      ExtendPeriodic(mem, op, op, offset, 8);
      from, steps := op - offset + 8, 1;
    }
    ghost var m := mem[..];
    ok := cpy + 5 <= oend;
    if ok {
      SafeCopyRest(mem, op, op + 8 - from, cpy, oend);
      if offset >= 1 {
        TwoPeriods(mem[..], m, op, cpy, offset, op + 8 - from, steps);
      }
    }
  }

  method SafeCopyRest(mem: array<Byte>, op: nat, dist: nat, cpy: nat, oend: nat)
    requires 8 <= dist <= op + 8 && op + 4 <= cpy && cpy + 5 <= oend <= mem.Length
    requires op + 12 <= oend
    modifies mem
    ensures SameOutside(mem[..], old(mem[..]), op + 8, oend)
    ensures Periodic(mem[..], op + 8, if cpy < op + 8 then op + 8 else cpy, dist)
  {
    if cpy > oend - 12 {
      var limit := oend - 7;
      var at := op + 8;
      if at < limit {
        WildCopy8(mem, at, at - dist, limit);
        at := limit;
      }
      if at < cpy {
        ghost var m := mem[..];
        ByteCopy(mem, at, at - dist, cpy - at);
        PeriodicJoin(mem[..], m, op + 8, at, cpy, dist);
      }
    } else {
      ExtendPeriodic(mem, op + 8, op + 8, dist, 8);
      if cpy - op > 16 {
        ghost var m := mem[..];
        WildCopy8(mem, op + 16, op + 16 - dist, cpy);
        PeriodicJoin(mem[..], m, op + 8, op + 16, cpy, dist);
      }
    }
  }
}
