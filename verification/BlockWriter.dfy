/**
 How LZ4_compress_generic lays a sequence down in the output buffer: token, length extensions,
 literals by eight-byte strides, offset, and match length with its four-byte fills.
 */
module BlockWriter {
  import opened Bytes
  import opened BlockFormat
  import opened Copies

  /** Bytes of 255 followed by the remainder are the extension of `n`. */
  lemma {:induction false} ExtBytesOf(w: seq<Byte>, n: nat)
    requires |w| == n / 255 + 1 && w[n / 255] == n % 255
    requires forall i :: 0 <= i < n / 255 ==> w[i] == 255
    ensures w == ExtBytes(n)
    decreases n
  {
    if n < 255 {
      assert w == [w[0]];
    } else {
      var r := n - 255;
      assert r / 255 == n / 255 - 1 && r % 255 == n % 255;
      ExtBytesOf(w[1..], r);
      assert w == [w[0]] + w[1..];
    }
  }

  /** The length extension of a literal run, one byte at a time. */
  method WriteExt(dst: array<Byte>, op0: nat, n: nat) returns (op: nat)
    requires op0 + n / 255 + 1 <= dst.Length
    modifies dst
    ensures op == op0 + n / 255 + 1
    ensures SameOutside(dst[..], old(dst[..]), op0, op)
    ensures dst[op0..op] == ExtBytes(n)
  {
    op := op0;
    var len := n;
    while len >= 255
      invariant op0 <= op && len >= 0 && n == len + 255 * (op - op0)
      invariant SameOutside(dst[..], old(dst[..]), op0, op)
      invariant forall i :: op0 <= i < op ==> dst[i] == 255
    {
      dst[op] := 255;
      op := op + 1;
      len := len - 255;
    }
    dst[op] := len;
    op := op + 1;
    ExtBytesOf(dst[op0..op], n);
  }

  method Fill4(dst: array<Byte>, op: nat)
    requires op + 4 <= dst.Length
    modifies dst
    ensures SameOutside(dst[..], old(dst[..]), op, op + 4)
    ensures dst[op] == 255 && dst[op + 1] == 255 && dst[op + 2] == 255 && dst[op + 3] == 255
  {
    dst[op], dst[op + 1], dst[op + 2], dst[op + 3] := 255, 255, 255, 255;
  }

  /** The length extension of a match: filled four bytes at a time, at most three past its end. */
  method WriteMatchExt(dst: array<Byte>, op0: nat, n: nat) returns (op: nat)
    requires op0 + n / 255 + 4 <= dst.Length
    modifies dst
    ensures op == op0 + n / 255 + 1
    ensures SameOutside(dst[..], old(dst[..]), op0, op + 3)
    ensures dst[op0..op] == ExtBytes(n)
  {
    op := op0;
    var code := n;
    Fill4(dst, op);
    while code >= 4 * 255
      invariant op0 <= op && code >= 0 && n == code + 255 * (op - op0)
      invariant op + 4 <= dst.Length
      invariant SameOutside(dst[..], old(dst[..]), op0, op + 4)
      invariant forall i :: op0 <= i < op + 4 ==> dst[i] == 255
    {
      op := op + 4;
      code := code - 4 * 255;
      Fill4(dst, op);
    }
    op := op + code / 255;
    dst[op] := code % 255;
    op := op + 1;
    ExtBytesOf(dst[op0..op], n);
  }

  /** The token of a literal run and its extension, with the match nibble left at zero. */
  method WriteRun(dst: array<Byte>, op0: nat, run: nat) returns (op: nat)
    requires op0 + 1 + (run + 240) / 255 <= dst.Length
    modifies dst
    ensures op == op0 + 1 + (run + 240) / 255
    ensures SameOutside(dst[..], old(dst[..]), op0, op)
    ensures dst[op0..op] == [Token(run, 0)] + RunExt(run)
  {
    if run >= 15 {
      dst[op0] := 240;
      ghost var m := dst[..];
      op := WriteExt(dst, op0 + 1, run - 15);
      assert dst[op0] == dst[..][op0] == m[op0];
      assert dst[op0..op] == [dst[op0]] + dst[op0 + 1..op];
    } else {
      dst[op0] := run * 16;
      op := op0 + 1;
      assert dst[op0..op] == [dst[op0]];
    }
  }

  /** How far an eight-byte stride may write past `run` bytes. */
  function Overshoot(run: nat): nat { if run == 0 then 8 else 7 }

  /** Literals before a match: the copy may write past their end. */
  method WriteLits(dst: array<Byte>, op0: nat, mem: seq<Byte>, anchor: nat, run: nat) returns (op: nat)
    requires op0 + 1 + (run + 240) / 255 + run + Overshoot(run) <= dst.Length && anchor + run + 8 <= |mem|
    modifies dst
    ensures op == op0 + 1 + (run + 240) / 255 + run
    ensures SameOutside(dst[..], old(dst[..]), op0, op + Overshoot(run))
    ensures dst[op0..op] == EncodeLits(mem[anchor..anchor + run], 0)
  {
    op := WriteRun(dst, op0, run);
    ghost var m := dst[..];
    WildCopyIn(dst, op, mem, anchor, op + run, 8);
    SameSlice(dst[..], m, op, op + Span(op, op + run, 8), op0, op);
    op := op + run;
    assert dst[op0..op] == dst[op0..op - run] + dst[op - run..op];
  }

  /** The last literals of the block. */
  method WriteLast(dst: array<Byte>, op0: nat, mem: seq<Byte>, anchor: nat, run: nat) returns (op: nat)
    requires op0 + 1 + (run + 240) / 255 + run <= dst.Length && anchor + run <= |mem|
    modifies dst
    ensures op == op0 + 1 + (run + 240) / 255 + run
    ensures SameOutside(dst[..], old(dst[..]), op0, op)
    ensures dst[op0..op] == EncodeLits(mem[anchor..anchor + run], 0)
  {
    op := WriteRun(dst, op0, run);
    ghost var m := dst[..];
    CopyIn(dst, op, mem, anchor, run);
    SameSlice(dst[..], m, op, op + run, op0, op);
    op := op + run;
    assert dst[op0..op] == dst[op0..op - run] + dst[op - run..op];
  }

  method WriteOffset(dst: array<Byte>, op: nat, offset: nat)
    requires op + 2 <= dst.Length
    modifies dst
    ensures SameOutside(dst[..], old(dst[..]), op, op + 2)
    ensures dst[op..op + 2] == OffsetBytes(offset)
  {
    dst[op], dst[op + 1] := offset % 256, offset / 256 % 256;
    assert dst[op..op + 2] == [dst[op], dst[op + 1]];
  }

  /** The match length, in the token and after the offset: completes the sequence that starts at `token`. */
  method WriteCode(dst: array<Byte>, token: nat, op0: nat, ghost lits: seq<Byte>, ghost offset: nat, code: nat)
    returns (op: nat)
    requires op0 + (code + 240) / 255 + 3 <= dst.Length
    requires token + |EncodeLits(lits, 0)| + 2 == op0
    requires dst[token..op0] == EncodeLits(lits, 0) + OffsetBytes(offset)
    modifies dst
    ensures op == op0 + (code + 240) / 255
    ensures SameOutside(dst[..], old(dst[..]), token, op + 3)
    ensures dst[token..op] == EncodeSeq(Sequence(lits, offset, code))
  {
    hide OffsetBytes, RunExt;
    ghost var w := dst[token..op0];
    assert dst[token] == w[0] == Token(|lits|, 0);
    if code >= 15 {
      dst[token] := dst[token] + 15;
      ghost var m := dst[..];
      op := WriteMatchExt(dst, op0, code - 15);
      SameSlice(dst[..], m, op0, op + 3, token, op0);
    } else {
      dst[token] := dst[token] + code;
      op := op0;
    }
    TokenPatched(dst[token..op0], lits, offset, code);
    MatchExtOf(dst[..], op0, op, code);
    assert dst[token..op] == dst[token..op0] + dst[op0..op];
  }

  lemma TokenPatched(w: seq<Byte>, lits: seq<Byte>, offset: nat, code: nat)
    requires |w| == |EncodeLits(lits, 0)| + 2 && w[0] == Token(|lits|, 0) + Nibble(code)
    requires w[1..] == (EncodeLits(lits, 0) + OffsetBytes(offset))[1..]
    ensures w == EncodeLits(lits, code) + OffsetBytes(offset)
  {
    hide OffsetBytes, RunExt;
    assert w == [w[0]] + w[1..];
    assert EncodeLits(lits, 0)[1..] == RunExt(|lits|) + lits;
    assert EncodeLits(lits, code)[1..] == RunExt(|lits|) + lits;
    assert (EncodeLits(lits, 0) + OffsetBytes(offset))[1..] == EncodeLits(lits, 0)[1..] + OffsetBytes(offset);
    assert (EncodeLits(lits, code) + OffsetBytes(offset))[1..] == EncodeLits(lits, code)[1..] + OffsetBytes(offset);
  }

  lemma MatchExtOf(m: seq<Byte>, op0: nat, op: nat, code: nat)
    requires op0 <= op <= |m|
    requires if code >= 15 then m[op0..op] == ExtBytes(code - 15) else op == op0
    ensures m[op0..op] == RunExt(code)
  {
  }
}
