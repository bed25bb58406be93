/** A whole run of linked blocks: compressed one after the other, and decoded two ways. */
module LinkedBlocks {
  import opened Bytes
  import opened BlockFormat
  import opened Copies
  import opened MatchSearch
  import opened BlockEncoder
  import opened BlockApi
  import opened BlockStream
  import opened WrongMatches
  import Decoder = BlockDecoder

  /** A block of input, somewhere in memory. */
  datatype Piece = Piece(source: nat, n: nat)

  predicate PieceOk(mem: seq<Byte>, p: Piece) {
    0 < p.source && p.source + p.n <= |mem| && p.n <= MAX_INPUT_SIZE
  }

  function Content(mem: seq<Byte>, p: Piece): seq<Byte>
    requires PieceOk(mem, p)
  {
    mem[p.source..p.source + p.n]
  }

  /** The pieces one after the other. */
  function Concat(mem: seq<Byte>, pieces: seq<Piece>): seq<Byte>
    requires forall p <- pieces :: PieceOk(mem, p)
  {
    if pieces == [] then []
    else Concat(mem, pieces[..|pieces| - 1]) + Content(mem, pieces[|pieces| - 1])
  }

  lemma {:induction false} ConcatPrefix(mem: seq<Byte>, pieces: seq<Piece>, i: nat)
    requires (forall p <- pieces :: PieceOk(mem, p)) && i <= |pieces|
    ensures |Concat(mem, pieces[..i])| <= |Concat(mem, pieces)|
    ensures i < |pieces| ==> Concat(mem, pieces[..i + 1]) == Concat(mem, pieces[..i]) + Content(mem, pieces[i])
    decreases |pieces| - i
  {
    if i < |pieces| {
      assert pieces[..i + 1][..i] == pieces[..i];
      ConcatPrefix(mem, pieces, i + 1);
    } else {
      assert pieces[..i] == pieces;
    }
  }

  /** Where the history of a stream lies after these pieces. */
  function After(pieces: seq<Piece>): Window {
    if pieces == [] then Window(0, 0, 0)
    else
      var p := pieces[|pieces| - 1];
      After(pieces[..|pieces| - 1]).Next(p.source, p.n)
  }

  /** No piece starts where the dictionary does and is long enough for a match to be miscounted. */
  predicate NoneRestarts(pieces: seq<Piece>) {
    forall i :: 0 <= i < |pieces| ==> !After(pieces[..i]).Restarts(pieces[i].source, pieces[i].n)
  }

  /**
   Blocks taken from anywhere in an unchanging memory, in any order and with any overlap, each
   compressed by LZ4_compress_fast_continue, come back one by one: decoded right after the earlier
   output, which then is their prefix, and decoded elsewhere with that output as external dictionary.
   The exception is a block that starts where the dictionary does, and is long enough for a match to be
   miscounted.
   */
  method RoundTrip(h: Hasher, mem: seq<Byte>, pieces: seq<Piece>, acceleration: int)
    returns (output: seq<Byte>, external: seq<seq<Byte>>)
    requires h.Ok() && Steady(acceleration) && (forall p <- pieces :: PieceOk(mem, p)) && NoneRestarts(pieces)
    ensures output == Concat(mem, pieces)
    ensures |external| == |pieces| && forall i :: 0 <= i < |pieces| ==> external[i] == Content(mem, pieces[i])
  {
    hide *;
    var stream := new Stream(h);
    var total := |Concat(mem, pieces)|;
    var out := new Byte[1 + 2 * total];
    var i := 0;
    external, output := [], [];
    StartInStep(stream, mem, out[..], pieces);
    while i < |pieces|
      invariant 0 <= i <= |pieces| && |external| == i && output == Concat(mem, pieces[..i]) && |output| <= total
      invariant fresh(stream) && fresh(stream.table) && fresh(out) && InStep(stream, mem, out[..], output)
      invariant stream.View() == After(pieces[..i])
      invariant forall j :: 0 <= j < i ==> external[j] == Content(mem, pieces[j])
    {
      NextPiece(mem, pieces, i);
      var near, far := StepBoth(stream, mem, out, output, pieces[i], 1 + total, acceleration);
      output, external, i := output + near, external + [far], i + 1;
    }
    assert pieces[..|pieces|] == pieces;
  }

  lemma StartInStep(stream: Stream, mem: seq<Byte>, out: seq<Byte>, pieces: seq<Piece>)
    requires stream.Valid() && stream.tableType.Cleared? && stream.history == [] && 1 <= |out|
    requires stream.dictionary == 0 && stream.dictSize == 0 && stream.currentOffset == 0
    ensures InStep(stream, mem, out, []) && stream.View() == After(pieces[..0]) && Concat(mem, pieces[..0]) == []
  {
    hide TableBefore;
    assert out[1..1] == [];
  }

  lemma NextPiece(mem: seq<Byte>, pieces: seq<Piece>, i: nat)
    requires i < |pieces| && (forall p <- pieces :: PieceOk(mem, p)) && NoneRestarts(pieces)
    ensures PieceOk(mem, pieces[i]) && !After(pieces[..i]).Restarts(pieces[i].source, pieces[i].n)
    ensures After(pieces[..i + 1]) == After(pieces[..i]).Next(pieces[i].source, pieces[i].n)
    ensures Concat(mem, pieces[..i + 1]) == Concat(mem, pieces[..i]) + Content(mem, pieces[i])
    ensures |Concat(mem, pieces[..i + 1])| <= |Concat(mem, pieces)| && |Content(mem, pieces[i])| == pieces[i].n
  {
    hide Window.Next, Window.Restarts, Concat;
    assert pieces[..i + 1][..i] == pieces[..i];
    ConcatPrefix(mem, pieces, i);
    ConcatPrefix(mem, pieces, i + 1);
  }

  /**
   The exception is real, whatever the hash: after a first block too short to enter any position, a longer
   one at the same place may start with a match that is miscounted, and then no way to go on decodes.
   */
  lemma RestartFails(stream: Stream, source: nat, d: nat, n: nat, src: seq<Byte>)
    requires stream.hasher.Ok() && 0 < source && 9 <= d < MIN_LENGTH && d + 7 <= n <= MAX_INPUT_SIZE
    requires stream.View() == After([Piece(source, d)]) && stream.table.Length == stream.hasher.slots
    requires forall h :: 0 <= h < stream.table.Length ==> stream.table[h] == 0
    ensures !NoneRestarts([Piece(source, d), Piece(source, n)])
    ensures var job := stream.LinkedJob(Marked(source, n, {0, d + 1}), source, n, 1);
            && job.Ok()
            && var t0 := stream.table[..][job.Slot(source) := job.Index(source)];
               var index := t0[job.Slot(source + 1) := job.Index(source + 1)][job.Slot(source + 2)];
               && !job.Hits(t0[job.Slot(source + 1)], source + 1) && job.Hits(index, source + 2)
               && !CanGoBack(job, source + 2, index, source) && Miscounted(job, source + 2, index)
               && var s := Sequence(job.mem[source..source + 2], job.Index(source + 2) - index,
                  Counted(job, source + 2, index));
                  (At(src, 0, EncodeSeq(s)) ==> !Decodes(src, job.Hist(), job.mem[source..job.End()]))
  {
    hide Miscounted, Counted, EncodeSeq, Decodes, At, Job.Ok, Job.Hits, Job.Slot, CanGoBack;
    FirstWindow(source, d);
    var pieces := [Piece(source, d), Piece(source, n)];
    assert pieces[..1] == [Piece(source, d)] && After(pieces[..1]).Restarts(pieces[1].source, pieces[1].n);
    MiscountTaken(source, n, d, stream.hasher.slots, stream.hasher.hash, stream.table[..], src);
  }

  lemma FirstWindow(source: nat, n: nat)
    requires 0 < source && n <= INDEX_MAX
    ensures After([Piece(source, n)]) == Window(source, n, n)
  {
    assert [Piece(source, n)][..0] == [];
  }

  /** The stream has seen `output`, and its decoded copy stands in `out` from address 1 on. */
  ghost predicate InStep(stream: Stream, mem: seq<Byte>, out: seq<Byte>, output: seq<Byte>)
    reads stream, stream.table
  {
    && stream.Valid() && !stream.tableType.ByU16? && stream.history == output
    && stream.Finds(mem, stream.dictSize)
    && 1 + |output| <= |out| && out[1..1 + |output|] == output
  }

  /** One block: compressed, then decoded elsewhere and in place. */
  method StepBoth(stream: Stream, mem: seq<Byte>, out: array<Byte>, output: seq<Byte>, p: Piece, scratch: nat,
                  acceleration: int)
    returns (near: seq<Byte>, far: seq<Byte>)
    requires PieceOk(mem, p) && InStep(stream, mem, out[..], output) && Steady(acceleration)
    requires 1 + |output| + p.n <= scratch && scratch + p.n <= out.Length && !stream.View().Restarts(p.source, p.n)
    modifies stream, stream.table, out
    ensures stream.View() == old(stream.View()).Next(p.source, p.n)
    ensures near == far == Content(mem, p)
    ensures InStep(stream, mem, out[..], output + near)
  {
    hide Decodes, EndsWith, TableBefore, Steady, Window.Next, Window.Restarts;
    var pos := 1 + |output|;
    assert out[1..pos] == output;
    var block := CompressPiece(stream, mem, p, acceleration);
    far := DecodeAt(out, pos, scratch, p.n, block, Content(mem, p));
    near := DecodeAt(out, pos, pos, p.n, block, Content(mem, p));
    assert out[1..pos + p.n] == out[1..pos] + out[pos..pos + p.n];
    assert out[..][1..1 + |output + near|] == out[1..pos + p.n];
  }

  method CompressPiece(stream: Stream, mem: seq<Byte>, p: Piece, acceleration: int) returns (block: seq<Byte>)
    requires PieceOk(mem, p) && stream.Valid() && !stream.tableType.ByU16? && Steady(acceleration)
    requires stream.Finds(mem, stream.dictSize) && !stream.View().Restarts(p.source, p.n)
    modifies stream, stream.table
    ensures stream.Valid() && stream.tableType == ByU32 && stream.history == old(stream.history) + Content(mem, p)
    ensures stream.View() == old(stream.View()).Next(p.source, p.n) && stream.Finds(mem, stream.dictSize)
    ensures Decodes(block, old(stream.history), Content(mem, p)) && (p.n == 0 ==> block == [0])
    ensures |block| < Decoder.INT_LIMIT
  {
    hide Decodes, EndsWith, TableBefore, Steady, Window.Next, Window.Restarts, UsableDict;
    var capacity := CompressBound(p.n);
    var dst := new Byte[capacity];
    stream.FindsFewer(mem, stream.dictSize, UsableDict(stream.dictionary, stream.dictSize, p.source, p.n));
    var r := stream.Continue(mem, p.source, p.n, dst, 0, capacity, acceleration);
    block := dst[..r];
    assert dst[0..r] == block;
  }

  /** Decodes a block with the bytes at [1, pos) as dictionary, at a place that leaves them alone. */
  method DecodeAt(out: array<Byte>, pos: nat, dst: nat, n: nat, block: seq<Byte>, ghost content: seq<Byte>)
    returns (bytes: seq<Byte>)
    requires 1 <= pos <= dst && dst + n <= out.Length && |content| == n
    requires Decodes(block, out[1..pos], content) && (n == 0 ==> block == [0])
    requires |block| < Decoder.INT_LIMIT && n <= MAX_INPUT_SIZE
    modifies out
    ensures bytes == content && out[dst..dst + n] == content && out[1..pos] == old(out[1..pos])
  {
    hide Decodes, Decoder.DictContent;
    WindowDecodes(block, out[..], pos, content);
    var r := Decoder.DecompressSafeUsingDict(block, out, dst, n, 1, pos - 1, content);
    SameSlice(out[..], old(out[..]), dst, dst + n, 1, pos);
    bytes := out[dst..dst + r];
  }

  /** A block that decodes against all of [1, pos) decodes against its last 64 KB. */
  lemma WindowDecodes(block: seq<Byte>, m: seq<Byte>, pos: nat, content: seq<Byte>)
    requires 1 <= pos <= |m| && Decodes(block, m[1..pos], content)
    ensures Decodes(block, Decoder.DictContent(m, 1, pos - 1), content)
  {
    hide Decodes;
    var k := pos - Min(pos - 1, KB64);
    assert m[1..pos] == m[1..k] + m[k..pos];
    assert Decoder.DictContent(m, 1, pos - 1) == m[k..pos];
    DecodesWindow(block, m[1..k], m[k..pos], content);
    if k == 1 { assert m[1..k] == [] && m[k..pos] == m[1..pos]; }
  }
}
