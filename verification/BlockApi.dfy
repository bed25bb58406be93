/** The one-shot compression functions of lz4.c, and the round trip through the decoder. */
module BlockApi {
  import opened Bytes
  import opened BlockFormat
  import opened Copies
  import opened MatchCount
  import opened MatchSearch
  import opened GreedyParse
  import opened BlockEncoder
  import Decoder = BlockDecoder
  import Meaning = BlockMeaning

  /** A hash function into a table of `slots` entries. */
  datatype Hasher = Hasher(slots: nat, hash: seq<Byte> -> nat) {
    ghost predicate Ok() { forall w :: hash(w) < slots }
  }

  /** A job without history, on a table that holds nothing yet. */
  function FreshJob(h: Hasher, mem: seq<Byte>, source: nat, n: nat, mode: OutputMode, acceleration: nat): Job {
    Job(mem, source, n, 0, NoDict, 0, 0, false, n < LIMIT_64K, mode, acceleration, h.slots, h.hash)
  }

  /** A table no position has been entered in. */
  function Empty(slots: nat): (t: seq<nat>)
    ensures |t| == slots
  {
    seq(slots, i => 0)
  }

  /** What a block without history is compressed to, when there is room for it. */
  ghost function FastBlock(h: Hasher, mem: seq<Byte>, source: nat, n: nat, acceleration: int): (b: seq<Byte>)
    requires h.Ok() && source + n <= |mem| && n <= MAX_INPUT_SIZE && Steady(acceleration)
  {
    SteadyClamp(acceleration);
    Block(FreshJob(h, mem, source, n, NotLimited, Clamp(acceleration)), Empty(h.slots))
  }

  /** The size of a block of 13 or more equal bytes, whatever the hash and the acceleration. */
  lemma UniformSize(h: Hasher, mem: seq<Byte>, source: nat, n: nat, acceleration: int)
    requires h.Ok() && source + n <= |mem| && MIN_LENGTH <= n <= MAX_INPUT_SIZE && Steady(acceleration)
    requires forall i :: source <= i < source + n ==> mem[i] == mem[source]
    ensures |FastBlock(h, mem, source, n, acceleration)| == 10 + (n + 230) / 255
  {
    hide Block, Parse, Steady;
    SteadyClamp(acceleration);
    UniformBlock(FreshJob(h, mem, source, n, NotLimited, Clamp(acceleration)), Empty(h.slots));
  }

  /**
   LZ4_compress_fast. With room for the bound, every supported input is compressed; whatever is
   produced fits the capacity and is a well-formed block for the input. It is the block of the greedy parse,
   and nothing is produced exactly when that does not fit.
   */
  method CompressFast(h: Hasher, mem: seq<Byte>, source: nat, n: nat, dst: array<Byte>, dest: nat, capacity: nat,
                      acceleration: int)
    returns (r: nat)
    requires h.Ok() && source + n <= |mem| && dest + capacity <= dst.Length && Steady(acceleration)
    modifies dst
    ensures SameOutside(dst[..], old(dst[..]), dest, dest + capacity)
    ensures n > MAX_INPUT_SIZE ==> r == 0
    ensures n <= MAX_INPUT_SIZE && capacity >= CompressBound(n) ==> r > 0
    ensures r > 0 ==>
              r <= capacity && r <= CompressBound(n) && Decodes(dst[dest..dest + r], [], mem[source..source + n])
    ensures r > 0 && n == 0 ==> dst[dest..dest + r] == [0]
    ensures n <= MAX_INPUT_SIZE ==>
              var block := FastBlock(h, mem, source, n, acceleration);
              if |block| <= capacity then r == |block| && dst[dest..dest + r] == block else r == 0
  {
    hide Decodes, Steady, Block, Parse, Fills;
    if n > MAX_INPUT_SIZE { return 0; }
    var acc := Clamp(acceleration);
    SteadyClamp(acceleration);
    var mode := if capacity >= CompressBound(n) then NotLimited else LimitedOutput;
    var table := new nat[h.slots](_ => 0);
    var job := FreshJob(h, mem, source, n, mode, acc);
    assert table[..] == Empty(h.slots);
    BlockAlike(FreshJob(h, mem, source, n, NotLimited, acc), job, table[..]);
    var consumed;
    ghost var ss, anchor;
    r, consumed, ss, anchor := CompressGeneric(job, table, dst, dest, dest + capacity);
  }

  /** The greedy parse of all of the input. */
  ghost function DestParse(h: Hasher, mem: seq<Byte>, source: nat, n: nat): Parsed
    requires h.Ok() && source + n <= |mem| && n <= MAX_INPUT_SIZE
  {
    Parse(FreshJob(h, mem, source, n, NotLimited, 1), Empty(h.slots))
  }

  lemma WholeBlock(h: Hasher, mem: seq<Byte>, source: nat, n: nat, dest: nat, target: nat)
    returns (ss: seq<Sequence>, anchor: nat)
    requires h.Ok() && source + n <= |mem| && n <= MAX_INPUT_SIZE
    ensures Fills(ss, DestParse(h, mem, source, n).ss, dest + |EncodeSeqs(ss)|, dest + target)
    ensures source <= anchor <= source + n
    ensures FastBlock(h, mem, source, n, 1) == EncodeSeqs(ss) + EncodeLits(mem[anchor..source + n], 0)
  {
    hide Parse, EncodeSeqs, EncodeLits;
    var p := DestParse(h, mem, source, n);
    ss, anchor := p.ss, p.anchor;
  }

  /** Equal bytes are compressed in full when there is room for that and for the least sequence. */
  lemma UniformFills(h: Hasher, mem: seq<Byte>, source: nat, n: nat, dest: nat, target: nat, ss: seq<Sequence>)
    requires h.Ok() && source + n <= |mem| && MIN_LENGTH <= n <= MAX_INPUT_SIZE
    requires forall i :: source <= i < source + n ==> mem[i] == mem[source]
    requires target >= 13 && target >= 10 + (n + 230) / 255
    requires Fills(ss, DestParse(h, mem, source, n).ss, dest + |EncodeSeqs(ss)|, dest + target)
    ensures ss == DestParse(h, mem, source, n).ss == [Sequence([mem[source]], 1, n - 10)]
  {
    hide Parse;
    UniformBlock(FreshJob(h, mem, source, n, NotLimited, 1), Empty(h.slots));
    if |ss| == 1 {
      OneSequence(ss[0]);
      assert ss == [ss[0]];
    }
  }

  /**
   LZ4_compress_destSize: fills `target` bytes, but for one in 65025 and one more, unless all of the input
   takes less. It never reports more input consumed than there is, and the block decodes to exactly the part
   of the input it reports. Its sequences are those of the greedy parse, as far as there is room for them.
   */
  method CompressDestSize(h: Hasher, mem: seq<Byte>, source: nat, n: nat, dst: array<Byte>, dest: nat, target: nat)
    returns (r: nat, consumed: nat, ghost ss: seq<Sequence>, ghost anchor: nat)
    requires h.Ok() && source + n <= |mem| && dest + target <= dst.Length
    modifies dst
    ensures SameOutside(dst[..], old(dst[..]), dest, dest + target)
    ensures consumed <= n && r <= target
    ensures n <= MAX_INPUT_SIZE ==> (r > 0 <==> target >= 1)
    ensures target >= CompressBound(n) ==> consumed == n
    ensures r > 0 ==> consumed == n || r + 1 + target / 65025 >= target
    ensures n > MAX_INPUT_SIZE ==> r == 0
    ensures r > 0 ==>
              && Fills(ss, DestParse(h, mem, source, n).ss, dest + |EncodeSeqs(ss)|, dest + target)
              && source <= anchor <= source + consumed
              && dst[dest..dest + r] == EncodeSeqs(ss) + EncodeLits(mem[anchor..source + consumed], 0)
    ensures r > 0 ==> Decodes(dst[dest..dest + r], [], mem[source..source + consumed])
  {
    hide Decodes, Block, Parse, Fills, EncodeSeqs, EncodeLits;
    ss, anchor := [], 0;
    if target >= CompressBound(n) {
      r := CompressFast(h, mem, source, n, dst, dest, target, 1);
      if r > 0 { ss, anchor := WholeBlock(h, mem, source, n, dest, target); }
      return r, n, ss, anchor;
    }
    if target < 1 { return 0, n, ss, anchor; }
    var table := new nat[h.slots](_ => 0);
    var job := FreshJob(h, mem, source, n, FillOutput, 1);
    assert table[..] == Empty(h.slots);
    BlockAlike(FreshJob(h, mem, source, n, NotLimited, 1), job, table[..]);
    r, consumed, ss, anchor := CompressGeneric(job, table, dst, dest, dest + target);
  }

  /** Compressing with enough room and decompressing into any buffer that is large enough restores the input. */
  method RoundTrip(h: Hasher, input: seq<Byte>, acceleration: int, capacity: nat, outCapacity: nat)
    returns (packed: seq<Byte>, r: int, output: seq<Byte>)
    requires h.Ok() && |input| <= MAX_INPUT_SIZE && capacity >= CompressBound(|input|) && outCapacity >= |input|
    requires Steady(acceleration) && outCapacity < Decoder.INT_LIMIT
    ensures 0 < |packed| <= CompressBound(|input|)
    ensures r == |input| && output == input
  {
    hide Decodes, FastBlock, Meaning.Accepts;
    var dst := new Byte[capacity];
    var n := CompressFast(h, input, 0, |input|, dst, 0, capacity, acceleration);
    packed := dst[..n];
    assert input[0..|input|] == input;
    var out := new Byte[outCapacity];
    r := Decoder.DecompressSafe(packed, out, 0, outCapacity, input);
    output := out[..r];
  }
}
