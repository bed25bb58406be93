/**
 LZ4F_compressBegin, LZ4F_compressUpdate, LZ4F_flush and LZ4F_compressEnd: the buffering frame
 encoder. Sources and the encoder's own buffer are ranges of one flat memory; compressed output goes
 to separate arrays.
 */
module FrameEncoder {
  import opened Bytes
  import opened BlockFormat
  import opened Copies
  import opened MatchSearch
  import opened GreedyParse
  import opened BlockApi
  import opened BlockEncoder
  import opened BlockStream
  import opened FrameFormat
  import opened FrameChain
  import opened FrameHistory

  /** LZ4HC_CLEVEL_MIN: lower levels use the fast compressor. */
  const FAST_LEVELS: int := 3

  /** LZ4F_preferences_t. */
  datatype Preferences = Preferences(linked: bool, blockChecksum: bool, contentChecksum: bool, sizeId: nat,
                                     contentSize: U64, dictId: U32, level: int, autoFlush: bool)
  {
    /** The values the enumerations and the fast levels allow, with an acceleration that keeps the search going. */
    predicate Ok() { (sizeId == 0 || 4 <= sizeId <= 7) && level < FAST_LEVELS && Steady(Acceleration()) }

    /** Negative levels stand for accelerations. */
    function Acceleration(): int { if level < 0 then -level + 1 else 1 }

    /** The default size is 64 KB. */
    function Normal(): Preferences { if sizeId == 0 then this.(sizeId := 4) else this }

    function BlockMax(): (n: nat)
      requires Ok()
      ensures KB64 <= n <= 64 * KB64
    {
      BlockSize(Normal().sizeId)
    }

    /** How much of a source of `n` bytes the first block made of it alone takes. */
    function FirstTaken(n: nat): nat
      requires Ok()
    {
      if n >= BlockMax() then BlockMax() else if autoFlush then n else 0
    }

    /** The header LZ4F_compressBegin writes. */
    function Head(): (h: Header)
      requires Ok()
      ensures h.Ok()
    {
      Header(!linked, blockChecksum, contentChecksum, Normal().sizeId,
             if contentSize > 0 then Some(contentSize) else None, if dictId > 0 then Some(dictId) else None)
    }

    /** The buffer LZ4F_compressBegin asks for: with automatic flushing, only for past data. */
    function BufferNeeded(): nat
      requires Ok()
    {
      if autoFlush then (if linked then KB64 else 0) else BlockMax() + (if linked then 2 * KB64 else 0)
    }

    function CrcSize(): nat { if blockChecksum then BLOCK_FOOTER else 0 }

    /** The end mark and the content checksum. */
    function EndSize(): nat { BLOCK_HEADER + if contentChecksum then BLOCK_FOOTER else 0 }
  }

  /** What `full` full blocks and one of `last` bytes, if any, can cost at most. */
  function Cost(p: Preferences, full: nat, last: nat): nat
    requires p.Ok()
  {
    (BLOCK_HEADER + p.CrcSize() + p.BlockMax()) * full + (if last > 0 then BLOCK_HEADER + p.CrcSize() + last else 0)
  }

  const TWO32: nat := 0x1_0000_0000
  const TWO64: nat := 0x1_0000_0000_0000_0000

  /** LZ4F_compressBound_internal, with its count of blocks kept in 32 bits. */
  function CompressBoundInternal(srcSize: nat, p: Preferences, buffered: nat): nat
    requires p.Ok()
  {
    var flush := p.autoFlush || srcSize == 0;
    var blockSize := p.BlockMax();
    var maxSrcSize := srcSize + Min(buffered, blockSize - 1);
    var lastBlockSize := if flush then maxSrcSize % blockSize else 0;
    BoundOf(BLOCK_HEADER + p.CrcSize(), blockSize, maxSrcSize / blockSize, lastBlockSize) + p.EndSize()
  }

  /** The bound for `full` full blocks and a last one, each with `extra` bytes more, as computed in 32 bits. */
  function BoundOf(extra: nat, blockSize: nat, full: nat, last: nat): nat {
    var nbFullBlocks := full % TWO32;
    var nbBlocks := (nbFullBlocks + if last > 0 then 1 else 0) % TWO32;
    extra * nbBlocks + blockSize * nbFullBlocks + last
  }

  lemma CostOf(p: Preferences, full: nat, last: nat)
    requires p.Ok()
    ensures var u := BLOCK_HEADER + p.CrcSize();
            Cost(p, full, last) == (u + p.BlockMax()) * full + if last > 0 then u + last else 0
  {
  }

  lemma BoundOfExact(u: nat, b: nat, full: nat, last: nat)
    requires full + (if last > 0 then 1 else 0) < TWO32
    ensures BoundOf(u, b, full, last) == (u + b) * full + if last > 0 then u + last else 0
  {
    CostParts(u, b, full);
  }

  /** When the count wraps, some block goes unpaid. */
  lemma BoundOfShort(u: nat, b: nat, full: nat, last: nat)
    requires full + (if last > 0 then 1 else 0) >= TWO32 && u > 0 && last < b
    ensures full >= TWO32 ==> BoundOf(u, b, full, last) < (u + b) * full
    ensures full < TWO32 ==> BoundOf(u, b, full, last) < (u + b) * full + u + last
  {
    var kept := full % TWO32;
    var nb := (kept + if last > 0 then 1 else 0) % TWO32;
    CostParts(u, b, full);
    if full >= TWO32 {
      MulMono(nb, kept + 1, u);
      CostParts(u, b, kept);
      ManyMore(u, b, kept, full);
    } else {
      assert kept == full && nb == 0;
      MulMono(0, full, u);
    }
  }

  lemma ManyMore(u: nat, b: nat, kept: nat, full: nat)
    requires kept + TWO32 <= full
    ensures (u + b) * kept + 2 * (u + b) <= (u + b) * full
  {
    MulMono(kept + 2, full, u + b);
    assert (u + b) * (kept + 2) == (u + b) * kept + 2 * (u + b);
  }

  /** The number of blocks fits in 32 bits. */
  predicate Countable(srcSize: nat, p: Preferences, buffered: nat)
    requires p.Ok()
  {
    var all := srcSize + buffered;
    all / p.BlockMax() + (if (p.autoFlush || srcSize == 0) && all % p.BlockMax() > 0 then 1 else 0) < TWO32
  }

  /** The input of `full` full blocks. */
  function FullSize(p: Preferences, full: nat): nat
    requires p.Ok()
  {
    p.BlockMax() * full
  }

  lemma NoBlocks(p: Preferences)
    requires p.Ok()
    ensures FullSize(p, 0) == 0 && Cost(p, 0, 0) == 0
  {
  }

  /** As long as a full block is left, its cost is within that of all of them. */
  lemma NextFull(p: Preferences, made: nat, all: nat, size: nat)
    requires p.Ok() && FullSize(p, all) <= size < FullSize(p, all + 1) && size - FullSize(p, made) >= p.BlockMax()
    ensures made < all && FullSize(p, made + 1) == FullSize(p, made) + p.BlockMax()
    ensures Cost(p, made, 0) + BLOCK_HEADER + p.CrcSize() + p.BlockMax() == Cost(p, made + 1, 0) <= Cost(p, all, 0)
  {
    var b := p.BlockMax();
    hide BlockSize;
    var u := BLOCK_HEADER + p.CrcSize() + b;
    CostParts(b, 0, made);
    CostParts(u, 0, made);
    if all <= made { MulMono(all + 1, made + 1, b); }
    MulMono(made + 1, all, u);
  }

  lemma LastFull(p: Preferences, made: nat, all: nat, size: nat)
    requires p.Ok() && made <= all && FullSize(p, all) <= size && size - FullSize(p, made) < p.BlockMax()
    ensures made == all
  {
    var b := p.BlockMax();
    hide BlockSize;
    CostParts(b, 0, made);
    if made < all { MulMono(made + 1, all, b); }
  }

  lemma MulMono(i: nat, j: nat, d: nat)
    ensures i <= j ==> i * d <= j * d && d * i <= d * j
  {
    if i < j {
      MulMono(i, j - 1, d);
    }
  }

  /** What the blocks of `size` bytes of input can cost. */
  function UpdateCost(p: Preferences, size: nat): nat
    requires p.Ok()
  {
    Cost(p, size / p.BlockMax(), if p.autoFlush then size % p.BlockMax() else 0)
  }

  /** The room LZ4F_compressBound_internal asks for is enough, with the end of the frame. */
  lemma UpdateWithin(p: Preferences, buffered: nat, n: nat)
    requires p.Ok() && buffered < p.BlockMax() && Countable(n, p, buffered)
    ensures UpdateCost(p, buffered + n) + p.EndSize() <= CompressBoundInternal(n, p, buffered)
  {
    hide CompressBoundInternal, BlockSize, Countable;
    BoundIs(n, p, buffered);
  }

  /** Where the room asked for is there, so is the room the blocks can take. */
  predicate Affordable(n: nat, p: Preferences, buffered: nat, capacity: nat)
    requires p.Ok()
  {
    || Countable(n, p, buffered)
    || capacity < CompressBoundInternal(n, p, buffered)
    || UpdateCost(p, buffered + n) + p.EndSize() <= capacity
  }

  lemma UpdateCosts(p: Preferences, size: nat)
    requires p.Ok()
    ensures var full, rest := size / p.BlockMax(), size % p.BlockMax();
            && UpdateCost(p, size)
               == Cost(p, full, 0) + (if p.autoFlush && rest > 0 then BLOCK_HEADER + p.CrcSize() + rest else 0)
            && size == FullSize(p, full) + rest && rest < p.BlockMax()
            && (full >= 1 ==> Cost(p, full, 0) == Cost(p, 1, 0) + Cost(p, full - 1, 0))
            && (size >= p.BlockMax() ==> full >= 1)
  {
    var b := p.BlockMax();
    hide BlockSize;
    DivMul(size, b);
    var full := size / b;
    if full >= 1 { CostParts(BLOCK_HEADER + p.CrcSize() + b, 0, full - 1); }
  }

  /** How many full blocks are left after the buffer has been seen to. */
  lemma LeftToTake(p: Preferences, buffered: nat, n: nat, taken: nat, held: nat, made: bool)
    requires p.Ok() && taken <= n && held < p.BlockMax() && buffered < p.BlockMax()
    requires if made then buffered + taken == p.BlockMax() && held == 0 else buffered + taken == held
    requires held > 0 ==> taken == n
    ensures var full := (buffered + n) / p.BlockMax();
            var all := if made then full - 1 else full;
            && 0 <= all && FullSize(p, all) <= n - taken < FullSize(p, all + 1)
            && n - taken - FullSize(p, all) == (if held > 0 then 0 else (buffered + n) % p.BlockMax())
  {
    var b, size := p.BlockMax(), buffered + n;
    hide BlockSize;
    UpdateCosts(p, size);
    var full := size / b;
    CostParts(b, 0, full);
    if full >= 1 { CostParts(b, 0, full - 1); }
    if held > 0 { DivUnique(size, b, 0, size); }
  }

  lemma DivMul(n: nat, d: nat)
    requires d > 0
    ensures n == d * (n / d) + n % d && n % d < d
  {
  }

  lemma OneFull(p: Preferences)
    requires p.Ok()
    ensures Cost(p, 1, 0) == BLOCK_HEADER + p.CrcSize() + p.BlockMax()
  {
  }

  lemma NormalHead(p: Preferences)
    requires p.Ok()
    ensures p.Normal().Ok() && p.Normal().sizeId != 0 && p.Normal().Head() == p.Head()
    ensures p.Normal().BlockMax() == p.BlockMax()
    ensures p.Normal().BufferNeeded() == p.BufferNeeded() && forall n: nat ::
              p.Normal().FirstTaken(n) == p.FirstTaken(n)
  {
  }

  /**
   Exactly when the number of blocks fits in 32 bits does LZ4F_compressBound_internal ask for as much
   room as the blocks can take.
   */
  lemma BoundCovers(p: Preferences, buffered: nat, n: nat)
    requires p.Ok() && buffered < p.BlockMax()
    ensures UpdateCost(p, buffered + n) + p.EndSize() <= CompressBoundInternal(n, p, buffered) <==>
              Countable(n, p, buffered)
  {
    if Countable(n, p, buffered) {
      hide BlockSize;
      UpdateWithin(p, buffered, n);
    } else {
      BoundFallsShort(p, buffered, n);
    }
  }

  lemma BoundFallsShort(p: Preferences, buffered: nat, n: nat)
    requires p.Ok() && buffered < p.BlockMax() && !Countable(n, p, buffered)
    ensures CompressBoundInternal(n, p, buffered) < UpdateCost(p, buffered + n) + p.EndSize()
  {
    hide BlockSize, BoundOf;
    var b, all := p.BlockMax(), n + buffered;
    if n == 0 { DivUnique(buffered, b, 0, buffered); }
    BoundOfShort(BLOCK_HEADER + p.CrcSize(), b, all / b, if p.autoFlush || n == 0 then all % b else 0);
  }

  /** 2^32 blocks of 64 KB: LZ4F_compressBound_internal asks for the end of the frame only. */
  lemma UncountedBlocks()
    ensures var p := Preferences(true, false, false, 4, 0, 0, 0, false);
            var n := TWO32 * KB64;
            && p.Ok() && !Countable(n, p, 0) && CompressBoundInternal(n, p, 0) == p.EndSize()
            && UpdateCost(p, n) == TWO32 * (BLOCK_HEADER + KB64)
  {
  }

  /** LZ4F_compressBound, for any amount of buffered input. */
  function CompressBound(n: nat, p: Preferences): nat
    requires p.Ok()
  {
    CompressBoundInternal(n, p, p.BlockMax())
  }

  /** What LZ4F_compressBound asks for is enough whatever is buffered. */
  lemma BoundForAll(n: nat, p: Preferences, buffered: nat)
    requires p.Ok() && buffered < p.BlockMax() && Countable(n, p, p.BlockMax() - 1)
    ensures CompressBoundInternal(n, p, buffered) <= CompressBound(n, p) && Countable(n, p, buffered)
  {
    var b := p.BlockMax();
    hide BlockSize, CompressBoundInternal, Countable;
    assert CompressBound(n, p) == CompressBoundInternal(n, p, b - 1) by { WorstBuffered(n, p); }
    StillCountable(n, p, buffered);
    BoundIs(n, p, buffered);
    BoundIs(n, p, b - 1);
    CostMonotone(p, n + buffered, n + (b - 1));
  }

  lemma WorstBuffered(n: nat, p: Preferences)
    requires p.Ok()
    ensures CompressBoundInternal(n, p, p.BlockMax()) == CompressBoundInternal(n, p, p.BlockMax() - 1)
  {
    hide BoundOf;
  }

  lemma StillCountable(n: nat, p: Preferences, buffered: nat)
    requires p.Ok() && buffered < p.BlockMax() && Countable(n, p, p.BlockMax() - 1)
    ensures Countable(n, p, buffered)
  {
    var b := p.BlockMax();
    hide BlockSize;
    RoundUp(n + buffered, n + (b - 1), b);
  }

  lemma NormalCountable(n: nat, p: Preferences)
    requires p.Ok()
    ensures p.Normal().Ok() && p.Normal().BlockMax() == p.BlockMax()
    ensures Countable(n, p.Normal(), p.BlockMax() - 1) <==> Countable(n, p, p.BlockMax() - 1)
  {
  }

  /** More input is not fewer blocks. */
  lemma RoundUp(i: nat, j: nat, b: nat)
    requires i <= j && b > 0
    ensures i / b <= j / b && i / b + (if i % b > 0 then 1 else 0) <= j / b + (if j % b > 0 then 1 else 0)
  {
    DivMul(i, b);
    DivMul(j, b);
    var q, r := i / b, j / b;
    CostParts(b, 0, r);
    if q > r { MulMono(r + 1, q, b); }
    if q == r { assert i % b <= j % b; }
  }

  lemma CostMonotone(p: Preferences, i: nat, j: nat)
    requires p.Ok() && i <= j
    ensures var b := p.BlockMax();
            && Cost(p, i / b, 0) <= Cost(p, j / b, 0) && Cost(p, i / b, i % b) <= Cost(p, j / b, j % b)
  {
    var b, u := p.BlockMax(), BLOCK_HEADER + p.CrcSize();
    hide BlockSize;
    RoundUp(i, j, b);
    DivMul(i, b);
    DivMul(j, b);
    CostByBlocks(p, i);
    CostByBlocks(p, j);
    MulMono(i / b, j / b, u + b);
    MulMono(i / b + (if i % b > 0 then 1 else 0), j / b + (if j % b > 0 then 1 else 0), u);
    CostOf(p, i / b, 0);
    CostOf(p, j / b, 0);
  }

  /** The cost of `size` bytes: the bytes, and what each block adds. */
  lemma CostByBlocks(p: Preferences, size: nat)
    requires p.Ok()
    ensures var b := p.BlockMax();
            Cost(p, size / b, size % b)
            == size + (BLOCK_HEADER + p.CrcSize()) * (size / b + if size % b > 0 then 1 else 0)
  {
    var b, u := p.BlockMax(), BLOCK_HEADER + p.CrcSize();
    hide BlockSize;
    DivMul(size, b);
    CostOf(p, size / b, size % b);
    CostParts(u, b, size / b);
  }

  lemma EndWithin(p: Preferences, buffered: nat)
    requires p.Ok() && buffered < p.BlockMax()
    ensures CompressBoundInternal(0, p, buffered)
         == (if buffered > 0 then BLOCK_HEADER + p.CrcSize() + buffered else 0) + p.EndSize()
  {
    hide CompressBoundInternal, BlockSize;
    var b := p.BlockMax();
    DivUnique(0, b, 0, 0);
    DivUnique(buffered, b, 0, buffered);
    BoundIs(0, p, buffered);
  }

  lemma BoundIs(srcSize: nat, p: Preferences, buffered: nat)
    requires p.Ok() && buffered < p.BlockMax() && Countable(srcSize, p, buffered)
    ensures var flush := p.autoFlush || srcSize == 0;
            var all := srcSize + buffered;
            CompressBoundInternal(srcSize, p, buffered)
            == Cost(p, all / p.BlockMax(), if flush then all % p.BlockMax() else 0) + p.EndSize()
  {
    hide BlockSize, BoundOf, Cost;
    var b, all := p.BlockMax(), srcSize + buffered;
    var full, last := all / b, if p.autoFlush || srcSize == 0 then all % b else 0;
    BoundOfExact(BLOCK_HEADER + p.CrcSize(), b, full, last);
    CostOf(p, full, last);
  }

  lemma DivUnique(n: nat, d: nat, q: nat, r: nat)
    requires 0 < d && n == q * d + r && r < d
    ensures n / d == q && n % d == r
  {
    var q', r' := n / d, n % d;
    assert (q - q') * d == r' - r && (q' - q) * d == r - r';
    if q > q' {
      MulAtLeast(q - q', d);
    } else if q < q' {
      MulAtLeast(q' - q, d);
    }
  }

  lemma MulAtLeast(k: int, d: nat)
    requires k >= 1
    ensures k * d >= d
  {
    if k > 1 { MulAtLeast(k - 1, d); }
  }

  lemma WrapAdd(a: nat, b: nat)
    ensures (a % TWO64 + b) % TWO64 == (a + b) % TWO64
  {
  }

  lemma CostParts(u: nat, b: nat, full: nat)
    ensures (u + b) * full == u * full + b * full && u * (full + 1) == u * full + u
  {
  }

  datatype Error = Generic | DstMaxSizeTooSmall | FrameSizeWrong

  /** A number of bytes written, or an error. */
  datatype Outcome = Done(size: nat) | Refused(error: Error)

  class Encoder {
    const hash: Hash
    const mem: array<Byte>
    /** Where allocation places the buffer, and how large it can be. */
    const arena: nat
    const reserve: nat
    const stream: Stream
    var prefs: Preferences
    var begun: bool
    var maxBlockSize: nat
    var maxBufferSize: nat
    var tmpBuff: nat
    var tmpIn: nat
    var tmpInSize: nat
    var totalInSize: nat
    /** The bytes XXH32 has been given. */
    var xxh: seq<Byte>

    /** All input of the frame, the blocks made of it, and all bytes written. */
    ghost var input: seq<Byte>
    ghost var blocks: seq<Block>
    ghost var sent: seq<Byte>

    /** The blocks so far are what was written, and are fit for the frame. */
    ghost predicate Chained()
      reads `prefs, `blocks, `sent
    {
      && prefs.Ok() && ChainOk(prefs.Head(), blocks)
      && sent == HeaderBytes(hash, prefs.Head()) + ChainBytes(hash, prefs.Head(), blocks)
    }

    /**
     With linked blocks, the stream remembers all content of the blocks so far, and finds it in the last `n` bytes of
     its dictionary.
     */
    ghost predicate Recalls(m: seq<Byte>, n: nat)
      reads `prefs, `blocks, stream, stream.table
    {
      && stream.Valid()
      && (prefs.linked ==>
            !stream.tableType.ByU16? && stream.history == ChainContent(blocks) && stream.Finds(m, n))
    }

    ghost predicate StreamOk(m: seq<Byte>)
      reads `prefs, `blocks, stream, stream.table
    {
      Recalls(m, stream.dictSize)
    }

    /** LZ4F_createCompressionContext, with the stream the first frame would allocate. */
    constructor (hash: Hash, mem: array<Byte>, arena: nat, reserve: nat, h: Hasher)
      requires h.Ok() && 0 < arena && arena + reserve <= mem.Length
      ensures Valid() && !begun && fresh(stream) && fresh(stream.table)
      ensures this.hash == hash && this.mem == mem && this.arena == arena && this.reserve == reserve
      ensures maxBufferSize == 0
    {
      this.hash, this.mem, this.arena, this.reserve := hash, mem, arena, reserve;
      stream := new Stream(h);
      prefs, begun := Preferences(true, false, false, 0, 0, 0, 0, false), false;
      maxBlockSize, maxBufferSize, tmpBuff, tmpIn, tmpInSize, totalInSize := 0, 0, 0, 0, 0, 0;
      xxh, input, blocks, sent := [], [], [], [];
    }

    /** The context of LZ4F_compressFrame: a buffer that is never used is said to be large enough. */
    constructor OneShot(hash: Hash, mem: array<Byte>, arena: nat, reserve: nat, h: Hasher)
      requires h.Ok() && 0 < arena && arena + reserve <= mem.Length
      ensures Valid() && !begun && fresh(stream) && fresh(stream.table)
      ensures this.hash == hash && this.mem == mem && this.arena == arena && this.reserve == reserve
      ensures maxBufferSize >= KB64
    {
      this.hash, this.mem, this.arena, this.reserve := hash, mem, arena, reserve;
      stream := new Stream(h);
      prefs, begun := Preferences(true, false, false, 0, 0, 0, 0, false), false;
      maxBlockSize, maxBufferSize, tmpBuff, tmpIn, tmpInSize, totalInSize := 0, 80 * KB64, 0, 0, 0, 0;
      xxh, input, blocks, sent := [], [], [], [];
    }

    ghost predicate Valid()
      reads this, mem, stream, stream.table
    {
      && stream.Valid() && 0 < arena && arena + reserve <= mem.Length && Buffer()
      && (begun ==> Running(mem[..]))
    }

    predicate Buffer()
      reads `tmpBuff, `maxBufferSize
    {
      tmpBuff == 0 || (tmpBuff == arena && maxBufferSize <= reserve)
    }

    /** The buffer is as large as it is said to be. */
    predicate Backed()
      reads `tmpBuff, `maxBufferSize
    {
      Buffer() && (maxBufferSize == 0 || (tmpBuff == arena && maxBufferSize <= reserve))
    }

    /** The preferences are settled. */
    predicate Settled()
      reads `prefs, `maxBlockSize
    {
      prefs.Ok() && prefs.sizeId != 0 && maxBlockSize == prefs.BlockMax()
    }

    /** The buffer always has room for one more block. */
    predicate Roomy()
      reads `prefs, `maxBlockSize, `tmpBuff, `maxBufferSize, `tmpIn
    {
      && Backed() && maxBlockSize + (if prefs.linked then 2 * KB64 else 0) <= maxBufferSize
      && arena <= tmpIn && tmpIn + maxBlockSize <= arena + maxBufferSize
    }

    /** Input that is buffered and not yet in a block. */
    function Held(m: seq<Byte>): seq<Byte>
      requires tmpInSize > 0 ==> tmpIn + tmpInSize <= |m|
      reads `tmpIn, `tmpInSize
    {
      HeldFor(m, tmpInSize)
    }

    function HeldFor(m: seq<Byte>, n: nat): seq<Byte>
      requires n > 0 ==> tmpIn + n <= |m|
      reads `tmpIn
    {
      if n == 0 then [] else m[tmpIn..tmpIn + n]
    }

    /** Where input is buffered, what an offset can reach of the dictionary is not in the buffer from `limit` on. */
    ghost predicate DictAt(limit: nat)
      reads `prefs, stream
    {
      prefs.linked && !prefs.autoFlush && stream.dictSize > 0 ==>
        var end := stream.dictionary + stream.dictSize;
        end <= limit || end <= arena || arena + reserve <= end - Min(stream.dictSize, KB64)
    }

    /** The stream relies on address `x` in the caller's memory: an offset may reach it. */
    predicate Relies(x: int)
      reads `prefs, stream
    {
      var end := stream.dictionary + stream.dictSize;
      prefs.linked && end - Min(stream.dictSize, KB64) <= x < end && !(arena <= x < arena + reserve)
    }

    /** For the stream, address `x` in the caller's memory is where byte `pos` of the input lies. */
    ghost predicate Places(x: int, pos: int)
      reads `prefs, stream
    {
      var end := stream.dictionary + stream.dictSize;
      && prefs.linked && stream.dictionary <= x < end && !(arena <= x < arena + reserve)
      && pos == |stream.history| - (end - x)
    }

    /** What it relies on are at most the last 64 KB of what is in blocks. */
    lemma ReliesOnLast(m: seq<Byte>, x: int) returns (pos: int)
      requires Running(m) && Relies(x)
      ensures Places(x, pos) && |input| - tmpInSize - KB64 <= pos < |input| - tmpInSize
    {
      hide Chained, Counted, BlockSize, TableBefore, EndsWith, DictAt;
      pos := |stream.history| - (stream.dictionary + stream.dictSize - x);
    }

    function FirstTaken(n: nat): nat
      reads `prefs, `maxBlockSize
    {
      if n >= maxBlockSize then maxBlockSize else if prefs.autoFlush then n else 0
    }

    /** That block does not start where the dictionary does, or is not long enough for a match to be miscounted. */
    predicate Apt(source: nat, n: nat)
      reads `prefs, `maxBlockSize, stream
    {
      prefs.linked && FirstTaken(n) > 0 ==> !stream.View().Restarts(source, FirstTaken(n))
    }

    /** The source starts where the dictionary does, and the first block made of it is long enough for that. */
    predicate Retakes(src: nat, n: nat)
      reads `prefs, `maxBlockSize, `tmpInSize, stream
    {
      tmpInSize == 0 && !Apt(src, n)
    }

    /** The checksum and the size count all input. */
    ghost predicate Counted()
      reads `prefs, `xxh, `totalInSize, `input
    {
      && (prefs.contentChecksum ==> xxh == input)
      && (prefs.contentSize > 0 ==> totalInSize == |input| % TWO64)
    }

    /** Between calls inside a frame: what is in blocks and what is buffered make up all input. */
    ghost predicate Running(m: seq<Byte>)
      reads this, stream, stream.table
    {
      && Settled() && Chained() && StreamOk(m) && DictAt(tmpIn) && Counted()
      && (if prefs.autoFlush then tmpInSize == 0 else Roomy() && tmpInSize < maxBlockSize && arena + reserve <= |m|)
      && (!prefs.linked ==> tmpIn == tmpBuff)
      && (prefs.autoFlush && prefs.linked && Backed() ==> KB64 <= maxBufferSize)
      && tmpIn <= arena + reserve
      && input == ChainContent(blocks) + Held(m)
    }

    /** Where a source is taken again, the last input lies, byte by byte, from the start of the source on. */
    lemma RetakenFrom(src: nat, n: nat) returns (since: nat)
      requires Running(mem[..]) && Retakes(src, n)
      ensures prefs.Ok() && prefs.linked && Outlasts(prefs.FirstTaken(n), since)
      ensures forall x, pos ::
                src <= x < src + since && !(arena <= x < arena + reserve) && pos == |input| - since + x - src ==>
                  Places(x, pos)
    {
      hide Chained, Counted, BlockSize, TableBefore, EndsWith, DictAt, Outlasts;
      since := stream.View().Renormed(FirstTaken(n)).dictSize;
    }

    lemma HeldBounds()
      requires Running(mem[..])
      ensures if prefs.autoFlush then tmpInSize == 0 else tmpInSize < maxBlockSize == prefs.BlockMax()
    {
      hide Chained, Counted, BlockSize, DictAt;
    }

    // ----- LZ4F_compressBegin -----

    /** The buffer a frame with these preferences needs. */
    method PrepareBuffer(p: Preferences)
      requires p.Ok() && Buffer() && p.BufferNeeded() <= Max(maxBufferSize, reserve)
      modifies this`maxBlockSize, this`maxBufferSize, this`tmpBuff, this`tmpIn, this`tmpInSize
      ensures maxBlockSize == p.BlockMax() && tmpIn == tmpBuff && tmpInSize == 0 && Buffer()
      ensures maxBufferSize >= p.BufferNeeded()
      ensures old(Backed()) ==> Backed()
    {
      maxBlockSize := p.BlockMax();
      var required := p.BufferNeeded();
      if maxBufferSize < required {
        maxBufferSize := 0;
        tmpBuff := arena;
        maxBufferSize := required;
      }
      tmpIn, tmpInSize := tmpBuff, 0;
    }

    /** The frame header: its fields, and their checksum. */
    method WriteHeader(p: Preferences, dst: array<Byte>, at: nat) returns (n: nat)
      requires p.Ok() && at + MAX_HEADER <= dst.Length
      modifies dst
      ensures n == |HeaderBytes(hash, p.Head())| && dst[at..at + n] == HeaderBytes(hash, p.Head())
      ensures SameOutside(dst[..], old(dst[..]), at, at + n)
    {
      hide SameOutside, Bytes32, HeaderChecksum, Descriptor;
      n := WriteFields(p, dst, at);
      assert dst[at + 4..at + n] == dst[at..at + n][4..] == Descriptor(p.Head());
      Put(dst, at, at + n, [HeaderChecksum(hash, dst[at + 4..at + n])], old(dst[..]));
      n := n + 1;
    }

    /** The fields of the frame header, one by one. */
    method WriteFields(p: Preferences, dst: array<Byte>, at: nat) returns (n: nat)
      requires p.Ok() && at + MAX_HEADER <= dst.Length
      modifies dst
      ensures n == 4 + |Descriptor(p.Head())| < MAX_HEADER && dst[at..at + n] == Bytes32(MAGIC) + Descriptor(p.Head())
      ensures SameOutside(dst[..], old(dst[..]), at, at + n)
    {
      hide SameOutside, Bytes32, Bytes64, Flg;
      var h := p.Head();
      SameAll(dst[..], at, at);
      assert dst[at..at] == [];
      Put(dst, at, at, Bytes32(MAGIC), old(dst[..]));
      n := 4;
      Put(dst, at, at + n, [Flg(h), 16 * h.sizeId], old(dst[..]));
      n := n + 2;
      if p.contentSize > 0 {
        Put(dst, at, at + n, Bytes64(p.contentSize), old(dst[..]));
        n := n + 8;
      }
      if p.dictId > 0 {
        Put(dst, at, at + n, Bytes32(p.dictId), old(dst[..]));
        n := n + 4;
      }
    }

    /**
     LZ4F_compressBegin: refuses less room than the longest header, and else writes the header that
     says what the preferences say.
     */
    method Begin(p: Preferences, dst: array<Byte>, at: nat, capacity: nat) returns (r: Outcome)
      requires Valid() && p.Ok() && at + capacity <= dst.Length && dst != mem && (Backed() || p.autoFlush)
      requires p.BufferNeeded() <= Max(maxBufferSize, reserve)
      modifies this, stream, stream.table, dst
      ensures SameOutside(dst[..], old(dst[..]), at, at + capacity) && (old(Backed()) ==> Backed())
      ensures r == Refused(DstMaxSizeTooSmall) <==> capacity < MAX_HEADER
      ensures r.Done? <==> capacity >= MAX_HEADER
      ensures r.Done? ==> Valid() && begun && prefs == p.Normal() && input == [] && tmpInSize == 0
      ensures r.Done? ==> r.size <= MAX_HEADER && sent == dst[at..at + r.size] == HeaderBytes(hash, p.Head())
      ensures r.Done? ==> (forall x, pos :: !Places(x, pos)) && forall src, n :: !Retakes(src, n)
    {
      hide SameOutside, HeaderBytes, BlockSize, Running, TableBefore;
      if capacity < MAX_HEADER {
        SameAll(dst[..], at, at + capacity);
        return Refused(DstMaxSizeTooSmall);
      }
      var n := WriteHeader(p, dst, at);
      SameWide(dst[..], old(dst[..]), at, at + n, at, at + capacity);
      PrepareBuffer(p);
      if p.linked { InitStream(p); }
      Start(p);
      r := Done(n);
    }

    /**
     LZ4F_initStream without a dictionary to attach: attaching none resets the stream, once more with linked blocks.
     */
    method InitStream(p: Preferences)
      requires stream.Valid()
      modifies stream, stream.table
      ensures stream.Valid() && !stream.tableType.ByU16? && stream.dictSize == 0 && stream.history == []
      ensures !p.linked ==> stream.Prep() == old(stream.Prep()).Next(0, ByU32)
    {
      hide Prepared.Next;
      if p.linked { stream.ResetFast(); }
      stream.ResetFast();
    }

    /** The state at the start of a frame. */
    method Start(p: Preferences)
      requires p.Ok() && maxBlockSize == p.BlockMax() && tmpIn == tmpBuff && tmpInSize == 0 && stream.Valid()
      requires Buffer() && (Backed() || p.autoFlush) && 0 < arena && arena + reserve <= mem.Length
      requires maxBufferSize >= p.BufferNeeded()
      requires p.linked ==> !stream.tableType.ByU16? && stream.history == [] && stream.dictSize == 0
      modifies this`prefs, this`begun, this`xxh, this`totalInSize, this`input, this`blocks, this`sent
      ensures Valid() && begun && prefs == p.Normal() && input == [] && sent == HeaderBytes(hash, p.Head())
    {
      hide BlockSize, HeaderBytes, Running;
      NormalHead(p);
      SetStart(p);
      StartRunning();
    }

    method SetStart(p: Preferences)
      requires p.Ok()
      modifies this`prefs, this`begun, this`xxh, this`totalInSize, this`input, this`blocks, this`sent
      ensures prefs == p.Normal() && begun && xxh == [] && (p.contentSize > 0 ==> totalInSize == 0)
      ensures input == [] && blocks == [] && sent == HeaderBytes(hash, p.Head())
    {
      hide HeaderBytes;
      prefs, begun, xxh := p.Normal(), true, [];
      if p.contentSize > 0 { totalInSize := 0; }
      input, blocks, sent := [], [], HeaderBytes(hash, p.Head());
    }

    lemma StartRunning()
      requires Settled() && tmpIn == tmpBuff && tmpInSize == 0 && stream.Valid() && Buffer()
      requires Backed() || prefs.autoFlush
      requires prefs.Ok() && maxBufferSize >= prefs.BufferNeeded()
      requires prefs.linked ==> !stream.tableType.ByU16? && stream.history == [] && stream.dictSize == 0
      requires input == [] && blocks == [] && xxh == [] && sent == HeaderBytes(hash, prefs.Head())
      requires (prefs.contentSize > 0 ==> totalInSize == 0) && 0 < arena && arena + reserve <= mem.Length
      ensures Running(mem[..])
    {
      hide BlockSize, HeaderBytes, TableBefore;
      assert ChainBytes(hash, prefs.Head(), blocks) == [];
      if Backed() && maxBufferSize > 0 { assert tmpBuff == arena; }
    }

    // ----- Blocks -----

    /** What the next block is compressed to, when there is room for it. */
    ghost function NextBlock(source: nat, n: nat): seq<Byte>
      reads `prefs, mem, stream, stream.table
    {
      if prefs.linked then stream.LinkedBlock(mem[..], source, n, prefs.Acceleration())
      else stream.ResetBlock(stream.Prep().Next(0, ByU32), mem[..], source, n, prefs.Acceleration())
    }

    /** The compression function LZ4F_selectCompression picks for the fast levels. */
    method CompressBlock(source: nat, n: nat, dst: array<Byte>, at: nat, capacity: nat) returns (r: nat)
      requires prefs.Ok() && 0 < source && source + n <= mem.Length && n <= MAX_INPUT_SIZE
      requires Recalls(mem[..], UsableDict(stream.dictionary, stream.dictSize, source, n))
      requires prefs.linked ==> !stream.View().Restarts(source, n)
      requires at + capacity <= dst.Length && dst != mem
      modifies stream, stream.table, dst
      ensures stream.Valid() && SameOutside(dst[..], old(dst[..]), at, at + capacity) && r <= capacity
      ensures var block := old(NextBlock(source, n));
              block != [] && if |block| <= capacity then r == |block| && dst[at..at + r] == block else r == 0
      ensures r > 0 ==>
                Decodes(dst[at..at + r], if prefs.linked then ChainContent(blocks) else [], mem[source..source + n])
      ensures prefs.linked ==>
                && !stream.tableType.ByU16? && stream.history == ChainContent(blocks) + mem[source..source + n]
                && stream.View() == old(stream.View()).Next(source, n) && stream.Finds(mem[..], stream.dictSize)
    {
      hide Decodes, EndsWith, TableBefore, Window.Next, Window.Restarts, Prepared.Next, BlockFor, SameOutside;
      ghost var m := mem[..];
      if prefs.linked {
        r := stream.Continue(mem[..], source, n, dst, at, capacity, prefs.Acceleration());
      } else {
        InitStream(prefs);
        r := stream.CompressFastReset(mem[..], source, n, dst, at, capacity, prefs.Acceleration());
      }
      assert mem[..][source..source + n] == mem[source..source + n];
    }

    /**
     LZ4F_makeBlock: one more block, stored exactly when it does not shrink. Either way its bytes stand for the
     source, and with linked blocks the source joins the history.
     */
    method MakeBlock(source: nat, n: nat, dst: array<Byte>, at: nat) returns (k: nat)
      requires Chained() && 0 < source && source + n <= mem.Length && 1 <= n <= prefs.BlockMax()
      requires Recalls(mem[..], UsableDict(stream.dictionary, stream.dictSize, source, n))
      requires prefs.linked ==> !stream.View().Restarts(source, n)
      requires at + BLOCK_HEADER + n + prefs.CrcSize() <= dst.Length && dst != mem
      modifies stream, stream.table, dst, this`blocks, this`sent
      ensures Chained() && Recalls(mem[..], stream.dictSize) && k <= BLOCK_HEADER + n + prefs.CrcSize()
      ensures ChainContent(blocks) == old(ChainContent(blocks)) + mem[source..source + n]
      ensures blocks == old(blocks) + [Smaller(old(NextBlock(source, n)), mem[source..source + n])]
      ensures k == BLOCK_HEADER + |blocks[|old(blocks)|].data| + prefs.CrcSize()
      ensures sent == old(sent) + dst[at..at + k]
      ensures SameOutside(dst[..], old(dst[..]), at, at + BLOCK_HEADER + n + prefs.CrcSize())
      ensures prefs.linked ==>
                stream.View() == old(stream.View()).Next(source, n) && |stream.history| == |old(stream.history)| + n
    {
      hide Window.Next, Window.Restarts, Decodes, EndsWith, TableBefore, SameOutside, ChainOk, ChainBytes,
           ChainContent, HeaderBytes, BlockSize, NextBlock, Smaller, Made;
      ghost var block := NextBlock(source, n);
      var r := CompressBlock(source, n, dst, at + BLOCK_HEADER, n - 1);
      ghost var m := dst[..];
      ghost var b := Made(mem[source..source + n], r, dst[at + BLOCK_HEADER..at + BLOCK_HEADER + r]);
      MadeIs(block, mem[source..source + n], r, dst[at + BLOCK_HEADER..at + BLOCK_HEADER + r]);
      MadeOk(prefs.Head(), ChainContent(blocks), mem[source..source + n], r,
             dst[at + BLOCK_HEADER..at + BLOCK_HEADER + r]);
      k := SealBlock(hash, prefs.blockChecksum, dst, at, mem[source..source + n], r);
      AddBlock(b, dst[at..at + k]);
      SameTwo(old(dst[..]), m, dst[..], at + BLOCK_HEADER, at + BLOCK_HEADER + n - 1, at, at + k, at,
              at + BLOCK_HEADER + n + prefs.CrcSize());
    }

    /** A block from the buffer: the history then ends in the buffer. */
    method BlockFromBuffer(n: nat, dst: array<Byte>, at: nat) returns (k: nat)
      requires Settled() && Chained() && StreamOk(mem[..]) && DictAt(tmpIn) && !prefs.autoFlush
      requires 1 <= n == tmpInSize <= maxBlockSize
      requires 0 < arena <= tmpIn && tmpIn + n <= arena + reserve <= mem.Length
      requires at + BLOCK_HEADER + n + prefs.CrcSize() <= dst.Length && dst != mem
      modifies stream, stream.table, dst, this`blocks, this`sent
      ensures Chained() && Recalls(mem[..], stream.dictSize) && DictAt(tmpIn + n)
      ensures k <= BLOCK_HEADER + n + prefs.CrcSize()
      ensures ChainContent(blocks) == old(ChainContent(blocks)) + mem[tmpIn..tmpIn + n]
      ensures sent == old(sent) + dst[at..at + k]
      ensures SameOutside(dst[..], old(dst[..]), at, at + BLOCK_HEADER + n + prefs.CrcSize())
      ensures prefs.linked ==> stream.dictSize >= n && stream.dictionary + stream.dictSize == tmpIn + n
      ensures forall x, pos :: Places(x, pos) ==> old(Places(x, pos))
    {
      hide Recalls, Chained, SameOutside, ChainContent, BlockSize, UsableDict, NextBlock, Smaller;
      InBuffer(n);
      RecallsFewer(mem[..], stream.dictSize, UsableDict(stream.dictionary, stream.dictSize, tmpIn, n));
      k := MakeBlock(tmpIn, n, dst, at);
    }

    lemma RecallsHistory(m: seq<Byte>)
      requires StreamOk(m)
      ensures prefs.linked ==> stream.history == ChainContent(blocks)
    {
    }

    lemma RecallsFewer(m: seq<Byte>, n: nat, k: nat)
      requires Recalls(m, n) && k <= n
      ensures Recalls(m, k)
    {
      hide EndsWith, TableBefore, Stream.Finds;
      if prefs.linked { stream.FindsFewer(m, n, k); }
    }

    /** A block straight from the source: the history then ends in the caller's memory. */
    method BlockFromSource(source: nat, n: nat, dst: array<Byte>, at: nat, ghost src: nat, ghost srcEnd: nat,
                           ghost goal: seq<Byte>)
      returns (k: nat)
      requires Settled() && Chained() && StreamOk(mem[..]) && DictAt(tmpIn) && 1 <= n <= maxBlockSize && tmpInSize == 0
      requires tmpIn <= arena + reserve && (prefs.autoFlush || n >= KB64)
      requires 0 < src <= source && source + n <= srcEnd <= mem.Length && Foreign(arena, reserve, src, srcEnd)
      requires prefs.linked ==> !stream.View().Restarts(source, n)
      requires |ChainContent(blocks)| + (srcEnd - source) == |goal|
      requires at + BLOCK_HEADER + n + prefs.CrcSize() <= dst.Length && dst != mem
      modifies stream, stream.table, dst, this`blocks, this`sent
      ensures Chained() && StreamOk(mem[..]) && DictAt(0) && k <= BLOCK_HEADER + n + prefs.CrcSize()
      ensures ChainContent(blocks) == old(ChainContent(blocks)) + mem[source..source + n]
      ensures sent == old(sent) + dst[at..at + k]
      ensures SameOutside(dst[..], old(dst[..]), at, at + BLOCK_HEADER + n + prefs.CrcSize())
      ensures prefs.linked ==> stream.dictSize > 0 && stream.dictionary + stream.dictSize == source + n
      ensures forall x, pos :: Places(x, pos) ==>
                old(Places(x, pos)) || (src <= x < srcEnd && pos == |goal| - (srcEnd - x))
    {
      hide Recalls, Chained, SameOutside, ChainContent, BlockSize, UsableDict, NextBlock, Smaller;
      RecallsHistory(mem[..]);
      RecallsFewer(mem[..], stream.dictSize, UsableDict(stream.dictionary, stream.dictSize, source, n));
      k := MakeBlock(source, n, dst, at);
    }

    // ----- LZ4F_compressUpdate -----

    /** In the middle of an update: blocks, buffered input and what is left of the source make up `goal`. */
    ghost predicate Midway(m: seq<Byte>, sp: nat, srcEnd: nat, goal: seq<Byte>)
      reads `prefs, `maxBlockSize, `blocks, `sent, `tmpIn, `tmpInSize, stream, stream.table
    {
      && Settled() && Chained() && StreamOk(m) && DictAt(tmpIn) && sp <= srcEnd <= |m|
      && (tmpInSize > 0 ==> tmpIn + tmpInSize <= |m| && sp == srcEnd)
      && ChainContent(blocks) + Held(m) + m[sp..srcEnd] == goal
    }

    /** Where the buffer stands: with room for a block, or just behind one. */
    predicate Standing()
      reads `prefs, `maxBlockSize, `tmpBuff, `maxBufferSize, `tmpIn, `tmpInSize
    {
      && tmpIn <= arena + reserve && (!prefs.linked ==> tmpIn == tmpBuff)
      && (prefs.autoFlush ==> tmpInSize == 0)
      && (!prefs.autoFlush ==>
            && Backed() && maxBlockSize + (if prefs.linked then 2 * KB64 else 0) <= maxBufferSize
            && arena <= tmpIn && (tmpInSize > 0 ==> Roomy() && tmpInSize < maxBlockSize))
    }

    /** Filling the buffer leaves alone what an offset can reach of the history. */
    lemma StreamKept(m: seq<Byte>, m': seq<Byte>, k: nat)
      requires var to := tmpIn + tmpInSize;
               SameOutside(m', m, to, to + k) && arena <= tmpIn && to + k <= arena + reserve
      requires StreamOk(m) && DictAt(tmpIn) && !prefs.autoFlush
      ensures StreamOk(m')
    {
      hide EndsWith, SameOutside, TableBefore, ChainContent;
      var to, n := tmpIn + tmpInSize, Min(stream.dictSize, KB64);
      if prefs.linked && n > 0 {
        EndsWithKept(stream.history, m, m', stream.dictionary + stream.dictSize - n, n, to, to + k);
      }
    }

    /** memcpy of source bytes behind those already buffered. */
    method AddToBuffer(source: nat, k: nat)
      requires StreamOk(mem[..]) && DictAt(tmpIn) && arena <= tmpIn
      requires tmpIn + tmpInSize + k <= arena + reserve <= mem.Length
      requires source + k <= mem.Length && Foreign(arena, reserve, source, source + k) && !prefs.autoFlush
      modifies mem, this`tmpInSize
      ensures tmpInSize == old(tmpInSize) + k && Held(mem[..]) == old(Held(mem[..])) + Slice(old(mem[..]), source, k)
      ensures StreamOk(mem[..]) && SameOutside(mem[..], old(mem[..]), arena, arena + reserve)
    {
      hide Recalls, SameOutside, DictAt, Slice, HeldFor;
      var to := tmpIn + tmpInSize;
      Memcpy(mem, to, source, k);
      ghost var m, m' := old(mem[..]), mem[..];
      StreamKept(m, m', k);
      SameWide(m', m, to, to + k, arena, arena + reserve);
      HeldMore(m, m', source, k);
      tmpInSize := tmpInSize + k;
    }

    lemma HeldMore(m: seq<Byte>, m': seq<Byte>, source: nat, k: nat)
      requires var to := tmpIn + tmpInSize;
               to + k <= |m| && source + k <= |m| && SameOutside(m', m, to, to + k)
                 && Slice(m', to, k) == Slice(m, source, k)
      ensures HeldFor(m', tmpInSize + k) == Held(m) + Slice(m, source, k)
    {
      var to := tmpIn + tmpInSize;
      Lengthened(m, m', tmpIn, to, k);
      hide SameOutside;
      assert m'[to..to + k] == m[source..source + k];
    }

    /** The buffered input becomes a block; with linked blocks, the buffer goes on behind it. */
    method EmitBuffer(dst: array<Byte>, at: nat) returns (k: nat)
      requires Settled() && Chained() && StreamOk(mem[..]) && DictAt(tmpIn) && !prefs.autoFlush
      requires 1 <= tmpInSize <= maxBlockSize
      requires 0 < arena <= tmpIn && tmpIn + tmpInSize <= arena + reserve <= mem.Length
      requires at + BLOCK_HEADER + tmpInSize + prefs.CrcSize() <= dst.Length && dst != mem
      modifies stream, stream.table, dst, this`blocks, this`sent, this`tmpIn, this`tmpInSize
      ensures Chained() && StreamOk(mem[..]) && DictAt(tmpIn) && k <= BLOCK_HEADER + old(tmpInSize) + prefs.CrcSize()
      ensures ChainContent(blocks) == old(ChainContent(blocks) + Held(mem[..])) && tmpInSize == 0
      ensures tmpIn == old(tmpIn) + if prefs.linked then old(tmpInSize) else 0
      ensures prefs.linked ==> stream.dictSize >= old(tmpInSize) && stream.dictionary + stream.dictSize == tmpIn
      ensures forall x, pos :: Places(x, pos) ==> old(Places(x, pos))
      ensures sent == old(sent) + dst[at..at + k]
      ensures SameOutside(dst[..], old(dst[..]), at, at + BLOCK_HEADER + old(tmpInSize) + prefs.CrcSize())
    {
      hide Recalls, Chained, SameOutside, ChainContent, BlockSize;
      k := BlockFromBuffer(tmpInSize, dst, at);
      if prefs.linked { tmpIn := tmpIn + tmpInSize; }
      tmpInSize := 0;
    }

    /** Completes the buffered block with the start of the source, or adds all of the source to it. */
    method FillBuffer(src: nat, n: nat, dst: array<Byte>, at: nat) returns (sp: nat, op: nat, made: bool)
      requires Running(mem[..]) && 0 < arena && arena + reserve <= mem.Length && Buffer() && dst != mem
      requires src + n <= mem.Length && Foreign(arena, reserve, src, src + n)
      requires tmpInSize + n >= maxBlockSize ==> at + Cost(prefs, 1, 0) <= dst.Length
      requires at <= dst.Length && !Retakes(src, n)
      modifies mem, stream, stream.table, dst, this`tmpIn, this`tmpInSize, this`blocks, this`sent
      ensures Midway(mem[..], sp, src + n, old(input) + Slice(old(mem[..]), src, n)) && src <= sp <= src + n
      ensures Standing()
      ensures Apt(sp, src + n - sp)
      ensures SameOutside(mem[..], old(mem[..]), arena, arena + reserve)
      ensures forall x, pos :: Places(x, pos) ==> old(Places(x, pos))
      ensures made ==> old(tmpInSize) + (sp - src) == maxBlockSize && tmpInSize == 0
      ensures !made ==> old(tmpInSize) + (sp - src) == tmpInSize && op == at && dst[..] == old(dst[..])
      ensures made ==> at <= op <= at + Cost(prefs, 1, 0) && op <= dst.Length
      ensures SameOutside(dst[..], old(dst[..]), at, if made then at + Cost(prefs, 1, 0) else at)
      ensures sent == old(sent) + dst[at..op]
    {
      hide SameOutside, Midway, Running, Cost, Standing, Places, Window.Restarts;
      RunningBasics();
      if tmpInSize == 0 {
        StartMidway(src, n);
        SameAll(mem[..], arena, arena + reserve);
        SameAll(dst[..], at, at);
        return src, at, false;
      }
      var sizeToCopy := maxBlockSize - tmpInSize;
      if sizeToCopy > n {
        AddAll(src, n);
        SameAll(dst[..], at, at);
        return src + n, at, false;
      }
      OneFull(prefs);
      var k := CompleteBlock(src, n, sizeToCopy, dst, at);
      return src + sizeToCopy, at + k, true;
    }

    lemma RunningBasics()
      requires Running(mem[..])
      ensures Settled() && tmpInSize < maxBlockSize && stream.Valid()
    {
      hide Chained, DictAt, Counted, ChainContent, BlockSize, TableBefore, EndsWith;
    }

    lemma StartMidway(src: nat, n: nat)
      requires Running(mem[..]) && tmpInSize == 0 && src + n <= mem.Length
      ensures Midway(mem[..], src, src + n, input + Slice(mem[..], src, n)) && Standing()
    {
      hide StreamOk, Chained, DictAt, Counted, ChainContent, BlockSize;
    }

    /** All of the source fits in the buffer. */
    method AddAll(src: nat, n: nat)
      requires Running(mem[..]) && 0 < arena && arena + reserve <= mem.Length && 0 < tmpInSize
      requires tmpInSize + n < maxBlockSize
      requires src + n <= mem.Length && Foreign(arena, reserve, src, src + n)
      modifies mem, this`tmpInSize
      ensures Midway(mem[..], src + n, src + n, old(input) + Slice(old(mem[..]), src, n)) && Standing()
      ensures tmpInSize == old(tmpInSize) + n && SameOutside(mem[..], old(mem[..]), arena, arena + reserve)
    {
      hide SameOutside, Chained, StreamOk, ChainContent, BlockSize, Counted, DictAt, Running;
      Buffering();
      AddToBuffer(src, n);
      assert mem[..][src + n..src + n] == [];
    }

    /** The source completes the buffered block, which is then emitted. */
    method CompleteBlock(src: nat, n: nat, sizeToCopy: nat, dst: array<Byte>, at: nat) returns (k: nat)
      requires Running(mem[..]) && 0 < arena && arena + reserve <= mem.Length && dst != mem
      requires 0 < tmpInSize && tmpInSize + sizeToCopy == maxBlockSize && sizeToCopy <= n
      requires src + n <= mem.Length && Foreign(arena, reserve, src, src + n)
      requires at + BLOCK_HEADER + maxBlockSize + prefs.CrcSize() <= dst.Length
      modifies mem, stream, stream.table, dst, this`tmpIn, this`tmpInSize, this`blocks, this`sent
      ensures Midway(mem[..], src + sizeToCopy, src + n, old(input) + Slice(old(mem[..]), src, n)) && Standing()
      ensures tmpInSize == 0
      ensures Apt(src + sizeToCopy, n - sizeToCopy)
      ensures SameOutside(mem[..], old(mem[..]), arena, arena + reserve)
      ensures forall x, pos :: Places(x, pos) ==> old(Places(x, pos))
      ensures k <= BLOCK_HEADER + maxBlockSize + prefs.CrcSize() && sent == old(sent) + dst[at..at + k]
      ensures SameOutside(dst[..], old(dst[..]), at, at + BLOCK_HEADER + maxBlockSize + prefs.CrcSize())
    {
      hide SameOutside, Chained, StreamOk, ChainContent, BlockSize, Counted, DictAt, Slice, Midway, Standing, Running,
           Held, Places;
      Buffering();
      AddToBuffer(src, sizeToCopy);
      SourceLeft(old(mem[..]), mem[..], src, sizeToCopy, n);
      Joined(ChainContent(blocks), old(Held(mem[..])), Slice(old(mem[..]), src, sizeToCopy),
             mem[..][src + sizeToCopy..src + n]);
      k := EmitBuffer(dst, at);
      StandsBehind();
      if prefs.linked { BehindBuffer(src + sizeToCopy, n - sizeToCopy); }
      AllInBlocks(mem[..], src + sizeToCopy, src + n, old(input) + Slice(old(mem[..]), src, n));
    }

    lemma Buffering()
      requires Running(mem[..]) && 0 < tmpInSize
      ensures Settled() && Chained() && StreamOk(mem[..]) && DictAt(tmpIn) && !prefs.autoFlush && Roomy()
      ensures (!prefs.linked ==> tmpIn == tmpBuff) && input == ChainContent(blocks) + Held(mem[..])
    {
      hide Chained, StreamOk, ChainContent, BlockSize, DictAt, Counted, Held, Roomy;
    }

    lemma StandsBehind()
      requires tmpInSize == 0 && !prefs.autoFlush && Backed() && (!prefs.linked ==> tmpIn == tmpBuff)
      requires maxBlockSize + (if prefs.linked then 2 * KB64 else 0) <= maxBufferSize
      requires arena <= tmpIn <= arena + reserve
      ensures Standing()
    {
    }

    lemma AllInBlocks(m: seq<Byte>, sp: nat, srcEnd: nat, goal: seq<Byte>)
      requires Settled() && Chained() && StreamOk(m) && DictAt(tmpIn) && sp <= srcEnd <= |m| && tmpInSize == 0
      requires ChainContent(blocks) + m[sp..srcEnd] == goal
      ensures Midway(m, sp, srcEnd, goal)
    {
      hide Chained, StreamOk, ChainContent, BlockSize, DictAt;
    }

    lemma SourceLeft(m: seq<Byte>, m': seq<Byte>, src: nat, k: nat, n: nat)
      requires k <= n && src + n <= |m| && SameOutside(m', m, arena, arena + reserve)
      requires Foreign(arena, reserve, src, src + n)
      ensures |m'| == |m| && Slice(m, src, n) == Slice(m, src, k) + m'[src + k..src + n]
    {
      SameSlice(m', m, arena, arena + reserve, src + k, src + n);
    }

    /** One block of the update, straight from the source. */
    method NextFromSource(sp: nat, n: nat, dst: array<Byte>, op: nat, ghost src: nat, ghost srcEnd: nat,
                          ghost goal: seq<Byte>)
      returns (k: nat)
      requires Midway(mem[..], sp, srcEnd, goal) && Standing() && 1 <= n <= maxBlockSize && sp + n <= srcEnd
      requires 0 < src <= sp && Foreign(arena, reserve, src, srcEnd) && (n == maxBlockSize || prefs.autoFlush)
      requires op + BLOCK_HEADER + n + prefs.CrcSize() <= dst.Length && dst != mem
      requires prefs.linked ==> !stream.View().Restarts(sp, n)
      modifies stream, stream.table, dst, this`blocks, this`sent
      ensures Midway(mem[..], sp + n, srcEnd, goal) && DictAt(0)
      ensures prefs.linked ==> stream.dictSize > 0 && stream.dictionary + stream.dictSize == sp + n
      ensures forall x, pos :: Places(x, pos) ==>
                old(Places(x, pos)) || (src <= x < srcEnd && pos == |goal| - (srcEnd - x))
      ensures k <= BLOCK_HEADER + n + prefs.CrcSize() && sent == old(sent) + dst[op..op + k]
      ensures SameOutside(dst[..], old(dst[..]), op, op + BLOCK_HEADER + n + prefs.CrcSize())
    {
      hide SameOutside, Chained, StreamOk, ChainContent, BlockSize, Slice;
      SourceTaken(ChainContent(blocks), mem[..], sp, n, srcEnd);
      k := BlockFromSource(sp, n, dst, op, src, srcEnd, goal);
      assert mem[..][sp..sp + n] == mem[sp..sp + n];
    }

    /** What has been written from `op0` to `op`, with nothing outside [op0, end). */
    ghost predicate Written(d0: seq<Byte>, d: seq<Byte>, before: seq<Byte>, op0: nat, op: nat, end: nat)
      reads `sent
    {
      op0 <= op <= end <= |d0| == |d| && SameOutside(d, d0, op0, end) && sent == before + d[op0..op]
    }

    /** One block of the update, behind the output so far. */
    method WriteNext(sp: nat, n: nat, dst: array<Byte>, op: nat, end: nat, ghost src: nat, ghost srcEnd: nat,
                     ghost goal: seq<Byte>,
                     ghost d0: seq<Byte>, ghost before: seq<Byte>, ghost op0: nat)
      returns (k: nat)
      requires Midway(mem[..], sp, srcEnd, goal) && Standing() && 1 <= n <= maxBlockSize && sp + n <= srcEnd
      requires 0 < src <= sp && Foreign(arena, reserve, src, srcEnd) && Written(d0, dst[..], before, op0, op, end)
      requires n == maxBlockSize || prefs.autoFlush
      requires op + BLOCK_HEADER + n + prefs.CrcSize() <= end && dst != mem
      requires prefs.linked ==> !stream.View().Restarts(sp, n)
      modifies stream, stream.table, dst, this`blocks, this`sent
      ensures Midway(mem[..], sp + n, srcEnd, goal) && DictAt(0)
      ensures prefs.linked ==> stream.dictSize > 0 && stream.dictionary + stream.dictSize == sp + n
      ensures forall x, pos :: Places(x, pos) ==>
                old(Places(x, pos)) || (src <= x < srcEnd && pos == |goal| - (srcEnd - x))
      ensures k <= BLOCK_HEADER + n + prefs.CrcSize() && Written(d0, dst[..], before, op0, op + k, end)
    {
      hide SameOutside, Midway, Standing, DictAt, Places, Window.Restarts;
      ghost var d := dst[..];
      k := NextFromSource(sp, n, dst, op, src, srcEnd, goal);
      assert |d| == |dst[..]|;
      SentOn(d0, d, dst[..], before, op0, op, op + BLOCK_HEADER + n + prefs.CrcSize(), end, k);
      assert dst[..][op..op + k] == dst[op..op + k];
    }

    /** A block that follows the dictionary does not start where it does. */
    lemma FollowsOn(source: nat, n: nat)
      requires prefs.linked ==> stream.dictionary + stream.dictSize == source
      ensures Apt(source, n)
    {
    }

    /** Nor does one in the caller's memory, behind a full block from the buffer, unless it is too short for harm. */
    lemma BehindBuffer(source: nat, n: nat)
      requires Settled() && (n > 0 ==> !(arena <= source < arena + reserve))
      requires arena + maxBlockSize <= tmpIn <= arena + reserve
      requires prefs.linked ==> stream.dictionary + stream.dictSize == tmpIn && stream.dictSize >= maxBlockSize
      ensures Apt(source, n)
    {
    }

    /** Nor does one in the buffer. */
    lemma InBuffer(n: nat)
      requires DictAt(tmpIn) && !prefs.autoFlush && 0 < arena <= tmpIn && tmpIn + n <= arena + reserve && n > 0
      ensures prefs.linked ==> !stream.View().Restarts(tmpIn, n)
    {
    }

    /** The loop over full blocks. */
    method FullBlocks(sp0: nat, srcEnd: nat, dst: array<Byte>, op0: nat, end: nat, ghost src: nat,
                      ghost goal: seq<Byte>,
                      ghost all: nat, ghost d0: seq<Byte>, ghost before: seq<Byte>, ghost start: nat)
      returns (sp: nat, op: nat, made: nat)
      requires Midway(mem[..], sp0, srcEnd, goal) && Standing() && src <= sp0 <= srcEnd && (sp0 < srcEnd ==> 0 < src)
      requires FullSize(prefs, all) <= srcEnd - sp0 < FullSize(prefs, all + 1) && Foreign(arena, reserve, src, srcEnd)
      requires op0 + Cost(prefs, all, 0) <= end && dst != mem && Written(d0, dst[..], before, start, op0, end)
      requires Apt(sp0, srcEnd - sp0)
      modifies stream, stream.table, dst, this`blocks, this`sent
      ensures Midway(mem[..], sp, srcEnd, goal) && made == all && sp == sp0 + FullSize(prefs, all) <= srcEnd
      ensures op <= op0 + Cost(prefs, all, 0) && Written(d0, dst[..], before, start, op, end)
      ensures made > 0 ==> DictAt(0) && (prefs.linked ==> stream.dictSize > 0)
      ensures Apt(sp, srcEnd - sp)
      ensures forall x, pos :: Places(x, pos) ==>
                old(Places(x, pos)) || (made > 0 && src <= x < srcEnd && pos == |goal| - (srcEnd - x))
    {
      hide Written, Midway, Standing, Cost, DictAt, BlockSize, FullSize, Places, Window.Restarts;
      MidwayBounds(sp0, srcEnd, goal);
      sp, op, made := sp0, op0, 0;
      NoBlocks(prefs);
      while srcEnd - sp >= maxBlockSize
        invariant sp == sp0 + FullSize(prefs, made) <= srcEnd && made <= all && Midway(mem[..], sp, srcEnd, goal)
        invariant op <= op0 + Cost(prefs, made, 0) && Written(d0, dst[..], before, start, op, end)
        invariant made > 0 ==> DictAt(0) && (prefs.linked ==> stream.dictSize > 0)
        invariant Apt(sp, srcEnd - sp)
        invariant forall x, pos :: Places(x, pos) ==>
                    old(Places(x, pos)) || (made > 0 && src <= x < srcEnd && pos == |goal| - (srcEnd - x))
      {
        NextFull(prefs, made, all, srcEnd - sp0);
        var k := WriteNext(sp, maxBlockSize, dst, op, end, src, srcEnd, goal, d0, before, start);
        sp, op, made := sp + maxBlockSize, op + k, made + 1;
        FollowsOn(sp, srcEnd - sp);
      }
      LastFull(prefs, made, all, srcEnd - sp0);
    }

    // ----- The end of an update -----

    /** LZ4F_localSaveDict: history moves to the start of the buffer, and input is then buffered behind it. */
    method SaveHistory()
      requires prefs.linked && StreamOk(mem[..]) && tmpInSize == 0 && Backed() && KB64 <= maxBufferSize && 0 < arena
      requires arena + reserve <= mem.Length
      modifies mem, stream, this`tmpIn
      ensures StreamOk(mem[..]) && DictAt(tmpIn) && tmpIn == tmpBuff + Min(KB64, old(stream.dictSize))
      ensures tmpBuff == arena
      ensures SameOutside(mem[..], old(mem[..]), arena, arena + reserve)
      ensures forall x, pos :: !Places(x, pos)
    {
      hide EndsWith, SameOutside, TableBefore, ChainContent;
      var saved := stream.SaveDict(mem, tmpBuff, KB64);
      SameWide(mem[..], old(mem[..]), tmpBuff, tmpBuff + saved, arena, arena + reserve);
      tmpIn := tmpBuff + saved;
    }

    /** Saving the history leaves the rest of the update as it was. */
    method SaveMidway(sp: nat, srcEnd: nat, ghost goal: seq<Byte>)
      requires Midway(mem[..], sp, srcEnd, goal) && prefs.linked && tmpInSize == 0
      requires Foreign(arena, reserve, sp, srcEnd)
      requires Backed() && KB64 <= maxBufferSize && 0 < arena && arena + reserve <= mem.Length
      modifies mem, stream, this`tmpIn
      ensures Midway(mem[..], sp, srcEnd, goal) && tmpBuff == arena
      ensures tmpIn == tmpBuff + Min(KB64, old(stream.dictSize))
      ensures SameOutside(mem[..], old(mem[..]), arena, arena + reserve)
      ensures forall x, pos :: !Places(x, pos)
    {
      hide Recalls, Chained, ChainContent, BlockSize, DictAt;
      SaveHistory();
      SameSlice(mem[..], old(mem[..]), arena, arena + reserve, sp, srcEnd);
    }

    /** With linked blocks, history in the caller's memory is saved, unless the source is stable. */
    method PreserveDict(fromSrc: bool, stableSrc: bool, sp: nat, srcEnd: nat, ghost goal: seq<Byte>)
      requires Midway(mem[..], sp, srcEnd, goal) && Standing() && Foreign(arena, reserve, sp, srcEnd) && Buffer()
      requires fromSrc ==> DictAt(0) && tmpInSize == 0 && (prefs.linked ==> stream.dictSize > 0)
      requires prefs.linked ==> (Backed() && KB64 <= maxBufferSize) || stableSrc
      requires 0 < arena && arena + reserve <= mem.Length
      modifies mem, stream, this`tmpIn
      ensures Midway(mem[..], sp, srcEnd, goal) && Standing()
      ensures SameOutside(mem[..], old(mem[..]), arena, arena + reserve)
      ensures forall x, pos :: Places(x, pos) ==> old(Places(x, pos)) && !(fromSrc && !stableSrc)
      ensures !stableSrc && fromSrc && prefs.linked ==> tmpIn > tmpBuff == arena
    {
      hide Midway, SameOutside, BlockSize;
      if prefs.linked && fromSrc {
        if stableSrc {
          RestartBuffer(sp, srcEnd, goal);
        } else {
          MidwayBounds(sp, srcEnd, goal);
          SaveMidway(sp, srcEnd, goal);
          return;
        }
      }
      SameAll(mem[..], arena, arena + reserve);
    }

    method RestartBuffer(sp: nat, srcEnd: nat, ghost goal: seq<Byte>)
      requires Midway(mem[..], sp, srcEnd, goal) && Standing() && Buffer() && DictAt(0) && tmpInSize == 0
      modifies this`tmpIn
      ensures Midway(mem[..], sp, srcEnd, goal) && Standing()
    {
      hide Recalls, Chained, ChainContent, BlockSize;
      tmpIn := tmpBuff;
    }

    /** Keeps room for one more block in the buffer. */
    method KeepRoom(sp: nat, srcEnd: nat, ghost goal: seq<Byte>)
      requires Midway(mem[..], sp, srcEnd, goal) && Standing() && Foreign(arena, reserve, sp, srcEnd)
      requires 0 < arena && arena + reserve <= mem.Length
      modifies mem, stream, this`tmpIn
      ensures Midway(mem[..], sp, srcEnd, goal) && Standing()
      ensures SameOutside(mem[..], old(mem[..]), arena, arena + reserve)
      ensures !prefs.autoFlush ==> Roomy()
      ensures forall x, pos :: Places(x, pos) ==> old(Places(x, pos))
      ensures prefs.autoFlush || old(Roomy()) ==> tmpIn == old(tmpIn)
    {
      hide Midway, SameOutside, BlockSize;
      MidwayBounds(sp, srcEnd, goal);
      if tmpIn + maxBlockSize > tmpBuff + maxBufferSize && !prefs.autoFlush {
        SaveMidway(sp, srcEnd, goal);
      } else {
        SameAll(mem[..], arena, arena + reserve);
      }
    }

    /** Buffers what is left of the source, which is less than a block. */
    method BufferRest(sp: nat, srcEnd: nat, ghost goal: seq<Byte>)
      requires Midway(mem[..], sp, srcEnd, goal) && Standing() && Foreign(arena, reserve, sp, srcEnd)
      requires srcEnd - sp < maxBlockSize
      requires if prefs.autoFlush then sp == srcEnd else Roomy()
      requires 0 < arena && arena + reserve <= mem.Length
      modifies mem, this`tmpInSize
      ensures Midway(mem[..], srcEnd, srcEnd, goal) && Standing()
      ensures SameOutside(mem[..], old(mem[..]), arena, arena + reserve)
      ensures !prefs.autoFlush ==> Roomy() && tmpInSize < maxBlockSize
    {
      hide StreamOk, Chained, ChainContent, BlockSize, DictAt, SameOutside;
      if sp < srcEnd {
        AddToBuffer(sp, srcEnd - sp);
        assert mem[..][srcEnd..srcEnd] == [];
      } else {
        SameAll(mem[..], arena, arena + reserve);
      }
    }

    /** The checksum and the total size count the source. */
    method CountInput(bytes: seq<Byte>)
      requires Settled() && Counted()
      modifies this`xxh, this`totalInSize, this`input
      ensures Counted() && input == old(input) + bytes
    {
      if prefs.contentChecksum { xxh := xxh + bytes; }
      totalInSize := (totalInSize + |bytes|) % TWO64;
      input := input + bytes;
      WrapAdd(|old(input)|, |bytes|);
    }

    /** The update is complete: what is not in blocks is in the buffer. */
    lemma UpdateDone(srcEnd: nat)
      requires Midway(mem[..], srcEnd, srcEnd, input) && Standing() && Counted() && arena + reserve <= mem.Length
      requires !prefs.autoFlush ==> Roomy() && tmpInSize < maxBlockSize
      requires prefs.autoFlush && prefs.linked && Backed() ==> KB64 <= maxBufferSize
      ensures Running(mem[..])
    {
      hide StreamOk, Chained, ChainContent, BlockSize, DictAt, Counted;
      assert mem[..][srcEnd..srcEnd] == [];
    }

    /** Everything after the last block of an update. */
    method FinishUpdate(fromSrc: bool, stableSrc: bool, sp: nat, srcEnd: nat, bytes: seq<Byte>)
      requires Midway(mem[..], sp, srcEnd, input + bytes) && Standing() && Foreign(arena, reserve, sp, srcEnd)
      requires Buffer() && Counted()
      requires fromSrc ==> DictAt(0) && tmpInSize == 0 && (prefs.linked ==> stream.dictSize > 0)
      requires Backed() || stableSrc
      requires prefs.autoFlush && prefs.linked && Backed() ==> KB64 <= maxBufferSize
      requires srcEnd - sp < maxBlockSize && (prefs.autoFlush ==> sp == srcEnd)
      requires 0 < arena && arena + reserve <= mem.Length
      modifies mem, stream, this`tmpIn, this`tmpInSize, this`xxh, this`totalInSize, this`input
      ensures Running(mem[..]) && input == old(input) + bytes
      ensures SameOutside(mem[..], old(mem[..]), arena, arena + reserve)
      ensures forall x, pos :: Places(x, pos) ==> old(Places(x, pos)) && !(fromSrc && !stableSrc)
    {
      hide Midway, SameOutside, BlockSize, Counted, Running, DictAt, Places;
      MidwayBounds(sp, srcEnd, input + bytes);
      ghost var m0 := mem[..];
      PreserveDict(fromSrc, stableSrc, sp, srcEnd, input + bytes);
      ghost var m1 := mem[..];
      KeepRoom(sp, srcEnd, input + bytes);
      ghost var m2 := mem[..];
      BufferRest(sp, srcEnd, input + bytes);
      SameTwo(m0, m1, m2, arena, arena + reserve, arena, arena + reserve, arena, arena + reserve);
      SameTwo(m0, m2, mem[..], arena, arena + reserve, arena, arena + reserve, arena, arena + reserve);
      CountInput(bytes);
      UpdateDone(srcEnd);
    }

    lemma FilledWritten(d0: seq<Byte>, d: seq<Byte>, before: seq<Byte>, at: nat, op: nat, end: nat, to: nat)
      requires at <= op <= to <= end <= |d0| == |d| && SameOutside(d, d0, at, to) && sent == before + d[at..op]
      ensures Written(d0, d, before, at, op, end)
    {
    }

    lemma FilledBounds(sp: nat, srcEnd: nat, goal: seq<Byte>)
      requires Midway(mem[..], sp, srcEnd, goal) && Standing()
      ensures Settled() && sp <= srcEnd <= mem.Length && tmpInSize < maxBlockSize && (tmpInSize > 0 ==> sp == srcEnd)
      ensures prefs.autoFlush ==> tmpInSize == 0
    {
      hide StreamOk, Chained, ChainContent, BlockSize, DictAt;
    }

    /** The buffered block of an update, if the source completes it. */
    method FirstBlock(src: nat, n: nat, dst: array<Byte>, at: nat, end: nat) returns (sp: nat, op: nat, made: bool)
      requires Running(mem[..]) && 0 < arena && arena + reserve <= mem.Length && Buffer() && dst != mem
      requires at <= end <= dst.Length
      requires src + n <= mem.Length && Foreign(arena, reserve, src, src + n)
      requires (tmpInSize + n >= maxBlockSize ==> at + Cost(prefs, 1, 0) <= end) && !Retakes(src, n)
      modifies mem, stream, stream.table, dst, this`tmpIn, this`tmpInSize, this`blocks, this`sent
      ensures Midway(mem[..], sp, src + n, old(input) + Slice(old(mem[..]), src, n)) && Standing() && Settled()
      ensures src <= sp <= src + n && tmpInSize < maxBlockSize && (tmpInSize > 0 ==> sp == src + n)
      ensures (prefs.autoFlush ==> tmpInSize == 0) && Apt(sp, src + n - sp)
      ensures SameOutside(mem[..], old(mem[..]), arena, arena + reserve)
      ensures forall x, pos :: Places(x, pos) ==> old(Places(x, pos))
      ensures if made then old(tmpInSize) + (sp - src) == maxBlockSize && tmpInSize == 0
              else old(tmpInSize) + (sp - src) == tmpInSize
      ensures Written(old(dst[..]), dst[..], old(sent), at, op, end) && op <= at + Cost(prefs, if made then 1 else 0, 0)
    {
      hide Midway, SameOutside, BlockSize, Running, Standing, Cost, Slice, Places, Apt;
      RunningBasics();
      NoBlocks(prefs);
      sp, op, made := FillBuffer(src, n, dst, at);
      FilledBounds(sp, src + n, old(input) + Slice(old(mem[..]), src, n));
      assert dst[..][at..op] == dst[at..op];
      FilledWritten(old(dst[..]), dst[..], old(sent), at, op, end, if made then at + Cost(prefs, 1, 0) else at);
    }

    /** The blocks of an update: the buffered one, full ones, and with automatic flushing the rest. */
    method UpdateBlocks(src: nat, n: nat, dst: array<Byte>, at: nat, end: nat) returns (sp: nat, op: nat, fromSrc: bool)
      requires Running(mem[..]) && 0 < arena && arena + reserve <= mem.Length && Buffer() && dst != mem
      requires end <= dst.Length
      requires src + n <= mem.Length && Foreign(arena, reserve, src, src + n) && (n > 0 ==> 0 < src)
      requires at + UpdateCost(prefs, tmpInSize + n) <= end && !Retakes(src, n)
      modifies mem, stream, stream.table, dst, this`tmpIn, this`tmpInSize, this`blocks, this`sent
      ensures Midway(mem[..], sp, src + n, old(input) + Slice(old(mem[..]), src, n)) && Standing()
      ensures src <= sp <= src + n
      ensures src + n - sp < maxBlockSize && (prefs.autoFlush ==> sp == src + n)
      ensures fromSrc ==> DictAt(0) && tmpInSize == 0 && (prefs.linked ==> stream.dictSize > 0)
      ensures SameOutside(mem[..], old(mem[..]), arena, arena + reserve)
      ensures forall x, pos :: Places(x, pos) ==>
                old(Places(x, pos)) || (fromSrc && src <= x < src + n && pos == |old(input)| + x - src)
      ensures Written(old(dst[..]), dst[..], old(sent), at, op, end) && op <= at + UpdateCost(prefs, old(tmpInSize) + n)
    {
      hide Midway, SameOutside, BlockSize, Running, DictAt, Standing, Written, Cost, UpdateCost, FullSize, Slice,
           Places, Window.Restarts;
      RunningBasics();
      ghost var size, goal := tmpInSize + n, input + Slice(mem[..], src, n);
      ghost var full := size / maxBlockSize;
      UpdateCosts(prefs, size);
      NoBlocks(prefs);
      var made;
      sp, op, made := FirstBlock(src, n, dst, at, end);
      LeftToTake(prefs, old(tmpInSize), n, sp - src, tmpInSize, made);
      var count;
      sp, op, count := FullBlocks(sp, src + n, dst, op, end, src, goal, if made then full - 1 else full,
                                  old(dst[..]), old(sent), at);
      fromSrc := count > 0;
      if prefs.autoFlush && sp < src + n {
        var k := WriteNext(sp, src + n - sp, dst, op, end, src, src + n, goal, old(dst[..]), old(sent), at);
        sp, op, fromSrc := src + n, op + k, true;
      }
    }

    /**
     LZ4F_compressUpdate. With the room LZ4F_compressBound_internal asks for it always succeeds; it takes
     all of the source, and what it writes goes on with the chain of blocks. It leaves room for the end
     of the frame as long as the blocks can be counted in 32 bits; beyond that, more room is needed.
     */
    method Update(src: nat, n: nat, stableSrc: bool, dst: array<Byte>, at: nat, capacity: nat) returns (r: Outcome)
      requires Valid() && src + n <= mem.Length && Foreign(arena, reserve, src, src + n) && (n > 0 ==> 0 < src)
      requires at + capacity <= dst.Length && dst != mem
      requires begun ==> (Backed() || stableSrc) && Affordable(n, prefs, tmpInSize, capacity) && !Retakes(src, n)
      modifies this, mem, stream, stream.table, dst
      ensures Valid() && begun == old(begun) && prefs == old(prefs) && (old(Backed()) ==> Backed())
      ensures SameOutside(dst[..], old(dst[..]), at, at + capacity)
      ensures SameOutside(mem[..], old(mem[..]), arena, arena + reserve)
      ensures !begun ==> r == Refused(Generic)
      ensures forall x, pos :: Places(x, pos) ==>
                old(Places(x, pos)) || (stableSrc && src <= x < src + n && pos == |old(input)| + x - src)
      ensures begun ==>
                (r == Refused(DstMaxSizeTooSmall) <==> capacity < old(CompressBoundInternal(n, prefs, tmpInSize)))
      ensures begun ==> (r.Done? <==> capacity >= old(CompressBoundInternal(n, prefs, tmpInSize)))
      ensures r.Refused? ==> sent == old(sent) && input == old(input)
      ensures r.Done? ==> r.size <= capacity
      ensures r.Done? && old(Countable(n, prefs, tmpInSize)) ==>
                r.size + prefs.EndSize() <= old(CompressBoundInternal(n, prefs, tmpInSize))
      ensures r.Done? ==> r.size <= old(UpdateCost(prefs, tmpInSize + n))
      ensures r.Done? ==> input == old(input) + Slice(old(mem[..]), src, n) && sent == old(sent) + dst[at..at + r.size]
    {
      hide Running, SameOutside, BlockSize, Slice, UpdateCost, CompressBoundInternal, Countable, Places, Apt;
      if begun { RunningBasics(); }
      if !begun || capacity < CompressBoundInternal(n, prefs, tmpInSize) {
        SameAll(dst[..], at, at + capacity);
        SameAll(mem[..], arena, arena + reserve);
        return Refused(if !begun then Generic else DstMaxSizeTooSmall);
      }
      if Countable(n, prefs, tmpInSize) { UpdateWithin(prefs, tmpInSize, n); }
      r := UpdateNow(src, n, stableSrc, dst, at, at + capacity);
      RunningBasics();
    }

    method UpdateNow(src: nat, n: nat, stableSrc: bool, dst: array<Byte>, at: nat, end: nat) returns (r: Outcome)
      requires Running(mem[..]) && 0 < arena && arena + reserve <= mem.Length && Buffer() && (Backed() || stableSrc)
      requires src + n <= mem.Length && Foreign(arena, reserve, src, src + n) && (n > 0 ==> 0 < src)
      requires at + UpdateCost(prefs, tmpInSize + n) <= end <= dst.Length && dst != mem && !Retakes(src, n)
      modifies mem, stream, stream.table, dst, this`tmpIn, this`tmpInSize, this`blocks, this`sent, this`xxh,
      this`totalInSize, this`input
      ensures Running(mem[..]) && SameOutside(dst[..], old(dst[..]), at, end)
      ensures SameOutside(mem[..], old(mem[..]), arena, arena + reserve)
      ensures forall x, pos :: Places(x, pos) ==>
                old(Places(x, pos)) || (stableSrc && src <= x < src + n && pos == |old(input)| + x - src)
      ensures r.Done? && r.size <= UpdateCost(prefs, old(tmpInSize) + n) && at + r.size <= end
      ensures input == old(input) + Slice(old(mem[..]), src, n) && sent == old(sent) + dst[at..at + r.size]
    {
      hide Midway, SameOutside, BlockSize, Running, DictAt, Standing, UpdateCost, Slice, Counted, Places, Retakes;
      RunningCounts();
      var bytes := Slice(mem[..], src, n);
      var sp, op, fromSrc := UpdateBlocks(src, n, dst, at, end);
      ghost var m := mem[..];
      FinishUpdate(fromSrc, stableSrc, sp, src + n, bytes);
      SameTwo(old(mem[..]), m, mem[..], arena, arena + reserve, arena, arena + reserve, arena, arena + reserve);
      assert dst[..][at..op] == dst[at..op];
      r := Done(op - at);
    }

    lemma RunningCounts()
      requires Running(mem[..])
      ensures Counted() && (prefs.autoFlush && prefs.linked && Backed() ==> KB64 <= maxBufferSize)
    {
    }

    // ----- LZ4F_flush and LZ4F_compressEnd -----

    /** LZ4F_flush: everything buffered goes into a block. */
    method Flush(dst: array<Byte>, at: nat, capacity: nat) returns (r: Outcome)
      requires Valid() && begun && at + capacity <= dst.Length && dst != mem
      modifies this, mem, stream, stream.table, dst
      ensures Valid() && begun && prefs == old(prefs) && input == old(input) && (old(Backed()) ==> Backed())
      ensures SameOutside(dst[..], old(dst[..]), at, at + capacity)
      ensures SameOutside(mem[..], old(mem[..]), arena, arena + reserve)
      ensures old(tmpInSize) == 0 ==> r == Done(0)
      ensures r.Done? <==> old(tmpInSize) == 0 || capacity >= old(tmpInSize) + BLOCK_HEADER + BLOCK_FOOTER
      ensures r.Refused? ==> r.error == DstMaxSizeTooSmall
      ensures forall x, pos :: Places(x, pos) ==> old(Places(x, pos))
      ensures r.Done? && old(tmpInSize) > 0 ==> r.size <= old(tmpInSize) + BLOCK_HEADER + prefs.CrcSize()
      ensures r.Done? ==> tmpInSize == 0 && r.size <= capacity && sent == old(sent) + dst[at..at + r.size]
      ensures r.Refused? ==> sent == old(sent) && tmpInSize == old(tmpInSize)
    {
      hide Running, SameOutside, BlockSize;
      RunningBasics();
      if tmpInSize == 0 || capacity < tmpInSize + BLOCK_HEADER + BLOCK_FOOTER {
        SameAll(dst[..], at, at + capacity);
        SameAll(mem[..], arena, arena + reserve);
        return if tmpInSize == 0 then Done(0) else Refused(DstMaxSizeTooSmall);
      }
      var k := FlushNow(dst, at);
      RunningBasics();
      SameWide(dst[..], old(dst[..]), at, at + BLOCK_HEADER + old(tmpInSize) + prefs.CrcSize(), at, at + capacity);
      r := Done(k);
    }

    method FlushNow(dst: array<Byte>, at: nat) returns (k: nat)
      requires Running(mem[..]) && 0 < tmpInSize && 0 < arena && arena + reserve <= mem.Length && dst != mem
      requires at + BLOCK_HEADER + tmpInSize + prefs.CrcSize() <= dst.Length
      modifies mem, stream, stream.table, dst, this`tmpIn, this`tmpInSize, this`blocks, this`sent
      ensures k <= BLOCK_HEADER + old(tmpInSize) + prefs.CrcSize()
      ensures Running(mem[..]) && tmpInSize == 0 && sent == old(sent) + dst[at..at + k]
      ensures SameOutside(dst[..], old(dst[..]), at, at + BLOCK_HEADER + old(tmpInSize) + prefs.CrcSize())
      ensures SameOutside(mem[..], old(mem[..]), arena, arena + reserve)
      ensures forall x, pos :: Places(x, pos) ==> old(Places(x, pos))
    {
      hide Midway, SameOutside, BlockSize, Running, DictAt, Counted;
      RunningCounts();
      k := FlushBlock(dst, at);
      KeepRoom(0, 0, input);
      MidwayBounds(0, 0, input);
      UpdateDone(0);
    }

    method FlushBlock(dst: array<Byte>, at: nat) returns (k: nat)
      requires Running(mem[..]) && 0 < tmpInSize && 0 < arena && arena + reserve <= mem.Length && dst != mem
      requires at + BLOCK_HEADER + tmpInSize + prefs.CrcSize() <= dst.Length
      modifies stream, stream.table, dst, this`tmpIn, this`tmpInSize, this`blocks, this`sent
      ensures k <= BLOCK_HEADER + old(tmpInSize) + prefs.CrcSize() && !prefs.autoFlush
      ensures forall x, pos :: Places(x, pos) ==> old(Places(x, pos))
      ensures Midway(mem[..], 0, 0, input) && Standing() && tmpInSize == 0 && sent == old(sent) + dst[at..at + k]
      ensures SameOutside(dst[..], old(dst[..]), at, at + BLOCK_HEADER + old(tmpInSize) + prefs.CrcSize())
    {
      hide SameOutside, Chained, StreamOk, ChainContent, BlockSize, Counted, DictAt;
      k := EmitBuffer(dst, at);
      assert mem[..][0..0] == [];
    }

    /** `bytes` are a frame with the preferences' header, and its content is all input. */
    ghost predicate Framed(bytes: seq<Byte>)
      reads `prefs, `blocks, `input
    {
      prefs.Ok() &&
      var f := Lz4(prefs.Head(), blocks);
      FrameOk(f) && FrameContent(f) == input && bytes == FrameBytes(hash, f)
    }

    /** The end mark and the content checksum. */
    method WriteEnd(dst: array<Byte>, pos: nat)
      requires pos + prefs.EndSize() <= dst.Length
      modifies dst
      ensures dst[pos..pos + prefs.EndSize()] == Bytes32(0) + Checksum(hash, prefs.contentChecksum, xxh)
      ensures SameOutside(dst[..], old(dst[..]), pos, pos + prefs.EndSize())
    {
      hide Bytes32;
      Write32(dst, pos, 0);
      if prefs.contentChecksum {
        Write32(dst, pos + 4, hash(xxh));
        assert dst[pos..pos + 8] == dst[pos..pos + 4] + dst[pos + 4..pos + 8];
      }
    }

    /** Header, blocks, end mark and checksum: the whole frame. */
    lemma FrameClosed(d: seq<Byte>, d': seq<Byte>, before: seq<Byte>, at: nat, k: nat)
      requires Running(mem[..]) && tmpInSize == 0 && at + k + prefs.EndSize() <= |d| == |d'|
      requires sent == before + d[at..at + k]
      requires var pos, end := at + k, at + k + prefs.EndSize();
               SameOutside(d', d, pos, end) && d'[pos..end] == Bytes32(0) + Checksum(hash, prefs.contentChecksum, xxh)
      ensures Framed(before + d'[at..at + k + prefs.EndSize()]) <==>
                prefs.contentSize == 0 || prefs.contentSize == |input|
      ensures prefs.contentSize == |input| % TWO64 ==> (prefs.contentSize == |input| <==> |input| < TWO64)
    {
      hide StreamOk, DictAt, BlockSize, HeaderBytes, ChainOk, ChainContent, ChainBytes, FrameOk, FrameBytes,
           FrameContent, Bytes32;
      var pos, end := at + k, at + k + prefs.EndSize();
      SameSlice(d', d, pos, end, at, pos);
      assert d'[at..end] == d'[at..pos] + d'[pos..end];
      assert input == ChainContent(blocks);
      if prefs.contentSize == 0 || prefs.contentSize == |input| {
        ChainFrame(hash, prefs.Head(), blocks);
        assert before + d'[at..end] == sent + d'[pos..end];
      } else {
        NotFramed(before + d'[at..end]);
      }
    }

    /** A frame holds as much as its header promises. */
    lemma NotFramed(bytes: seq<Byte>)
      requires prefs.contentSize > 0 && prefs.contentSize != |input|
      ensures !Framed(bytes)
    {
      hide Body, FrameBytes, BodyOk;
      if Framed(bytes) {
        BodySize(prefs.Head(), [], blocks);
        assert false;
      }
    }

    method CloseFrame()
      requires stream.Valid() && 0 < arena && arena + reserve <= mem.Length && Buffer()
      modifies this`begun, this`maxBufferSize
      ensures !begun && Valid()
    {
      hide TableBefore;
      begun, maxBufferSize := false, 0;
    }

    /** The end mark and the checksum behind the last block, which complete the frame. */
    method CloseNow(dst: array<Byte>, at: nat, k: nat, ghost before: seq<Byte>)
      requires Valid() && begun && tmpInSize == 0 && at + k + prefs.EndSize() <= dst.Length && dst != mem
      requires sent == before + dst[at..at + k]
      modifies this`begun, this`maxBufferSize, dst
      ensures Valid() && !begun && SameOutside(dst[..], old(dst[..]), at + k, at + k + prefs.EndSize())
      ensures prefs.contentSize > 0 ==> totalInSize == |input| % TWO64
      ensures prefs.contentSize == 0 || prefs.contentSize == |input| % TWO64 ==>
                (Framed(before + dst[at..at + k + prefs.EndSize()]) <==> prefs.contentSize == 0 || |input| < TWO64)
    {
      hide Running, SameOutside, BlockSize, Framed, TableBefore;
      ghost var d := dst[..];
      assert d[at..at + k] == dst[at..at + k];
      WriteEnd(dst, at + k);
      assert dst[..][at + k..at + k + prefs.EndSize()] == dst[at + k..at + k + prefs.EndSize()];
      assert dst[..][at..at + k + prefs.EndSize()] == dst[at..at + k + prefs.EndSize()];
      FrameClosed(d, dst[..], before, at, k);
      RunningBasics();
      RunningCounts();
      CloseFrame();
    }

    /**
     LZ4F_compressEnd: flushes, and closes the frame. Everything written since the frame began is then
     a frame with the preferences' header whose content is all input; a size promised in the header
     that does not match is reported instead.
     */
    method End(dst: array<Byte>, at: nat, capacity: nat) returns (r: Outcome)
      requires Valid() && begun && at + capacity <= dst.Length && dst != mem
      modifies this, mem, stream, stream.table, dst
      ensures Valid() && prefs == old(prefs) && prefs.Ok() && input == old(input)
      ensures SameOutside(dst[..], old(dst[..]), at, at + capacity)
      ensures SameOutside(mem[..], old(mem[..]), arena, arena + reserve)
      ensures capacity >= old(CompressBoundInternal(0, prefs, tmpInSize)) ==> r != Refused(DstMaxSizeTooSmall)
      ensures r.Done? || r == Refused(DstMaxSizeTooSmall) || r == Refused(FrameSizeWrong)
      ensures r != Refused(DstMaxSizeTooSmall) ==> !begun
      ensures r == Refused(FrameSizeWrong) ==> prefs.contentSize > 0 && prefs.contentSize != |input| % TWO64
      ensures r.Done? ==> prefs.contentSize == 0 || prefs.contentSize == |input| % TWO64
      ensures r.Done? ==> r.size <= capacity
      ensures r.Done? ==> (Framed(old(sent) + dst[at..at + r.size]) <==> prefs.contentSize == 0 || |input| < TWO64)
      ensures r.Done? && old(tmpInSize) == 0 ==> r.size == prefs.EndSize()
    {
      hide Running, SameOutside, BlockSize, CompressBoundInternal, Framed, Places, TableBefore, Cost, Retakes, Slice;
      RunningBasics();
      EndWithin(prefs, tmpInSize);
      ghost var d0 := dst[..];
      var flushed := Flush(dst, at, capacity);
      if flushed.Refused? { return flushed; }
      var k := flushed.size;
      ghost var d1 := dst[..];
      if capacity - k < prefs.EndSize() {
        if capacity - k >= 4 {
          Write32(dst, at + k, 0);
          SameTwo(d0, d1, dst[..], at, at + capacity, at + k, at + k + 4, at, at + capacity);
        }
        return Refused(DstMaxSizeTooSmall);
      }
      CloseNow(dst, at, k, old(sent));
      SameTwo(d0, d1, dst[..], at, at + capacity, at + k, at + k + prefs.EndSize(), at, at + capacity);
      if prefs.contentSize > 0 && prefs.contentSize != totalInSize { return Refused(FrameSizeWrong); }
      r := Done(k + prefs.EndSize());
    }

    /** Between calls the caller may use its memory, except for a stable source the stream relies on. */
    method CallerWrites(at: nat, bytes: seq<Byte>)
      requires Valid() && at + |bytes| <= mem.Length && Foreign(arena, reserve, at, at + |bytes|)
      requires begun ==> forall x :: at <= x < at + |bytes| ==> !Relies(x)
      modifies mem
      ensures Valid() && SameOutside(mem[..], old(mem[..]), at, at + |bytes|) && Slice(mem[..], at, |bytes|) == bytes
    {
      hide SameOutside, Running;
      ghost var m := mem[..];
      CopyIn(mem, at, bytes, 0, |bytes|);
      assert Slice(mem[..], at, |bytes|) == bytes[0..|bytes|] == bytes;
      if begun { RunningKept(m, mem[..], at, at + |bytes|); }
    }

    /** Begin, one update and end, as LZ4F_compressFrame_usingCDict chains them. */
    method WholeFrame(q: Preferences, src: nat, n: nat, dst: array<Byte>, at: nat, capacity: nat) returns (r: Outcome)
      requires Valid() && !begun && q.Ok() && q.autoFlush && (q.contentSize == 0 || q.contentSize == n) && n < TWO64
      requires maxBufferSize >= KB64
      requires src + n <= mem.Length && Foreign(arena, reserve, src, src + n) && (n > 0 ==> 0 < src)
      requires at + capacity <= dst.Length && dst != mem && capacity >= CompressFrameBound(n, q)
      requires Payable(n, q, capacity)
      modifies this, mem, stream, stream.table, dst
      ensures SameOutside(dst[..], old(dst[..]), at, at + capacity)
      ensures SameOutside(mem[..], old(mem[..]), arena, arena + reserve)
      ensures r.Done? && r.size <= capacity && (Countable(n, q, 0) ==> r.size <= CompressFrameBound(n, q))
      ensures input == Slice(old(mem[..]), src, n) && Framed(dst[at..at + r.size])
    {
      hide SameOutside, BlockSize, CompressBoundInternal, Countable, Slice, HeaderBytes, Running, Framed, UpdateCost;
      ghost var d0 := dst[..];
      NormalBound(q, n);
      ghost var d1, k1;
      var k;
      k, d1, k1 := BeginAndTake(q, src, n, dst, at, capacity);
      ghost var d2, m := dst[..], mem[..];
      NoneBuffered();
      r := End(dst, at + k, capacity - k);
      ghost var d3 := dst[..];
      SameTwo(old(mem[..]), m, mem[..], arena, arena + reserve, arena, arena + reserve, arena, arena + reserve);
      FrameWritten(d0, d1, d2, d3, at, k1, k, k + r.size, capacity);
      assert d3[at..at + (k + r.size)] == dst[at..at + (k + r.size)];
      r := Done(k + r.size);
    }

    /** The header, and then all of the source. */
    method BeginAndTake(q: Preferences, src: nat, n: nat, dst: array<Byte>, at: nat, capacity: nat)
      returns (k: nat, ghost d1: seq<Byte>, ghost k1: nat)
      requires Valid() && !begun && q.Ok() && q.autoFlush && (q.contentSize == 0 || q.contentSize == n) && n < TWO64
      requires maxBufferSize >= KB64
      requires src + n <= mem.Length && Foreign(arena, reserve, src, src + n) && (n > 0 ==> 0 < src)
      requires at + capacity <= dst.Length && dst != mem && capacity >= MAX_HEADER + CompressBoundInternal(n, q, 0)
      requires Payable(n, q, capacity)
      modifies this, mem, stream, stream.table, dst
      ensures Valid() && begun && prefs == q.Normal() && input == Slice(old(mem[..]), src, n) && |input| % TWO64 == n
      ensures k + prefs.EndSize() <= capacity
      ensures Countable(n, q, 0) ==> k + prefs.EndSize() <= MAX_HEADER + CompressBoundInternal(n, q, 0)
      ensures SameOutside(mem[..], old(mem[..]), arena, arena + reserve)
      ensures k1 <= k <= capacity && |d1| == dst.Length
      ensures SameOutside(d1, old(dst[..]), at, at + capacity)
      ensures SameOutside(dst[..], d1, at + k1, at + k1 + (capacity - k1))
      ensures sent == d1[at..at + k1] + dst[..][at + k1..at + k]
    {
      hide SameOutside, BlockSize, CompressBoundInternal, Countable, Slice, HeaderBytes, Running, UpdateCost;
      NormalBound(q, n);
      var r := Begin(q, dst, at, capacity);
      k, d1, k1 := r.size, dst[..], r.size;
      assert d1[at..at + k1] == dst[at..at + k1];
      r := Update(src, n, true, dst, at + k, capacity - k);
      k := k + r.size;
      assert dst[..][at + k1..at + k] == dst[at + k1..at + k];
      assert input == Slice(old(mem[..]), src, n);
    }

    lemma NoneBuffered()
      requires Running(mem[..]) && prefs.autoFlush
      ensures tmpInSize == 0 && Settled() && CompressBoundInternal(0, prefs, 0) == prefs.EndSize()
    {
      hide Chained, Counted, ChainContent, BlockSize, StreamOk, CompressBoundInternal;
      EndWithin(prefs, 0);
    }

    lemma DictApart(at: nat, to: nat)
      requires Foreign(arena, reserve, at, to) && forall x :: at <= x < to ==> !Relies(x)
      ensures var end := stream.dictionary + stream.dictSize;
              prefs.linked ==> Apart(end - Min(stream.dictSize, KB64), end, at, to)
    {
      var first := Max(at, stream.dictionary + stream.dictSize - Min(stream.dictSize, KB64));
      if first < to { assert !Relies(first); }
    }

    lemma RunningKept(m: seq<Byte>, m': seq<Byte>, at: nat, to: nat)
      requires Running(m) && |m| == mem.Length && SameOutside(m', m, at, to) && at <= to <= |m|
      requires Foreign(arena, reserve, at, to)
      requires 0 < arena && arena + reserve <= |m|
      requires forall x :: at <= x < to ==> !Relies(x)
      ensures Running(m')
    {
      hide Chained, Counted, ChainContent, BlockSize, TableBefore, EndsWith, Relies, DictAt;
      assert |m'| == |m|;
      hide SameOutside;
      DictApart(at, to);
      var n := Min(stream.dictSize, KB64);
      if prefs.linked && n > 0 {
        EndsWithKept(stream.history, m, m', stream.dictionary + stream.dictSize - n, n, at, to);
      }
      if tmpInSize > 0 { SameSlice(m', m, at, to, tmpIn, tmpIn + tmpInSize); }
    }

    lemma MidwayBounds(sp: nat, srcEnd: nat, goal: seq<Byte>)
      requires Midway(mem[..], sp, srcEnd, goal)
      ensures Settled() && sp <= srcEnd <= mem.Length
    {
    }

    ghost method AddBlock(b: Block, bytes: seq<Byte>)
      requires Chained() && BlockOk(prefs.Head(), ChainContent(blocks), b) && |b.data| < UNCOMPRESSED_FLAG
      requires bytes == BlockBytes(hash, prefs.Head(), b)
      modifies this`blocks, this`sent
      ensures Chained() && blocks == old(blocks) + [b] && sent == old(sent) + bytes
      ensures ChainContent(blocks) == ChainContent(old(blocks)) + b.Content()
    {
      hide ChainOk, ChainBytes, ChainContent, HeaderBytes, BlockOk, BlockBytes;
      ChainMore(hash, prefs.Head(), blocks, b);
      blocks, sent := blocks + [b], sent + bytes;
    }
  }

  /** Writes `s` at `pos`, behind what has been written from `at` on. */
  method Put(dst: array<Byte>, at: nat, pos: nat, s: seq<Byte>, ghost m: seq<Byte>)
    requires at <= pos && pos + |s| <= dst.Length && SameOutside(dst[..], m, at, pos)
    modifies dst
    ensures dst[at..pos + |s|] == old(dst[at..pos]) + s && SameOutside(dst[..], m, at, pos + |s|)
  {
    forall k | 0 <= k < |s| { dst[pos + k] := s[k]; }
    assert dst[at..pos] == old(dst[at..pos]) && dst[pos..pos + |s|] == s;
    assert dst[at..pos + |s|] == dst[at..pos] + dst[pos..pos + |s|];
  }

  // ----- One call for a whole frame -----

  lemma NormalBound(p: Preferences, n: nat)
    requires p.Ok() && p.autoFlush
    ensures p.Normal().Ok() && p.Normal().EndSize() == p.EndSize()
    ensures CompressFrameBound(n, p) == MAX_HEADER + CompressBoundInternal(n, p, 0)
    ensures CompressBoundInternal(n, p.Normal(), 0) == CompressBoundInternal(n, p, 0)
    ensures (Countable(n, p, 0) <==> Countable(n, p.Normal(), 0)) && UpdateCost(p.Normal(), n) == UpdateCost(p, n)
  {
    hide BoundOf;
  }

  /** Where the room asked for a whole frame is there, so is the room its blocks can take. */
  predicate Payable(n: nat, p: Preferences, capacity: nat)
    requires p.Ok()
  {
    || Countable(n, p.(autoFlush := true), 0)
    || capacity < CompressFrameBound(n, p)
    || MAX_HEADER + UpdateCost(p.(autoFlush := true), n) + p.EndSize() <= capacity
  }

  /** Three pieces of output, one behind the other. */
  lemma FrameWritten(d0: seq<Byte>, d1: seq<Byte>, d2: seq<Byte>, d3: seq<Byte>, at: nat, k1: nat, k2: nat, k3: nat,
                     capacity: nat)
    requires k1 <= k2 <= k3 <= capacity && at + capacity <= |d0| == |d1| == |d2| == |d3|
    requires SameOutside(d1, d0, at, at + capacity) && SameOutside(d2, d1, at + k1, at + k1 + (capacity - k1))
    requires SameOutside(d3, d2, at + k2, at + k2 + (capacity - k2))
    ensures SameOutside(d3, d0, at, at + capacity)
    ensures d1[at..at + k1] + d2[at + k1..at + k2] + d3[at + k2..at + k3] == d3[at..at + k3]
  {
    hide SameOutside;
    SameSlice(d2, d1, at + k1, at + capacity, at, at + k1);
    SameSlice(d3, d2, at + k2, at + capacity, at, at + k1);
    SameSlice(d3, d2, at + k2, at + capacity, at + k1, at + k2);
    SameTwo(d0, d1, d2, at, at + capacity, at + k1, at + capacity, at, at + capacity);
    SameTwo(d0, d2, d3, at, at + capacity, at + k2, at + capacity, at, at + capacity);
    assert d3[at..at + k3] == d3[at..at + k1] + d3[at + k1..at + k2] + d3[at + k2..at + k3];
  }

  /** LZ4F_optimalBSID: the smallest block size that holds the source in one block, up to the one requested. */
  method OptimalSizeId(requested: nat, srcSize: nat) returns (id: nat)
    requires requested == 0 || 4 <= requested <= 7
    ensures id <= requested && (requested >= 4 ==> id >= 4) && (requested == 0 ==> id == 0)
    ensures id < requested ==> srcSize <= BlockSize(id)
    ensures forall k :: 4 <= k < id ==> srcSize > BlockSize(k)
  {
    id := 4;
    var maxBlockSize := KB64;
    while requested > id
      invariant 4 <= id <= 7 && maxBlockSize == BlockSize(id) && (requested >= 4 ==> id <= requested)
      invariant forall k :: 4 <= k < id ==> srcSize > BlockSize(k)
    {
      if srcSize <= maxBlockSize { return; }
      id := id + 1;
      maxBlockSize := maxBlockSize * 4;
    }
    id := requested;
  }

  /** LZ4F_compressFrameBound. */
  function CompressFrameBound(n: nat, p: Preferences): nat
    requires p.Ok()
  {
    MAX_HEADER + CompressBoundInternal(n, p.(autoFlush := true), 0)
  }

  /** The preferences LZ4F_compressFrame goes by. */
  function FramePreferences(p: Preferences, n: nat, sizeId: nat): Preferences
    requires p.Ok() && n < TWO64 && (sizeId == 0 || 4 <= sizeId <= 7)
  {
    var q := p.(contentSize := if p.contentSize != 0 then n else 0, sizeId := sizeId, autoFlush := true);
    if n <= q.BlockMax() then q.(linked := false) else q
  }

  /** A smaller block size is only chosen when one block is enough, so the bound stays the same. */
  lemma SameFrameBound(p: Preferences, n: nat, id: nat)
    requires p.Ok() && n < TWO64 && (id == 0 || 4 <= id <= 7) && id <= p.sizeId && (p.sizeId >= 4 ==> id >= 4)
    requires id < p.sizeId ==> n <= BlockSize(id)
    ensures CompressFrameBound(n, FramePreferences(p, n, id)) == CompressFrameBound(n, p)
    ensures Countable(n, p.(autoFlush := true), 0) ==> Countable(n, FramePreferences(p, n, id), 0)
  {
    var q, a := FramePreferences(p, n, id), p.(autoFlush := true);
    hide BlockSize, CompressBoundInternal, Countable;
    if id < p.sizeId {
      SmallerBlocks(q, a);
      OneBlock(a, n);
      OneBlock(q, n);
    } else {
      SameBlocks(q, a, n);
    }
  }

  lemma SmallerBlocks(p: Preferences, q: Preferences)
    requires p.Ok() && q.Ok() && p.sizeId < q.sizeId && (q.sizeId >= 4 ==> p.sizeId >= 4)
    ensures p.BlockMax() == BlockSize(p.sizeId) <= q.BlockMax()
  {
  }

  lemma SameBlocks(p: Preferences, q: Preferences, n: nat)
    requires p.Ok() && q.Ok() && p.sizeId == q.sizeId && p.autoFlush == q.autoFlush
    requires p.blockChecksum == q.blockChecksum && p.contentChecksum == q.contentChecksum
    ensures CompressBoundInternal(n, p, 0) == CompressBoundInternal(n, q, 0)
    ensures Countable(n, p, 0) <==> Countable(n, q, 0)
  {
    hide BlockSize, BoundOf;
  }

  /** What fits one block costs as much whatever the block size. */
  lemma OneBlock(p: Preferences, n: nat)
    requires p.Ok() && p.autoFlush && n <= p.BlockMax()
    ensures CompressBoundInternal(n, p, 0) == (if n > 0 then BLOCK_HEADER + p.CrcSize() + n else 0) + p.EndSize()
    ensures Countable(n, p, 0)
  {
    hide BlockSize;
    var b := p.BlockMax();
    if n == b { DivUnique(n, b, 1, 0); } else { DivUnique(n, b, 0, n); }
  }

  lemma StillPayable(p: Preferences, n: nat, id: nat, capacity: nat)
    requires p.Ok() && n < TWO64 && (id == 0 || 4 <= id <= 7) && id <= p.sizeId && (p.sizeId >= 4 ==> id >= 4)
    requires (id < p.sizeId ==> n <= BlockSize(id)) && Payable(n, p, capacity)
    ensures var q, a := FramePreferences(p, n, id), p.(autoFlush := true);
            && CompressFrameBound(n, q) == CompressFrameBound(n, p) && Payable(n, q, capacity)
            && (Countable(n, a, 0) ==> Countable(n, q, 0))
  {
    hide CompressBoundInternal;
    SameFrameBound(p, n, id);
    var q, a := FramePreferences(p, n, id), p.(autoFlush := true);
    if id < p.sizeId { DivUnique(n, a.BlockMax(), 0, n); }
  }

  /**
   LZ4F_compressFrame: with the room LZ4F_compressFrameBound asks for it always succeeds, writes no
   more than that as long as the blocks can be counted in 32 bits, and what it writes is a frame that
   holds the source.
   */
  method CompressFrame(hash: Hash, mem: array<Byte>, h: Hasher, p: Preferences, src: nat, n: nat,
                       dst: array<Byte>, at: nat, capacity: nat)
    returns (r: Outcome, ghost f: Frame)
    requires h.Ok() && 0 < mem.Length && p.Ok() && n < TWO64
    requires src + n <= mem.Length && (n > 0 ==> 0 < src)
    requires at + capacity <= dst.Length && dst != mem && Payable(n, p, capacity)
    modifies mem, dst
    ensures SameOutside(dst[..], old(dst[..]), at, at + capacity) && mem[..] == old(mem[..])
    ensures r == Refused(DstMaxSizeTooSmall) <==> capacity < CompressFrameBound(n, p)
    ensures r.Done? <==> capacity >= CompressFrameBound(n, p)
    ensures r.Done? ==>
              r.size <= capacity && (Countable(n, p.(autoFlush := true), 0) ==> r.size <= CompressFrameBound(n, p))
    ensures r.Done? ==>
              && FrameOk(f) && FrameContent(f) == Slice(old(mem[..]), src, n)
              && dst[at..at + r.size] == FrameBytes(hash, f)
  {
    hide SameOutside, BlockSize, CompressBoundInternal, Countable, FrameOk, FrameContent, FrameBytes, Slice,
         HeaderBytes;
    f := Skippable(0, []);
    var id := OptimalSizeId(p.sizeId, n);
    var q := FramePreferences(p, n, id);
    StillPayable(p, n, id, capacity);
    if capacity < CompressFrameBound(n, q) {
      SameAll(dst[..], at, at + capacity);
      return Refused(DstMaxSizeTooSmall), f;
    }
    var e := new Encoder.OneShot(hash, mem, mem.Length, 0, h);
    r := e.WholeFrame(q, src, n, dst, at, capacity);
    SameEverywhere(mem[..], old(mem[..]), mem.Length);
    f := Lz4(e.prefs.Head(), e.blocks);
  }

  lemma SameEverywhere(m: seq<Byte>, n: seq<Byte>, at: int)
    requires SameOutside(m, n, at, at)
    ensures m == n
  {
  }

  lemma SameTwo(m0: seq<Byte>, m1: seq<Byte>, m2: seq<Byte>, a: int, b: int, c: int, d: int, from: int, to: int)
    requires SameOutside(m1, m0, a, b) && SameOutside(m2, m1, c, d) && from <= a && b <= to && from <= c && d <= to
    ensures SameOutside(m2, m0, from, to)
  {
  }

  /**
   One byte promised, 2^64 + 1 bytes taken: the 64-bit total is the promised size, and yet no frame
   with that header holds them.
   */
  lemma WrappedTotal(f: Frame)
    requires FrameOk(f) && f.Lz4? && f.header.contentSize == Some(1)
    ensures var content := seq(TWO64 + 1, _ => 0); |content| % TWO64 == 1 && FrameContent(f) != content
  {
    hide BodyOk;
    BodySize(f.header, [], f.blocks);
  }

  /** LZ4F_writeLE32. */
  method Write32(dst: array<Byte>, at: nat, v: U32)
    requires at + 4 <= dst.Length
    modifies dst
    ensures dst[at..at + 4] == Bytes32(v) && SameOutside(dst[..], old(dst[..]), at, at + 4)
  {
    var b := Bytes32(v);
    dst[at], dst[at + 1], dst[at + 2], dst[at + 3] := b[0], b[1], b[2], b[3];
  }

  /** The compressed block if it is smaller than the source, and else the source as it is. */
  function Smaller(block: seq<Byte>, source: seq<Byte>): FrameFormat.Block {
    if |block| < |source| then Packed(block, source) else Stored(source)
  }

  lemma MadeOk(h: Header, hist: seq<Byte>, source: seq<Byte>, r: nat, data: seq<Byte>)
    requires h.Ok() && 1 <= |source| <= BlockSize(h.sizeId) && r < |source| && |data| == r
    requires r > 0 ==> Decodes(data, if h.independent then [] else hist, source)
    ensures var b := Made(source, r, data);
            BlockOk(h, hist, b) && b.Content() == source && |b.data| < UNCOMPRESSED_FLAG
  {
    hide Decodes;
  }

  lemma MadeIs(block: seq<Byte>, source: seq<Byte>, r: nat, data: seq<Byte>)
    requires source != [] && block != [] && |data| == r
    requires if |block| <= |source| - 1 then r == |block| && data == block else r == 0
    ensures Made(source, r, data) == Smaller(block, source)
    ensures |Smaller(block, source).data| == if r == 0 then |source| else r
  {
  }


  /** The block a source of `n` bytes became: compressed to `r` bytes, or stored when `r` is 0. */
  function Made(source: seq<Byte>, r: nat, data: seq<Byte>): Block {
    if r == 0 then Stored(source) else Packed(data, source)
  }

  /** The end of LZ4F_makeBlock: the size field, a stored block's data, the checksum. */
  method SealBlock(hash: Hash, crcFlag: bool, dst: array<Byte>, at: nat, source: seq<Byte>, r: nat) returns (k: nat)
    requires r < |source| < UNCOMPRESSED_FLAG && at + BLOCK_HEADER + |source| + (if crcFlag then 4 else 0) <= dst.Length
    modifies dst
    ensures k == BLOCK_HEADER + (if r == 0 then |source| else r) + (if crcFlag then BLOCK_FOOTER else 0)
    ensures SameOutside(dst[..], old(dst[..]), at, at + k)
    ensures var b := Made(source, r, old(dst[at + BLOCK_HEADER..at + BLOCK_HEADER + r]));
            dst[at..at + k] == Bytes32(SizeField(b)) + b.data + Checksum(hash, crcFlag, b.data)
  {
    hide SameOutside, Bytes32, Made;
    var cSize := PutBody(dst, at, source, r);
    k := BLOCK_HEADER + cSize;
    ghost var m := dst[..];
    if crcFlag {
      AddChecksum(hash, dst, at, cSize);
      SameJoin(old(dst[..]), m, dst[..], at, at + k, at + k + BLOCK_FOOTER);
      k := k + BLOCK_FOOTER;
    }
    ThreeSlices(dst, at, at + BLOCK_HEADER, at + BLOCK_HEADER + cSize, at + k);
  }

  /** The checksum of a block's data, behind it. */
  method AddChecksum(hash: Hash, dst: array<Byte>, at: nat, cSize: nat)
    requires at + BLOCK_HEADER + cSize + BLOCK_FOOTER <= dst.Length
    modifies dst
    ensures var data, end := at + BLOCK_HEADER, at + BLOCK_HEADER + cSize;
            && dst[at..data] == old(dst[at..data]) && dst[data..end] == old(dst[data..end])
            && dst[end..end + BLOCK_FOOTER] == Bytes32(hash(old(dst[data..end])))
            && SameOutside(dst[..], old(dst[..]), end, end + BLOCK_FOOTER)
  {
    hide SameOutside, Bytes32;
    var data, end := at + BLOCK_HEADER, at + BLOCK_HEADER + cSize;
    Write32(dst, end, hash(dst[data..end]));
    SameSlice(dst[..], old(dst[..]), end, end + 4, at, data);
    SameSlice(dst[..], old(dst[..]), end, end + 4, data, end);
  }

  lemma Lengthened(m: seq<Byte>, m': seq<Byte>, a: nat, b: nat, k: nat)
    requires a <= b && b + k <= |m| && SameOutside(m', m, b, b + k)
    ensures |m'| == |m| && m'[a..b + k] == m[a..b] + m'[b..b + k]
  {
    SameSlice(m', m, b, b + k, a, b);
    hide SameOutside;
    assert m'[a..b + k] == m'[a..b] + m'[b..b + k];
  }

  lemma SourceTaken(c: seq<Byte>, m: seq<Byte>, sp: nat, n: nat, srcEnd: nat)
    requires sp + n <= srcEnd <= |m|
    ensures c + [] + m[sp..srcEnd] == c + m[sp..sp + n] + [] + m[sp + n..srcEnd]
  {
    assert m[sp..srcEnd] == m[sp..sp + n] + m[sp + n..srcEnd];
  }

  /** Output that was written goes on with more. */
  lemma SentOn(d0: seq<Byte>, d: seq<Byte>, d': seq<Byte>, before: seq<Byte>, op0: nat, op: nat, to: nat, end: nat,
               k: nat)
    requires op0 <= op && op + k <= to <= end <= |d0| && SameOutside(d, d0, op0, end) && SameOutside(d', d, op, to)
    ensures SameOutside(d', d0, op0, end) && before + d[op0..op] + d'[op..op + k] == before + d'[op0..op + k]
  {
    SameSlice(d', d, op, to, op0, op);
    assert d'[op0..op + k] == d'[op0..op] + d'[op..op + k];
  }

  lemma Joined(a: seq<Byte>, b: seq<Byte>, c: seq<Byte>, d: seq<Byte>)
    ensures (a + (b + c)) + [] + d == (a + b) + (c + d)
  {
  }

  lemma ThreeSlices(m: array<Byte>, a: nat, b: nat, c: nat, d: nat)
    requires a <= b <= c <= d <= m.Length
    ensures m[a..d] == m[a..b] + m[b..c] + m[c..d]
  {
  }

  /** The size field, and the data of a stored block. */
  method PutBody(dst: array<Byte>, at: nat, source: seq<Byte>, r: nat) returns (cSize: nat)
    requires r < |source| < UNCOMPRESSED_FLAG && at + BLOCK_HEADER + |source| <= dst.Length
    modifies dst
    ensures cSize == if r == 0 then |source| else r
    ensures SameOutside(dst[..], old(dst[..]), at, at + BLOCK_HEADER + cSize)
    ensures var b := Made(source, r, old(dst[at + BLOCK_HEADER..at + BLOCK_HEADER + r]));
            dst[at..at + BLOCK_HEADER] == Bytes32(SizeField(b))
              && dst[at + BLOCK_HEADER..at + BLOCK_HEADER + cSize] == b.data
  {
    hide SameOutside, Bytes32;
    var data := at + BLOCK_HEADER;
    ghost var m0 := dst[..];
    cSize := if r == 0 then |source| else r;
    Write32(dst, at, if r == 0 then cSize + UNCOMPRESSED_FLAG else cSize);
    ghost var m1 := dst[..];
    if r == 0 {
      CopyIn(dst, data, source, 0, cSize);
      assert source[0..cSize] == source;
      SameSlice(dst[..], m1, data, data + cSize, at, data);
    } else {
      SameSlice(m1, m0, at, data, data, data + r);
      SameAll(m1, data, data + cSize);
    }
    SameJoin(m0, m1, dst[..], at, data, data + cSize);
  }

  lemma SameJoin(m0: seq<Byte>, m1: seq<Byte>, m2: seq<Byte>, a: int, b: int, c: int)
    requires a <= b <= c && SameOutside(m1, m0, a, b) && SameOutside(m2, m1, b, c)
    ensures SameOutside(m2, m0, a, c)
  {
  }
}
