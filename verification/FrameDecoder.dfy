/**
 LZ4F_decompress: the resumable frame decoder. Memory is one flat array; the caller's output
 buffers and the decoder's own buffer are address ranges in it, so that a dictionary may lie in
 either and two ranges may turn out to be adjacent.
 */
module FrameDecoder {
  import opened Bytes
  import opened BlockFormat
  import opened BlockMeaning
  import opened Copies
  import opened BlockStream
  import opened BlockDecoder
  import opened FrameFormat
  import opened FrameHistory
  import opened FramePosition
  import opened FrameChain
  import opened FrameShell

  datatype Stage =
    | GetFrameHeader | StoreFrameHeader | Init | GetBlockHeader | StoreBlockHeader | CopyDirect | GetBlockChecksum
    | GetCBlock | StoreCBlock | FlushOut | GetSuffix | StoreSuffix | GetSFrameSize | StoreSFrameSize | SkipSkippable

  datatype Error =
    | Generic | MaxBlockSizeInvalid | FrameHeaderIncomplete | FrameTypeUnknown | ReservedFlagSet | HeaderVersionWrong
    | HeaderChecksumInvalid | BlockChecksumInvalid | DecompressionFailed | FrameSizeWrong | ContentChecksumInvalid
    | FrameDecodingAlreadyStarted | AllocationFailed

  /** What a stage asks for next: another stage, a return with a hint, or a return with an error. */
  datatype Step = Again | Stop(hint: nat) | Fail(error: Error)

  /** What LZ4F_decompress returns: a hint for the next input size, 0 at the end of a frame, or an error. */
  datatype Outcome = Hint(next: nat) | Failed(error: Error)

  /** LZ4F_frameInfo_t. */
  datatype Info = Info(skippable: bool, linked: bool, blockChecksum: bool, contentChecksum: bool, sizeId: nat,
                       contentSize: nat, dictId: nat)

  /** A frame header of `size` bytes starts at `s`. */
  predicate GoesOn(s: seq<Byte>, size: nat) { |s| >= MIN_HEADER && Read32(s) == MAGIC && HeaderSize(s[4]) == size }

  function InfoOf(h: Header): Info {
    Info(false, !h.independent, h.blockChecksum, h.contentChecksum, h.sizeId,
         if h.contentSize.Some? then h.contentSize.value else 0, if h.dictId.Some? then h.dictId.value else 0)
  }

  /** The buffer dstage_init asks for. */
  function BufferNeeded(h: Header): nat
    requires h.Ok()
  {
    BlockSize(h.sizeId) + if h.independent then 0 else 2 * KB64
  }

  /** How many bytes of a frame come before its blocks, or before the data to skip. */
  ghost function HeaderLength(hash: Hash, f: Frame): nat {
    if f.Lz4? && f.header.Ok() then |HeaderBytes(hash, f.header)| else 8
  }

  /** The four bytes of a number that has them. */
  function Field(n: int): seq<Byte> {
    if 0 <= n < 0x1_0000_0000 then Bytes32(n) else []
  }

  /** The start of a skippable frame. */
  predicate Skips(s: seq<Byte>) { |s| >= 4 && Read32(s) / 16 == MAGIC_SKIPPABLE / 16 }

  /**
   The decoder's books: what has been `taken` is the header, the blocks `seen` and then `extra`; their content and
   `tail` are `total`, which the checksum is running over and the remaining size is short of.
   */
  ghost predicate Account(hash: Hash, h: Header, seen: seq<Block>, taken: seq<Byte>, xxh: seq<Byte>, remaining: nat,
                          extra: seq<Byte>, tail: seq<Byte>, total: seq<Byte>) {
    && h.Ok() && AllTaken(h, seen)
    && taken == HeaderBytes(hash, h) + ShellBytes(hash, h, seen) + extra
    && total == ChainContent(seen) + tail
    && (h.contentChecksum ==> xxh == total)
    && remaining == Short(InfoOf(h).contentSize, |total|)
  }

  /** What is missing of a size that is known. */
  function Short(size: nat, n: nat): nat {
    if size == 0 then 0 else (size - n) % TWO64
  }

  /** The sizes of the two allocations fit each other. */
  predicate Allocated(inSize: nat, outSize: nat) {
    && inSize >= 4 && (exists id :: 4 <= id <= 7 && inSize - 4 == BlockSize(id))
    && inSize - 4 <= outSize <= inSize - 4 + 2 * KB64
  }

  class Decoder {
    const hash: Hash
    const mem: array<Byte>
    /** Where allocation places the buffer for decoded blocks, and how large it can be. */
    const arena: nat
    const reserve: nat
    const header: array<Byte>
    var info: Info
    var stage: Stage
    var remaining: nat
    var maxBlockSize: nat
    var maxBufferSize: nat
    var tmpIn: array<Byte>
    var tmpInSize: nat
    var tmpInTarget: nat
    var tmpOutBuffer: nat
    var dict: nat
    var dictSize: nat
    var tmpOut: nat
    var tmpOutSize: nat
    var tmpOutStart: nat
    /** The bytes XXH32 has been given, for the content and for a stored block. */
    var xxh: seq<Byte>
    var blockXxh: seq<Byte>

    /** All output of the current frame so far, and how much of it the dictionary still ends with. */
    ghost var out: seq<Byte>
    ghost var good: nat

    /**
     All input of the current frame so far, its blocks, what there is of a stored block, and the word that ended the
     blocks; whatever the input is.
     */
    ghost var taken: seq<Byte>
    ghost var seen: seq<Block>
    ghost var part: seq<Byte>
    ghost var mark: U32

    /** Whether the input is known to be `frame`; if so, what is left of its bytes and its content. */
    ghost var live: bool
    ghost var frame: Frame
    ghost var hdr: Header
    ghost var todo: seq<Block>
    ghost var pend: seq<Byte>
    ghost var rest: seq<Byte>
    ghost var goal: seq<Byte>

    ghost predicate Buffers()
      reads `tmpIn, `maxBufferSize, `tmpOutBuffer
    {
      && header.Length == MAX_HEADER && header != mem && header != tmpIn && tmpIn != mem
      && 0 < arena && arena + reserve <= mem.Length
      && (maxBufferSize > 0 ==> tmpOutBuffer == arena && Allocated(tmpIn.Length, maxBufferSize))
         && maxBufferSize <= reserve
    }

    /** The buffers are those of the current frame. */
    ghost predicate Ready()
      reads `tmpIn, `maxBufferSize, `tmpOutBuffer, `info, `maxBlockSize
    {
      && Buffers() && !info.skippable && 4 <= info.sizeId <= 7 && maxBlockSize == BlockSize(info.sizeId)
      && tmpIn.Length >= maxBlockSize + 4 && tmpOutBuffer == arena
      && maxBlockSize + (if info.linked then 2 * KB64 else 0) <= maxBufferSize <= reserve
    }

    /** The dictionary, when `pending` decoded bytes are still to be output. */
    ghost predicate DictOk(m: seq<Byte>, pending: nat)
      reads `out, `dict, `dictSize, `good, `tmpOutBuffer, `maxBufferSize
    {
      && Remembers(m, out, dict, dictSize, good) && Enough(|out|, dictSize, good, pending)
      && (dict == tmpOutBuffer ==> dictSize <= maxBufferSize)
      && (dict != tmpOutBuffer ==> Apart(dict + dictSize - good, dict + dictSize, tmpOutBuffer,
         tmpOutBuffer + maxBufferSize))
    }

    /** A decoded block stands in the buffer, and its first part has been output. */
    ghost predicate Held(m: seq<Byte>)
      reads `out, `tmpOut, `tmpOutSize, `tmpOutStart, `tmpOutBuffer, `maxBlockSize, `maxBufferSize
    {
      && tmpOutBuffer <= tmpOut && tmpOutStart <= tmpOutSize <= maxBlockSize
      && tmpOut + tmpOutSize <= tmpOutBuffer + maxBufferSize
      && EndsWith(out, m, tmpOut, tmpOutStart)
    }

    /** The same with linked blocks: there is room for history in front of the block. */
    ghost predicate Waiting(m: seq<Byte>)
      reads `out, `tmpOut, `tmpOutSize, `tmpOutStart, `tmpOutBuffer, `maxBlockSize, `maxBufferSize, `dict, `dictSize
    {
      && Held(m)
      && Min(tmpOut - tmpOutBuffer, KB64) + tmpOutStart <= |out|
      && tmpOut - tmpOutBuffer >= Min(KB64, |out| - tmpOutStart)
      && (dict == tmpOutBuffer && dictSize > 0 ==> dict + dictSize == tmpOut + tmpOutStart)
    }

    // ----- The state between stages -----

    /** No frame has begun. */
    ghost predicate Fresh()
      reads `out, `dict, `dictSize, `good
    {
      out == [] && dict == 0 && dictSize == 0 && good == 0
    }

    ghost predicate HistoryOk(m: seq<Byte>, pending: nat)
      reads `info, `out, `dict, `dictSize, `good, `tmpOutBuffer, `maxBufferSize, `tmpOut
    {
      if info.linked then DictOk(m, pending) else dict == 0 && dictSize == 0 && tmpOut == tmpOutBuffer
    }

    function CrcSize(): nat
      reads `info
    {
      if info.blockChecksum then BLOCK_FOOTER else 0
    }

    /** What has been set aside of the input, and how much is wanted. */
    ghost predicate Sized()
      reads `stage, `tmpInSize, `tmpInTarget, `info, `maxBlockSize, `remaining, header
    {
      match stage
      case GetFrameHeader => remaining == 0
      case StoreFrameHeader =>
        && remaining == 0 && tmpInSize < tmpInTarget <= MAX_HEADER
        && (tmpInTarget == MIN_HEADER || (tmpInSize >= MIN_HEADER && GoesOn(header[..], tmpInTarget)))
      case Init => !info.skippable && 4 <= info.sizeId <= 7 && maxBlockSize == BlockSize(info.sizeId)
      case GetBlockHeader => true
      case StoreBlockHeader => tmpInSize < BLOCK_HEADER
      case CopyDirect => 0 < tmpInTarget <= maxBlockSize
      case GetBlockChecksum => tmpInSize < 4
      case GetCBlock => CrcSize() < tmpInTarget <= maxBlockSize + CrcSize()
      case StoreCBlock => CrcSize() < tmpInTarget <= maxBlockSize + CrcSize() && tmpInSize < tmpInTarget
      case FlushOut => true
      case GetSuffix => true
      case StoreSuffix => tmpInSize < 4 && remaining == 0
      case GetSFrameSize => remaining == 0
      case StoreSFrameSize => remaining == 0 && 4 <= tmpInSize < tmpInTarget == 8
      case SkipSkippable => remaining == 0
    }

    /** The stages between blocks and inside them, except where a decoded block waits. */
    predicate AmongBlocks()
      reads `stage
    {
      stage in {GetBlockHeader, StoreBlockHeader, CopyDirect, GetBlockChecksum, GetCBlock, StoreCBlock}
    }

    /** What holds of the fields in each stage, whatever the input was. */
    ghost predicate Shape(m: seq<Byte>)
      reads this, header, tmpIn
    {
      && Buffers() && Sized() && Told(m)
      && if AmongBlocks() then Ready() && HistoryOk(m, 0)
         else if stage == FlushOut then Ready() && Parked(m) && Unfilled()
         else if stage in {GetSuffix, StoreSuffix} then Ready()
         else Fresh()
    }

    /** Header, blocks and `extra` are what has been taken; the content of the blocks and `tail` are `total`. */
    ghost predicate Tells(extra: seq<Byte>, tail: seq<Byte>, total: seq<Byte>)
      reads `hdr, `info, `seen, `taken, `xxh, `remaining
    {
      Matches() && Account(hash, hdr, seen, taken, xxh, remaining, extra, tail, total)
    }

    /** In the midst of a stored block of `size` bytes. */
    ghost predicate Copying(size: nat, total: seq<Byte>)
      reads `hdr, `info, `seen, `taken, `xxh, `remaining, `part, `blockXxh, `maxBlockSize
    {
      && |part| <= size && 0 < size <= maxBlockSize && (info.blockChecksum ==> blockXxh == part)
      && Tells(Field(UNCOMPRESSED_FLAG + size) + part, part, total)
    }

    /** In the midst of the checksum of a stored block. */
    ghost predicate Summing(saved: seq<Byte>)
      reads `hdr, `info, `seen, `taken, `xxh, `remaining, `part, `blockXxh, `out, `maxBlockSize
    {
      && 0 < |part| <= maxBlockSize && info.blockChecksum && blockXxh == part
      && Tells(Field(UNCOMPRESSED_FLAG + |part|) + part + saved, part, out)
    }

    /** After the end mark. */
    ghost predicate Marked(saved: seq<Byte>)
      reads `hdr, `info, `seen, `taken, `xxh, `remaining, `out, `mark
    {
      mark % UNCOMPRESSED_FLAG == 0 && Tells(Field(mark) + saved, [], out)
    }

    /** What waits to be output. */
    ghost function Left(m: seq<Byte>): seq<Byte>
      reads `tmpOut, `tmpOutSize, `tmpOutStart
    {
      if tmpOutStart <= tmpOutSize && tmpOut + tmpOutSize <= |m| then
        Slice(m, tmpOut + tmpOutStart, tmpOutSize - tmpOutStart)
      else []
    }

    /** What has been taken and made of it, stage by stage. */
    ghost predicate Told(m: seq<Byte>)
      reads `stage, `taken, `seen, `part, `mark, `hdr, `info, `xxh, `remaining, `blockXxh, `out, `maxBlockSize, `tmpIn,
            `tmpInSize, `tmpInTarget, `tmpOut, `tmpOutSize, `tmpOutStart, header, tmpIn
    {
      match stage
      case GetFrameHeader => taken == []
      case StoreFrameHeader => taken == Saved(header[..])
      case Init => Matches() && taken == HeaderBytes(hash, hdr) && seen == [] && remaining == info.contentSize
      case GetBlockHeader => Tells([], [], out)
      case StoreBlockHeader => Tells(Saved(tmpIn[..]), [], out)
      case CopyDirect => Copying(|part| + tmpInTarget, out)
      case GetBlockChecksum => Summing(Saved(header[..]))
      case GetCBlock => Tells(Field(tmpInTarget - CrcSize()), [], out)
      case StoreCBlock => Tells(Field(tmpInTarget - CrcSize()) + Saved(tmpIn[..]), [], out)
      case FlushOut => Tells([], [], out + Left(m))
      case GetSuffix => Marked([])
      case StoreSuffix => info.contentChecksum && Marked(Saved(tmpIn[..]))
      case GetSFrameSize => |taken| == 4 && Skips(taken)
      case StoreSFrameSize =>
        && 4 <= tmpInSize == |taken| <= header.Length && Skips(taken) && taken[4..] == header[4..tmpInSize]
      case SkipSkippable => |taken| >= 8 && Skips(taken) && Read32(taken[4..]) == |taken| - 8 + tmpInTarget
    }

    /** What has been output of the waiting block does not reach the end of the buffer. */
    predicate Unfilled()
      reads `tmpOut, `tmpOutStart, `tmpOutBuffer, `maxBufferSize
    {
      tmpOut + tmpOutStart < tmpOutBuffer + maxBufferSize
    }

    /** The block waits in `m`, whichever kind of history there is. */
    ghost predicate Parked(m: seq<Byte>)
      reads `info, `out, `tmpOut, `tmpOutSize, `tmpOutStart, `tmpOutBuffer, `maxBlockSize, `maxBufferSize, `dict,
      `dictSize, `good
    {
      && tmpOutStart <= tmpOutSize && HistoryOk(m, tmpOutSize - tmpOutStart)
      && (if info.linked then Waiting(m) else Held(m))
    }

    /** The frame information is that of `hdr`. */
    ghost predicate Matches()
      reads `info, `hdr
    {
      hdr.Ok() && info == InfoOf(hdr)
    }

    /** The running checksum and the remaining size account for `decoded`. */
    ghost predicate Counted(decoded: seq<Byte>)
      reads `info, `xxh, `goal, `remaining
    {
      && (info.contentChecksum ==> xxh == decoded) && decoded <= goal
      && (if info.contentSize == 0 then remaining == 0
          else info.contentSize == |goal| && remaining == |goal| - |decoded|)
    }

    /** What the input is known to be is a frame that can be decoded with the memory there is. */
    ghost predicate Expected()
      reads `frame, `goal
    {
      FrameOk(frame) && goal == FrameContent(frame) && Holdable(frame)
    }

    /** The buffer that blocks of this frame need can be allocated. */
    ghost predicate Holdable(f: Frame) {
      f.Lz4? && f.header.Ok() ==> BufferNeeded(f.header) <= reserve
    }

    /** Where in the frame each stage is, with the bytes already set aside counted as still to be read. */
    ghost predicate Follows()
      reads this, mem, tmpIn, header
    {
      && Placed()
      && (stage == FlushOut ==>
            && tmpOutStart <= tmpOutSize && tmpOut + tmpOutSize <= mem.Length
            && pend == Slice(mem[..], tmpOut + tmpOutStart, tmpOutSize - tmpOutStart))
    }

    ghost predicate Placed()
      reads `stage, `frame, `goal, `rest, `hdr, `info, `todo, `pend, `out, `blockXxh, `xxh, `remaining, `tmpInSize,
      `tmpInTarget,
            `tmpIn, tmpIn, header
    {
      match stage
      case GetFrameHeader => Expected() && rest == FrameBytes(hash, frame)
      case StoreFrameHeader =>
        Expected() && Saved(header[..]) + rest == FrameBytes(hash, frame)
      case Init => Matches() && BufferNeeded(hdr) <= reserve && remaining == info.contentSize
        && AtBlock(hash, hdr, [], todo, rest, goal)
      case GetBlockHeader => Decoding(out) && AtBlock(hash, hdr, out, todo, rest, goal)
      case StoreBlockHeader => Decoding(out) && AtBlock(hash, hdr, out, todo, Saved(tmpIn[..]) + rest, goal)
      case CopyDirect => Decoding(out) && |pend| == tmpInTarget
        && InStored(hash, hdr, out, pend, blockXxh, todo, rest, goal)
      case GetBlockChecksum => Decoding(out) && AtChecksum(hash, hdr, out, blockXxh, todo, Saved(header[..]) + rest,
        goal)
      case GetCBlock => Decoding(out) && Due() && InPacked(hash, hdr, out, todo, rest, goal)
      case StoreCBlock => Decoding(out) && Due() && InPacked(hash, hdr, out, todo, Saved(tmpIn[..]) + rest, goal)
      case FlushOut => Decoding(out + pend) && AtBlock(hash, hdr, out + pend, todo, rest, goal)
      case GetSuffix => Decoding(out) && AtSuffix(hash, hdr, out, rest, goal)
      case StoreSuffix => Decoding(out) && info.contentChecksum
        && AtSuffix(hash, hdr, out, Saved(tmpIn[..]) + rest, goal)
      case GetSFrameSize => Skipping(rest)
      case StoreSFrameSize => tmpInSize >= 4 && Skipping(Tail(Saved(header[..]), tmpInSize - 4) + rest)
      case SkipSkippable => goal == [] && |rest| == tmpInTarget
    }

    /** The bytes set aside in `buffer`. */
    function Saved(buffer: seq<Byte>): seq<Byte>
      reads `tmpInSize
    {
      buffer[..Min(tmpInSize, |buffer|)]
    }

    ghost predicate Decoding(decoded: seq<Byte>)
      reads `info, `hdr, `xxh, `goal, `remaining
    {
      Matches() && Counted(decoded)
    }

    /** The size of the next compressed block is known. */
    ghost predicate Due()
      reads `todo, `tmpInTarget, `info
    {
      todo != [] && tmpInTarget == |todo[0].data| + CrcSize()
    }

    /** At the size field of a skippable frame. */
    ghost predicate Skipping(s: seq<Byte>)
      reads `goal
    {
      goal == [] && |s| >= 4 && Read32(s) == |s| - 4
    }

    lemma EnterSkippable()
      requires Buffers() && Fresh() && remaining == 0
      requires stage == GetSFrameSize || (stage == StoreSFrameSize && 4 <= tmpInSize < tmpInTarget == 8)
      requires Skips(taken) && |taken| >= 4
      requires if stage == GetSFrameSize then |taken| == 4
               else |taken| == tmpInSize && taken[4..] == header[4..tmpInSize]
      ensures Shape(mem[..])
      ensures stage == GetSFrameSize && Skipping(rest) ==> Follows()
      ensures stage == StoreSFrameSize && Skipping(header[4..tmpInSize] + rest) ==> Follows()
    {
      hide Allocated, Read32;
      if stage == StoreSFrameSize {
        assert Tail(Saved(header[..]), tmpInSize - 4) == header[4..tmpInSize];
      }
    }

    lemma EnterHeader()
      requires Buffers() && Fresh() && remaining == 0 && stage == StoreFrameHeader
      requires tmpInSize < tmpInTarget <= MAX_HEADER
      requires tmpInTarget == MIN_HEADER || (tmpInSize >= MIN_HEADER && GoesOn(header[..], tmpInTarget))
      requires taken == header[..tmpInSize]
      ensures Shape(mem[..])
      ensures Follows() <==> Expected() && header[..tmpInSize] + rest == FrameBytes(hash, frame)
    {
      hide Allocated, FrameBytes, FrameOk, GoesOn, FrameContent;
      assert Saved(header[..]) == header[..tmpInSize];
    }

    /** More input has been taken. */
    ghost method Take(x: seq<Byte>)
      modifies this`taken
      ensures taken == old(taken) + x
      ensures forall extra, tail, total :: old(Tells(extra, tail, total)) ==> Tells(extra + x, tail, total)
    {
      hide Account;
      taken := taken + x;
      forall extra, tail, total | old(Tells(extra, tail, total))
        ensures Tells(extra + x, tail, total)
      {
        AccountRead(hash, hdr, seen, old(taken), xxh, remaining, extra, tail, total, x);
      }
    }

    // What `Shape` and `Follows` come to, stage by stage.

    lemma OnInit()
      requires stage == Init
      ensures Shape(mem[..]) <==>
                Buffers() && Fresh() && !info.skippable && 4 <= info.sizeId <= 7
                  && maxBlockSize == BlockSize(info.sizeId)
                  && Matches() && taken == HeaderBytes(hash, hdr) && seen == [] && remaining == info.contentSize
      ensures Follows() <==>
                Matches() && BufferNeeded(hdr) <= reserve && remaining == info.contentSize
                  && AtBlock(hash, hdr, [], todo, rest, goal)
    {
      hide Allocated, AtBlock, Matches, Buffers, Fresh, HeaderBytes;
    }

    lemma OnBlockHeader()
      requires stage == GetBlockHeader
      ensures Shape(mem[..]) <==> Ready() && HistoryOk(mem[..], 0) && Tells([], [], out)
      ensures Follows() <==> Decoding(out) && AtBlock(hash, hdr, out, todo, rest, goal)
    {
      hide Allocated, AtBlock, HistoryOk, Decoding, Tells;
    }

    lemma OnStoreBlockHeader()
      requires stage == StoreBlockHeader
      ensures Shape(mem[..]) <==>
                Ready() && HistoryOk(mem[..], 0) && tmpInSize < BLOCK_HEADER && Tells(Saved(tmpIn[..]), [], out)
      ensures Shape(mem[..]) ==> Saved(tmpIn[..]) == tmpIn[..tmpInSize]
      ensures Shape(mem[..]) ==>
                (Follows() <==> Decoding(out) && AtBlock(hash, hdr, out, todo, tmpIn[..tmpInSize] + rest, goal))
    {
      hide Allocated, AtBlock, HistoryOk, Decoding, Tells;
      if Shape(mem[..]) { assert Saved(tmpIn[..]) == tmpIn[..tmpInSize]; }
    }

    lemma OnCopyDirect()
      requires stage == CopyDirect
      ensures Shape(mem[..]) <==>
                && Ready() && HistoryOk(mem[..], 0) && 0 < tmpInTarget <= maxBlockSize
                && Copying(|part| + tmpInTarget, out)
      ensures Follows() <==>
                Decoding(out) && |pend| == tmpInTarget && InStored(hash, hdr, out, pend, blockXxh, todo, rest, goal)
    {
      hide Allocated, InStored, HistoryOk, Decoding, Copying;
    }

    lemma OnBlockChecksum()
      requires stage == GetBlockChecksum
      ensures Shape(mem[..]) <==>
                Ready() && HistoryOk(mem[..], 0) && tmpInSize < 4 && Summing(Saved(header[..]))
      ensures Shape(mem[..]) ==> Saved(header[..]) == header[..tmpInSize]
      ensures Shape(mem[..]) ==>
                (Follows() <==> Decoding(out) && AtChecksum(hash, hdr, out, blockXxh, todo, header[..tmpInSize] + rest,
                                                            goal))
    {
      hide Allocated, AtChecksum, HistoryOk, Decoding, Summing;
      if Shape(mem[..]) { assert Saved(header[..]) == header[..tmpInSize]; }
    }

    lemma OnCBlock()
      requires stage == GetCBlock
      ensures Shape(mem[..]) <==>
                && Ready() && HistoryOk(mem[..], 0) && CrcSize() < tmpInTarget <= maxBlockSize + CrcSize()
                && Tells(Field(tmpInTarget - CrcSize()), [], out)
      ensures Follows() <==> Decoding(out) && Due() && InPacked(hash, hdr, out, todo, rest, goal)
    {
      hide Allocated, InPacked, HistoryOk, Decoding, Due, Tells, Field;
    }

    lemma OnStoreCBlock()
      requires stage == StoreCBlock
      ensures Shape(mem[..]) <==>
                && Ready() && HistoryOk(mem[..], 0) && CrcSize() < tmpInTarget <= maxBlockSize + CrcSize()
                && tmpInSize < tmpInTarget && Tells(Field(tmpInTarget - CrcSize()) + Saved(tmpIn[..]), [], out)
      ensures Shape(mem[..]) ==> Saved(tmpIn[..]) == tmpIn[..tmpInSize]
      ensures Shape(mem[..]) ==>
                (Follows() <==> Decoding(out) && Due() && InPacked(hash, hdr, out, todo, tmpIn[..tmpInSize] + rest,
                  goal))
    {
      hide Allocated, InPacked, HistoryOk, Decoding, Due, Tells, Field;
      if Shape(mem[..]) { assert Saved(tmpIn[..]) == tmpIn[..tmpInSize]; }
    }

    lemma OnFlush()
      requires stage == FlushOut
      ensures Shape(mem[..]) <==> Ready() && Parked(mem[..]) && Unfilled() && Tells([], [], out + Left(mem[..]))
      ensures Shape(mem[..]) ==> tmpOut + tmpOutSize <= mem.Length
      ensures Shape(mem[..]) ==>
                (Follows() <==> && pend == Slice(mem[..], tmpOut + tmpOutStart, tmpOutSize - tmpOutStart)
                                && Decoding(out + pend) && AtBlock(hash, hdr, out + pend, todo, rest, goal))
    {
      hide Allocated, AtBlock, HistoryOk, Decoding, EndsWith, Tells, Left;
    }

    lemma OnSuffix()
      requires stage == GetSuffix
      ensures Shape(mem[..]) <==> Ready() && Marked([])
      ensures Follows() <==> Decoding(out) && AtSuffix(hash, hdr, out, rest, goal)
    {
      hide Allocated, AtSuffix, Decoding, Marked;
    }

    lemma OnStoreSuffix()
      requires stage == StoreSuffix
      ensures Shape(mem[..]) <==>
                Ready() && tmpInSize < 4 && remaining == 0 && info.contentChecksum && Marked(Saved(tmpIn[..]))
      ensures Shape(mem[..]) ==> Saved(tmpIn[..]) == tmpIn[..tmpInSize]
      ensures Shape(mem[..]) ==>
                (Follows() <==> Decoding(out) && info.contentChecksum &&
                                AtSuffix(hash, hdr, out, tmpIn[..tmpInSize] + rest, goal))
    {
      hide Allocated, AtSuffix, Decoding, Marked;
      if Shape(mem[..]) { assert Saved(tmpIn[..]) == tmpIn[..tmpInSize]; }
    }

    // ----- LZ4F_updateDict -----

    /** The output went on directly after the dictionary. */
    method ExtendDict(dstSize: nat, ghost pending: nat)
      requires Ready() && dict + dictSize + dstSize <= mem.Length && (dstSize > 0 ==> 0 < dict)
      requires DictOk(mem[..], pending) && dstSize <= pending
      requires Foreign(arena, reserve, dict + dictSize, dict + dictSize + dstSize)
      modifies this`dictSize, this`out, this`good
      ensures dictSize == old(dictSize) + dstSize
      ensures out == old(out) + Slice(mem[..], old(dict + dictSize), dstSize)
      ensures Remembers(mem[..], out, dict, dictSize, good) && good >= dstSize
      ensures DictOk(mem[..], pending - dstSize) <==> !(dict == tmpOutBuffer && dstSize > 0)
      ensures forall x, pos :: Places(x, pos) ==>
                old(Places(x, pos)) || (old(dict + dictSize) <= x < dict + dictSize
                                        && pos == |out| - (dict + dictSize - x))
    {
      hide Remembers, Enough, Allocated, Slice;
      RemembersMore(mem[..], out, dict, dictSize, good, pending, dict + dictSize, dstSize);
      RemembersBounds(mem[..], out, dict, dictSize, good);
      out := out + Slice(mem[..], dict + dictSize, dstSize);
      dictSize, good := dictSize + dstSize, good + dstSize;
    }

    /** This call's output alone is history enough. */
    method AdoptOutput(dstPtr: nat, dstSize: nat, dstBufferStart: nat, ghost pending: nat)
      requires Ready() && 0 < dstBufferStart <= dstPtr && dstPtr + dstSize <= mem.Length && dstSize <= pending
      requires Foreign(arena, reserve, dstBufferStart, dstPtr + dstSize)
      requires EndsWith(out, mem[..], dstBufferStart, dstPtr - dstBufferStart)
      requires dstPtr - dstBufferStart + dstSize >= KB64
      modifies this`dict, this`dictSize, this`out, this`good
      ensures dict + dictSize == dstPtr + dstSize && dict == dstBufferStart != tmpOutBuffer
      ensures forall x, pos :: Places(x, pos) ==>
                dstBufferStart <= x < dstPtr + dstSize && pos == |out| - (dstPtr + dstSize - x)
      ensures out == old(out) + Slice(mem[..], dstPtr, dstSize)
      ensures DictOk(mem[..], pending - dstSize)
    {
      hide EndsWith;
      ghost var x := Slice(mem[..], dstPtr, dstSize);
      EndsWithMore(out, x, mem[..], dstBufferStart, dstPtr - dstBufferStart);
      dict, dictSize := dstBufferStart, dstPtr - dstBufferStart + dstSize;
      out, good := out + x, dictSize;
    }

    /** The history goes on in the buffer, where the decoded block follows it. */
    method ExtendInBuffer(dstPtr: nat, dstSize: nat)
      requires Ready() && dict == tmpOutBuffer && dict + dictSize == tmpOut + tmpOutStart
      requires dstPtr + dstSize <= mem.Length
      requires Waiting(mem[..]) && DictOk(mem[..], tmpOutSize - tmpOutStart) && tmpOutStart + dstSize <= tmpOutSize
      requires Slice(mem[..], tmpOut + tmpOutStart, dstSize) == Slice(mem[..], dstPtr, dstSize)
      modifies this`dictSize, this`out, this`good
      ensures dict + dictSize == tmpOut + tmpOutStart + dstSize
      ensures out == old(out) + Slice(mem[..], dstPtr, dstSize)
      ensures DictOk(mem[..], tmpOutSize - tmpOutStart - dstSize)
    {
      hide Remembers, Enough, Allocated, EndsWith, Slice;
      RemembersMore(mem[..], out, dict, dictSize, good, tmpOutSize - tmpOutStart, dstPtr, dstSize);
      out := out + Slice(mem[..], dstPtr, dstSize);
      dictSize, good := dictSize + dstSize, good + dstSize;
    }

    /** Copies what is needed of the history to the front of the waiting block. */
    method MoveInFront()
      requires Ready() && dict != tmpOutBuffer && Waiting(mem[..]) && DictOk(mem[..], tmpOutSize - tmpOutStart)
      modifies this`dict, this`dictSize, this`good, mem
      ensures dict == tmpOutBuffer && Waiting(mem[..]) && DictOk(mem[..], tmpOutSize - tmpOutStart)
      ensures dict + dictSize == tmpOut + tmpOutStart
      ensures SameOutside(mem[..], old(mem[..]), tmpOutBuffer, tmpOut)
    {
      hide EndsWith, SameOutside, Enough, Allocated, BlockSize;
      var preserveSize := tmpOut - tmpOutBuffer;
      var copySize := if tmpOutSize > KB64 then 0 else KB64 - tmpOutSize;
      if copySize > preserveSize { copySize := preserveSize; }
      FrontEnough(copySize);
      CopyInFront(copySize);
      dict, dictSize, good := tmpOutBuffer, preserveSize + tmpOutStart, copySize + tmpOutStart;
    }

    method CopyInFront(n: nat)
      requires Ready() && dict != tmpOutBuffer && Waiting(mem[..]) && DictOk(mem[..], tmpOutSize - tmpOutStart)
      requires n <= tmpOut - tmpOutBuffer && (n > 0 ==> n + tmpOutSize <= KB64)
      modifies mem
      ensures EndsWith(out, mem[..], tmpOut - n, n + tmpOutStart) && EndsWith(out, mem[..], tmpOut, tmpOutStart)
      ensures SameOutside(mem[..], old(mem[..]), tmpOutBuffer, tmpOut)
    {
      hide EndsWith, SameOutside, Enough, Allocated, BlockSize;
      if n > 0 {
        FrontSource(n);
        Memcpy(mem, tmpOut - n, dict + dictSize - tmpOutStart - n, n);
        EndsWithInFront(out, old(mem[..]), mem[..], dict + dictSize - good, good, tmpOut, tmpOutStart, n);
        SameWide(mem[..], old(mem[..]), tmpOut - n, tmpOut, tmpOutBuffer, tmpOut);
      } else {
        SameAll(mem[..], tmpOutBuffer, tmpOut);
      }
    }

    /** The history before the waiting block is still in the dictionary. */
    lemma FrontSource(copySize: nat)
      requires Ready() && dict != tmpOutBuffer && Waiting(mem[..]) && DictOk(mem[..], tmpOutSize - tmpOutStart)
      requires 0 < copySize <= tmpOut - tmpOutBuffer && copySize + tmpOutSize <= KB64
      ensures tmpOutStart + copySize <= good
    {
      hide EndsWith;
    }

    /** With the history copied, the buffer has what an offset can reach. */
    lemma FrontEnough(copySize: nat)
      requires Waiting(mem[..])
      requires var room := tmpOut - tmpOutBuffer;
               copySize == if tmpOutSize > KB64 then 0 else Min(room, KB64 - tmpOutSize)
      ensures Enough(|out|, tmpOut - tmpOutBuffer + tmpOutStart, copySize + tmpOutStart, tmpOutSize - tmpOutStart)
    {
      hide EndsWith;
    }

    /** Moves the last `n` bytes of the dictionary, wherever it is, to the start of the buffer. */
    method BringToBuffer(n: nat, ghost pending: nat)
      requires Ready() && DictOk(mem[..], pending) && n <= dictSize && n <= KB64 <= maxBufferSize
      requires n == dictSize || n + pending >= KB64
      requires if dict == tmpOutBuffer then 2 * n <= dictSize else n <= good
      modifies this`dict, this`dictSize, this`good, mem
      ensures dict == tmpOutBuffer && dictSize == n && DictOk(mem[..], pending)
      ensures SameOutside(mem[..], old(mem[..]), tmpOutBuffer, tmpOutBuffer + maxBufferSize)
    {
      hide EndsWith, SameOutside, Allocated, BlockSize, Slice;
      ghost var k := Min(n, good);
      var from := dict + dictSize - n;
      EndsWithShorter(out, mem[..], dict + dictSize - good, good, k);
      Memcpy(mem, tmpOutBuffer, from, n);
      MovedTail(out, old(mem[..]), mem[..], from, tmpOutBuffer, n, k);
      SameWide(mem[..], old(mem[..]), tmpOutBuffer, tmpOutBuffer + n, tmpOutBuffer, tmpOutBuffer + maxBufferSize);
      dict, dictSize, good := tmpOutBuffer, n, k;
    }

    /** Copies new output behind the history in the buffer. */
    method AppendToBuffer(dstPtr: nat, dstSize: nat)
      requires Ready() && dict == tmpOutBuffer && DictOk(mem[..], dstSize) && dictSize + dstSize <= maxBufferSize
      requires dstPtr + dstSize <= mem.Length && Foreign(arena, reserve, dstPtr, dstPtr + dstSize)
      modifies this`dictSize, this`out, this`good, mem
      ensures out == old(out) + Slice(old(mem[..]), dstPtr, dstSize)
      ensures DictOk(mem[..], 0) && dictSize == old(dictSize) + dstSize
      ensures SameOutside(mem[..], old(mem[..]), tmpOutBuffer, tmpOutBuffer + maxBufferSize)
    {
      hide Remembers, Enough, SameOutside, Allocated, BlockSize, Slice;
      RemembersBounds(mem[..], out, dict, dictSize, good);
      Memcpy(mem, dict + dictSize, dstPtr, dstSize);
      ghost var m, at := mem[..], dict + dictSize;
      RemembersKept(old(mem[..]), m, out, dict, dictSize, good, at, at + dstSize);
      SliceKept(m, old(mem[..]), at, at + dstSize, dstPtr, dstSize);
      RemembersMore(m, out, dict, dictSize, good, dstSize, dstPtr, dstSize);
      SameWide(m, old(mem[..]), at, at + dstSize, tmpOutBuffer, tmpOutBuffer + maxBufferSize);
      out := out + Slice(m, dstPtr, dstSize);
      dictSize, good := dictSize + dstSize, good + dstSize;
    }

    /** How much decoded content the history does not count yet. */
    ghost function Uncounted(dstSize: nat, withinTmp: bool): (n: nat)
      requires withinTmp ==> tmpOutStart + dstSize <= tmpOutSize
      reads this
      ensures n >= dstSize
    {
      if withinTmp then tmpOutSize - tmpOutStart else dstSize
    }

    /**
     LZ4F_updateDict: takes new output into the history. Whichever of its branches is taken, the
     dictionary afterwards ends with the output so far, and will reach back 64 KB or to the start of
     the frame once the waiting block is out. It stays either in the buffer or out of it, except
     exactly when the output starts right behind a dictionary that fills the buffer.
     */
    method UpdateDict(dstPtr: nat, dstSize: nat, dstBufferStart: nat, withinTmp: bool)
      requires Ready() && info.linked
      requires withinTmp ==> Waiting(mem[..]) && tmpOutStart + dstSize <= tmpOutSize && Unfilled()
      requires DictOk(mem[..], Uncounted(dstSize, withinTmp))
      requires dstBufferStart <= dstPtr && dstPtr + dstSize <= mem.Length
      requires Foreign(arena, reserve, dstBufferStart, dstPtr + dstSize)
      requires dstPtr + dstSize > dstBufferStart ==> 0 < dstBufferStart
      requires EndsWith(out, mem[..], dstBufferStart, dstPtr - dstBufferStart)
      requires withinTmp ==> Slice(mem[..], tmpOut + tmpOutStart, dstSize) == Slice(mem[..], dstPtr, dstSize)
      modifies this`dict, this`dictSize, this`out, this`good, mem
      ensures out == old(out) + Slice(old(mem[..]), dstPtr, dstSize)
      ensures Remembers(mem[..], out, dict, dictSize, good)
      ensures DictOk(mem[..], Uncounted(dstSize, withinTmp) - dstSize) <==> !(old(Touches(dstPtr)) && dstSize > 0)
      ensures old(Touches(dstPtr) && dictSize > 0) ==>
                dict == old(dict) && dictSize == old(dictSize) + dstSize && good >= dstSize
      ensures Touches(dstPtr + dstSize) && arena + reserve <= dstPtr ==> old(Touches(dstPtr))
      ensures forall x, pos :: Places(x, pos) ==>
                old(Places(x, pos)) || (dstBufferStart <= x < dstPtr + dstSize && pos == |out| - (dstPtr + dstSize - x))
      ensures SameOutside(mem[..], old(mem[..]), tmpOutBuffer,
                          if withinTmp then tmpOut else tmpOutBuffer + maxBufferSize)
      ensures dict == tmpOutBuffer || dict + dictSize == dstPtr + dstSize
      ensures withinTmp && dict == tmpOutBuffer && dictSize > 0 && !(old(Touches(dstPtr)) && dstSize > 0) ==>
                dict + dictSize == tmpOut + tmpOutStart + dstSize
    {
      hide EndsWith, SameOutside, Allocated, BlockSize, Enough, Remembers, Slice, Held, Leans, Places;
      ghost var pending := Uncounted(dstSize, withinTmp);
      RemembersBounds(mem[..], out, dict, dictSize, good);
      if dictSize == 0 { StartAt(dstPtr, pending); }
      if dict + dictSize == dstPtr {
        ExtendDict(dstSize, pending);
        SameAll(mem[..], tmpOutBuffer, if withinTmp then tmpOut else tmpOutBuffer + maxBufferSize);
        return;
      }
      if dstPtr - dstBufferStart + dstSize >= KB64 {
        AdoptOutput(dstPtr, dstSize, dstBufferStart, pending);
        SameAll(mem[..], tmpOutBuffer, if withinTmp then tmpOut else tmpOutBuffer + maxBufferSize);
        return;
      }
      SaveOutput(dstPtr, dstSize, withinTmp);
    }

    /** Output that is not history enough is saved in the buffer. */
    method SaveOutput(dstPtr: nat, dstSize: nat, withinTmp: bool)
      requires Ready() && info.linked
      requires withinTmp ==> Waiting(mem[..]) && tmpOutStart + dstSize <= tmpOutSize && Unfilled()
      requires DictOk(mem[..], Uncounted(dstSize, withinTmp)) && dictSize > 0 && dstSize < KB64 && !Touches(dstPtr)
      requires dstPtr + dstSize <= mem.Length && Foreign(arena, reserve, dstPtr, dstPtr + dstSize)
      requires withinTmp ==> Slice(mem[..], tmpOut + tmpOutStart, dstSize) == Slice(mem[..], dstPtr, dstSize)
      modifies this`dict, this`dictSize, this`out, this`good, mem
      ensures out == old(out) + Slice(old(mem[..]), dstPtr, dstSize)
      ensures dict == tmpOutBuffer && DictOk(mem[..], Uncounted(dstSize, withinTmp) - dstSize)
      ensures (arena + reserve <= dstPtr ==> !Touches(dstPtr + dstSize)) && forall x, pos :: !Places(x, pos)
      ensures SameOutside(mem[..], old(mem[..]), tmpOutBuffer,
                          if withinTmp then tmpOut else tmpOutBuffer + maxBufferSize)
      ensures withinTmp ==> dict + dictSize == tmpOut + tmpOutStart + dstSize
    {
      hide EndsWith, SameOutside, Allocated, BlockSize, Enough, Remembers, Slice;
      if withinTmp {
        KeepInBuffer(dstPtr, dstSize);
      } else {
        JoinInBuffer(dstPtr, dstSize);
      }
    }

    /** The block waits in the buffer, and the history goes on there. */
    method KeepInBuffer(dstPtr: nat, dstSize: nat)
      requires Ready() && info.linked && Waiting(mem[..]) && tmpOutStart + dstSize <= tmpOutSize
      requires DictOk(mem[..], tmpOutSize - tmpOutStart) && dictSize > 0
      requires dstPtr + dstSize <= mem.Length && Foreign(arena, reserve, dstPtr, dstPtr + dstSize)
      requires Slice(mem[..], tmpOut + tmpOutStart, dstSize) == Slice(mem[..], dstPtr, dstSize)
      modifies this`dict, this`dictSize, this`out, this`good, mem
      ensures out == old(out) + Slice(old(mem[..]), dstPtr, dstSize)
      ensures DictOk(mem[..], tmpOutSize - tmpOutStart - dstSize)
      ensures SameOutside(mem[..], old(mem[..]), tmpOutBuffer, tmpOut)
      ensures dict == tmpOutBuffer && dict + dictSize == tmpOut + tmpOutStart + dstSize
    {
      hide EndsWith, SameOutside, Allocated, BlockSize, Enough, Remembers, Slice;
      if dict == tmpOutBuffer {
        SameAll(mem[..], tmpOutBuffer, tmpOut);
      } else {
        MoveInFront();
        KeptRanges(old(mem[..]), mem[..], dstPtr, dstSize);
      }
      ExtendInBuffer(dstPtr, dstSize);
    }

    /** A dictionary that holds nothing may stand anywhere. */
    method StartAt(dstPtr: nat, ghost pending: nat)
      requires DictOk(mem[..], pending) && dictSize == 0 && dstPtr <= mem.Length
      modifies this`dict
      ensures dict == dstPtr && DictOk(mem[..], pending) && forall x, pos :: !Places(x, pos)
    {
      dict := dstPtr;
    }

    /** New output that is too short to be the history joins it in the buffer. */
    method JoinInBuffer(dstPtr: nat, dstSize: nat)
      requires Ready() && info.linked && DictOk(mem[..], dstSize) && dstSize < KB64
      requires dstPtr + dstSize <= mem.Length && Foreign(arena, reserve, dstPtr, dstPtr + dstSize)
      modifies this`dict, this`dictSize, this`out, this`good, mem
      ensures dict == tmpOutBuffer && out == old(out) + Slice(old(mem[..]), dstPtr, dstSize)
      ensures DictOk(mem[..], 0)
      ensures dstSize == 0 ==> (old(dict) == tmpOutBuffer && dictSize == old(dictSize)) || dictSize <= KB64
      ensures SameOutside(mem[..], old(mem[..]), tmpOutBuffer, tmpOutBuffer + maxBufferSize)
    {
      hide EndsWith, Allocated;
      if dict == tmpOutBuffer {
        if dictSize + dstSize > maxBufferSize {
          BringToBuffer(KB64 - dstSize, dstSize);
        }
      } else {
        BringToBuffer(Min(KB64 - dstSize, dictSize), dstSize);
      }
      SameSlice(mem[..], old(mem[..]), tmpOutBuffer, tmpOutBuffer + maxBufferSize, dstPtr, dstPtr + dstSize);
      AppendToBuffer(dstPtr, dstSize);
    }

    lemma KeptRanges(m: seq<Byte>, m': seq<Byte>, dstPtr: nat, dstSize: nat)
      requires Ready() && Waiting(m) && SameOutside(m', m, tmpOutBuffer, tmpOut) && tmpOutStart + dstSize <= tmpOutSize
      requires dstPtr + dstSize <= |m| && Foreign(arena, reserve, dstPtr, dstPtr + dstSize)
      ensures var at := tmpOut + tmpOutStart;
              at + dstSize <= |m| ==>
              Slice(m', dstPtr, dstSize) == Slice(m, dstPtr, dstSize) && Slice(m', at, dstSize) == Slice(m, at, dstSize)
    {
      hide EndsWith, Allocated;
      var at := tmpOut + tmpOutStart;
      if at + dstSize <= |m| {
        SameSlice(m', m, tmpOutBuffer, tmpOut, dstPtr, dstPtr + dstSize);
        SameSlice(m', m, tmpOutBuffer, tmpOut, at, at + dstSize);
      }
    }

    /** The dictionary starts with the buffer, and would be taken to go on at `op`. */
    predicate Touches(op: nat)
      reads `dict, `dictSize, `tmpOutBuffer
    {
      dict == tmpOutBuffer && dict + dictSize == op
    }

    /** What an offset can reach of the dictionary includes address `x` in the caller's memory. */
    predicate Leans(x: int)
      reads `dict, `dictSize, `tmpOutBuffer
    {
      dict != tmpOutBuffer && dict + dictSize - Min(dictSize, KB64) <= x < dict + dictSize
    }

    /** Address `x`, in the caller's memory and the reach of offsets, is taken to hold byte `pos` of the output. */
    ghost predicate Places(x: int, pos: int)
      reads `info, `dict, `dictSize, `tmpOutBuffer, `out
    {
      info.linked && Leans(x) && pos == |out| - (dict + dictSize - x)
    }

    /** The dictionary is not in [from, to), in the caller's memory. */
    ghost predicate Clear(from: nat, to: nat)
      reads `stage, `dict, `dictSize, `good, `tmpOutBuffer
    {
      || from == to || stage in {GetSuffix, StoreSuffix}
      || dict == tmpOutBuffer || dictSize == 0 || dict + dictSize <= from || to + good <= dict + dictSize
    }

    /** It is not where the rest of this call's output goes, nor taken to go on there by mistake. */
    ghost predicate Open(op: nat, dstEnd: nat)
      reads `stage, `dict, `dictSize, `good, `tmpOutBuffer
    {
      Clear(op, dstEnd) && (op == dstEnd || stage in {GetSuffix, StoreSuffix} || !Touches(op))
    }

    // ----- LZ4F_decodeHeader -----

    /** `s` and the start of the frame agree as far as both go. */
    ghost predicate Starts(s: seq<Byte>)
      reads `frame, `goal
    {
      Expected() && Agrees(s, 0, FrameBytes(hash, frame))
    }

    /**
     LZ4F_decodeHeader: reads the header at the start of `s`, which may be the decoder's own copy of
     it. It accepts exactly the encodings of headers, asks for more when the header goes on, and
     recognises skippable frames.
     */
    method DecodeHeader(s: seq<Byte>, fromHeader: bool) returns (error: Option<Error>, n: nat)
      requires Buffers() && Fresh() && remaining == 0
      requires fromHeader ==> |s| <= MAX_HEADER && header[..|s|] == s
      requires fromHeader ==> |s| == MIN_HEADER || GoesOn(s, |s|)
      requires live ==> |s| >= MIN_HEADER && Starts(s)
      modifies this`info, this`stage, this`tmpInSize, this`tmpInTarget, this`maxBlockSize, this`remaining,
               this`hdr, this`todo, this`rest, this`taken, this`seen, header
      ensures error.None? ==> Shape(mem[..]) && n <= |s| && n >= 4 && taken == s[..n]
      ensures error.None? ==> stage in {Init, StoreFrameHeader, GetSFrameSize, StoreSFrameSize}
      ensures error.None? && stage == Init ==>
                HeaderAccepted(hash, s) && info == InfoOf(ReadHeader(s)) && n == HeaderSize(s[4])
      ensures HeaderAccepted(hash, s) ==> error.None? && stage == Init
      ensures error.None? && fromHeader ==> n == |s|
      ensures live ==> error.None? && Follows()
      ensures live ==> n <= |FrameBytes(hash, frame)| && rest == FrameBytes(hash, frame)[n..]
    {
      hide Allocated, Bit, Read32, Read64, HeaderChecksum, Shape, Follows, FrameBytes;
      if |s| < MIN_HEADER { return Some(FrameHeaderIncomplete), 0; }
      info := Info(false, true, false, false, 0, 0, 0);
      if Read32(s) / 16 == MAGIC_SKIPPABLE / 16 {
        n := SkippableHeader(s, fromHeader);
        return None, n;
      }
      if live { StartsLz4(s); }
      if Read32(s) != MAGIC { return Some(FrameTypeUnknown), 0; }
      var flg := s[4];
      if Bit(flg, 2) { return Some(ReservedFlagSet), 0; }
      if flg / 64 % 4 != 1 { return Some(HeaderVersionWrong), 0; }
      var size := HeaderSize(flg);
      if |s| < size {
        n := PartialHeader(s, fromHeader, size);
        return None, n;
      }
      var bd := s[5];
      if Bit(bd, 128) { return Some(ReservedFlagSet), 0; }
      if bd / 16 % 8 < 4 { return Some(MaxBlockSizeInvalid), 0; }
      if bd % 16 != 0 { return Some(ReservedFlagSet), 0; }
      if HeaderChecksum(hash, s[4..size - 1]) != s[size - 1] { return Some(HeaderChecksumInvalid), 0; }
      n := FullHeader(s, size);
      error := None;
    }

    /** The header of a skippable frame. */
    method SkippableHeader(s: seq<Byte>, fromHeader: bool) returns (n: nat)
      requires Buffers() && Fresh() && remaining == 0 && |s| >= MIN_HEADER && Read32(s) / 16 == MAGIC_SKIPPABLE / 16
      requires fromHeader ==> |s| == MIN_HEADER && header[..|s|] == s
      requires live ==> Starts(s)
      modifies this`info, this`stage, this`tmpInSize, this`tmpInTarget, this`rest, this`taken
      ensures Shape(mem[..]) && n == (if fromHeader then |s| else 4) && taken == s[..n]
      ensures stage == if fromHeader then StoreSFrameSize else GetSFrameSize
      ensures live ==> Follows() && n <= |FrameBytes(hash, frame)| && rest == FrameBytes(hash, frame)[n..]
    {
      hide Allocated, Read32, FrameBytes, Shape, Follows, Fresh;
      n := if fromHeader then |s| else 4;
      ghost var left := rest;
      if live {
        StartsSkippable(s);
        ghost var fb := FrameBytes(hash, frame);
        left := fb[n..];
        if fromHeader { assert header[4..n] == fb[4..n] && header[4..n] + left == fb[4..]; }
      }
      SetSkippable(n, fromHeader, left);
      taken := s[..n];
      SkipsStart(s, n);
      if fromHeader { assert taken[4..] == header[4..n]; }
      EnterSkippable();
    }

    method SetSkippable(n: nat, fromHeader: bool, ghost left: seq<Byte>)
      modifies this`info, this`stage, this`tmpInSize, this`tmpInTarget, this`rest
      ensures info == old(info).(skippable := true) && stage == (if fromHeader then StoreSFrameSize else GetSFrameSize)
      ensures (fromHeader ==> tmpInSize == n && tmpInTarget == 8) && rest == left
    {
      info, stage := info.(skippable := true), if fromHeader then StoreSFrameSize else GetSFrameSize;
      if fromHeader { tmpInSize, tmpInTarget := n, 8; }
      rest := left;
    }

    lemma StartsSkippable(s: seq<Byte>)
      requires |s| >= MIN_HEADER && Read32(s) / 16 == MAGIC_SKIPPABLE / 16 && Starts(s)
      ensures frame.Skippable? && goal == []
      ensures var fb := FrameBytes(hash, frame);
              |fb| >= 8 && Read32(fb[4..]) == |fb[4..]| - 4 && fb[4..MIN_HEADER] == s[4..MIN_HEADER]
    {
      hide Read32, Bytes32;
      var fb := FrameBytes(hash, frame);
      if frame.Lz4? {
        PrefixOfBoth(Bytes32(MAGIC), s, fb);
        Read32Bytes(MAGIC, s);
        assert false;
      }
      var size := Bytes32(|frame.data|);
      assert fb[4..] == size + frame.data;
      Read32Bytes(|frame.data|, fb[4..]);
    }

    /** The frame is an LZ4 frame, and what there is of its header passes the tests. */
    lemma StartsLz4(s: seq<Byte>)
      requires |s| >= MIN_HEADER && Read32(s) / 16 != MAGIC_SKIPPABLE / 16 && Starts(s)
      ensures frame.Lz4? && Read32(s) == MAGIC && !Bit(s[4], 2) && s[4] / 64 % 4 == 1
      ensures HeaderSize(s[4]) == |HeaderBytes(hash, frame.header)| <= |FrameBytes(hash, frame)|
      ensures |s| >= HeaderSize(s[4]) ==> HeaderAccepted(hash, s) && ReadHeader(s) == frame.header
    {
      hide Read32, Bytes32, Bit, ReadHeader, Body, BodyOk;
      var fb := FrameBytes(hash, frame);
      if frame.Skippable? {
        assert Bytes32(frame.magic) <= fb;
        PrefixOfBoth(Bytes32(frame.magic), s, fb);
        Read32Bytes(frame.magic, s);
        assert false;
      }
      var hb := HeaderBytes(hash, frame.header);
      assert hb <= fb;
      HeaderCodec(hash, fb, frame.header);
      PrefixOfBoth(Bytes32(MAGIC), s, fb);
      Read32Bytes(MAGIC, s);
      assert s[4] == fb[4];
      if |s| >= |hb| {
        PrefixOfBoth(hb, s, fb);
        HeaderCodec(hash, s, frame.header);
      }
    }

    lemma StartsHeader(s: seq<Byte>)
      requires HeaderAccepted(hash, s) && Starts(s)
      ensures frame.Lz4? && ReadHeader(s) == frame.header && HeaderSize(s[4]) <= |FrameBytes(hash, frame)|
      ensures frame.header.Ok() && BufferNeeded(frame.header) <= reserve
      ensures AtBlock(hash, frame.header, [], frame.blocks, FrameBytes(hash, frame)[HeaderSize(s[4])..], goal)
    {
      hide Read32, Bytes32, Bit, ReadHeader, Body, BodyOk, HeaderBytes;
      StartsLz4(s);
      var fb, hb := FrameBytes(hash, frame), HeaderBytes(hash, frame.header);
      assert fb[|hb|..] == Body(hash, frame.header, [], frame.blocks);
    }

    /** A header that says it goes on. */
    method PartialHeader(s: seq<Byte>, fromHeader: bool, size: nat) returns (n: nat)
      requires Buffers() && Fresh() && remaining == 0 && |s| < size && GoesOn(s, size)
      requires fromHeader ==> header[..|s|] == s
      requires live ==> Starts(s) && |s| <= |FrameBytes(hash, frame)|
      modifies this`stage, this`tmpInSize, this`tmpInTarget, this`rest, this`taken, header
      ensures Shape(mem[..]) && n == |s| && stage == StoreFrameHeader && taken == s[..n]
      ensures live ==> Follows() && n <= |FrameBytes(hash, frame)| && rest == FrameBytes(hash, frame)[n..]
    {
      hide Allocated, FrameBytes, Shape, Follows, Fresh, Read32, HeaderSize;
      if !fromHeader {
        forall k | 0 <= k < |s| { header[k] := s[k]; }
      }
      assert header[..|s|] == s;
      n := |s|;
      GoesOnStill(s, header[..], |s|, size);
      assert header[..][4] == header[..|s|][4];
      ghost var left := if live then FrameBytes(hash, frame)[n..] else rest;
      if live { assert s + left == FrameBytes(hash, frame); }
      tmpInSize, tmpInTarget, stage, rest, taken := |s|, size, StoreFrameHeader, left, s[..n];
      EnterHeader();
    }

    /** A complete header that has passed every test. */
    method FullHeader(s: seq<Byte>, size: nat) returns (n: nat)
      requires Buffers() && Fresh() && remaining == 0 && HeaderAccepted(hash, s) && size == HeaderSize(s[4])
      requires live ==> Starts(s)
      modifies this`info, this`stage, this`maxBlockSize, this`remaining, this`hdr, this`todo, this`rest, this`taken,
               this`seen
      ensures Shape(mem[..]) && n == size && stage == Init && info == InfoOf(ReadHeader(s)) && taken == s[..n]
      ensures live ==> Follows() && n <= |FrameBytes(hash, frame)| && rest == FrameBytes(hash, frame)[n..]
    {
      hide Allocated, HeaderBytes, AtBlock, Shape, Follows, FrameBytes, BlockSize, Buffers, Fresh, Descriptor;
      var h := ReadHeader(s);
      HeaderCodec(hash, s, h);
      if live { StartsHeader(s); }
      SaveHeader(h, if live then FrameBytes(hash, frame)[size..] else [], if live then frame.blocks else []);
      n := size;
      assert taken == s[..n];
    }

    method SaveHeader(h: Header, ghost left: seq<Byte>, ghost blocks: seq<Block>)
      requires Buffers() && Fresh() && remaining == 0 && h.Ok()
      requires live ==> AtBlock(hash, h, [], blocks, left, goal) && BufferNeeded(h) <= reserve
      modifies this`info, this`stage, this`maxBlockSize, this`remaining, this`hdr, this`todo, this`rest, this`taken,
               this`seen
      ensures Shape(mem[..]) && stage == Init && info == InfoOf(h) && (live ==> Follows() && rest == left)
      ensures taken == HeaderBytes(hash, h)
    {
      hide Allocated, AtBlock, Shape, Follows, BlockSize, Buffers, Fresh, HeaderBytes;
      SetHeader(h, left, blocks);
      taken, seen := HeaderBytes(hash, h), [];
      OnInit();
    }

    method SetHeader(h: Header, ghost left: seq<Byte>, ghost blocks: seq<Block>)
      requires h.Ok()
      modifies this`info, this`stage, this`maxBlockSize, this`remaining, this`hdr, this`todo, this`rest
      ensures info == InfoOf(h) && maxBlockSize == BlockSize(h.sizeId) && stage == Init
      ensures remaining == if h.contentSize.Some? then h.contentSize.value else old(remaining)
      ensures hdr == h && todo == blocks && rest == left
    {
      hide BlockSize;
      info, maxBlockSize, stage := InfoOf(h), BlockSize(h.sizeId), Init;
      if h.contentSize.Some? {
        remaining := h.contentSize.value;
      }
      hdr, todo, rest := h, blocks, left;
    }

    // ----- Stages -----

    /** The stages in which a call can end short of the end of a frame. */
    predicate Resting()
      reads `stage, `tmpInTarget
    {
      stage !in {Init, GetSuffix, GetSFrameSize} && (stage == SkipSkippable ==> tmpInTarget > 0)
    }

    /** Room is needed to go on: a compressed block is due, or output is waiting. */
    predicate Blocked()
      reads `stage, `tmpInTarget, `tmpOutStart, `tmpOutSize
    {
      || stage == GetCBlock || (stage == CopyDirect && tmpInTarget > 0)
      || (stage == FlushOut && tmpOutStart < tmpOutSize)
    }

    /** How much input would be welcome: what completes the current part, and the size field after it. */
    function Asked(): int
      reads `stage, `tmpInSize, `tmpInTarget, `info
    {
      match stage
      case GetFrameHeader => MIN_HEADER
      case StoreFrameHeader => tmpInTarget - tmpInSize + BLOCK_HEADER
      case StoreBlockHeader => BLOCK_HEADER - tmpInSize
      case CopyDirect => tmpInTarget + CrcSize() + BLOCK_HEADER
      case GetBlockChecksum => 1
      case GetCBlock => BLOCK_HEADER + tmpInTarget
      case StoreCBlock => tmpInTarget - tmpInSize + CrcSize() + BLOCK_HEADER
      case FlushOut => BLOCK_HEADER
      case StoreSuffix => 4 - tmpInSize
      case StoreSFrameSize => tmpInTarget - tmpInSize
      case SkipSkippable => tmpInTarget
      case _ => 0
    }

    /**
     How far that may go beyond the end of the frame: a skippable frame may be over before a size field would come, and
     the checksum of a block that is set aside is asked for twice.
     */
    ghost function Excess(): nat
      reads `stage, `frame, `info
    {
      if stage == StoreFrameHeader && frame.Skippable? then 3
      else if stage == StoreCBlock then CrcSize()
      else 0
    }

    /** What a stage that neither decodes nor outputs leaves alone. */
    twostate predicate Quiet()
      reads this, mem
    {
      && mem[..] == old(mem[..]) && out == old(out) && goal == old(goal) && live == old(live)
      && dict == old(dict) && dictSize == old(dictSize) && good == old(good)
      && (tmpOutBuffer == old(tmpOutBuffer) || (dict + dictSize == 0 && tmpOutBuffer > 0))
      && (tmpIn == old(tmpIn) || fresh(tmpIn))
    }

    /** dstage_getFrameHeader. */
    method StageGetFrameHeader(src: seq<Byte>, ip: nat) returns (step: Step, next: nat)
      requires stage == GetFrameHeader && Shape(mem[..]) && ip <= |src| && (live ==> Follows() && Agrees(src, ip, rest))
      modifies this, header
      ensures Quiet() && ip <= next <= |src|
      ensures !step.Fail? ==> Shape(mem[..]) && taken == old(taken) + src[ip..next]
      ensures step.Again? ==> next > ip || stage == StoreFrameHeader
      ensures step.Stop? ==> step.hint == Asked() > 0 && next == |src| && stage == GetFrameHeader
      ensures live ==> !step.Fail? && Follows() && next - ip <= |old(rest)| && rest == old(rest)[next - ip..]
    {
      hide Allocated, FrameBytes, FrameOk, Read32, HeaderAccepted, ReadHeader, Shape, Follows, Fresh;
      OnStart();
      if |src| - ip >= MAX_HEADER {
        if live { SuffixAgrees(src, ip, rest); }
        var error, n := DecodeHeader(src[ip..], false);
        if error.Some? { return Fail(error.value), ip; }
        assert src[ip..][..n] == src[ip..ip + n];
        return Again, ip + n;
      }
      StoreNothing();
      if ip == |src| { return Stop(MIN_HEADER), ip; }
      StoreFromStart();
      return Again, ip;
    }

    method StoreNothing()
      requires stage == GetFrameHeader && Shape(mem[..]) && (live ==> Follows())
      modifies this`tmpInSize
      ensures tmpInSize == 0 && Shape(mem[..]) && (live ==> Follows())
    {
      hide Allocated, FrameBytes, FrameOk;
      tmpInSize := 0;
    }

    method StoreFromStart()
      requires stage == GetFrameHeader && Shape(mem[..]) && (live ==> Follows()) && tmpInSize == 0
      modifies this`tmpInTarget, this`stage
      ensures stage == StoreFrameHeader && Shape(mem[..]) && (live ==> Follows())
    {
      hide Allocated, FrameBytes, FrameOk, Shape, Follows;
      OnStart();
      assert header[..0] == [];
      tmpInTarget, stage := MIN_HEADER, StoreFrameHeader;
      assert header[..0] + rest == rest;
      EnterHeader();
    }

    lemma LeaveHeader()
      requires stage == StoreFrameHeader && Shape(mem[..])
      ensures Buffers() && Fresh() && remaining == 0 && tmpInSize < tmpInTarget <= MAX_HEADER
      ensures taken == header[..tmpInSize]
      ensures tmpInTarget == MIN_HEADER || (tmpInSize >= MIN_HEADER && GoesOn(header[..], tmpInTarget))
      ensures Follows() ==> Expected() && header[..tmpInSize] + rest == FrameBytes(hash, frame)
      ensures Follows() ==> tmpInTarget <= tmpInSize + |rest|
    {
      hide Allocated, FrameBytes, FrameOk, GoesOn, FrameContent;
      assert Saved(header[..]) == header[..tmpInSize];
      if Follows() {
        HeaderWithin();
      }
    }

    /** The frame has all the bytes its header asks for. */
    lemma HeaderWithin()
      requires FrameOk(frame) && tmpInSize <= header.Length && header[..tmpInSize] + rest == FrameBytes(hash, frame)
      requires tmpInTarget == MIN_HEADER || (MIN_HEADER <= tmpInSize && GoesOn(header[..], tmpInTarget))
      ensures tmpInTarget <= |FrameBytes(hash, frame)|
    {
      hide Read32, Bytes32, Body, BodyOk, HeaderBytes;
      var fb := FrameBytes(hash, frame);
      if tmpInTarget != MIN_HEADER {
        var s := header[..tmpInSize];
        assert Read32(s) == Read32(header[..]) by { Read32Bytes(MAGIC, s); Read32Bytes(MAGIC, header[..]); }
        assert s <= fb && Agrees(s, 0, fb) && s[4] == header[4];
        if frame.Skippable? {
          assert Bytes32(frame.magic) <= fb;
          PrefixOfBoth(Bytes32(frame.magic), s, fb);
          Read32Bytes(frame.magic, s);
          assert false;
        }
        HeaderCodec(hash, fb, frame.header);
      }
    }

    /** dstage_storeFrameHeader. */
    method StageStoreFrameHeader(src: seq<Byte>, ip: nat) returns (step: Step, next: nat)
      requires stage == StoreFrameHeader && Shape(mem[..]) && ip <= |src|
      requires live ==> Follows() && Agrees(src, ip, rest)
      modifies this, header
      ensures Quiet() && ip <= next <= |src|
      ensures !step.Fail? ==> Shape(mem[..]) && taken == old(taken) + src[ip..next]
      ensures step.Again? ==> next > ip
      ensures step.Stop? ==> step.hint == Asked() > 0 && next == |src| && stage == StoreFrameHeader
      ensures live ==> !step.Fail? && Follows() && next - ip <= |old(rest)| && rest == old(rest)[next - ip..]
    {
      hide FrameBytes, Shape, Follows, Fresh, GoesOn, Agrees, Buffers, Expected;
      OnHeaderLength();
      LeaveHeader();
      ghost var size := tmpInSize;
      var n := Store(header, tmpInTarget, src, ip);
      next := ip + n;
      GoesOnStill(old(header[..]), header[..], size, tmpInTarget);
      if tmpInSize < tmpInTarget {
        EnterHeader();
        return Stop(tmpInTarget - tmpInSize + BLOCK_HEADER), next;
      }
      var error := DecodeStored(size);
      step := if error.Some? then Fail(error.value) else Again;
    }

    /** The header set aside is as long as it says. */
    method DecodeStored(ghost size: nat) returns (error: Option<Error>)
      requires Buffers() && Fresh() && remaining == 0 && size <= tmpInSize == tmpInTarget <= MAX_HEADER
      requires tmpInTarget == MIN_HEADER || (MIN_HEADER <= size && GoesOn(header[..], tmpInTarget))
      requires live ==> Expected() && header[..tmpInSize] + rest == FrameBytes(hash, frame)
      requires taken == header[..tmpInSize]
      modifies this`info, this`stage, this`tmpInSize, this`tmpInTarget, this`maxBlockSize, this`remaining,
               this`hdr, this`todo, this`rest, this`taken, this`seen, header
      ensures error.None? ==> Shape(mem[..]) && taken == old(taken)
      ensures live ==> error.None? && Follows() && rest == old(rest)
    {
      hide Allocated, FrameBytes, FrameOk, Read32, HeaderAccepted, ReadHeader, Shape, Follows, Fresh, GoesOn, Agrees;
      var s := header[..tmpInTarget];
      GoesOnStill(header[..], s, size, tmpInTarget);
      if live { PrefixAgrees(s, rest, FrameBytes(hash, frame)); }
      var n;
      error, n := DecodeHeader(s, true);
    }

    /** Sets input aside until there are `target` bytes. */
    method Store(buffer: array<Byte>, target: nat, src: seq<Byte>, ip: nat) returns (n: nat)
      requires tmpInSize <= target <= buffer.Length && ip <= |src|
      requires live ==> Agrees(src, ip, rest) && target <= tmpInSize + |rest|
      modifies this`tmpInSize, this`rest, this`taken, buffer
      ensures n == Min(target - old(tmpInSize), |src| - ip) && tmpInSize == old(tmpInSize) + n
      ensures buffer[..old(tmpInSize)] == old(buffer[..tmpInSize])
      ensures buffer[..tmpInSize] == old(buffer[..tmpInSize]) + src[ip..ip + n] && taken == old(taken) + src[ip..ip + n]
      ensures forall extra, tail, total ::
                old(Tells(extra, tail, total)) ==> Tells(extra + src[ip..ip + n], tail, total)
      ensures live ==> n <= |old(rest)| && rest == old(rest)[n..]
      ensures live ==> buffer[..tmpInSize] + rest == old(buffer[..tmpInSize] + rest)
    {
      hide Agrees, Tells;
      n := Fill(buffer, tmpInSize, target, src, ip);
      if live {
        SavedMore(old(buffer[..tmpInSize]), src, ip, rest, n);
        rest := rest[n..];
      }
      assert buffer[..tmpInSize] == buffer[..tmpInSize + n][..tmpInSize];
      tmpInSize := tmpInSize + n;
      Take(src[ip..ip + n]);
    }

    /** dstage_init: the buffers, and a clean start. */
    method StageInit() returns (step: Step)
      requires stage == Init && Shape(mem[..]) && (live ==> Follows())
      modifies this
      ensures Quiet() && (step == Again || step == Fail(AllocationFailed))
      ensures step == Again ==> Shape(mem[..]) && stage == GetBlockHeader && taken == old(taken)
      ensures live ==> step == Again && Follows() && rest == old(rest)
    {
      hide AtBlock, Shape, Follows, Allocated, BlockSize, Buffers, Ready, HistoryOk, Matches, Counted, Tells,
           HeaderBytes;
      OnInit();
      if live { assert hdr.sizeId == info.sizeId && hdr.independent == !info.linked by { MatchesInfo(); } }
      var ok := Allocate();
      if !ok { return Fail(AllocationFailed); }
      StartBlocks();
      BufferAt();
      step := Again;
    }

    method StartBlocks()
      requires Ready() && Fresh() && Matches() && taken == HeaderBytes(hash, hdr) && seen == []
      requires remaining == info.contentSize && (live ==> AtBlock(hash, hdr, [], todo, rest, goal))
      modifies this`xxh, this`tmpInSize, this`tmpInTarget, this`tmpOut, this`tmpOutStart, this`tmpOutSize, this`stage
      ensures stage == GetBlockHeader && Shape(mem[..]) && (live ==> Follows())
    {
      hide AtBlock, Shape, Follows, Ready, HistoryOk, Matches, Counted, Tells, HeaderBytes;
      BeginBlocks();
      if live { StartCounting(); }
      StartTelling();
      NoHistory();
      OnBlockHeader();
    }

    lemma MatchesInfo()
      requires Matches()
      ensures hdr.Ok() && hdr.sizeId == info.sizeId && hdr.independent == !info.linked
    {
    }

    method BeginBlocks()
      modifies this`xxh, this`tmpInSize, this`tmpInTarget, this`tmpOut, this`tmpOutStart, this`tmpOutSize, this`stage
      ensures stage == GetBlockHeader && (info.contentChecksum ==> xxh == [])
      ensures tmpInSize == 0 && tmpInTarget == 0 && tmpOut == tmpOutBuffer && tmpOutStart == 0 && tmpOutSize == 0
    {
      if info.contentChecksum { xxh := []; }
      tmpInSize, tmpInTarget := 0, 0;
      tmpOut, tmpOutStart, tmpOutSize := tmpOutBuffer, 0, 0;
      stage := GetBlockHeader;
    }

    lemma StartCounting()
      requires Matches() && remaining == info.contentSize && AtBlock(hash, hdr, [], todo, rest, goal)
      requires info.contentChecksum ==> xxh == []
      ensures Counted([])
    {
      hide AtBlock;
      BodyNonEmpty(hash, hdr, [], todo, rest, goal);
    }

    lemma StartTelling()
      requires Matches() && taken == HeaderBytes(hash, hdr) && seen == [] && remaining == info.contentSize
      requires info.contentChecksum ==> xxh == []
      ensures Tells([], [], [])
    {
      hide HeaderBytes;
    }

    lemma NoHistory()
      requires Ready() && Fresh() && tmpOut == tmpOutBuffer
      ensures HistoryOk(mem[..], 0)
    {
      hide Allocated;
    }

    /** The part of dstage_init that sizes the buffers; it fails when the larger of them cannot be had. */
    method Allocate() returns (ok: bool)
      requires Buffers() && !info.skippable && 4 <= info.sizeId <= 7 && maxBlockSize == BlockSize(info.sizeId)
      modifies this`tmpIn, this`tmpOutBuffer, this`maxBufferSize
      ensures ok <==> maxBlockSize + (if info.linked then 2 * KB64 else 0) <= Max(old(maxBufferSize), reserve)
      ensures ok ==> Ready()
      ensures tmpIn == old(tmpIn) || fresh(tmpIn)
      ensures tmpOutBuffer == old(tmpOutBuffer) || (ok && tmpOutBuffer == arena)
    {
      var bufferNeeded := maxBlockSize + if info.linked then 2 * KB64 else 0;
      if bufferNeeded > maxBufferSize {
        maxBufferSize := 0;
        tmpIn := new Byte[maxBlockSize + BLOCK_FOOTER](_ => 0);
        if bufferNeeded > reserve { return false; }
        tmpOutBuffer := arena;
        maxBufferSize := bufferNeeded;
      }
      ok := true;
    }

    /** The decoding of a block header, once its four bytes are there. */
    method BlockHeader(word: U32, inputOver: bool, outputFull: bool) returns (step: Step)
      requires Ready() && HistoryOk(mem[..], 0)
      requires live ==> Decoding(out) && AtBlock(hash, hdr, out, todo, Bytes32(word) + rest, goal)
      requires Tells(Bytes32(word), [], out)
      modifies this`stage, this`tmpInTarget, this`blockXxh, this`todo, this`pend, this`part, this`mark
      ensures !step.Fail? ==> Shape(mem[..]) && stage in {GetSuffix, CopyDirect, GetCBlock}
      ensures step.Stop? ==> step.hint == Asked() > 0 && (inputOver || outputFull) && stage == GetCBlock
      ensures live ==> !step.Fail? && Follows()
    {
      hide Shape, Follows, Matches, Counted, AtBlock, Ready, HistoryOk, Bytes32, Read32, InStored, InPacked, AtSuffix,
           Tells, Marked;
      if live { HeaderWord(word); }
      var size := word % UNCOMPRESSED_FLAG;
      if size == 0 {
        stage, mark := GetSuffix, word;
        EndMarked();
        OnSuffix();
        return Again;
      }
      if size > maxBlockSize { return Fail(MaxBlockSizeInvalid); }
      if word >= UNCOMPRESSED_FLAG {
        StartStored(size);
        return Again;
      }
      StartPacked(size);
      if outputFull || inputOver { return Stop(BLOCK_HEADER + size + CrcSize()); }
      return Again;
    }

    lemma EndMarked()
      requires mark % UNCOMPRESSED_FLAG == 0 && Tells(Bytes32(mark), [], out)
      ensures Marked([])
    {
      hide Tells, Bytes32;
      assert Field(mark) + [] == Bytes32(mark);
    }

    lemma HeaderWord(word: U32)
      requires Matches() && Ready() && AtBlock(hash, hdr, out, todo, Bytes32(word) + rest, goal)
      ensures word % UNCOMPRESSED_FLAG <= maxBlockSize
      ensures word % UNCOMPRESSED_FLAG == 0 <==> todo == []
      ensures todo == [] ==> AtSuffix(hash, hdr, out, rest, goal)
      ensures todo != [] ==>
                |todo[0].data| == word % UNCOMPRESSED_FLAG && (todo[0].Stored? <==> word >= UNCOMPRESSED_FLAG)
      ensures todo != [] && todo[0].Stored? ==> InStored(hash, hdr, out, todo[0].data, [], todo[1..], rest, goal)
      ensures todo != [] && todo[0].Packed? ==> InPacked(hash, hdr, out, todo, rest, goal)
    {
      hide AtBlock, Bytes32, Read32, InStored, InPacked, AtSuffix, Allocated;
      var s := Bytes32(word) + rest;
      Read32Bytes(word, s);
      assert s[4..] == rest;
      ReadBlockHeader(hash, hdr, out, todo, s, goal);
    }

    /** The next block is stored. */
    method StartStored(size: nat)
      requires Ready() && HistoryOk(mem[..], 0) && 0 < size <= maxBlockSize
      requires live ==> Decoding(out) && todo != [] && |todo[0].data| == size &&
                        InStored(hash, hdr, out, todo[0].data, [], todo[1..], rest, goal)
      requires UNCOMPRESSED_FLAG + size < 0x1_0000_0000 && Tells(Bytes32(UNCOMPRESSED_FLAG + size), [], out)
      modifies this`stage, this`tmpInTarget, this`blockXxh, this`todo, this`pend, this`part
      ensures Shape(mem[..]) && stage == CopyDirect && (live ==> Follows())
    {
      hide Shape, Follows, Counted, Ready, HistoryOk, InStored, Tells, Bytes32;
      SetCopy(size);
      assert Field(UNCOMPRESSED_FLAG + size) + [] == Bytes32(UNCOMPRESSED_FLAG + size);
      assert Copying(size, out);
      if live { SumFree(hash, hdr, out, pend, [], blockXxh, todo, rest, goal); }
      OnCopyDirect();
    }

    method SetCopy(size: nat)
      modifies this`stage, this`tmpInTarget, this`blockXxh, this`todo, this`pend, this`part
      ensures stage == CopyDirect && tmpInTarget == size && (info.blockChecksum ==> blockXxh == []) && part == []
      ensures live && old(todo) != [] ==> pend == old(todo[0].data) && todo == old(todo)[1..]
    {
      tmpInTarget := size;
      if info.blockChecksum { blockXxh := []; }
      stage, part := CopyDirect, [];
      if live && todo != [] { pend, todo := todo[0].data, todo[1..]; }
    }

    /** The next block is compressed. */
    method StartPacked(size: nat)
      requires Ready() && HistoryOk(mem[..], 0) && 0 < size <= maxBlockSize
      requires live ==>
                 Decoding(out) && todo != [] && |todo[0].data| == size && InPacked(hash, hdr, out, todo, rest, goal)
      requires size < 0x1_0000_0000 && Tells(Bytes32(size), [], out)
      modifies this`stage, this`tmpInTarget
      ensures Shape(mem[..]) && stage == GetCBlock && tmpInTarget == size + CrcSize() && (live ==> Follows())
    {
      hide Shape, Follows, Decoding, Ready, HistoryOk, InPacked, Tells, Bytes32;
      tmpInTarget, stage := size + CrcSize(), GetCBlock;
      OnCBlock();
    }

    /** dstage_getBlockHeader. */
    method StageGetBlockHeader(src: seq<Byte>, ip: nat, outputFull: bool) returns (step: Step, next: nat)
      requires stage == GetBlockHeader && Shape(mem[..]) && ip <= |src| && (live ==> Follows() && Agrees(src, ip, rest))
      modifies this
      ensures Quiet() && ip <= next <= |src|
      ensures !step.Fail? ==> Shape(mem[..]) && taken == old(taken) + src[ip..next]
      ensures step.Again? ==> next > ip || stage == StoreBlockHeader
      ensures step.Stop? ==> step.hint == Asked() > 0 && (next == |src| || (outputFull && Blocked())) && Resting()
      ensures live ==> !step.Fail? && Follows() && next - ip <= |old(rest)| && rest == old(rest)[next - ip..]
    {
      hide Shape, Follows, Decoding, AtBlock, Ready, HistoryOk, Bytes32, Read32, Agrees, Tells;
      OnBlockHeader();
      if |src| - ip < BLOCK_HEADER {
        tmpInSize, stage := 0, StoreBlockHeader;
        assert tmpIn[..0] + rest == rest && Saved(tmpIn[..]) == [] && taken == taken + src[ip..ip];
        OnStoreBlockHeader();
        return Again, ip;
      }
      next := ip + BLOCK_HEADER;
      var word := Read32(src[ip..next]);
      if live {
        WordAhead(src, ip);
        rest := rest[BLOCK_HEADER..];
      }
      WordBytes(src[ip..next]);
      Take(src[ip..next]);
      assert [] + src[ip..next] == src[ip..next];
      step := BlockHeader(word, next == |src|, outputFull);
    }

    lemma WordAhead(src: seq<Byte>, ip: nat)
      requires ip + BLOCK_HEADER <= |src| && Agrees(src, ip, rest) && AtBlock(hash, hdr, out, todo, rest, goal)
      ensures |rest| >= BLOCK_HEADER && Bytes32(Read32(src[ip..ip + BLOCK_HEADER])) + rest[BLOCK_HEADER..] == rest
    {
      hide AtBlock, Bytes32, Read32;
      BodyNonEmpty(hash, hdr, out, todo, rest, goal);
      AgreesTake(src, ip, rest, BLOCK_HEADER);
      WordBytes(src[ip..ip + BLOCK_HEADER]);
      assert rest == rest[..BLOCK_HEADER] + rest[BLOCK_HEADER..];
    }

    /** dstage_storeBlockHeader. */
    method StageStoreBlockHeader(src: seq<Byte>, ip: nat, outputFull: bool) returns (step: Step, next: nat)
      requires stage == StoreBlockHeader && Shape(mem[..]) && ip <= |src|
      requires live ==> Follows() && Agrees(src, ip, rest)
      modifies this, tmpIn
      ensures Quiet() && ip <= next <= |src|
      ensures !step.Fail? ==> Shape(mem[..]) && taken == old(taken) + src[ip..next]
      ensures step.Again? ==> next > ip
      ensures step.Stop? ==> step.hint == Asked() > 0 && (next == |src| || (outputFull && Blocked())) && Resting()
      ensures live ==> !step.Fail? && Follows() && next - ip <= |old(rest)| && rest == old(rest)[next - ip..]
    {
      hide Shape, Follows, Agrees, Decoding, AtBlock, HistoryOk, Bytes32, Read32, Tells, Ready;
      OnHeaderLength();
      var n := StoreHeader(src, ip);
      next := ip + n;
      if tmpInSize < BLOCK_HEADER { return Stop(BLOCK_HEADER - tmpInSize), next; }
      step := BlockHeader(Read32(tmpIn[..BLOCK_HEADER]), next == |src|, outputFull);
    }

    /** The four bytes of a block header are set aside, or what there is of them. */
    method StoreHeader(src: seq<Byte>, ip: nat) returns (n: nat)
      requires stage == StoreBlockHeader && Shape(mem[..]) && ip <= |src|
      requires live ==> Follows() && Agrees(src, ip, rest)
      modifies this`tmpInSize, this`rest, this`taken, tmpIn
      ensures n == Min(BLOCK_HEADER - old(tmpInSize), |src| - ip) && tmpInSize == old(tmpInSize) + n <= BLOCK_HEADER
      ensures old(tmpInSize) < BLOCK_HEADER
      ensures taken == old(taken) + src[ip..ip + n]
      ensures live ==> n <= |old(rest)| && rest == old(rest)[n..]
      ensures tmpInSize < BLOCK_HEADER ==> Shape(mem[..]) && (live ==> Follows())
      ensures tmpInSize == BLOCK_HEADER ==>
                && Ready() && HistoryOk(mem[..], 0) && tmpIn.Length >= BLOCK_HEADER
                && Tells(Bytes32(Read32(tmpIn[..BLOCK_HEADER])), [], out)
                && (live ==> Decoding(out) && AtBlock(hash, hdr, out, todo,
                                                      Bytes32(Read32(tmpIn[..BLOCK_HEADER])) + rest, goal))
    {
      hide Shape, Follows, Decoding, AtBlock, HistoryOk, Bytes32, Read32, Agrees, Tells, Ready;
      OnStoreBlockHeader();
      Roomy();
      if live { BodyNonEmpty(hash, hdr, out, todo, tmpIn[..tmpInSize] + rest, goal); }
      n := Store(tmpIn, BLOCK_HEADER, src, ip);
      if tmpInSize < BLOCK_HEADER {
        assert Saved(tmpIn[..]) == tmpIn[..tmpInSize];
        OnStoreBlockHeader();
      } else {
        WordBytes(tmpIn[..BLOCK_HEADER]);
      }
    }

    // ----- Output -----

    /** Where output may go: a buffer of the caller's that has `op - dst` bytes of output already. */
    ghost predicate Room(dst: nat, op: nat, dstEnd: nat)
      reads `out, mem
    {
      && dst <= op <= dstEnd <= mem.Length && Foreign(arena, reserve, dst, dstEnd) && (dst < dstEnd ==> 0 < dst)
      && EndsWith(out, mem[..], dst, op - dst)
    }

    /** What a stage that outputs leaves alone. */
    twostate predicate Wrote(op: nat, opNext: nat, dstEnd: nat)
      reads this, mem
    {
      && op <= opNext <= dstEnd <= mem.Length && tmpIn == old(tmpIn) && goal == old(goal) && live == old(live)
      && SameButFor(mem[..], old(mem[..]), op, dstEnd) && out == old(out) + Slice(mem[..], op, opNext - op)
    }

    /** Memory changed only in [from, to) and in the decoder's own buffer. */
    ghost predicate SameButFor(m: seq<Byte>, n: seq<Byte>, from: nat, to: nat) {
      && |m| == |n|
      && forall k :: 0 <= k < |m| && !(from <= k < to) && !(arena <= k < arena + reserve) ==> m[k] == n[k]
    }

    /** A dictionary as `LZ4F_updateDict` leaves it lets the output go on. */
    ghost predicate Settled(op: nat, dstEnd: nat)
      reads `dict, `dictSize, `tmpOutBuffer
    {
      && (dict == tmpOutBuffer || dict + dictSize == op || dict + dictSize == 0)
      && (Touches(op) ==> op == dstEnd)
    }

    lemma SettledOpen(op: nat, dstEnd: nat)
      requires Settled(op, dstEnd)
      ensures Open(op, dstEnd)
    {
    }

    lemma HistoryKept(m: seq<Byte>, m': seq<Byte>, pending: nat, op: nat, to: nat, dstEnd: nat)
      requires Ready() && HistoryOk(m, pending) && SameOutside(m', m, op, to) && to <= dstEnd
      requires Foreign(arena, reserve, op, dstEnd)
      requires stage !in {GetSuffix, StoreSuffix} && Clear(op, dstEnd)
      ensures HistoryOk(m', pending)
    {
      hide EndsWith, Allocated;
      if to <= op {
        assert m' == m;
      } else if info.linked {
        RemembersKept(m, m', out, dict, dictSize, good, op, to);
      }
    }

    /** Takes the `n` bytes at `op` as output. */
    method Emit(dst: nat, op: nat, n: nat, dstEnd: nat)
      requires Ready() && HistoryOk(mem[..], 0) && Room(dst, op, dstEnd) && op + n <= dstEnd
      requires stage !in {GetSuffix, StoreSuffix} && Open(op, dstEnd)
      modifies this`dict, this`dictSize, this`out, this`good, mem
      ensures forall x, pos :: Places(x, pos) ==>
                old(Places(x, pos)) || (dst <= x < op + n && pos == |out| - (op + n - x))
      ensures out == old(out) + Slice(old(mem[..]), op, n) && HistoryOk(mem[..], 0) && Settled(op + n, dstEnd)
      ensures SameOutside(mem[..], old(mem[..]), tmpOutBuffer, tmpOutBuffer + maxBufferSize)
    {
      hide EndsWith, Allocated, Remembers, SameOutside, Slice;
      if info.linked {
        UpdateDict(op, n, dst, false);
      } else {
        out := out + Slice(mem[..], op, n);
        SameAll(mem[..], tmpOutBuffer, tmpOutBuffer + maxBufferSize);
      }
    }

    /** The checksum and the size count `bytes` as decoded. */
    method Count(bytes: seq<Byte>, ghost decoded: seq<Byte>)
      requires live ==> Decoding(decoded) && decoded + bytes <= goal
      modifies this`xxh, this`remaining
      ensures live ==> Decoding(decoded + bytes)
      ensures forall extra, tail, total ::
                old(Tells(extra, tail, total)) ==> Tells(extra, tail + bytes, total + bytes)
    {
      hide Account;
      if info.contentChecksum { xxh := xxh + bytes; }
      if info.contentSize != 0 { remaining := (remaining - |bytes|) % 0x1_0000_0000_0000_0000; }
      if live && info.contentSize != 0 {
        assert hdr.contentSize.Some? && |goal| < 0x1_0000_0000_0000_0000;
      }
      forall extra, tail, total | old(Tells(extra, tail, total))
        ensures Tells(extra, tail + bytes, total + bytes)
      {
        CountTells(old(xxh), old(remaining), extra, tail, total, bytes);
      }
    }

    lemma CountTells(before: seq<Byte>, missing: nat, extra: seq<Byte>, tail: seq<Byte>, total: seq<Byte>,
                     x: seq<Byte>)
      requires Matches() && Account(hash, hdr, seen, taken, before, missing, extra, tail, total)
      requires info.contentChecksum ==> xxh == before + x
      requires remaining == if info.contentSize == 0 then missing else (missing - |x|) % 0x1_0000_0000_0000_0000
      ensures Tells(extra, tail + x, total + x)
    {
      hide HeaderBytes, ShellBytes, AllTaken, ChainContent;
      if info.contentSize != 0 { ShortMore(info.contentSize, |total|, |x|); }
      AccountCount(hash, hdr, seen, taken, before, missing, extra, tail, total, x, xxh, remaining);
    }

    // ----- Stored blocks -----

    /** Copies `n` bytes of a stored block to the output. */
    method CopyBytes(src: seq<Byte>, ip: nat, n: nat, dst: nat, op: nat, dstEnd: nat, ghost size: nat)
      requires stage == CopyDirect && Ready() && HistoryOk(mem[..], 0) && Room(dst, op, dstEnd) && Open(op, dstEnd)
      requires ip + n <= |src| && op + n <= dstEnd
      requires live ==> Decoding(out) && Agrees(src, ip, rest) && n <= |pend|
      requires live ==> InStored(hash, hdr, out, pend, blockXxh, todo, rest, goal)
      requires Copying(size, out) && |part| + n <= size
      modifies this`blockXxh, this`xxh, this`remaining, this`dict, this`dictSize, this`out, this`good, this`pend,
               this`rest, this`part, this`taken, mem
      ensures Copying(size, out) && |part| == |old(part)| + n && taken == old(taken) + src[ip..ip + n]
      ensures Wrote(op, op + n, dstEnd) && HistoryOk(mem[..], 0) && Settled(op + n, dstEnd)
      ensures forall x, pos :: Places(x, pos) ==>
                old(Places(x, pos)) || (dst <= x < op + n && pos == |out| - (op + n - x))
      ensures live ==> Decoding(out) && n <= |old(rest)| && rest == old(rest)[n..] && |pend| == |old(pend)| - n
      ensures live ==> InStored(hash, hdr, out, pend, blockXxh, todo, rest, goal)
    {
      hide Decoding, InStored, HistoryOk, Agrees, Room, Open, Ready, SameButFor, Slice, Leans, Places, Copying, Settled;
      WriteOut(src, ip, n, dst, op, dstEnd);
      TakeStored(src, ip, n, old(out), size);
    }

    /** The input that was copied is taken and counted. */
    method TakeStored(src: seq<Byte>, ip: nat, n: nat, ghost before: seq<Byte>, ghost size: nat)
      requires ip + n <= |src| && Copying(size, before) && |part| + n <= size
      requires live ==> Decoding(before) && Agrees(src, ip, rest) && n <= |pend|
      requires live ==> InStored(hash, hdr, before, pend, blockXxh, todo, rest, goal)
      modifies this`blockXxh, this`xxh, this`remaining, this`pend, this`rest, this`part, this`taken
      ensures Copying(size, before + src[ip..ip + n]) && |part| == |old(part)| + n
      ensures taken == old(taken) + src[ip..ip + n]
      ensures live ==> Decoding(before + src[ip..ip + n])
      ensures live ==> n <= |old(rest)| && rest == old(rest)[n..] && |pend| == |old(pend)| - n
      ensures live ==> InStored(hash, hdr, before + src[ip..ip + n], pend, blockXxh, todo, rest, goal)
    {
      hide Counted, InStored, Agrees, Copying;
      var x := src[ip..ip + n];
      if live { StoredAhead(src, ip, n, before); }
      CountStored(x, before, size);
      if live {
        pend, rest := pend[n..], rest[n..];
        SumFree(hash, hdr, before + x, pend, old(blockXxh) + x, blockXxh, todo, rest, goal);
      }
    }

    /** memcpy of input to the output, and its effect on the history. */
    method WriteOut(src: seq<Byte>, ip: nat, n: nat, dst: nat, op: nat, dstEnd: nat)
      requires stage == CopyDirect && Ready() && HistoryOk(mem[..], 0) && Room(dst, op, dstEnd) && Open(op, dstEnd)
      requires ip + n <= |src| && op + n <= dstEnd
      modifies this`dict, this`dictSize, this`out, this`good, mem
      ensures Wrote(op, op + n, dstEnd) && HistoryOk(mem[..], 0) && Settled(op + n, dstEnd)
      ensures out == old(out) + src[ip..ip + n]
      ensures forall x, pos :: Places(x, pos) ==>
                old(Places(x, pos)) || (dst <= x < op + n && pos == |out| - (op + n - x))
    {
      hide EndsWith, Allocated, SameOutside, HistoryOk, BlockSize, Leans, Places;
      ghost var m := mem[..];
      CopyIn(mem, op, src, ip, n);
      ghost var m1 := mem[..];
      AfterCopy(m, m1, dst, op, n, dstEnd);
      Emit(dst, op, n, dstEnd);
      StillThere(m, m1, mem[..], op, n, dstEnd);
      assert Slice(m1, op, n) == src[ip..ip + n];
    }

    lemma AfterCopy(m: seq<Byte>, m': seq<Byte>, dst: nat, op: nat, n: nat, dstEnd: nat)
      requires Ready() && HistoryOk(m, 0) && Open(op, dstEnd) && stage !in {GetSuffix, StoreSuffix}
      requires dst <= op && op + n <= dstEnd <= |m| && Foreign(arena, reserve, dst, dstEnd)
      requires EndsWith(out, m, dst, op - dst)
      requires SameOutside(m', m, op, op + n)
      ensures HistoryOk(m', 0) && EndsWith(out, m', dst, op - dst)
    {
      hide EndsWith, Allocated, SameOutside, HistoryOk, BlockSize;
      HistoryKept(m, m', 0, op, op + n, dstEnd);
      EndsWithKept(out, m, m', dst, op - dst, op, op + n);
    }

    lemma StillThere(m: seq<Byte>, m1: seq<Byte>, m2: seq<Byte>, op: nat, n: nat, dstEnd: nat)
      requires Ready() && op + n <= dstEnd <= |m| && Foreign(arena, reserve, op, dstEnd)
      requires SameOutside(m1, m, op, dstEnd) || SameOutside(m1, m, op, op + n)
      requires SameOutside(m2, m1, tmpOutBuffer, tmpOutBuffer + maxBufferSize)
      ensures SameButFor(m2, m, op, dstEnd) && Slice(m2, op, n) == Slice(m1, op, n)
    {
      hide Allocated, BlockSize;
      SameSlice(m2, m1, tmpOutBuffer, tmpOutBuffer + maxBufferSize, op, op + n);
    }

    lemma StoredAhead(src: seq<Byte>, ip: nat, n: nat, before: seq<Byte>)
      requires ip + n <= |src| && Agrees(src, ip, rest) && n <= |pend|
      requires InStored(hash, hdr, before, pend, blockXxh, todo, rest, goal)
      ensures n <= |rest| && before + src[ip..ip + n] <= goal
      ensures InStored(hash, hdr, before + src[ip..ip + n], pend[n..], blockXxh + src[ip..ip + n], todo, rest[n..],
              goal)
    {
      CopyStored(hash, hdr, before, pend, blockXxh, todo, rest, goal, n);
      AgreesTake(src, ip, rest, n);
      TotalExtends(before + pend, todo);
      assert before + pend[..n] <= before + pend;
    }

    /** The checksums count what was copied. */
    method CountStored(x: seq<Byte>, ghost before: seq<Byte>, ghost size: nat)
      requires live ==> Decoding(before) && before + x <= goal
      requires Copying(size, before) && |part| + |x| <= size
      modifies this`blockXxh, this`xxh, this`remaining, this`part, this`taken
      ensures info.blockChecksum ==> blockXxh == old(blockXxh) + x
      ensures live ==> Decoding(before + x)
      ensures Copying(size, before + x) && |part| == |old(part)| + |x| && taken == old(taken) + x
    {
      hide Decoding, Tells, Field;
      if info.blockChecksum { blockXxh := blockXxh + x; }
      Count(x, before);
      ghost var field := Field(UNCOMPRESSED_FLAG + size);
      assert field + part + x == field + (part + x);
      Take(x);
      part := part + x;
    }

    /** dstage_copyDirect. */
    method StageCopyDirect(src: seq<Byte>, ip: nat, dst: nat, op: nat, dstEnd: nat)
      returns (step: Step, next: nat, opNext: nat)
      requires stage == CopyDirect && Shape(mem[..]) && ip <= |src| && (live ==> Follows() && Agrees(src, ip, rest))
      requires Room(dst, op, dstEnd) && Open(op, dstEnd)
      modifies this, mem
      ensures Wrote(op, opNext, dstEnd) && ip <= next <= |src| && Settled(opNext, dstEnd)
      ensures forall x, pos :: Places(x, pos) ==>
                old(Places(x, pos)) || (dst <= x < opNext && pos == |out| - (opNext - x))
      ensures Shape(mem[..]) && !step.Fail? && taken == old(taken) + src[ip..next]
      ensures step.Again? ==> next > ip
      ensures step.Stop? ==> step.hint == Asked() > 0 && (next == |src| || (opNext == dstEnd && Blocked())) && Resting()
      ensures live ==> Follows() && next - ip <= |old(rest)| && rest == old(rest)[next - ip..]
    {
      hide Shape, Follows, Decoding, InStored, HistoryOk, Agrees, Room, Open, AtBlock, AtChecksum, EndsWith,
           SameButFor, BlockSize, Leans, Places, Copying, Settled, Ready, Slice, Foreign;
      OnCopyDirect();
      WithinRoom(dst, op, dstEnd);
      ghost var size := |part| + tmpInTarget;
      var n := Min(tmpInTarget, Min(|src| - ip, dstEnd - op));
      CopyBytes(src, ip, n, dst, op, dstEnd, size);
      next, opNext := ip + n, op + n;
      if n == tmpInTarget {
        AfterStored();
        return Again, next, opNext;
      }
      KeepCopying(n);
      step := Stop(tmpInTarget + CrcSize() + BLOCK_HEADER);
    }

    lemma WithinRoom(dst: nat, op: nat, dstEnd: nat)
      requires Room(dst, op, dstEnd)
      ensures dst <= op <= dstEnd <= mem.Length && Foreign(arena, reserve, op, dstEnd)
    {
    }

    method KeepCopying(n: nat)
      requires stage == CopyDirect && Ready() && HistoryOk(mem[..], 0) && n < tmpInTarget <= maxBlockSize
      requires Copying(|part| + tmpInTarget - n, out)
      requires live ==> Decoding(out) && |pend| == tmpInTarget - n
      requires live ==> InStored(hash, hdr, out, pend, blockXxh, todo, rest, goal)
      modifies this`tmpInTarget
      ensures tmpInTarget == old(tmpInTarget) - n && Shape(mem[..]) && (live ==> Follows())
    {
      hide Shape, Follows, Decoding, InStored, HistoryOk, Ready, Copying;
      tmpInTarget := tmpInTarget - n;
      OnCopyDirect();
    }

    /** A stored block has been output in full. */
    method AfterStored()
      requires Ready() && HistoryOk(mem[..], 0)
      requires live ==> Decoding(out) && pend == [] && InStored(hash, hdr, out, pend, blockXxh, todo, rest, goal)
      requires Copying(|part|, out)
      modifies this`stage, this`tmpInSize, this`seen
      ensures Shape(mem[..]) && (live ==> Follows())
    {
      hide Shape, Follows, Counted, InStored, HistoryOk, AtBlock, AtChecksum, Ready, Tells, Field;
      ghost var extra := Field(UNCOMPRESSED_FLAG + |part|) + part;
      assert extra + [] == extra;
      if live { StoredDone(hash, hdr, out, blockXxh, todo, rest, goal); }
      if info.blockChecksum {
        tmpInSize, stage := 0, GetBlockChecksum;
        assert header[..0] + rest == rest && Saved(header[..]) == [];
        OnBlockChecksum();
      } else {
        stage := GetBlockHeader;
        AppendStored([]);
        OnBlockHeader();
      }
    }

    /** A stored block is complete, with its checksum. */
    ghost method AppendStored(sum: seq<Byte>)
      requires Ready() && 0 < |part| <= maxBlockSize && sum == Checksum(hash, info.blockChecksum, part)
      requires Tells(Field(UNCOMPRESSED_FLAG + |part|) + part + sum, part, out)
      modifies this`seen
      ensures Tells([], [], out)
    {
      hide Account, Bytes32, Allocated;
      ghost var b := Stored(part);
      assert Taken(hdr, ChainContent(seen), b);
      AccountBlock(hash, hdr, seen, taken, xxh, remaining, BlockBytes(hash, hdr, b), part, out, b);
      seen := seen + [b];
    }

    /** A compressed block is complete, with its checksum, and its content is known. */
    ghost method AppendPacked(data: seq<Byte>, content: seq<Byte>, total: seq<Byte>)
      requires Ready() && 0 < |data| <= maxBlockSize && |content| <= maxBlockSize && Only(data, content)
      requires Tells(Whole(data), content, total)
      modifies this`seen
      ensures Tells([], [], total)
    {
      hide Account, Bytes32, Allocated, Opens;
      ghost var b := Packed(data, content);
      assert Taken(hdr, ChainContent(seen), b);
      AccountBlock(hash, hdr, seen, taken, xxh, remaining, BlockBytes(hash, hdr, b), content, total, b);
      seen := seen + [b];
    }

    /** A compressed block with its size field and its checksum. */
    ghost function Whole(data: seq<Byte>): seq<Byte>
      reads `info
    {
      Field(|data|) + data + Checksum(hash, info.blockChecksum, data)
    }

    /** The compressed data means `content` after the blocks seen, unless that is undefined. */
    ghost predicate Only(data: seq<Byte>, content: seq<Byte>)
      reads `hdr, `seen
    {
      hdr.Ok() ==> Opens(hdr, ChainContent(seen), data, content)
    }

    /** The history of a block is that of the blocks seen. */
    lemma OnlyThat(data: seq<Byte>, extra: seq<Byte>, before: seq<Byte>, text: seq<Byte>)
      requires Ready() && Tells(extra, [], before)
      requires Accepts(data, if info.linked then before else [], maxBlockSize, text)
      ensures Only(data, text)
    {
      hide Accepts, HeaderBytes, ShellBytes, Allocated, AllTaken, BlockSize, ChainContent;
      assert ChainContent(seen) + [] == ChainContent(seen);
    }

    /** dstage_getBlockChecksum. */
    method StageBlockChecksum(src: seq<Byte>, ip: nat) returns (step: Step, next: nat)
      requires stage == GetBlockChecksum && Shape(mem[..]) && ip <= |src|
      requires live ==> Follows() && Agrees(src, ip, rest)
      modifies this, header
      ensures Quiet() && ip <= next <= |src|
      ensures !step.Fail? ==> Shape(mem[..]) && taken == old(taken) + src[ip..next]
      ensures step.Again? ==> next > ip
      ensures step.Stop? ==> step.hint == Asked() > 0 && next == |src| && Resting()
      ensures live ==> !step.Fail? && Follows() && next - ip <= |old(rest)| && rest == old(rest)[next - ip..]
      ensures old(tmpInSize <= header.Length)
      ensures var sum := old(header[..tmpInSize]) + src[ip..next];
              if step.Stop? then |sum| < 4
              else step == if sum == Bytes32(hash(old(part))) then Again else Fail(BlockChecksumInvalid)
    {
      hide Shape, Follows, Decoding, AtChecksum, Ready, HistoryOk, Read32, Agrees, AtBlock, Tells, Field, Bytes32;
      OnBlockChecksum();
      OnHeaderLength();
      if live { ReadChecksum(hash, hdr, out, blockXxh, todo, header[..tmpInSize] + rest, goal); }
      var done, word;
      ghost var saved := header[..tmpInSize];
      done, word, next := ReadSum(src, ip);
      ghost var sum := saved + src[ip..next];
      if !done {
        assert Saved(header[..]) == header[..tmpInSize];
        OnBlockChecksum();
        return Stop(1), next;
      }
      if live { SumAhead(word, sum, rest); }
      step := CheckSum(word, sum);
    }

    /** The comparison with the checksum of a stored block. */
    method CheckSum(word: U32, ghost sum: seq<Byte>) returns (step: Step)
      requires Ready() && HistoryOk(mem[..], 0) && Summing(sum) && sum == Bytes32(word)
      requires live ==> Decoding(out) && AtBlock(hash, hdr, out, todo, rest, goal) && word == hash(blockXxh)
      modifies this`stage, this`seen
      ensures step == if sum == Bytes32(hash(part)) then Again else Fail(BlockChecksumInvalid)
      ensures step.Again? ==> Shape(mem[..]) && stage == GetBlockHeader
      ensures live ==> step.Again? && Follows()
    {
      hide Shape, Follows, Decoding, Ready, HistoryOk, AtBlock, Tells, Field, Bytes32;
      if word != hash(blockXxh) {
        DifferentWords(word, hash(blockXxh));
        return Fail(BlockChecksumInvalid);
      }
      AppendStored(sum);
      stage := GetBlockHeader;
      OnBlockHeader();
      step := Again;
    }

    /** The four bytes of a checksum, or what there is of them. */
    method ReadSum(src: seq<Byte>, ip: nat) returns (done: bool, word: U32, next: nat)
      requires header.Length == MAX_HEADER && tmpInSize < 4 && ip <= |src| && Summing(header[..tmpInSize])
      requires live ==> Agrees(src, ip, rest) && 4 <= tmpInSize + |rest|
      modifies this`tmpInSize, this`rest, this`taken, header
      ensures ip <= next <= |src| && taken == old(taken) + src[ip..next]
      ensures var sum := old(header[..tmpInSize]) + src[ip..next];
              && Summing(sum) && done == (|sum| == 4) && (done ==> sum == Bytes32(word))
              && (!done ==> next == |src| && tmpInSize == |sum| < 4 && header[..tmpInSize] == sum)
              && (live ==> next - ip <= |old(rest)| && rest == old(rest)[next - ip..])
              && (live ==> sum + rest == old(header[..tmpInSize] + rest))
    {
      hide Tells, Field, Read32, Agrees, Bytes32;
      ghost var saved, extra := header[..tmpInSize], Field(UNCOMPRESSED_FLAG + |part|) + part;
      if |src| - ip >= 4 && tmpInSize == 0 {
        next := ip + 4;
        word := Read32(src[ip..next]);
        WordBytes(src[ip..next]);
        if live {
          AgreesTake(src, ip, rest, 4);
          assert rest == rest[..4] + rest[4..];
          rest := rest[4..];
        }
        Take(src[ip..next]);
        assert extra + saved + src[ip..next] == extra + (saved + src[ip..next]);
        return true, word, next;
      }
      var n := Store(header, 4, src, ip);
      next := ip + n;
      assert extra + saved + src[ip..next] == extra + (saved + src[ip..next]);
      if tmpInSize < 4 { return false, 0, next; }
      word := Read32(header[..4]);
      WordBytes(header[..4]);
      done := true;
    }

    lemma SumAhead(word: U32, sum: seq<Byte>, left: seq<Byte>)
      requires sum == Bytes32(word)
      ensures Read32(sum + left) == word && (sum + left)[4..] == left
    {
      Read32Bytes(word, sum + left);
    }

    lemma OnHeaderLength()
      requires Shape(mem[..])
      ensures header.Length == MAX_HEADER && header != tmpIn && header != mem && tmpIn != mem
    {
      hide Allocated;
    }

    // ----- Compressed blocks -----

    /** A block may be decoded to `at`: that leaves the dictionary alone. */
    ghost predicate DictClear(at: nat)
      reads `dict, `dictSize, `maxBlockSize
    {
      at + maxBlockSize <= mem.Length &&
      (dictSize > 0 ==> dict + dictSize <= at || at + maxBlockSize + Min(dictSize, KB64) <= dict + dictSize)
    }

    /** What a block with this history may be decoded to. */
    ghost predicate Expands(data: seq<Byte>, content: seq<Byte>)
      reads `info, `out, `maxBlockSize
    {
      Decodes(data, if info.linked then out else [], content) && |content| <= maxBlockSize
    }

    /** Decodes a block with the dictionary as it stands; a huge dictionary is first cut to its end. */
    method Decode(data: seq<Byte>, at: nat, ghost content: seq<Byte>) returns (r: int)
      requires Ready() && HistoryOk(mem[..], 0) && DictClear(at) && |data| <= maxBlockSize
      modifies mem
      ensures SameOutside(mem[..], old(mem[..]), at, at + maxBlockSize) && r <= maxBlockSize
      ensures Expands(data, content) ==> r == |content| && Slice(mem[..], at, r) == content
      ensures r >= 0 ==> Accepts(data, if info.linked then out else [], maxBlockSize, Slice(mem[..], at, r))
    {
      hide Decodes, EndsWith, SameOutside, DictContent, HistoryOk, DictClear, Ready, Accepts;
      BufferAt();
      var d, n := dict, dictSize;
      if d != 0 && n > GB1 {
        d, n := d + n - KB64, KB64;
      }
      DictUsable(at, d, n);
      if Expands(data, content) { DictExpands(data, content, d, n); }
      r := DecompressSafeUsingDict(data, mem, at, maxBlockSize, d, n, content);
      if r >= 0 { DictAgrees(data, old(mem[..]), d, n, Slice(mem[..], at, r)); }
    }

    lemma DictAgrees(data: seq<Byte>, m: seq<Byte>, d: nat, n: nat, text: seq<Byte>)
      requires HistoryOk(m, 0) && (n > 0 ==> d + n <= |m|) && Accepts(data, DictContent(m, d, n), maxBlockSize, text)
      requires (d == dict && n == dictSize) || (dictSize > KB64 && d == dict + dictSize - KB64 && n == KB64)
      ensures Accepts(data, if info.linked then out else [], maxBlockSize, text)
    {
      hide Accepts, EndsWith, Enough;
      if info.linked {
        assert DictContent(m, d, n) == DictContent(m, dict, dictSize);
        DictAccepts(data, m, out, dict, dictSize, good, maxBlockSize, text);
      }
    }

    /** The dictionary, or its end, may be handed to the block decoder. */
    lemma DictUsable(at: nat, d: nat, n: nat)
      requires HistoryOk(mem[..], 0) && DictClear(at)
      requires (d == dict && n == dictSize) || (dictSize > KB64 && d == dict + dictSize - KB64 && n == KB64)
      ensures at + maxBlockSize <= mem.Length
      ensures n > 0 ==>
                && 0 < d && d + n <= mem.Length
                && (d + n <= at || at + maxBlockSize + Min(n, KB64) <= d + n)
    {
      hide EndsWith, Enough;
    }

    lemma DictExpands(data: seq<Byte>, content: seq<Byte>, d: nat, n: nat)
      requires Expands(data, content) && HistoryOk(mem[..], 0)
      requires (d == dict && n == dictSize) || (dictSize > KB64 && d == dict + dictSize - KB64 && n == KB64)
      ensures n > 0 ==> d + n <= mem.Length
      ensures Decodes(data, DictContent(mem[..], d, n), content)
    {
      hide Decodes, EndsWith, Enough;
      if info.linked {
        DictDecodes(data, mem[..], out, dict, dictSize, good, content);
        assert DictContent(mem[..], d, n) == DictContent(mem[..], dict, dictSize);
      }
    }

    lemma OutputClear(op: nat, dstEnd: nat)
      requires Ready() && HistoryOk(mem[..], 0) && Foreign(arena, reserve, op, dstEnd)
      requires op + maxBlockSize <= dstEnd <= mem.Length
      requires stage !in {GetSuffix, StoreSuffix} && Open(op, dstEnd)
      ensures DictClear(op)
    {
      hide EndsWith, Allocated, BlockSize;
    }

    /** Enough room in the output: decodes there. */
    method DecodeDirect(data: seq<Byte>, dst: nat, op: nat, dstEnd: nat, ghost content: seq<Byte>) returns (r: int)
      requires stage in {GetCBlock, StoreCBlock} && Ready() && HistoryOk(mem[..], 0)
      requires Room(dst, op, dstEnd) && Open(op, dstEnd) && op + maxBlockSize <= dstEnd && |data| <= maxBlockSize
      modifies this`dict, this`dictSize, this`out, this`good, mem
      ensures r <= maxBlockSize
      ensures r >= 0 ==> Wrote(op, op + r, dstEnd) && HistoryOk(mem[..], 0) && Settled(op + r, dstEnd)
      ensures forall x, pos :: Places(x, pos) ==>
                old(Places(x, pos)) || (r >= 0 && dst <= x < op + r && pos == |out| - (op + r - x))
      ensures r < 0 ==> Wrote(op, op, dstEnd)
      ensures old(Expands(data, content)) ==> r == |content| && out == old(out) + content
      ensures r >= 0 ==> Accepts(data, if info.linked then old(out) else [], maxBlockSize, Slice(mem[..], op, r))
    {
      hide Decodes, EndsWith, SameOutside, Allocated, HistoryOk, BlockSize, Expands, Accepts;
      ghost var m := mem[..];
      OutputClear(op, dstEnd);
      r := Decode(data, op, content);
      ghost var m1 := mem[..];
      SameWide(m1, m, op, op + maxBlockSize, op, dstEnd);
      AfterDecode(m, m1, dst, op, dstEnd);
      if r < 0 {
        StillThereAll(m, m1, op, dstEnd);
        return;
      }
      Emit(dst, op, r, dstEnd);
      StillThere(m, m1, mem[..], op, r, dstEnd);
    }

    lemma AfterDecode(m: seq<Byte>, m': seq<Byte>, dst: nat, op: nat, dstEnd: nat)
      requires Ready() && HistoryOk(m, 0) && Open(op, dstEnd) && stage !in {GetSuffix, StoreSuffix}
      requires dst <= op <= dstEnd <= |m| && Foreign(arena, reserve, dst, dstEnd) && EndsWith(out, m, dst, op - dst)
      requires SameOutside(m', m, op, dstEnd)
      ensures HistoryOk(m', 0) && EndsWith(out, m', dst, op - dst)
    {
      hide EndsWith, Allocated, SameOutside, HistoryOk, BlockSize;
      HistoryKept(m, m', 0, op, dstEnd, dstEnd);
      EndsWithKept(out, m, m', dst, op - dst, op, dstEnd);
    }

    lemma NothingWritten(op: nat, dstEnd: nat)
      requires op <= dstEnd <= mem.Length
      ensures SameButFor(mem[..], mem[..], op, dstEnd) && out + Slice(mem[..], op, 0) == out
    {
    }

    lemma StillThereAll(m: seq<Byte>, m': seq<Byte>, op: nat, dstEnd: nat)
      requires op <= dstEnd <= |m| && SameOutside(m', m, op, dstEnd)
      ensures SameButFor(m', m, op, dstEnd) && out + Slice(m', op, 0) == out
    {
    }

    /** Makes room in the buffer for a block, after the history that is there or that may be brought there. */
    method PlaceBlock()
      requires Ready() && HistoryOk(mem[..], 0)
      modifies this`tmpOut, this`dictSize, this`good, this`dict, mem
      ensures HistoryOk(mem[..], 0) && DictClear(tmpOut) && (info.linked ==> Fits())
      ensures tmpOutBuffer <= tmpOut && tmpOut + maxBlockSize <= tmpOutBuffer + maxBufferSize
      ensures SameOutside(mem[..], old(mem[..]), tmpOutBuffer, tmpOutBuffer + maxBufferSize)
      ensures dict == old(dict) && (dict == tmpOutBuffer || (dictSize == old(dictSize) && good == old(good)))
      ensures dictSize == old(dictSize) || (info.linked && dictSize == KB64)
    {
      hide EndsWith, SameOutside, Allocated, BlockSize, Remembers;
      RemembersIf();
      if info.linked {
        if dict == tmpOutBuffer {
          if dictSize > 2 * KB64 {
            BringToBuffer(KB64, 0);
          } else {
            SameAll(mem[..], tmpOutBuffer, tmpOutBuffer + maxBufferSize);
          }
          tmpOut := tmpOutBuffer + dictSize;
        } else {
          tmpOut := tmpOutBuffer + Min(dictSize, KB64);
          SameAll(mem[..], tmpOutBuffer, tmpOutBuffer + maxBufferSize);
        }
        RemembersIf();
      } else {
        SameAll(mem[..], tmpOutBuffer, tmpOutBuffer + maxBufferSize);
      }
    }

    lemma RemembersIf()
      requires HistoryOk(mem[..], 0)
      ensures info.linked ==> good <= dictSize && good <= |out|
    {
    }

    /** The room in front of the block suits the history. */
    ghost predicate Fits()
      reads `out, `dict, `dictSize, `tmpOut, `tmpOutBuffer
    {
      && tmpOutBuffer <= tmpOut
      && Min(tmpOut - tmpOutBuffer, KB64) <= |out| && tmpOut - tmpOutBuffer >= Min(KB64, |out|)
      && (dict == tmpOutBuffer ==> dict + dictSize == tmpOut)
    }

    /** Not enough room in the output: decodes to the buffer. */
    method DecodeAside(data: seq<Byte>, ghost content: seq<Byte>) returns (r: int)
      requires Ready() && HistoryOk(mem[..], 0) && |data| <= maxBlockSize
      modifies this`tmpOut, this`dictSize, this`good, this`dict, mem
      ensures r <= maxBlockSize && HistoryOk(mem[..], 0) && (info.linked ==> Fits())
      ensures tmpOutBuffer <= tmpOut && tmpOut + maxBlockSize <= tmpOutBuffer + maxBufferSize
      ensures SameOutside(mem[..], old(mem[..]), tmpOutBuffer, tmpOutBuffer + maxBufferSize)
      ensures tmpOutBuffer + maxBufferSize <= mem.Length
      ensures dict == old(dict) && (dict == tmpOutBuffer || (dictSize == old(dictSize) && good == old(good)))
      ensures dictSize == old(dictSize) || (info.linked && dictSize == KB64)
      ensures Expands(data, content) ==> r == |content| && Slice(mem[..], tmpOut, r) == content
      ensures r >= 0 ==> Accepts(data, if info.linked then out else [], maxBlockSize, Slice(mem[..], tmpOut, r))
    {
      hide Decodes, EndsWith, SameOutside, Allocated, BlockSize, Expands, HistoryOk, Fits, DictClear, Slice, Accepts;
      PlaceBlock();
      ghost var m := mem[..];
      r := Decode(data, tmpOut, content);
      AsideKept(m, mem[..]);
      SameWide(mem[..], m, tmpOut, tmpOut + maxBlockSize, tmpOutBuffer, tmpOutBuffer + maxBufferSize);
      SameTwice(mem[..], m, old(mem[..]), tmpOutBuffer, tmpOutBuffer + maxBufferSize);
    }

    lemma AsideKept(m: seq<Byte>, m': seq<Byte>)
      requires Ready() && HistoryOk(m, 0) && DictClear(tmpOut) && (info.linked ==> Fits())
      requires tmpOutBuffer <= tmpOut && tmpOut + maxBlockSize <= tmpOutBuffer + maxBufferSize
      requires SameOutside(m', m, tmpOut, tmpOut + maxBlockSize)
      ensures HistoryOk(m', 0)
    {
      hide EndsWith, Allocated, BlockSize, SameOutside;
      if info.linked { RemembersKept(m, m', out, dict, dictSize, good, tmpOut, tmpOut + maxBlockSize); }
    }

    /** The content of the block that is due, when the input is known. */
    ghost function NextContent(): seq<Byte>
      reads `live, `todo
    {
      if live && todo != [] then todo[0].Content() else []
    }

    /** The block that is due can be decoded, and leads to the next. */
    ghost predicate BlockAhead(data: seq<Byte>)
      reads `live, `todo, `info, `out, `maxBlockSize, `hdr, `rest, `goal
    {
      todo != [] && Expands(data, NextContent()) && out + NextContent() <= goal &&
      AtBlock(hash, hdr, out + NextContent(), todo[1..], rest, goal)
    }

    lemma PackedAhead(selected: seq<Byte>, n: nat)
      requires live && Ready() && Matches() && n + CrcSize() == |selected| && todo != [] && |todo[0].data| == n
      requires InPacked(hash, hdr, out, todo, selected + rest, goal)
      ensures BlockAhead(selected[..n]) && (info.blockChecksum ==> Read32(selected[n..]) == hash(selected[..n]))
    {
      hide InPacked, AtBlock, Decodes, Read32, Allocated;
      var s := selected + rest;
      InPackedKind(hash, hdr, out, todo, s, goal);
      ReadPacked(hash, hdr, out, todo, s, goal);
      assert s[..n] == selected[..n] && s[|selected|..] == rest;
      if info.blockChecksum { assert s[n..] == selected[n..] + rest; SameWord(selected[n..], s[n..]); }
      BodyNonEmpty(hash, hdr, out + todo[0].decoded, todo[1..], rest, goal);
    }

    method BlockToOutput(data: seq<Byte>, dst: nat, op: nat, dstEnd: nat) returns (step: Step, opNext: nat)
      requires stage in {GetCBlock, StoreCBlock} && Ready() && HistoryOk(mem[..], 0)
      requires Room(dst, op, dstEnd) && Open(op, dstEnd) && op + maxBlockSize <= dstEnd && |data| <= maxBlockSize
      requires live ==> Decoding(out) && BlockAhead(data)
      requires 0 < |data| && Tells(Whole(data), [], out)
      modifies this`dict, this`dictSize, this`out, this`good, this`xxh, this`remaining, this`stage, this`todo,
               this`seen, mem
      ensures Wrote(op, opNext, dstEnd) && (step.Again? || step == Fail(Generic))
      ensures forall x, pos :: Places(x, pos) ==>
                old(Places(x, pos)) || (dst <= x < opNext && pos == |out| - (opNext - x))
      ensures step.Again? ==> Shape(mem[..]) && stage == GetBlockHeader && Settled(opNext, dstEnd)
      ensures live ==> step.Again? && Follows()
    {
      hide Shape, Follows, AtBlock, Ready, HistoryOk, Room, Open, Expands, SameButFor, Decodes, Slice, Decoding, Leans,
           Places, Tells, Only, Accepts;
      var r := DecodeDirect(data, dst, op, dstEnd, NextContent());
      if r < 0 { return Fail(Generic), op; }
      opNext := op + r;
      if live { SliceIs(old(out), NextContent(), Slice(mem[..], op, r)); }
      OnlyThat(data, Whole(data), old(out), Slice(mem[..], op, r));
      BlockDone(data, Slice(mem[..], op, r), old(out));
      step := Again;
    }

    /** A block has been decoded and output at once. */
    method BlockDone(ghost data: seq<Byte>, bytes: seq<Byte>, ghost before: seq<Byte>)
      requires Ready() && HistoryOk(mem[..], 0) && out == before + bytes && |bytes| <= maxBlockSize
      requires 0 < |data| <= maxBlockSize && Tells(Whole(data), [], before) && Only(data, bytes)
      requires live ==> Decoding(before) && todo != [] && out <= goal && AtBlock(hash, hdr, out, todo[1..], rest, goal)
      modifies this`xxh, this`remaining, this`stage, this`todo, this`seen
      ensures Shape(mem[..]) && stage == GetBlockHeader && (live ==> Follows())
    {
      hide Shape, Follows, AtBlock, Ready, HistoryOk, Decoding, Tells, Whole, Only;
      CountBlock(data, bytes, before);
      stage := GetBlockHeader;
      if live { todo := todo[1..]; }
      OnBlockHeader();
    }

    /** The content of a block is counted. */
    method CountBlock(ghost data: seq<Byte>, bytes: seq<Byte>, ghost before: seq<Byte>)
      requires Ready() && 0 < |data| <= maxBlockSize && |bytes| <= maxBlockSize
      requires Tells(Whole(data), [], before) && Only(data, bytes)
      requires live ==> Decoding(before) && before + bytes <= goal
      modifies this`xxh, this`remaining, this`seen
      ensures Tells([], [], before + bytes) && (live ==> Decoding(before + bytes))
    {
      hide Ready, Decoding, Tells, Whole, Only;
      Count(bytes, before);
      assert [] + bytes == bytes;
      AppendPacked(data, bytes, before + bytes);
    }

    method BlockToBuffer(data: seq<Byte>, ghost op: nat, ghost dstEnd: nat) returns (step: Step)
      requires stage in {GetCBlock, StoreCBlock} && Ready() && HistoryOk(mem[..], 0) && Open(op, dstEnd)
      requires op <= dstEnd && Foreign(arena, reserve, op, dstEnd) && |data| <= maxBlockSize
      requires live ==> Decoding(out) && BlockAhead(data)
      requires 0 < |data| && Tells(Whole(data), [], out)
      modifies this`dict, this`dictSize, this`good, this`xxh, this`remaining, this`stage, this`todo, this`pend,
               this`tmpOut, this`tmpOutSize, this`tmpOutStart, this`seen, mem
      ensures SameOutside(mem[..], old(mem[..]), tmpOutBuffer, tmpOutBuffer + maxBufferSize)
      ensures step.Again? || step == Fail(DecompressionFailed)
      ensures step.Again? ==> Shape(mem[..]) && stage == FlushOut && Open(op, dstEnd)
      ensures forall x, pos :: Places(x, pos) ==> old(Places(x, pos))
      ensures live ==> step.Again? && Follows()
    {
      hide Shape, Follows, AtBlock, HistoryOk, Expands, SameOutside, Decodes, Slice, Decoding, EndsWith, Fits,
           Allocated, BlockSize, Ready, Tells, Only, Accepts;
      BufferAt();
      var r := DecodeAside(data, NextContent());
      if r < 0 { return Fail(DecompressionFailed); }
      OnlyThat(data, Whole(data), out, Slice(mem[..], tmpOut, r));
      HoldBlock(data, r);
      step := Again;
    }

    lemma Roomy()
      requires Ready()
      ensures tmpIn.Length >= maxBlockSize + 4 && tmpIn != mem && tmpIn != header && header != mem
    {
      hide Allocated;
    }

    lemma BufferAt()
      requires Ready()
      ensures tmpOutBuffer == arena > 0 && KB64 <= maxBlockSize <= 64 * KB64
      ensures maxBlockSize + (if info.linked then 2 * KB64 else 0) <= maxBufferSize <= reserve
    {
      hide Allocated;
    }

    /** The decoded block is counted, and waits to be output. */
    method HoldBlock(ghost data: seq<Byte>, r: nat)
      requires r <= maxBlockSize && Ready() && HistoryOk(mem[..], 0) && (info.linked ==> Fits())
      requires tmpOutBuffer <= tmpOut && tmpOut + maxBlockSize <= tmpOutBuffer + maxBufferSize <= mem.Length
      requires live ==> Decoding(out) && todo != [] && Slice(mem[..], tmpOut, r) == NextContent()
      requires live ==> out + NextContent() <= goal && AtBlock(hash, hdr, out + NextContent(), todo[1..], rest, goal)
      requires 0 < |data| <= maxBlockSize && Tells(Whole(data), [], out) && Only(data, Slice(mem[..], tmpOut, r))
      modifies this`xxh, this`remaining, this`tmpOutSize, this`tmpOutStart, this`stage, this`todo, this`pend, this`seen
      ensures Shape(mem[..]) && stage == FlushOut && (live ==> Follows())
    {
      hide Shape, Follows, AtBlock, HistoryOk, Slice, Decoding, Fits, Allocated, BlockSize, Ready, Waiting, Held,
           Tells, Whole, Only;
      ghost var bytes := Slice(mem[..], tmpOut, r);
      SliceSize(mem[..], tmpOut, r);
      CountBlock(data, Slice(mem[..], tmpOut, r), out);
      SetHold(r);
      BufferAt();
      HoldShape();
      OnFlush();
    }

    method SetHold(r: nat)
      requires tmpOut + r <= mem.Length
      modifies this`tmpOutSize, this`tmpOutStart, this`stage, this`todo, this`pend
      ensures tmpOutStart == 0 && tmpOutSize == r && stage == FlushOut && pend == Slice(mem[..], tmpOut, r)
      ensures live && old(todo) != [] ==> todo == old(todo)[1..]
    {
      hide Slice;
      tmpOutSize, tmpOutStart, stage := r, 0, FlushOut;
      pend := Slice(mem[..], tmpOut, r);
      if live && todo != [] { todo := todo[1..]; }
    }

    lemma HoldShape()
      requires tmpOutStart == 0 && tmpOutSize <= maxBlockSize && Ready() && HistoryOk(mem[..], 0)
      requires info.linked ==> Fits()
      requires tmpOutBuffer <= tmpOut && tmpOut + maxBlockSize <= tmpOutBuffer + maxBufferSize
      ensures HistoryOk(mem[..], tmpOutSize) && (if info.linked then Waiting(mem[..]) else Held(mem[..]))
    {
      hide Allocated, BlockSize, Remembers;
    }

    /** The block's last four bytes are not the checksum of the others. */
    ghost predicate Corrupt(selected: seq<Byte>)
      reads `info
    {
      info.blockChecksum && |selected| >= 4 &&
      selected[|selected| - 4..] != Bytes32(hash(selected[..|selected| - 4]))
    }

    /** A complete compressed block: its checksum, and where to decode it. */
    method DecodeBlock(selected: seq<Byte>, dst: nat, op: nat, dstEnd: nat) returns (step: Step, opNext: nat)
      requires stage in {GetCBlock, StoreCBlock} && Ready() && HistoryOk(mem[..], 0)
      requires Room(dst, op, dstEnd) && Open(op, dstEnd) && |selected| == tmpInTarget
      requires CrcSize() < tmpInTarget <= maxBlockSize + CrcSize()
      requires live ==> Decoding(out) && Due() && InPacked(hash, hdr, out, todo, selected + rest, goal)
      requires Tells(Field(tmpInTarget - CrcSize()) + selected, [], out)
      modifies this, mem
      ensures Wrote(op, opNext, dstEnd) && (step.Again? || step.Fail?) && taken == old(taken)
      ensures step == Fail(BlockChecksumInvalid) <==> old(Corrupt(selected))
      ensures forall x, pos :: Places(x, pos) ==>
                old(Places(x, pos)) || (dst <= x < opNext && pos == |out| - (opNext - x))
      ensures step.Again? ==> Shape(mem[..]) && stage in {GetBlockHeader, FlushOut} && Open(opNext, dstEnd)
      ensures live ==> step.Again? && Follows() && rest == old(rest)
    {
      hide Shape, Follows, AtBlock, HistoryOk, Room, SameButFor, Slice, Counted, InPacked, Read32, BlockAhead,
           Allocated, SameOutside, Leans, Places, Open, Settled, Tells, Bytes32, Field;
      WithinRoom(dst, op, dstEnd);
      var n := tmpInTarget - CrcSize();
      if live { PackedAhead(selected, n); }
      NothingWritten(op, dstEnd);
      if info.blockChecksum {
        tmpInTarget := n;
        WordBytes(selected[n..]);
        if Read32(selected[n..]) != hash(selected[..n]) {
          DifferentWords(Read32(selected[n..]), hash(selected[..n]));
          return Fail(BlockChecksumInvalid), op;
        }
      }
      WholeBlock(selected, n);
      step, opNext := DecodeData(selected[..n], dst, op, dstEnd);
    }

    lemma WholeBlock(selected: seq<Byte>, n: nat)
      requires n <= |selected| && selected[n..] == Checksum(hash, info.blockChecksum, selected[..n])
      ensures Field(n) + selected == Whole(selected[..n])
    {
      hide Field, Checksum;
      assert selected == selected[..n] + selected[n..];
    }

    /** Decodes a block to the output if it is certain to fit, and to the buffer otherwise. */
    method DecodeData(data: seq<Byte>, dst: nat, op: nat, dstEnd: nat) returns (step: Step, opNext: nat)
      requires stage in {GetCBlock, StoreCBlock} && Ready() && HistoryOk(mem[..], 0)
      requires Room(dst, op, dstEnd) && Open(op, dstEnd) && |data| <= maxBlockSize
      requires live ==> Decoding(out) && BlockAhead(data)
      requires 0 < |data| && Tells(Whole(data), [], out)
      modifies this`dict, this`dictSize, this`out, this`good, this`xxh, this`remaining, this`stage, this`todo,
               this`pend, this`tmpOut, this`tmpOutSize, this`tmpOutStart, this`seen, mem
      ensures Wrote(op, opNext, dstEnd) && (step.Again? || step == Fail(Generic) || step == Fail(DecompressionFailed))
      ensures forall x, pos :: Places(x, pos) ==>
                old(Places(x, pos)) || (dst <= x < opNext && pos == |out| - (opNext - x))
      ensures step.Again? ==> Shape(mem[..]) && stage in {GetBlockHeader, FlushOut} && Open(opNext, dstEnd)
      ensures live ==> step.Again? && Follows()
    {
      hide Shape, Follows, HistoryOk, Room, SameButFor, Slice, Decoding, BlockAhead, Allocated, SameOutside, Leans,
           Places, Open, Settled, BlockSize, Tells, Whole;
      WithinRoom(dst, op, dstEnd);
      if dstEnd - op >= maxBlockSize {
        step, opNext := BlockToOutput(data, dst, op, dstEnd);
        if step.Again? { SettledOpen(opNext, dstEnd); }
        return;
      }
      opNext := op;
      step := BlockToBuffer(data, op, dstEnd);
      BufferOnly(old(mem[..]), mem[..], op, dstEnd);
    }

    lemma BufferOnly(m: seq<Byte>, m': seq<Byte>, op: nat, dstEnd: nat)
      requires Ready() && op <= dstEnd <= |m| && SameOutside(m', m, tmpOutBuffer, tmpOutBuffer + maxBufferSize)
      ensures SameButFor(m', m, op, dstEnd) && out + Slice(m', op, 0) == out
    {
      hide Allocated, BlockSize;
    }

    /** The block is not there in full. */
    method SetAside(ghost op: nat, ghost dstEnd: nat)
      requires stage == GetCBlock && Shape(mem[..]) && (live ==> Follows()) && Open(op, dstEnd)
      modifies this`stage, this`tmpInSize
      ensures stage == StoreCBlock && Shape(mem[..]) && (live ==> Follows()) && Open(op, dstEnd)
    {
      hide Shape, Follows, Decoding, HistoryOk, InPacked, Ready, Tells, Field;
      OnCBlock();
      tmpInSize, stage := 0, StoreCBlock;
      assert Saved(tmpIn[..]) == [] && Field(tmpInTarget - CrcSize()) + [] == Field(tmpInTarget - CrcSize());
      assert tmpIn[..0] + rest == rest;
      OnStoreCBlock();
    }

    /** dstage_getCBlock. */
    method StageGetCBlock(src: seq<Byte>, ip: nat, dst: nat, op: nat, dstEnd: nat)
      returns (step: Step, next: nat, opNext: nat)
      requires stage == GetCBlock && Shape(mem[..]) && ip <= |src| && (live ==> Follows() && Agrees(src, ip, rest))
      requires Room(dst, op, dstEnd) && Open(op, dstEnd)
      modifies this, mem
      ensures Wrote(op, opNext, dstEnd) && ip <= next <= |src| && (step.Again? || step.Fail?)
      ensures taken == old(taken) + src[ip..next]
      ensures step == Fail(BlockChecksumInvalid) <==>
                |src| - ip >= old(tmpInTarget) && old(Corrupt(src[ip..ip + tmpInTarget]))
      ensures forall x, pos :: Places(x, pos) ==>
                old(Places(x, pos)) || (dst <= x < opNext && pos == |out| - (opNext - x))
      ensures step.Again? ==> Shape(mem[..]) && Open(opNext, dstEnd) && (next > ip || stage == StoreCBlock)
      ensures live ==> step.Again? && Follows() && next - ip <= |old(rest)| && rest == old(rest)[next - ip..]
    {
      hide Shape, Follows, Counted, HistoryOk, Room, SameButFor, Slice, InPacked, Agrees, SameOutside, Ready, Leans,
           Places, Tells, Field, Corrupt, Open;
      OnCBlock();
      assert src[ip..ip] == [];
      if |src| - ip < tmpInTarget {
        WithinRoom(dst, op, dstEnd);
        NothingWritten(op, dstEnd);
        SetAside(op, dstEnd);
        return Again, ip, op;
      }
      next := ip + tmpInTarget;
      var selected := src[ip..next];
      if live {
        SelectedAhead(src, ip);
        rest := rest[next - ip..];
      }
      Take(selected);
      step, opNext := DecodeBlock(selected, dst, op, dstEnd);
    }

    lemma SelectedAhead(src: seq<Byte>, ip: nat)
      requires ip + tmpInTarget <= |src| && Agrees(src, ip, rest) && Matches() && Due()
      requires InPacked(hash, hdr, out, todo, rest, goal)
      ensures tmpInTarget <= |rest| && src[ip..ip + tmpInTarget] + rest[tmpInTarget..] == rest
    {
      hide InPacked, AtBlock, Decodes, Read32;
      InPackedKind(hash, hdr, out, todo, rest, goal);
      ReadPacked(hash, hdr, out, todo, rest, goal);
      AgreesTake(src, ip, rest, tmpInTarget);
      assert rest == rest[..tmpInTarget] + rest[tmpInTarget..];
    }

    /** dstage_storeCBlock. */
    method StageStoreCBlock(src: seq<Byte>, ip: nat, dst: nat, op: nat, dstEnd: nat)
      returns (step: Step, next: nat, opNext: nat)
      requires stage == StoreCBlock && Shape(mem[..]) && ip <= |src| && (live ==> Follows() && Agrees(src, ip, rest))
      requires Room(dst, op, dstEnd) && Open(op, dstEnd)
      modifies this, mem, tmpIn
      ensures Wrote(op, opNext, dstEnd) && ip <= next <= |src| && taken == old(taken) + src[ip..next]
      ensures old(tmpInSize <= tmpIn.Length)
      ensures var selected := old(tmpIn[..tmpInSize]) + src[ip..next];
              step == Fail(BlockChecksumInvalid) <==> |selected| == old(tmpInTarget) && old(Corrupt(selected))
      ensures forall x, pos :: Places(x, pos) ==>
                old(Places(x, pos)) || (dst <= x < opNext && pos == |out| - (opNext - x))
      ensures step.Again? ==> next > ip
      ensures step.Stop? ==> step.hint == Asked() > 0 && next == |src| && Resting()
      ensures !step.Fail? ==> Shape(mem[..]) && Open(opNext, dstEnd)
      ensures live ==> !step.Fail? && Follows() && next - ip <= |old(rest)| && rest == old(rest)[next - ip..]
    {
      hide Shape, Follows, Counted, HistoryOk, SameButFor, Slice, InPacked, Agrees, SameOutside, Allocated, EndsWith,
           Leans, Places, Tells, Field, Corrupt, Ready;
      OnStoreCBlock();
      Roomy();
      if live { PackedLength(tmpIn[..tmpInSize] + rest); }
      ghost var saved, field := tmpIn[..tmpInSize], Field(tmpInTarget - CrcSize());
      var n := Store(tmpIn, tmpInTarget, src, ip);
      next := ip + n;
      assert field + saved + src[ip..next] == field + (saved + src[ip..next]);
      if tmpInSize < tmpInTarget {
        NothingWritten(op, dstEnd);
        assert Saved(tmpIn[..]) == tmpIn[..tmpInSize];
        OnStoreCBlock();
        return Stop(tmpInTarget - tmpInSize + CrcSize() + BLOCK_HEADER), next, op;
      }
      step, opNext := DecodeBlock(tmpIn[..tmpInTarget], dst, op, dstEnd);
    }

    lemma PackedLength(s: seq<Byte>)
      requires Matches() && Due() && InPacked(hash, hdr, out, todo, s, goal)
      ensures tmpInTarget <= |s|
    {
      hide InPacked, AtBlock, Decodes, Read32;
      InPackedKind(hash, hdr, out, todo, s, goal);
      ReadPacked(hash, hdr, out, todo, s, goal);
    }

    // ----- A block that waits -----

    /** The next `n` bytes of the waiting block have been copied to `op`. */
    lemma ParkedKept(m: seq<Byte>, m': seq<Byte>, op: nat, n: nat, dstEnd: nat)
      requires stage == FlushOut && Ready() && Parked(m) && Open(op, dstEnd) && Foreign(arena, reserve, op, dstEnd)
      requires |m| == mem.Length && op + n <= dstEnd <= |m| && tmpOutStart + n <= tmpOutSize
      requires SameOutside(m', m, op, op + n) && Slice(m', op, n) == Slice(m, tmpOut + tmpOutStart, n)
      ensures Parked(m') && Slice(m', op, n) == Slice(m', tmpOut + tmpOutStart, n)
      ensures Slice(m', tmpOut, tmpOutSize) == Slice(m, tmpOut, tmpOutSize)
    {
      hide EndsWith, Allocated, BlockSize, HistoryOk;
      HistoryKept(m, m', tmpOutSize - tmpOutStart, op, op + n, dstEnd);
      EndsWithKept(out, m, m', tmpOut, tmpOutStart, op, op + n);
      SameSlice(m', m, op, op + n, tmpOut + tmpOutStart, tmpOut + tmpOutStart + n);
      SameSlice(m', m, op, op + n, tmpOut, tmpOut + tmpOutSize);
    }

    /** Outputs `n` bytes of the waiting block. */
    method FlushBytes(n: nat, dst: nat, op: nat, dstEnd: nat)
      requires stage == FlushOut && Ready() && Parked(mem[..]) && Unfilled() && Room(dst, op, dstEnd)
      requires Open(op, dstEnd)
      requires op + n <= dstEnd && tmpOutStart + n <= tmpOutSize && tmpOut + tmpOutSize <= mem.Length
      modifies this`dict, this`dictSize, this`out, this`good, this`tmpOutStart, mem
      ensures Wrote(op, op + n, dstEnd) && Parked(mem[..]) && Settled(op + n, dstEnd)
      ensures tmpOutStart == old(tmpOutStart) + n
      ensures forall x, pos :: Places(x, pos) ==>
                old(Places(x, pos)) || (dst <= x < op + n && pos == |out| - (op + n - x))
      ensures Slice(mem[..], tmpOut, tmpOutSize) == Slice(old(mem[..]), tmpOut, tmpOutSize)
      ensures out == old(out) + Slice(mem[..], tmpOut + old(tmpOutStart), n)
    {
      hide EndsWith, Allocated, BlockSize, SameOutside, SameButFor, Slice, Parked, Leans, Places;
      ghost var m := mem[..];
      FlushSource(n, op, dstEnd);
      Memcpy(mem, op, tmpOut + tmpOutStart, n);
      ghost var m1 := mem[..];
      ParkedKept(m, m1, op, n, dstEnd);
      EndsWithKept(out, m, m1, dst, op - dst, op, op + n);
      TakeFlushed(n, dst, op, dstEnd);
      FlushKept(m, m1, mem[..], op, n, dstEnd);
      SubSlice(m1, mem[..], tmpOut, tmpOutSize, old(tmpOutStart), n);
    }

    lemma FlushSource(n: nat, op: nat, dstEnd: nat)
      requires Ready() && Parked(mem[..]) && tmpOutStart + n <= tmpOutSize && op + n <= dstEnd
      requires Foreign(arena, reserve, op, dstEnd)
      ensures Apart(op, op + n, tmpOut + tmpOutStart, tmpOut + tmpOutStart + n)
    {
      hide EndsWith, Allocated, BlockSize, HistoryOk;
    }

    lemma FlushKept(m: seq<Byte>, m1: seq<Byte>, m2: seq<Byte>, op: nat, n: nat, dstEnd: nat)
      requires Ready() && op + n <= dstEnd <= |m| && Foreign(arena, reserve, op, dstEnd)
      requires SameOutside(m1, m, op, op + n)
      requires tmpOutBuffer <= tmpOut && tmpOut + tmpOutSize <= tmpOutBuffer + maxBufferSize <= |m|
      requires SameOutside(m2, m1, tmpOutBuffer, tmpOut) || SameOutside(m2, m1, tmpOutBuffer, tmpOutBuffer)
      ensures SameButFor(m2, m, op, dstEnd) && Slice(m2, op, n) == Slice(m1, op, n)
      ensures Slice(m2, tmpOut, tmpOutSize) == Slice(m1, tmpOut, tmpOutSize)
    {
      hide Allocated, BlockSize;
      assert SameOutside(m2, m1, tmpOutBuffer, tmpOut);
      SameSlice(m2, m1, tmpOutBuffer, tmpOut, op, op + n);
      SameSlice(m2, m1, tmpOutBuffer, tmpOut, tmpOut, tmpOut + tmpOutSize);
    }

    /** Takes the copied bytes as output, and the block as flushed that far. */
    method TakeFlushed(n: nat, dst: nat, op: nat, dstEnd: nat)
      requires stage == FlushOut && Ready() && Parked(mem[..]) && Unfilled() && Room(dst, op, dstEnd)
      requires Open(op, dstEnd)
      requires op + n <= dstEnd && tmpOutStart + n <= tmpOutSize && tmpOut + tmpOutSize <= mem.Length
      requires Slice(mem[..], op, n) == Slice(mem[..], tmpOut + tmpOutStart, n)
      modifies this`dict, this`dictSize, this`out, this`good, this`tmpOutStart, mem
      ensures Parked(mem[..]) && Settled(op + n, dstEnd) && tmpOutStart == old(tmpOutStart) + n
      ensures forall x, pos :: Places(x, pos) ==>
                old(Places(x, pos)) || (dst <= x < op + n && pos == |out| - (op + n - x))
      ensures out == old(out) + Slice(old(mem[..]), op, n)
      ensures SameOutside(mem[..], old(mem[..]), tmpOutBuffer, tmpOut)
      ensures tmpOutBuffer <= tmpOut && tmpOut + tmpOutSize <= tmpOutBuffer + maxBufferSize <= mem.Length
    {
      hide EndsWith, Allocated, BlockSize, SameOutside, Slice, Remembers, Enough;
      if info.linked {
        UpdateDict(op, n, dst, true);
        HeldOn(old(mem[..]), mem[..], old(out), op, n);
      } else {
        out := out + Slice(mem[..], op, n);
        SameAll(mem[..], tmpOutBuffer, tmpOut);
        HeldOn(old(mem[..]), mem[..], old(out), op, n);
      }
      tmpOutStart := tmpOutStart + n;
    }

    lemma HeldOn(m: seq<Byte>, m': seq<Byte>, before: seq<Byte>, op: nat, n: nat)
      requires tmpOutStart + n <= tmpOutSize && tmpOut + tmpOutSize <= |m| && op + n <= |m|
      requires EndsWith(before, m, tmpOut, tmpOutStart) && SameOutside(m', m, tmpOutBuffer, tmpOut)
      requires Slice(m, op, n) == Slice(m, tmpOut + tmpOutStart, n) && out == before + Slice(m, op, n)
      ensures EndsWith(out, m', tmpOut, tmpOutStart + n)
    {
      hide EndsWith;
      EndsWithMore(before, Slice(m, op, n), m, tmpOut, tmpOutStart);
      EndsWithKept(out, m, m', tmpOut, tmpOutStart + n, tmpOutBuffer, tmpOut);
    }

    /** dstage_flushOut. */
    method StageFlushOut(dst: nat, op: nat, dstEnd: nat) returns (step: Step, opNext: nat)
      requires stage == FlushOut && Shape(mem[..]) && (live ==> Follows()) && Room(dst, op, dstEnd) && Open(op, dstEnd)
      modifies this, mem
      ensures Wrote(op, opNext, dstEnd) && Shape(mem[..]) && Settled(opNext, dstEnd) && !step.Fail?
      ensures forall x, pos :: Places(x, pos) ==>
                old(Places(x, pos)) || (dst <= x < opNext && pos == |out| - (opNext - x))
      ensures step.Again? ==> stage == GetBlockHeader
      ensures step.Stop? ==> step.hint == Asked() > 0 && opNext == dstEnd && Resting() && Blocked()
      ensures live ==> Follows() && rest == old(rest)
      ensures taken == old(taken)
    {
      hide Shape, Follows, Decoding, HistoryOk, Room, SameButFor, Slice, SameOutside, Ready, Waiting, Held, AtBlock,
           Open, Leans, Places, Tells;
      OnFlush();
      WithinRoom(dst, op, dstEnd);
      var n := Min(tmpOutSize - tmpOutStart, dstEnd - op);
      FlushBytes(n, dst, op, dstEnd);
      opNext := op + n;
      FlushAhead(old(mem[..]), mem[..], tmpOut, tmpOutSize, old(tmpOutStart), n, old(out));
      step := AfterFlush(n);
    }

    method AfterFlush(ghost n: nat) returns (step: Step)
      requires stage == FlushOut && Ready() && Parked(mem[..]) && tmpOut + tmpOutSize <= mem.Length
      requires live ==> n <= |pend| && pend[n..] == Slice(mem[..], tmpOut + tmpOutStart, tmpOutSize - tmpOutStart)
      requires live ==> Decoding(out + pend[n..]) && AtBlock(hash, hdr, out + pend[n..], todo, rest, goal)
      requires Tells([], [], out + Left(mem[..]))
      modifies this`stage, this`pend
      ensures Shape(mem[..]) && (live ==> Follows())
      ensures step == if tmpOutStart == tmpOutSize then Again else Stop(BLOCK_HEADER)
      ensures step.Again? ==> stage == GetBlockHeader
      ensures step.Stop? ==> stage == FlushOut && tmpOutStart < tmpOutSize
    {
      hide Shape, Follows, Decoding, HistoryOk, Slice, Ready, Waiting, Held, AtBlock, Tells;
      if live { pend := pend[n..]; }
      if tmpOutStart == tmpOutSize {
        stage := GetBlockHeader;
        SliceSize(mem[..], tmpOut + tmpOutStart, 0);
        assert out + Left(mem[..]) == out;
        if live { assert out + pend == out; }
        OnBlockHeader();
        return Again;
      }
      StillUnfilled(mem[..]);
      OnFlush();
      step := Stop(BLOCK_HEADER);
    }

    lemma StillUnfilled(m: seq<Byte>)
      requires Parked(m) && tmpOutStart < tmpOutSize
      ensures Unfilled()
    {
      hide EndsWith, HistoryOk;
    }

    // ----- The end of a frame -----

    /** LZ4F_resetDecompressionContext. */
    method Reset()
      modifies this`stage, this`dict, this`dictSize
      ensures stage == GetFrameHeader && dict == 0 && dictSize == 0
    {
      stage, dict, dictSize := GetFrameHeader, 0, 0;
    }

    /** The context is ready for another frame, and all of this one has been output. */
    ghost predicate Finished()
      reads this
    {
      && stage == GetFrameHeader && dict == 0 && dictSize == 0 && remaining == 0 && Buffers()
      && (live ==> out == goal && rest == []) && Delivered(hash, taken, out)
    }

    /** The output does not have the size the header gave, modulo 2^64. */
    ghost predicate WrongSize()
      reads `info, `out
    {
      info.contentSize != 0 && |out| % TWO64 != info.contentSize
    }

    /** These are not the bytes of the checksum of the output. */
    ghost predicate WrongSum(sum: seq<Byte>)
      reads `out
    {
      sum != Bytes32(hash(out))
    }

    /** All there is of the frame has been taken. */
    lemma Complete(sum: seq<Byte>)
      requires Marked(sum) && remaining == 0 && sum == Checksum(hash, info.contentChecksum, out)
      ensures Delivered(hash, taken, out)
    {
      hide Account, Field, Checksum, Delivered;
      AccountEnd(hash, hdr, seen, taken, xxh, mark, out);
    }

    /** The checksum is running over the output, and the size that is missing is 0 when the output has it. */
    lemma Running(sum: seq<Byte>)
      requires Marked(sum)
      ensures info.contentChecksum ==> xxh == out
      ensures remaining != 0 <==> WrongSize()
    {
      hide HeaderBytes, ShellBytes, AllTaken, Field, ChainContent, Short;
      assert ChainContent(seen) + [] == ChainContent(seen);
      ShortNone(info.contentSize, |out|);
    }

    /** The comparison with the content checksum. */
    method CheckSuffix(word: U32) returns (step: Step)
      requires Buffers() && remaining == 0 && info.contentChecksum && Marked(Bytes32(word))
      requires live ==> Decoding(out) && AtSuffix(hash, hdr, out, Bytes32(word) + rest, goal)
      modifies this`stage, this`dict, this`dictSize
      ensures step == if WrongSum(Bytes32(word)) then Fail(ContentChecksumInvalid) else Stop(0)
      ensures step == Stop(0) ==> Finished()
      ensures live ==> step == Stop(0)
    {
      hide Allocated, Bytes32, Delivered, Marked;
      Running(Bytes32(word));
      if live { SuffixWord(hash(out), word, rest); }
      if word != hash(xxh) {
        DifferentWords(word, hash(xxh));
        return Fail(ContentChecksumInvalid);
      }
      Complete(Bytes32(word));
      Reset();
      step := Stop(0);
    }

    ghost method TakeMarked(saved: seq<Byte>, x: seq<Byte>)
      requires Marked(saved)
      modifies this`taken
      ensures taken == old(taken) + x && Marked(saved + x)
    {
      hide Tells, Field;
      assert Field(mark) + saved + x == Field(mark) + (saved + x);
      Take(x);
    }

    /** dstage_getSuffix. */
    method StageGetSuffix(src: seq<Byte>, ip: nat) returns (step: Step, next: nat)
      requires stage == GetSuffix && Shape(mem[..]) && ip <= |src| && (live ==> Follows() && Agrees(src, ip, rest))
      modifies this
      ensures mem[..] == old(mem[..]) && out == old(out) && goal == old(goal) && live == old(live)
      ensures tmpIn == old(tmpIn)
      ensures ip <= next <= |src| && (step.Again? || step == Stop(0) || step.Fail?)
      ensures step.Again? ==> stage == StoreSuffix && Shape(mem[..]) && next == ip
      ensures step == Stop(0) ==> Finished()
      ensures live ==> !step.Fail? && next - ip <= |old(rest)| && rest == old(rest)[next - ip..]
      ensures live && step.Again? ==> Follows()
      ensures !step.Fail? ==> taken == old(taken) + src[ip..next]
      ensures step == Fail(FrameSizeWrong) <==> old(WrongSize())
      ensures step == Fail(ContentChecksumInvalid) <==>
                !old(WrongSize()) && old(info.contentChecksum) && |src| - ip >= 4 && WrongSum(src[ip..ip + 4])
    {
      hide Shape, Follows, Agrees, Allocated, Bytes32, Read32, BlockSize, Tells, Marked, Delivered, Field;
      OnSuffix();
      Running([]);
      assert src[ip..ip] == [];
      if remaining != 0 { return Fail(FrameSizeWrong), ip; }
      if !info.contentChecksum {
        Complete([]);
        Reset();
        return Stop(0), ip;
      }
      if |src| - ip < 4 {
        tmpInSize, stage := 0, StoreSuffix;
        assert tmpIn[..0] + rest == rest && Saved(tmpIn[..]) == [];
        OnStoreSuffix();
        return Again, ip;
      }
      next := ip + 4;
      var word := Read32(src[ip..next]);
      if live {
        AgreesTake(src, ip, rest, 4);
        WordBytes(src[ip..next]);
        assert rest == rest[..4] + rest[4..];
        rest := rest[4..];
      }
      WordBytes(src[ip..next]);
      TakeMarked([], src[ip..next]);
      assert [] + src[ip..next] == src[ip..next];
      step := CheckSuffix(word);
    }

    /** dstage_storeSuffix. */
    method StageStoreSuffix(src: seq<Byte>, ip: nat) returns (step: Step, next: nat)
      requires stage == StoreSuffix && Shape(mem[..]) && ip <= |src| && (live ==> Follows() && Agrees(src, ip, rest))
      modifies this, tmpIn
      ensures mem[..] == old(mem[..]) && out == old(out) && goal == old(goal) && live == old(live)
      ensures tmpIn == old(tmpIn)
      ensures ip <= next <= |src| && (step.Stop? || step.Fail?)
      ensures step.Stop? && step.hint > 0 ==>
                stage == StoreSuffix && Shape(mem[..]) && next == |src| && step.hint == Asked()
      ensures step == Stop(0) ==> Finished()
      ensures live ==> !step.Fail? && next - ip <= |old(rest)| && rest == old(rest)[next - ip..]
      ensures live && step.Stop? && step.hint > 0 ==> Follows()
      ensures taken == old(taken) + src[ip..next] && old(tmpInSize <= tmpIn.Length)
      ensures var sum := old(tmpIn[..tmpInSize]) + src[ip..next];
              if |sum| < 4 then step == Stop(4 - |sum|)
              else step == if WrongSum(sum) then Fail(ContentChecksumInvalid) else Stop(0)
    {
      hide Shape, Follows, Agrees, Allocated, Bytes32, Read32, BlockSize, Tells, Delivered, Field;
      OnStoreSuffix();
      ghost var saved := tmpIn[..tmpInSize];
      var n := Store(tmpIn, 4, src, ip);
      next := ip + n;
      assert Field(mark) + saved + src[ip..next] == Field(mark) + (saved + src[ip..next]);
      if tmpInSize < 4 {
        assert Saved(tmpIn[..]) == tmpIn[..tmpInSize];
        OnStoreSuffix();
        return Stop(4 - tmpInSize), next;
      }
      WordBytes(tmpIn[..4]);
      step := CheckSuffix(Read32(tmpIn[..4]));
    }

    // ----- Skippable frames -----

    /** The size of a skippable frame is known. */
    method SetSkip(word: U32)
      requires Buffers() && Fresh() && remaining == 0 && (live ==> goal == [] && |rest| == word)
      requires |taken| == 8 && Skips(taken) && Read32(taken[4..]) == word
      modifies this`info, this`tmpInTarget, this`stage
      ensures stage == SkipSkippable && Shape(mem[..]) && (live ==> Follows())
    {
      hide Allocated, Read32, Skips;
      info, tmpInTarget, stage := info.(contentSize := word), word, SkipSkippable;
    }

    lemma OnSkippable()
      requires stage == GetSFrameSize
      ensures Shape(mem[..]) <==> Buffers() && Fresh() && remaining == 0 && |taken| == 4 && Skips(taken)
      ensures Follows() <==> Skipping(rest)
    {
      hide Buffers, Fresh, Read32, Skips;
    }

    /** dstage_getSFrameSize. */
    method StageGetSFrameSize(src: seq<Byte>, ip: nat) returns (step: Step, next: nat)
      requires stage == GetSFrameSize && Shape(mem[..]) && ip <= |src| && (live ==> Follows() && Agrees(src, ip, rest))
      modifies this
      ensures Quiet() && ip <= next <= |src| && step.Again? && Shape(mem[..]) && taken == old(taken) + src[ip..next]
      ensures next > ip || stage == StoreSFrameSize
      ensures live ==> Follows() && next - ip <= |old(rest)| && rest == old(rest)[next - ip..]
    {
      hide Agrees, Read32, Skips, Shape, Follows, Buffers;
      OnSkippable();
      OnHeaderLength();
      assert src[ip..ip] == [];
      if |src| - ip >= 4 {
        next := ip + 4;
        SkipsMore(taken, src[ip..next]);
        var word := Read32(src[ip..next]);
        if live {
          AgreesTake(src, ip, rest, 4);
          SameWord(src[ip..next], rest);
          rest := rest[4..];
        }
        assert (taken + src[ip..next])[4..] == src[ip..next];
        Take(src[ip..next]);
        SetSkip(word);
        return Again, next;
      }
      assert taken[4..] == header[4..4];
      tmpInSize, tmpInTarget, stage := 4, 8, StoreSFrameSize;
      if live { assert header[4..4] + rest == rest; }
      EnterSkippable();
      return Again, ip;
    }

    /** dstage_storeSFrameSize. */
    method StageStoreSFrameSize(src: seq<Byte>, ip: nat) returns (step: Step, next: nat)
      requires stage == StoreSFrameSize && Shape(mem[..]) && ip <= |src|
      requires live ==> Follows() && Agrees(src, ip, rest)
      modifies this, header
      ensures Quiet() && ip <= next <= |src| && !step.Fail? && Shape(mem[..]) && taken == old(taken) + src[ip..next]
      ensures step.Again? ==> next > ip
      ensures step.Stop? ==> step.hint == Asked() > 0 && next == |src| && Resting()
      ensures live ==> Follows() && next - ip <= |old(rest)| && rest == old(rest)[next - ip..]
    {
      hide Allocated, Agrees, Read32, Shape, Follows, Skips;
      LeaveSkippable();
      ghost var size, r, t := tmpInSize, rest, taken;
      var n := Store(header, tmpInTarget, src, ip);
      next := ip + n;
      SkipsMore(t, src[ip..next]);
      SizeOn(t, old(header[..tmpInSize]), header[..tmpInSize], src[ip..next]);
      if live { DropMagic(old(header[..tmpInSize]), r, header[..tmpInSize], rest); }
      assert header[..tmpInSize][4..] == header[4..tmpInSize];
      if tmpInSize < tmpInTarget {
        EnterSkippable();
        return Stop(tmpInTarget - tmpInSize), next;
      }
      if live { SameWord(header[4..8], header[4..8] + rest); }
      SetSkip(Read32(header[4..8]));
      step := Again;
    }

    lemma LeaveSkippable()
      requires stage == StoreSFrameSize && Shape(mem[..])
      ensures Buffers() && Fresh() && remaining == 0 && 4 <= tmpInSize < tmpInTarget == 8
      ensures |taken| == tmpInSize && Skips(taken) && taken[4..] == header[..tmpInSize][4..]
      ensures Follows() ==> Skipping(header[..tmpInSize][4..] + rest)
    {
      hide Allocated, Read32;
      assert Tail(Saved(header[..]), tmpInSize - 4) == header[..tmpInSize][4..] == header[4..tmpInSize];
    }

    lemma OnSkip()
      requires stage == SkipSkippable
      ensures Shape(mem[..]) <==>
                && Buffers() && Fresh() && remaining == 0 && |taken| >= 8 && Skips(taken)
                && Read32(taken[4..]) == |taken| - 8 + tmpInTarget
      ensures Follows() <==> goal == [] && |rest| == tmpInTarget
    {
      hide Buffers, Fresh, Read32, Skips;
    }

    /** dstage_skipSkippable. */
    method StageSkip(src: seq<Byte>, ip: nat) returns (step: Step, next: nat)
      requires stage == SkipSkippable && Shape(mem[..]) && ip <= |src| && (live ==> Follows() && Agrees(src, ip, rest))
      modifies this
      ensures Quiet() && ip <= next <= |src| && step.Stop?
      ensures step.hint > 0 ==> stage == SkipSkippable && Shape(mem[..]) && next == |src| && (live ==> Follows())
      ensures step.hint > 0 ==> step.hint == Asked() && tmpInTarget > 0
      ensures step.hint == 0 ==> Finished()
      ensures live ==> next - ip <= |old(rest)| && rest == old(rest)[next - ip..]
      ensures taken == old(taken) + src[ip..next]
    {
      hide Agrees, Read32, Skips, Delivered, Shape, Follows, Buffers;
      OnSkip();
      var skipSize := Min(tmpInTarget, |src| - ip);
      next := ip + skipSize;
      tmpInTarget := tmpInTarget - skipSize;
      if live { rest := rest[skipSize..]; }
      SkipsMore(taken, src[ip..next]);
      SameField(taken, src[ip..next]);
      Take(src[ip..next]);
      OnSkip();
      if tmpInTarget > 0 { return Stop(tmpInTarget), next; }
      Skipped(hash, taken);
      Reset();
      step := Stop(0);
    }

    // ----- LZ4F_decompress -----

    /** Stages that can follow one another without input have falling ranks. */
    function Rank(): nat
      reads `stage
    {
      match stage
      case Init => 4
      case FlushOut => 3
      case GetFrameHeader => 2
      case GetBlockHeader => 2
      case GetCBlock => 2
      case GetSuffix => 2
      case GetSFrameSize => 2
      case _ => 1
    }

    /** The stages that neither output nor end a frame. */
    predicate Reading()
      reads `stage
    {
      stage in {GetFrameHeader, StoreFrameHeader, Init, GetBlockHeader, StoreBlockHeader, GetBlockChecksum,
                GetSFrameSize, StoreSFrameSize}
    }

    predicate Writing()
      reads `stage
    {
      stage in {CopyDirect, GetCBlock, StoreCBlock, FlushOut}
    }

    predicate Ending()
      reads `stage
    {
      stage in {GetSuffix, StoreSuffix, SkipSkippable}
    }

    lemma StageKinds()
      ensures Reading() || Writing() || Ending()
    {
      match stage
      case GetFrameHeader =>
      case _ =>
    }

    method ReadTurn(src: seq<Byte>, ip: nat, outputFull: bool) returns (step: Step, next: nat)
      requires Reading() && Shape(mem[..]) && ip <= |src| && (live ==> Follows() && Agrees(src, ip, rest))
      modifies this, tmpIn, header
      ensures Quiet() && ip <= next <= |src|
      ensures !step.Fail? ==> Shape(mem[..]) && taken == old(taken) + src[ip..next]
      ensures step.Again? ==> next > ip || Rank() < old(Rank())
      ensures step.Stop? ==> step.hint == Asked() > 0 && (next == |src| || (outputFull && Blocked())) && Resting()
      ensures live ==> !step.Fail? && Follows() && next - ip <= |old(rest)| && rest == old(rest)[next - ip..]
    {
      hide Shape, Follows, Agrees, Resting;
      if stage == Init {
        step := StageInit();
        next := ip;
        assert src[ip..ip] == [];
      } else if stage in {GetBlockHeader, StoreBlockHeader, GetBlockChecksum} {
        step, next := BlockTurn(src, ip, outputFull);
      } else {
        step, next := HeaderTurn(src, ip);
      }
    }

    method BlockTurn(src: seq<Byte>, ip: nat, outputFull: bool) returns (step: Step, next: nat)
      requires stage in {GetBlockHeader, StoreBlockHeader, GetBlockChecksum}
      requires Shape(mem[..]) && ip <= |src| && (live ==> Follows() && Agrees(src, ip, rest))
      modifies this, tmpIn, header
      ensures Quiet() && ip <= next <= |src|
      ensures !step.Fail? ==> Shape(mem[..]) && taken == old(taken) + src[ip..next]
      ensures step.Again? ==> next > ip || Rank() < old(Rank())
      ensures step.Stop? ==> step.hint == Asked() > 0 && (next == |src| || (outputFull && Blocked())) && Resting()
      ensures live ==> !step.Fail? && Follows() && next - ip <= |old(rest)| && rest == old(rest)[next - ip..]
    {
      hide Shape, Follows, Agrees, Resting;
      if stage == GetBlockHeader {
        step, next := StageGetBlockHeader(src, ip, outputFull);
      } else if stage == StoreBlockHeader {
        step, next := StageStoreBlockHeader(src, ip, outputFull);
      } else {
        step, next := StageBlockChecksum(src, ip);
      }
    }

    method HeaderTurn(src: seq<Byte>, ip: nat) returns (step: Step, next: nat)
      requires stage in {GetFrameHeader, StoreFrameHeader, GetSFrameSize, StoreSFrameSize}
      requires Shape(mem[..]) && ip <= |src| && (live ==> Follows() && Agrees(src, ip, rest))
      modifies this, header
      ensures Quiet() && ip <= next <= |src|
      ensures !step.Fail? ==> Shape(mem[..]) && taken == old(taken) + src[ip..next]
      ensures step.Again? ==> next > ip || Rank() < old(Rank())
      ensures step.Stop? ==> step.hint == Asked() > 0 && next == |src| && Resting()
      ensures live ==> !step.Fail? && Follows() && next - ip <= |old(rest)| && rest == old(rest)[next - ip..]
    {
      hide Shape, Follows, Agrees;
      if stage == GetFrameHeader {
        step, next := StageGetFrameHeader(src, ip);
      } else if stage == StoreFrameHeader {
        step, next := StageStoreFrameHeader(src, ip);
      } else if stage == GetSFrameSize {
        step, next := StageGetSFrameSize(src, ip);
      } else {
        step, next := StageStoreSFrameSize(src, ip);
      }
    }

    method WriteTurn(src: seq<Byte>, ip: nat, dst: nat, op: nat, dstEnd: nat)
      returns (step: Step, next: nat, opNext: nat)
      requires stage in {CopyDirect, GetCBlock, StoreCBlock, FlushOut} && Shape(mem[..]) && ip <= |src|
      requires Room(dst, op, dstEnd) && Open(op, dstEnd) && (live ==> Follows() && Agrees(src, ip, rest))
      modifies this, mem, tmpIn
      ensures Wrote(op, opNext, dstEnd) && ip <= next <= |src|
      ensures !step.Fail? ==> taken == old(taken) + src[ip..next]
      ensures forall x, pos :: Places(x, pos) ==>
                old(Places(x, pos)) || (dst <= x < opNext && pos == |out| - (opNext - x))
      ensures !step.Fail? ==> Shape(mem[..]) && Open(opNext, dstEnd)
      ensures step.Again? ==>
                || next > ip || (old(stage) == GetCBlock && stage == StoreCBlock)
                || (old(stage) == FlushOut && stage == GetBlockHeader)
      ensures step.Stop? ==> step.hint == Asked() > 0 && (next == |src| || (opNext == dstEnd && Blocked())) && Resting()
      ensures live ==> !step.Fail? && Follows() && next - ip <= |old(rest)| && rest == old(rest)[next - ip..]
    {
      hide *;
      match stage {
        case CopyDirect =>
          step, next, opNext := StageCopyDirect(src, ip, dst, op, dstEnd);
          SettledOpen(opNext, dstEnd);
        case GetCBlock => step, next, opNext := StageGetCBlock(src, ip, dst, op, dstEnd);
        case StoreCBlock => step, next, opNext := StageStoreCBlock(src, ip, dst, op, dstEnd);
        case FlushOut =>
          step, opNext := StageFlushOut(dst, op, dstEnd);
          SettledOpen(opNext, dstEnd);
          next := ip;
          assert old(rest)[0..] == old(rest) && src[ip..ip] == [];
      }
    }

    method EndTurn(src: seq<Byte>, ip: nat) returns (step: Step, next: nat)
      requires Ending() && Shape(mem[..]) && ip <= |src|
      requires live ==> Follows() && Agrees(src, ip, rest)
      modifies this, tmpIn
      ensures mem[..] == old(mem[..]) && out == old(out) && goal == old(goal) && live == old(live)
      ensures tmpIn == old(tmpIn) || fresh(tmpIn)
      ensures ip <= next <= |src|
      ensures step.Again? ==> stage == StoreSuffix && Rank() < old(Rank())
      ensures step.Stop? && step.hint > 0 ==>
                && step.hint == Asked() && next == |src|
                && (stage == StoreSuffix || (stage == SkipSkippable && tmpInTarget > 0))
      ensures step == Stop(0) ==> Finished()
      ensures !step.Fail? && step != Stop(0) ==>
                Shape(mem[..]) && (stage == SkipSkippable ==> dict == old(dict) && dictSize == old(dictSize))
      ensures live ==> !step.Fail? && next - ip <= |old(rest)| && rest == old(rest)[next - ip..]
      ensures live && step != Stop(0) ==> Follows()
      ensures !step.Fail? ==> taken == old(taken) + src[ip..next]
    {
      hide Shape, Follows, Agrees, Finished, Resting, WrongSize, WrongSum;
      if stage == SkipSkippable {
        step, next := StageSkip(src, ip);
      } else {
        step, next := SuffixTurn(src, ip);
      }
    }

    method SuffixTurn(src: seq<Byte>, ip: nat) returns (step: Step, next: nat)
      requires stage in {GetSuffix, StoreSuffix} && Shape(mem[..]) && ip <= |src|
      requires live ==> Follows() && Agrees(src, ip, rest)
      modifies this, tmpIn
      ensures mem[..] == old(mem[..]) && out == old(out) && goal == old(goal) && live == old(live)
      ensures tmpIn == old(tmpIn) && ip <= next <= |src|
      ensures step.Again? ==> old(stage) == GetSuffix
      ensures step.Stop? && step.hint > 0 ==> step.hint == Asked() && next == |src|
      ensures step == Stop(0) ==> Finished()
      ensures !step.Fail? && step != Stop(0) ==> Shape(mem[..]) && stage == StoreSuffix
      ensures live ==> !step.Fail? && next - ip <= |old(rest)| && rest == old(rest)[next - ip..]
      ensures live && step != Stop(0) ==> Follows()
      ensures !step.Fail? ==> taken == old(taken) + src[ip..next]
    {
      hide *;
      if stage == GetSuffix {
        step, next := StageGetSuffix(src, ip);
      } else {
        step, next := StageStoreSuffix(src, ip);
      }
    }

    /** One pass through the switch. */
    method Turn(src: seq<Byte>, ip: nat, dst: nat, op: nat, dstEnd: nat) returns (step: Step, next: nat, opNext: nat)
      requires Shape(mem[..]) && ip <= |src| && Room(dst, op, dstEnd) && Open(op, dstEnd)
      requires live ==> Follows() && Agrees(src, ip, rest)
      modifies this, mem, tmpIn, header
      ensures ip <= next <= |src| && op <= opNext <= dstEnd && goal == old(goal) && live == old(live)
      ensures tmpIn == old(tmpIn) || fresh(tmpIn)
      ensures SameButFor(mem[..], old(mem[..]), op, dstEnd) && out == old(out) + Slice(mem[..], op, opNext - op)
      ensures step.Again? ==> Shape(mem[..]) && Open(opNext, dstEnd) && (next > ip || Rank() < old(Rank()))
      ensures !step.Fail? ==> forall x, pos :: Recalls(x, pos) ==>
                old(Recalls(x, pos)) || (dst <= x < opNext && pos == |out| - (opNext - x))
      ensures step.Stop? && step.hint > 0 ==>
                && step.hint == Asked() && Shape(mem[..]) && Resting()
                && (next == |src| || (opNext == dstEnd && Blocked()))
      ensures step == Stop(0) ==> Finished()
      ensures live ==> !step.Fail? && next - ip <= |old(rest)| && rest == old(rest)[next - ip..]
      ensures live && step != Stop(0) ==> Follows()
      ensures !step.Fail? ==> taken == old(taken) + src[ip..next]
    {
      hide Shape, Follows, Agrees, Room, SameButFor, Slice, Delivered;
      WithinRoom(dst, op, dstEnd);
      StageKinds();
      if !Ending() { LeansInUse(); }
      if Reading() {
        step, next := ReadTurn(src, ip, op == dstEnd);
        opNext := op;
        NothingWritten(op, dstEnd);
      } else if Writing() {
        step, next, opNext := WriteTurn(src, ip, dst, op, dstEnd);
      } else {
        step, next := EndTurn(src, ip);
        opNext := op;
        NothingWritten(op, dstEnd);
      }
    }

    lemma LeansInUse()
      requires Shape(mem[..]) && !Ending()
      ensures forall x :: Leans(x) ==> HistoryInUse()
    {
      hide Allocated, Buffers, Sized, Ready, Remembers, Enough, Told;
    }

    /** The switch is gone through until some stage asks to return. */
    method Run(src: seq<Byte>, dst: nat, dstEnd: nat) returns (step: Step, ip: nat, op: nat)
      requires Shape(mem[..]) && Room(dst, dst, dstEnd) && Open(dst, dstEnd)
      requires live ==> Follows() && Agrees(src, 0, rest)
      modifies this, mem, tmpIn, header
      ensures !step.Again? && ip <= |src| && dst <= op <= dstEnd && goal == old(goal) && live == old(live)
      ensures SameButFor(mem[..], old(mem[..]), dst, dstEnd) && out == old(out) + Slice(mem[..], dst, op - dst)
      ensures step.Stop? && step.hint > 0 ==>
                step.hint == Asked() && Shape(mem[..]) && Resting() && (ip == |src| || (op == dstEnd && Blocked()))
      ensures step == Stop(0) ==> Finished()
      ensures live ==> !step.Fail? && ip <= |old(rest)| && rest == old(rest)[ip..]
      ensures live && step != Stop(0) ==> Follows()
      ensures !step.Fail? ==> taken == old(taken) + src[..ip]
      ensures tmpIn == old(tmpIn) || fresh(tmpIn)
      ensures !step.Fail? ==> forall x, pos :: Recalls(x, pos) ==>
                old(Recalls(x, pos)) || (dst <= x < op && pos == |old(out)| + x - dst)
    {
      hide Shape, Follows, Agrees, SameButFor, Slice, EndsWith, Open, Finished, Resting, Recalls;
      ip, op := 0, dst;
      NothingWritten(dst, dstEnd);
      while true
        invariant ip <= |src| && dst <= op <= dstEnd && goal == old(goal) && live == old(live)
        invariant tmpIn == old(tmpIn) || fresh(tmpIn)
        invariant taken == old(taken) + src[..ip]
        invariant Shape(mem[..]) && Open(op, dstEnd)
        invariant forall x, pos :: Recalls(x, pos) ==>
                    old(Recalls(x, pos)) || (dst <= x < op && pos == |old(out)| + x - dst)
        invariant SameButFor(mem[..], old(mem[..]), dst, dstEnd) && out == old(out) + Slice(mem[..], dst, op - dst)
        invariant live ==> Follows() && ip <= |old(rest)| && rest == old(rest)[ip..] && Agrees(src, ip, rest)
        decreases |src| - ip, Rank()
      {
        RoomOn(dst, op, dstEnd, old(out));
        ghost var m, o, before, p := mem[..], out, rest, ip;
        var next, opNext;
        step, next, opNext := Turn(src, ip, dst, op, dstEnd);
        TurnsJoin(old(mem[..]), m, mem[..], old(out), o, dst, op, opNext, dstEnd);
        if live {
          if step.Again? { AgreesTake(src, ip, before, next - ip); }
          assert old(rest)[ip..][next - ip..] == old(rest)[next..];
        }
        assert src[..next] == src[..ip] + src[ip..next];
        ip, op := next, opNext;
        if !step.Again? { return; }
      }
    }

    lemma RoomOn(dst: nat, op: nat, dstEnd: nat, before: seq<Byte>)
      requires dst <= op <= dstEnd <= mem.Length && Foreign(arena, reserve, dst, dstEnd) && (dst < dstEnd ==> 0 < dst)
      requires out == before + Slice(mem[..], dst, op - dst)
      ensures Room(dst, op, dstEnd)
    {
    }

    lemma TurnsJoin(m0: seq<Byte>, m: seq<Byte>, m': seq<Byte>, out0: seq<Byte>, o: seq<Byte>,
                    dst: nat, op: nat, opNext: nat, dstEnd: nat)
      requires dst <= op <= opNext <= dstEnd <= |m0| && Foreign(arena, reserve, dst, dstEnd)
      requires SameButFor(m, m0, dst, dstEnd) && SameButFor(m', m, op, dstEnd)
      requires o == out0 + Slice(m, dst, op - dst) && out == o + Slice(m', op, opNext - op)
      ensures SameButFor(m', m0, dst, dstEnd) && out == out0 + Slice(m', dst, opNext - dst)
    {
      assert m'[dst..op] == m[dst..op];
      assert m'[dst..opNext] == m'[dst..op] + m'[op..opNext];
    }

    /** History is needed for what is left of the frame. */
    predicate HistoryInUse()
      reads `stage, `info
    {
      info.linked && (AmongBlocks() || stage == FlushOut)
    }

    /** The end of LZ4F_decompress: history in the caller's memory is saved, unless it is stable. */
    method Preserve(stableDst: bool)
      requires Shape(mem[..]) && Resting() && (live ==> Follows())
      modifies this`dict, this`dictSize, this`good, this`tmpOut, mem
      ensures Shape(mem[..]) && (live ==> Follows())
      ensures !stableDst && HistoryInUse() ==> dict == tmpOutBuffer
      ensures forall x, pos :: Recalls(x, pos) ==> old(Recalls(x, pos))
      ensures SameButFor(mem[..], old(mem[..]), 0, 0)
    {
      hide Shape, Follows, SameButFor, HistoryOk, Allocated, EndsWith, Waiting, Held, BlockSize;
      NothingWritten(0, 0);
      if ToSave(stableDst) {
        if stage == FlushOut {
          PreserveWaiting();
        } else {
          PreserveHistory();
        }
      }
    }

    /** History is taken to be in the caller's memory, where it may not stay. */
    predicate ToSave(stableDst: bool)
      reads `info, `dict, `tmpOutBuffer, `stage
    {
      info.linked && dict != tmpOutBuffer && !stableDst && (AmongBlocks() || stage == FlushOut)
    }

    /**
     Output right behind a dictionary that fills the buffer: the end of LZ4F_decompress then sees no
     history to save, although the last of it is in the caller's memory only, and is lost as soon as the
     caller changes the last byte there.
     */
    method AdjacentOutput(dst: nat, n: nat)
      requires Ready() && info.linked && DictOk(mem[..], n) && Touches(dst) && arena + reserve <= dst && 0 < n
      requires dst + n <= mem.Length
      modifies this`dict, this`dictSize, this`out, this`good, mem
      ensures out == old(out) + Slice(old(mem[..]), dst, n) && dict + dictSize == dst + n && !ToSave(false)
      ensures Remembers(mem[..], out, dict, dictSize, good) && !DictOk(mem[..], 0)
      ensures forall m: seq<Byte> :: |m| == mem.Length && m[dst + n - 1] != mem[dst + n - 1] ==>
                !Remembers(m, out, dict, dictSize, good)
    {
      hide Allocated, BlockSize, Enough;
      assert EndsWith(out, mem[..], dst, 0);
      UpdateDict(dst, n, dst, false);
      forall m: seq<Byte> | |m| == mem.Length && m[dst + n - 1] != mem[dst + n - 1]
        ensures !Remembers(m, out, dict, dictSize, good)
      {
        LastByte(mem[..], m, out, dict, dictSize, good);
      }
    }

    method PreserveWaiting()
      requires stage == FlushOut && info.linked && dict != tmpOutBuffer && Shape(mem[..]) && (live ==> Follows())
      modifies this`dict, this`dictSize, this`good, mem
      ensures Shape(mem[..]) && (live ==> Follows()) && dict == tmpOutBuffer && SameButFor(mem[..], old(mem[..]), 0, 0)
    {
      hide Shape, Follows, SameButFor, Allocated, EndsWith, BlockSize, SameOutside, Slice, Decoding, AtBlock,
           Remembers, Enough, Tells;
      OnFlush();
      MoveInFront();
      BufferKept(old(mem[..]), mem[..]);
      OnFlush();
    }

    lemma BufferKept(m: seq<Byte>, m': seq<Byte>)
      requires Ready() && |m| == mem.Length && SameOutside(m', m, tmpOutBuffer, tmpOut)
      requires tmpOutBuffer <= tmpOut && tmpOutStart <= tmpOutSize
      requires tmpOut + tmpOutSize <= tmpOutBuffer + maxBufferSize
      ensures SameButFor(m', m, 0, 0)
      ensures Slice(m', tmpOut + tmpOutStart, tmpOutSize - tmpOutStart) ==
              Slice(m, tmpOut + tmpOutStart, tmpOutSize - tmpOutStart)
    {
      hide Allocated, BlockSize;
      SameSlice(m', m, tmpOutBuffer, tmpOut, tmpOut + tmpOutStart, tmpOut + tmpOutSize);
    }

    method PreserveHistory()
      requires AmongBlocks() && info.linked && dict != tmpOutBuffer && Shape(mem[..]) && (live ==> Follows())
      modifies this`dict, this`dictSize, this`good, this`tmpOut, mem
      ensures Shape(mem[..]) && (live ==> Follows()) && dict == tmpOutBuffer && SameButFor(mem[..], old(mem[..]), 0, 0)
    {
      hide Allocated, EndsWith, BlockSize, SameOutside, Placed, Sized, Told;
      var newDictSize := Min(dictSize, KB64);
      BringToBuffer(newDictSize, 0);
      ToldAlike(old(mem[..]), mem[..]);
      PlaceOutput(tmpOutBuffer + newDictSize);
      BufferOnly(old(mem[..]), mem[..], 0, 0);
    }

    method PlaceOutput(at: nat)
      requires stage != FlushOut && Told(mem[..])
      modifies this`tmpOut
      ensures tmpOut == at && Told(mem[..])
    {
      hide Tells, Copying, Summing, Marked, Left;
      tmpOut := at;
    }

    /** Only a waiting block depends on memory. */
    lemma ToldAlike(m: seq<Byte>, m': seq<Byte>)
      requires stage != FlushOut || Left(m) == Left(m')
      ensures Told(m) <==> Told(m')
    {
      hide Tells, Copying, Summing, Marked, Left;
    }

    // ----- The decoder as its callers see it -----

    /** LZ4F_createDecompressionContext. */
    constructor (hash: Hash, mem: array<Byte>, arena: nat, reserve: nat)
      requires 0 < arena && arena + reserve <= mem.Length
      ensures Valid() && stage == GetFrameHeader && !live
      ensures this.hash == hash && this.mem == mem && this.arena == arena && this.reserve == reserve
      ensures fresh(header) && fresh(tmpIn)
    {
      this.hash, this.mem, this.arena, this.reserve := hash, mem, arena, reserve;
      header := new Byte[MAX_HEADER](_ => 0);
      tmpIn := new Byte[0];
      info, stage := Info(false, true, false, false, 0, 0, 0), GetFrameHeader;
      remaining, maxBlockSize, maxBufferSize, tmpInSize, tmpInTarget := 0, 0, 0, 0, 0;
      tmpOutBuffer, dict, dictSize, tmpOut, tmpOutSize, tmpOutStart := 0, 0, 0, 0, 0, 0;
      xxh, blockXxh, out, good, live := [], [], [], 0, false;
      taken, seen, part, mark := [], [], [], 0;
    }

    ghost predicate Valid()
      reads this, mem, tmpIn, header
    {
      Shape(mem[..]) && (live ==> Follows())
    }

    /** The input from here on is known to be `f`. */
    ghost method Expect(f: Frame)
      requires Valid() && stage == GetFrameHeader && FrameOk(f) && Holdable(f)
      modifies this`live, this`frame, this`goal, this`rest
      ensures Valid() && live && frame == f && out == [] && rest == FrameBytes(hash, f) && goal == FrameContent(f)
    {
      hide Allocated, FrameBytes, FrameOk, FrameContent, Buffers, Told;
      live, frame := true, f;
      goal, rest := FrameContent(f), FrameBytes(hash, f);
    }

    /** The decoder still relies on address `x` in the caller's memory. */
    predicate Relies(x: int)
      reads `stage, `info, `dict, `dictSize, `tmpOutBuffer
    {
      HistoryInUse() && Leans(x)
    }

    /** It takes that address to hold byte `pos` of the output. */
    ghost predicate Recalls(x: int, pos: int)
      reads `stage, `info, `dict, `dictSize, `tmpOutBuffer, `out
    {
      HistoryInUse() && Places(x, pos)
    }

    /** It relies on at most the last 64 KB of the output. */
    lemma ReliesOnLast(x: int) returns (pos: int)
      requires Relies(x)
      ensures Recalls(x, pos) && |out| - KB64 <= pos < |out|
    {
      pos := |out| - (dict + dictSize - x);
    }

    /** Memory of the caller's that the decoder does not rely on. */
    predicate Spare(at: nat, n: nat)
      reads `stage, `info, `dict, `dictSize, `tmpOutBuffer
    {
      at + n <= mem.Length && Foreign(arena, reserve, at, at + n) && forall x :: at <= x < at + n ==> !Relies(x)
    }

    /**
     An output buffer the caller may offer: spare memory that is not taken for the continuation of the
     decoder's full buffer.
     */
    predicate Offered(dst: nat, capacity: nat)
      reads `stage, `info, `dict, `dictSize, `tmpOutBuffer
    {
      Spare(dst, capacity) && (capacity > 0 ==> 0 < dst && !(HistoryInUse() && Touches(dst)))
    }

    /** Only right behind the largest buffer there can be is spare memory not welcome. */
    lemma Welcome(dst: nat, capacity: nat)
      requires Shape(mem[..]) && Spare(dst, capacity) && (capacity > 0 ==> 0 < dst)
      ensures Offered(dst, capacity) || dst == arena + reserve
    {
      hide Allocated, BlockSize, Sized, Waiting, Held, Remembers, Enough, Told;
    }

    /**
     LZ4F_decompress. When the input is a valid frame, whatever pieces it comes in and whatever room
     there is for the output, the output of all calls together is always the beginning of the frame's
     content, and is all of it exactly when 0 is returned; a call that returns anything else has used
     up its input or its room. Whatever the input is, only the offered buffer and the decoder's own
     memory are written.
     */
    method Decompress(src: seq<Byte>, dst: nat, capacity: nat, stableDst: bool)
      returns (r: Outcome, consumed: nat, written: nat)
      requires Valid() && Offered(dst, capacity) && (live ==> Agrees(src, 0, rest))
      modifies this, mem, tmpIn, header
      ensures consumed <= |src| && written <= capacity && SameButFor(mem[..], old(mem[..]), dst, dst + capacity)
      ensures r.Hint? ==> Valid() && (tmpIn == old(tmpIn) || fresh(tmpIn))
      ensures r.Hint? && r.next > 0 ==>
                out == old(out) + Slice(mem[..], dst, written) && (consumed == |src| || written == capacity)
      ensures r.Hint? && r.next > 0 ==> live == old(live) && goal == old(goal) && (consumed == |src| || Blocked())
      ensures r.Hint? && !stableDst ==> forall x :: !Relies(x)
      ensures r.Hint? ==> forall x, pos :: Recalls(x, pos) ==>
                old(Recalls(x, pos)) || (dst <= x < dst + written && pos == |old(out)| + x - dst)
      ensures r == Hint(0) ==> stage == GetFrameHeader && !live
      ensures old(live) ==> r.Hint? && consumed <= |old(rest)|
      ensures old(live) && r.next > 0 ==> rest == old(rest)[consumed..] && rest != [] && out <= goal
      ensures old(live) && r.next > 0 && out == goal && consumed < |src| ==> EmptyDue()
      ensures old(live) && r.next == 0 ==>
                consumed == |old(rest)| && old(out) + Slice(mem[..], dst, written) == old(goal)
      ensures old(live) && r.next > 0 ==> r.next <= |rest| + Excess()
      ensures r.Hint? && r.next > 0 ==> taken == old(taken) + src[..consumed]
      ensures r == Hint(0) ==> taken == [] && out == []
      ensures r == Hint(0) ==>
                Delivered(hash, old(taken) + src[..consumed], old(out) + Slice(mem[..], dst, written))
    {
      hide Shape, Follows, Agrees, SameButFor, Slice, EndsWith, Delivered;
      ghost var dstEnd := dst + capacity;
      Enter(dst, capacity);
      var step, ip, op := Run(src, dst, dst + capacity);
      consumed, written := ip, op - dst;
      if step.Fail? { return Failed(step.error), consumed, written; }
      r := Hint(step.hint);
      if step.hint == 0 {
        BeginAgain();
        return;
      }
      if live {
        Unfinished();
        AskedWithin();
        if out == goal && Blocked() { OnlyEmpty(); }
      }
      ghost var m := mem[..];
      Preserve(stableDst);
      Unaffected(old(mem[..]), m, mem[..], dst, op, dst + capacity);
    }

    /** A compressed block with nothing in it is due. */
    ghost predicate EmptyDue()
      reads `stage, `todo
    {
      stage == GetCBlock && todo != [] && todo[0].Packed? && todo[0].decoded == []
    }

    /** With all content output, only an empty compressed block can still need room. */
    lemma OnlyEmpty()
      requires Shape(mem[..]) && Follows() && out == goal && Blocked()
      ensures EmptyDue()
    {
      hide Shape, Follows, AtBlock, InStored, InPacked, Allocated, EndsWith;
      if stage == CopyDirect {
        OnCopyDirect();
        StoredLeft(hash, hdr, out, pend, blockXxh, todo, rest, goal);
      } else if stage == FlushOut {
        OnFlush();
      } else {
        OnCBlock();
        InPackedKind(hash, hdr, out, todo, rest, goal);
        ReadPacked(hash, hdr, out, todo, rest, goal);
        BodyNonEmpty(hash, hdr, out + todo[0].decoded, todo[1..], rest[tmpInTarget..], goal);
      }
    }

    /** A frame that is not finished has bytes left. */
    lemma Unfinished()
      requires Shape(mem[..]) && Follows() && Resting()
      ensures rest != [] && out <= goal
    {
      hide Shape, Follows, AtBlock, InStored, InPacked, AtChecksum, Allocated, EndsWith;
      if Reading() {
        UnfinishedReading();
      } else if stage == CopyDirect {
        OnCopyDirect();
        CopyStored(hash, hdr, out, pend, blockXxh, todo, rest, goal, |pend|);
      } else if stage == GetCBlock {
        OnCBlock();
        PackedLength(rest);
      } else if stage == StoreCBlock {
        OnStoreCBlock();
        PackedLength(tmpIn[..tmpInSize] + rest);
      } else if stage == FlushOut {
        OnFlush();
        BodyNonEmpty(hash, hdr, out + pend, todo, rest, goal);
      } else {
        StageKinds();
        UnfinishedEnding();
      }
    }

    /** No more is asked for than the frame has, but for the two exceptions. */
    lemma AskedWithin()
      requires Shape(mem[..]) && Follows() && Resting()
      ensures Asked() <= |rest| + Excess()
    {
      hide Shape, Follows, AtBlock, InStored, InPacked, AtChecksum, Allocated, EndsWith;
      if Reading() {
        AskedReading();
      } else if stage == CopyDirect {
        OnCopyDirect();
        CopyStored(hash, hdr, out, pend, blockXxh, todo, rest, goal, |pend|);
        assert pend[|pend|..] == [];
        StoredLast(out + pend[..|pend|], blockXxh + pend[..|pend|], rest[|pend|..]);
      } else if stage == GetCBlock {
        OnCBlock();
        PackedMore(rest);
      } else if stage == StoreCBlock {
        OnStoreCBlock();
        PackedMore(tmpIn[..tmpInSize] + rest);
      } else if stage == FlushOut {
        OnFlush();
        BodyNonEmpty(hash, hdr, out + pend, todo, rest, goal);
      } else {
        StageKinds();
        AskedEnding();
      }
    }

    lemma AskedReading()
      requires Shape(mem[..]) && Follows() && Resting() && Reading()
      ensures Asked() <= |rest| + Excess()
    {
      hide Shape, Follows, AtBlock, AtChecksum, Allocated, FrameOk, FrameBytes;
      UnfinishedReading();
      if stage == GetFrameHeader {
        OnStart();
        FrameSize();
      } else if stage == StoreFrameHeader {
        LeaveHeader();
        HeaderMore();
      } else if stage == StoreBlockHeader {
        OnStoreBlockHeader();
        BodyNonEmpty(hash, hdr, out, todo, tmpIn[..tmpInSize] + rest, goal);
      } else if stage == StoreSFrameSize {
        LeaveSkippable();
      }
    }

    lemma AskedEnding()
      requires Shape(mem[..]) && Follows() && Resting() && Ending()
      ensures Asked() <= |rest| + Excess()
    {
      hide Shape, Follows, Allocated, Buffers, Bytes32;
      if stage == StoreSuffix {
        OnStoreSuffix();
      } else {
        OnSkip();
      }
    }

    lemma FrameSize()
      requires Expected()
      ensures |FrameBytes(hash, frame)| >= 8
      ensures frame.Lz4? ==>
                frame.header.Ok() && |FrameBytes(hash, frame)| >= |HeaderBytes(hash, frame.header)| + BLOCK_HEADER
    {
      hide Bytes32, HeaderBytes, BodyOk;
      if frame.Lz4? {
        var h := frame.header;
        BodyNonEmpty(hash, h, [], frame.blocks, Body(hash, h, [], frame.blocks), goal);
      }
    }

    /** After its header, a frame has at least a size field, unless it is skippable. */
    lemma HeaderMore()
      requires Expected() && tmpInSize <= header.Length && header[..tmpInSize] + rest == FrameBytes(hash, frame)
      requires tmpInTarget == MIN_HEADER || (MIN_HEADER <= tmpInSize && GoesOn(header[..], tmpInTarget))
      ensures tmpInTarget + BLOCK_HEADER <= |FrameBytes(hash, frame)| + if frame.Skippable? then 3 else 0
    {
      hide Read32, Bytes32, Body, BodyOk, HeaderBytes;
      FrameSize();
      var fb := FrameBytes(hash, frame);
      if tmpInTarget != MIN_HEADER {
        var s := header[..tmpInSize];
        assert Read32(s) == Read32(header[..]) by { Read32Bytes(MAGIC, s); Read32Bytes(MAGIC, header[..]); }
        assert s <= fb && Agrees(s, 0, fb) && s[4] == header[4];
        if frame.Skippable? {
          assert Bytes32(frame.magic) <= fb;
          PrefixOfBoth(Bytes32(frame.magic), s, fb);
          Read32Bytes(frame.magic, s);
          assert false;
        }
        HeaderCodec(hash, fb, frame.header);
      }
    }

    /** After a stored block, the frame has its checksum and another size field. */
    lemma StoredLast(now: seq<Byte>, sum: seq<Byte>, left: seq<Byte>)
      requires Matches() && InStored(hash, hdr, now, [], sum, todo, left, goal)
      ensures CrcSize() + BLOCK_HEADER <= |left|
    {
      hide InStored, AtBlock, AtChecksum, Read32;
      StoredDone(hash, hdr, now, sum, todo, left, goal);
      if hdr.blockChecksum {
        ReadChecksum(hash, hdr, now, sum, todo, left, goal);
        BodyNonEmpty(hash, hdr, now, todo, left[4..], goal);
      } else {
        BodyNonEmpty(hash, hdr, now, todo, left, goal);
      }
    }

    /** The same after a compressed block. */
    lemma PackedMore(s: seq<Byte>)
      requires Matches() && Due() && InPacked(hash, hdr, out, todo, s, goal)
      ensures tmpInTarget + BLOCK_HEADER <= |s|
    {
      hide InPacked, AtBlock, Decodes, Read32;
      InPackedKind(hash, hdr, out, todo, s, goal);
      ReadPacked(hash, hdr, out, todo, s, goal);
      BodyNonEmpty(hash, hdr, out + todo[0].decoded, todo[1..], s[tmpInTarget..], goal);
    }

    lemma UnfinishedReading()
      requires Shape(mem[..]) && Follows() && Resting() && Reading()
      ensures rest != [] && out <= goal
    {
      hide Shape, Follows, AtBlock, AtChecksum, Allocated, FrameOk, FrameBytes;
      if stage == GetFrameHeader {
        AllOfFrame();
      } else if stage == StoreFrameHeader {
        LeaveHeader();
      } else if stage == GetBlockHeader {
        OnBlockHeader();
        BodyNonEmpty(hash, hdr, out, todo, rest, goal);
      } else if stage == StoreBlockHeader {
        OnStoreBlockHeader();
        BodyNonEmpty(hash, hdr, out, todo, tmpIn[..tmpInSize] + rest, goal);
      } else if stage == GetBlockChecksum {
        OnBlockChecksum();
        OnHeaderLength();
        ReadChecksum(hash, hdr, out, blockXxh, todo, header[..tmpInSize] + rest, goal);
      } else {
        LeaveSkippable();
      }
    }

    lemma AllOfFrame()
      requires stage == GetFrameHeader && Shape(mem[..]) && Follows()
      ensures rest != [] && out <= goal
    {
      hide Allocated;
    }

    lemma UnfinishedEnding()
      requires Shape(mem[..]) && Follows() && Resting() && Ending()
      ensures rest != [] && out <= goal
    {
      hide Allocated, Buffers;
      if stage == StoreSuffix {
        hide Shape, Follows;
        OnStoreSuffix();
      }
    }

    /** Counts no more of the history than an offset can reach. */
    ghost method Enter(dst: nat, capacity: nat)
      requires Valid() && Spare(dst, capacity)
      modifies this`good
      ensures Shape(mem[..]) && (live ==> Follows()) && Clear(dst, dst + capacity)
      ensures Offered(dst, capacity) ==> Room(dst, dst, dst + capacity) && Open(dst, dst + capacity)
    {
      hide EndsWith, Allocated, BlockSize, Placed, Sized, Enough, Remembers, Buffers, Ready, Waiting, Held, Told;
      if HistoryInUse() && good > KB64 {
        TrimDict(if stage == FlushOut then tmpOutSize - tmpOutStart else 0);
        good := KB64;
      }
      OpenStart(dst, capacity);
    }

    lemma TrimDict(pending: nat)
      requires DictOk(mem[..], pending) && good > KB64
      ensures Remembers(mem[..], out, dict, dictSize, KB64) && Enough(|out|, dictSize, KB64, pending)
      ensures dict != tmpOutBuffer ==>
                Apart(dict + dictSize - KB64, dict + dictSize, tmpOutBuffer, tmpOutBuffer + maxBufferSize)
    {
      hide EndsWith;
      EndsWithShorter(out, mem[..], dict + dictSize - good, good, KB64);
    }

    lemma OpenStart(dst: nat, capacity: nat)
      requires Shape(mem[..]) && Spare(dst, capacity) && (HistoryInUse() ==> good <= KB64)
      ensures Clear(dst, dst + capacity)
      ensures Offered(dst, capacity) ==> Room(dst, dst, dst + capacity) && Open(dst, dst + capacity)
    {
      hide Allocated, BlockSize, Sized, Ready, Buffers, Waiting, Held, Told;
      assert EndsWith(out, mem[..], dst, 0);
      if HistoryInUse() { NotUsed(dst, capacity); }
    }

    lemma NotUsed(dst: nat, capacity: nat)
      requires HistoryInUse() && good <= KB64 && good <= dictSize && forall x :: dst <= x < dst + capacity ==>
                 !Relies(x)
      ensures || capacity == 0 || dict == tmpOutBuffer || dictSize == 0
              || dict + dictSize <= dst || dst + capacity + good <= dict + dictSize
    {
      var first := dict + dictSize - Min(dictSize, KB64);
      var x := if dst < first then first else dst;
      if x < dst + capacity { assert !Relies(x); }
    }

    lemma Nothing()
      requires Valid() && stage == GetFrameHeader
      ensures out == [] && taken == []
    {
      hide Allocated;
    }

    lemma Unstarted()
      requires Valid() && live && stage == GetFrameHeader
      ensures out == [] && rest != []
    {
      hide Allocated;
    }

    /** LZ4F_headerSize: how long the header at the start of `src` is. */
    static method MeasureHeader(src: seq<Byte>) returns (r: Option<nat>, error: Error)
      ensures r.Some? ==> |src| >= 5 && MIN_HEADER <= r.value <= MAX_HEADER
      ensures r.Some? && Read32(src) == MAGIC ==> r.value == HeaderSize(src[4])
      ensures r.Some? && Read32(src) != MAGIC ==> r.value == 8 && Read32(src) / 16 == MAGIC_SKIPPABLE / 16
      ensures r.None? <==> |src| < 5 || (Read32(src) != MAGIC && Read32(src) / 16 != MAGIC_SKIPPABLE / 16)
      ensures r.None? ==> error == if |src| < 5 then FrameHeaderIncomplete else FrameTypeUnknown
    {
      hide Read32;
      error := Generic;
      if |src| < 5 { return None, FrameHeaderIncomplete; }
      if Read32(src) / 16 == MAGIC_SKIPPABLE / 16 { return Some(8), error; }
      if Read32(src) != MAGIC { return None, FrameTypeUnknown; }
      r := Some(HeaderSize(src[4]));
    }

    /**
     LZ4F_getFrameInfo. Before a frame has begun, given all of the header, it takes exactly the header
     and reports what it says; given less, it takes nothing. Later it takes nothing and reports what
     the header said. Decoding then goes on where it was.
     */
    method GetFrameInfo(src: seq<Byte>) returns (r: Outcome, found: Info, consumed: nat)
      requires Valid() && (live && stage == GetFrameHeader ==> Agrees(src, 0, rest))
      modifies this, mem, tmpIn, header
      ensures consumed <= |src| && SameButFor(mem[..], old(mem[..]), 0, 0)
      ensures r.Hint? ==> Valid()
      ensures r.Hint? && r.next > 0 ==> out == old(out) && live == old(live) && goal == old(goal)
      ensures r.Hint? && old(stage) == GetFrameHeader ==>
                r.next == BLOCK_HEADER && tmpIn == old(tmpIn) && forall x, pos :: !Recalls(x, pos)
      ensures old(stage) == StoreFrameHeader ==> r == Failed(FrameDecodingAlreadyStarted)
      ensures old(stage) !in {GetFrameHeader, StoreFrameHeader} ==> found == old(info) && consumed == 0
      ensures old(live) && r.Hint? && r.next > 0 ==> consumed <= |old(rest)| && rest == old(rest)[consumed..]
      ensures old(live) && old(stage) == GetFrameHeader ==> (r.Hint? <==> |src| >= HeaderLength(hash, old(frame)))
      ensures old(live) && old(stage) == GetFrameHeader && r.Hint? && old(frame).Lz4? ==>
                found == InfoOf(old(frame).header) && consumed == HeaderLength(hash, old(frame))
      ensures r.Hint? && r.next > 0 ==> taken == old(taken) + src[..consumed]
      ensures r == Hint(0) ==> taken == [] && Delivered(hash, old(taken), old(out))
    {
      hide Shape, Follows, Agrees, HeaderLength, SameButFor, Delivered;
      if stage in {GetFrameHeader, StoreFrameHeader} {
        OnHeaderLength();
        r, found, consumed := ReadFrameInfo(src);
        NothingWritten(0, 0);
        return;
      }
      found := info;
      OnHeaderLength();
      EmptyOffer();
      var written;
      r, consumed, written := Decompress([], 0, 0, false);
      assert src[..0] == [] && Slice(mem[..], 0, 0) == [];
      assert old(taken) + [] == old(taken) && old(out) + [] == old(out);
      if r.Hint? && r.next > 0 { assert old(rest)[0..] == old(rest) && out == old(out) + []; }
    }

    lemma EmptyOffer()
      requires Shape(mem[..])
      ensures Offered(0, 0) && Agrees([], 0, rest)
    {
      hide Allocated, BlockSize;
    }

    /** LZ4F_getFrameInfo before a frame has begun. */
    method ReadFrameInfo(src: seq<Byte>) returns (r: Outcome, found: Info, consumed: nat)
      requires Valid() && stage in {GetFrameHeader, StoreFrameHeader}
      requires live && stage == GetFrameHeader ==> Agrees(src, 0, rest)
      modifies this, header
      ensures consumed <= |src| && mem[..] == old(mem[..])
      ensures r.Hint? ==> Valid() && r.next == BLOCK_HEADER && out == old(out) && live == old(live) && goal == old(goal)
      ensures r.Hint? ==> tmpIn == old(tmpIn) && !HistoryInUse() && taken == old(taken) + src[..consumed]
      ensures r.Hint? && live ==> consumed <= |old(rest)| && rest == old(rest)[consumed..]
      ensures r.Failed? ==> consumed == 0
      ensures old(live) && old(stage) == GetFrameHeader ==>
                (r.Hint? <==> |src| >= HeaderLength(hash, old(frame)))
      ensures old(live) && r.Hint? && old(frame).Lz4? ==>
                found == InfoOf(old(frame).header) && consumed == HeaderLength(hash, old(frame))
      ensures old(stage) == StoreFrameHeader ==> r == Failed(FrameDecodingAlreadyStarted)
    {
      hide Shape, Follows, Agrees, HeaderLength, FrameBytes, FrameOk, HeaderBytes, HeaderAccepted, ReadHeader,
           HeaderSize, Read32, Buffers, Fresh, InfoOf, Expected;
      found := info;
      OnHeaderLength();
      if stage == StoreFrameHeader { return Failed(FrameDecodingAlreadyStarted), found, 0; }
      OnStart();
      var size, error := MeasureHeader(src);
      if live { HeaderMeasured(src, size); }
      if size.None? { return Failed(error), found, 0; }
      if |src| < size.value { return Failed(FrameHeaderIncomplete), found, 0; }
      var failure, n := DecodeHeader(src[..size.value], false);
      found := info;
      if failure.Some? { return Failed(failure.value), found, 0; }
      r, consumed := Hint(BLOCK_HEADER), n;
      assert src[..size.value][..n] == src[..n];
    }

    lemma OnStart()
      requires stage == GetFrameHeader && Shape(mem[..])
      ensures Buffers() && Fresh() && remaining == 0 && taken == []
      ensures Follows() ==> Expected() && rest == FrameBytes(hash, frame)
    {
      hide Allocated;
    }

    lemma HeaderMeasured(src: seq<Byte>, size: Option<nat>)
      requires Expected() && Agrees(src, 0, FrameBytes(hash, frame))
      requires size.Some? ==> |src| >= 5
      requires size.Some? && Read32(src) == MAGIC ==> size.value == HeaderSize(src[4])
      requires size.Some? && Read32(src) != MAGIC ==> size.value == 8 && Read32(src) / 16 == MAGIC_SKIPPABLE / 16
      requires size.None? <==> |src| < 5 || (Read32(src) != MAGIC && Read32(src) / 16 != MAGIC_SKIPPABLE / 16)
      ensures size.Some? && size.value <= |src| ==> Starts(src[..size.value]) && size.value >= MIN_HEADER
      ensures size.Some? ==> size.value == HeaderLength(hash, frame)
      ensures size.None? ==> |src| < HeaderLength(hash, frame)
      ensures size.Some? && size.value <= |src| && frame.Lz4? ==>
                && HeaderAccepted(hash, src[..size.value]) && ReadHeader(src[..size.value]) == frame.header
                && HeaderSize(src[..size.value][4]) == size.value
    {
      hide Bytes32, Read32, Body, BodyOk, HeaderAccepted, ReadHeader;
      var fb := FrameBytes(hash, frame);
      if |src| >= 5 {
        var magic := if frame.Lz4? then MAGIC else frame.magic;
        assert Bytes32(magic) <= fb;
        PrefixOfBoth(Bytes32(magic), src, fb);
        Read32Bytes(magic, src);
        if frame.Lz4? {
          FlagsAhead(fb);
          assert src[4] == fb[4];
          if size.value <= |src| {
            var s, hb := src[..size.value], HeaderBytes(hash, frame.header);
            PrefixOfBoth(hb, src, fb);
            assert hb <= s;
            HeaderCodec(hash, s, frame.header);
          }
        }
      }
    }

    lemma FlagsAhead(fb: seq<Byte>)
      requires frame.Lz4? && FrameOk(frame) && fb == FrameBytes(hash, frame)
      ensures HeaderBytes(hash, frame.header) <= fb && HeaderSize(fb[4]) == |HeaderBytes(hash, frame.header)|
    {
      hide Bytes32, Read32, Body, BodyOk, HeaderBytes, HeaderAccepted, ReadHeader, HeaderSize;
      HeaderCodec(hash, fb, frame.header);
    }

    /** Between calls the caller may use its memory, except for stable output the decoder relies on. */
    method CallerWrites(at: nat, bytes: seq<Byte>)
      requires Valid() && Spare(at, |bytes|)
      modifies this`good, mem
      ensures Valid() && SameOutside(mem[..], old(mem[..]), at, at + |bytes|) && Slice(mem[..], at, |bytes|) == bytes
    {
      hide Shape, Placed, SameOutside, Open, Clear, Room;
      Enter(at, |bytes|);
      OnHeaderLength();
      ghost var m := mem[..];
      CopyIn(mem, at, bytes, 0, |bytes|);
      assert Slice(mem[..], at, |bytes|) == bytes[0..|bytes|] == bytes;
      ShapeKept(m, mem[..], at, at + |bytes|);
      if stage == FlushOut { WaitingKept(m, mem[..], at, at + |bytes|); }
    }

    lemma WaitingKept(m: seq<Byte>, m': seq<Byte>, at: nat, to: nat)
      requires stage == FlushOut && Shape(m) && |m| == mem.Length && SameOutside(m', m, at, to) && at <= to
      requires Foreign(arena, reserve, at, to)
      ensures tmpOut + tmpOutSize <= |m| && tmpOutStart <= tmpOutSize
      ensures Slice(m', tmpOut + tmpOutStart, tmpOutSize - tmpOutStart) ==
              Slice(m, tmpOut + tmpOutStart, tmpOutSize - tmpOutStart)
      ensures Left(m') == Left(m)
    {
      hide Allocated, BlockSize, EndsWith, HistoryOk, Told;
      SameSlice(m', m, at, to, tmpOut + tmpOutStart, tmpOut + tmpOutSize);
    }

    lemma ShapeKept(m: seq<Byte>, m': seq<Byte>, at: nat, to: nat)
      requires Shape(m) && |m| == mem.Length && SameOutside(m', m, at, to) && at <= to <= |m|
      requires Foreign(arena, reserve, at, to) && Clear(at, to)
      ensures Shape(m')
    {
      hide Allocated, BlockSize, Sized, SameOutside, Held, HistoryOk, EndsWith, Told;
      if stage == FlushOut { WaitingKept(m, m', at, to); }
      ToldAlike(m, m');
      if AmongBlocks() {
        HistoryKept(m, m', 0, at, to, to);
      } else if stage == FlushOut {
        HistoryKept(m, m', tmpOutSize - tmpOutStart, at, to, to);
        HeldKept(m, m', at, to);
      }
    }

    lemma HeldKept(m: seq<Byte>, m': seq<Byte>, at: nat, to: nat)
      requires Ready() && Held(m) && SameOutside(m', m, at, to) && at <= to && Foreign(arena, reserve, at, to)
      ensures Held(m') && (info.linked && Waiting(m) ==> Waiting(m'))
    {
      hide Allocated, BlockSize, SameOutside, EndsWith;
      EndsWithKept(out, m, m', tmpOut, tmpOutStart, at, to);
    }

    method BeginAgain()
      requires Finished()
      modifies this`out, this`good, this`live, this`taken
      ensures Valid() && stage == GetFrameHeader && !live && !HistoryInUse() && taken == [] && out == []
    {
      hide Allocated, Delivered;
      out, good, live, taken := [], 0, false, [];
    }

    lemma Unaffected(m0: seq<Byte>, m: seq<Byte>, m': seq<Byte>, dst: nat, op: nat, dstEnd: nat)
      requires dst <= op <= dstEnd <= |m0| && Foreign(arena, reserve, dst, dstEnd)
      requires SameButFor(m, m0, dst, dstEnd) && SameButFor(m', m, 0, 0)
      ensures SameButFor(m', m0, dst, dstEnd) && Slice(m', dst, op - dst) == Slice(m, dst, op - dst)
    {
    }
  }

  /** More input. */
  lemma AccountRead(hash: Hash, h: Header, seen: seq<Block>, taken: seq<Byte>, xxh: seq<Byte>, remaining: nat,
                    extra: seq<Byte>, tail: seq<Byte>, total: seq<Byte>, x: seq<Byte>)
    requires Account(hash, h, seen, taken, xxh, remaining, extra, tail, total)
    ensures Account(hash, h, seen, taken + x, xxh, remaining, extra + x, tail, total)
  {
    hide HeaderBytes, ShellBytes, AllTaken, ChainContent, Short;
    var a := HeaderBytes(hash, h) + ShellBytes(hash, h, seen);
    assert a + extra + x == a + (extra + x);
  }

  /** More output. */
  lemma AccountCount(hash: Hash, h: Header, seen: seq<Block>, taken: seq<Byte>, xxh: seq<Byte>, remaining: nat,
                     extra: seq<Byte>, tail: seq<Byte>, total: seq<Byte>, x: seq<Byte>, xxh': seq<Byte>,
                     remaining': nat)
    requires Account(hash, h, seen, taken, xxh, remaining, extra, tail, total)
    requires h.contentChecksum ==> xxh' == xxh + x
    requires remaining' == Short(InfoOf(h).contentSize, |total| + |x|)
    ensures Account(hash, h, seen, taken, xxh', remaining', extra, tail + x, total + x)
  {
    hide HeaderBytes, ShellBytes, AllTaken, ChainContent, Short;
    assert ChainContent(seen) + tail + x == ChainContent(seen) + (tail + x);
  }

  lemma ShortMore(size: nat, n: nat, k: nat)
    requires size > 0
    ensures (Short(size, n) - k) % TWO64 == Short(size, n + k)
  {
    var a, q := (size - n) % TWO64, (size - n) / TWO64;
    assert size - n == q * TWO64 + a;
    SameModulo(a - k, q);
  }

  lemma {:induction false} SameModulo(a: int, q: int)
    ensures (a + q * TWO64) % TWO64 == a % TWO64
    decreases if q < 0 then -q else q
  {
    if q < 0 {
      SameModulo(a, q + 1);
      OneTurn(a + q * TWO64);
      assert a + (q + 1) * TWO64 == a + q * TWO64 + TWO64;
    } else if q > 0 {
      SameModulo(a, q - 1);
      OneTurn(a + (q - 1) * TWO64);
      assert a + q * TWO64 == a + (q - 1) * TWO64 + TWO64;
    }
  }

  lemma OneTurn(x: int)
    ensures (x + TWO64) % TWO64 == x % TWO64
  {
  }

  /** A block is complete. */
  lemma AccountBlock(hash: Hash, h: Header, seen: seq<Block>, taken: seq<Byte>, xxh: seq<Byte>, remaining: nat,
                     extra: seq<Byte>, tail: seq<Byte>, total: seq<Byte>, b: Block)
    requires Account(hash, h, seen, taken, xxh, remaining, extra, tail, total)
    requires Taken(h, ChainContent(seen), b) && tail == b.Content()
    requires |b.data| < UNCOMPRESSED_FLAG && extra == BlockBytes(hash, h, b)
    ensures Account(hash, h, seen + [b], taken, xxh, remaining, [], [], total)
  {
    hide HeaderBytes, ShellBytes, AllTaken, ChainContent, Short, Taken, BlockBytes;
    ShellMore(hash, h, seen, b);
    var a := HeaderBytes(hash, h);
    assert a + ShellBytes(hash, h, seen) + extra == a + (ShellBytes(hash, h, seen) + extra) + [];
  }

  /** The frame is complete. */
  lemma AccountEnd(hash: Hash, h: Header, seen: seq<Block>, taken: seq<Byte>, xxh: seq<Byte>,
                   mark: U32, total: seq<Byte>)
    requires Account(hash, h, seen, taken, xxh, 0, Field(mark) + Checksum(hash, h.contentChecksum, total), [], total)
    requires mark % UNCOMPRESSED_FLAG == 0
    ensures Delivered(hash, taken, total)
  {
    hide HeaderBytes, ShellBytes, AllTaken, ChainContent, Bytes32;
    assert total == ChainContent(seen);
    ShortNone(InfoOf(h).contentSize, |total|);
    assert ShellOf(hash, Shell(h, seen, mark), taken, total);
  }

  lemma ShortNone(size: nat, n: nat)
    requires size < TWO64
    ensures Short(size, n) == 0 <==> size == 0 || n % TWO64 == size
  {
    if size > 0 {
      var a, q := n % TWO64, n / TWO64;
      assert size - n == size - a + -q * TWO64;
      SameModulo(size - a, -q);
    }
  }

  lemma SkipsMore(s: seq<Byte>, x: seq<Byte>)
    requires Skips(s)
    ensures Skips(s + x)
  {
    hide Read32;
    assert s[..4] == (s + x)[..4];
    SameWord(s[..4], s);
    SameWord(s[..4], s + x);
  }

  lemma SizeOn(t: seq<Byte>, a: seq<Byte>, b: seq<Byte>, x: seq<Byte>)
    requires |t| == |a| >= 4 && t[4..] == a[4..] && b == a + x
    ensures (t + x)[4..] == b[4..]
  {
    assert (t + x)[4..] == t[4..] + x && (a + x)[4..] == a[4..] + x;
  }

  lemma SameField(s: seq<Byte>, x: seq<Byte>)
    requires |s| >= 8
    ensures Read32((s + x)[4..]) == Read32(s[4..])
  {
    hide Read32;
    assert s[4..8] == (s + x)[4..8];
    SameWord(s[4..8], s[4..]);
    SameWord(s[4..8], (s + x)[4..]);
  }

  /** A skippable frame has been taken in full. */
  lemma Skipped(hash: Hash, s: seq<Byte>)
    requires Skips(s) && |s| >= 8 && Read32(s[4..]) == |s| - 8
    ensures Delivered(hash, s, [])
  {
    hide Read32, Bytes32;
    var f := Skippable(Read32(s), s[8..]);
    WordBytes(s[..4]);
    SameWord(s[..4], s);
    WordBytes(s[4..8]);
    SameWord(s[4..8], s[4..]);
    assert s == s[..4] + s[4..8] + s[8..];
    assert FrameOk(f) && FrameBytes(hash, f) == s;
  }

  lemma SkipsStart(s: seq<Byte>, n: nat)
    requires 4 <= n <= |s| && Read32(s) / 16 == MAGIC_SKIPPABLE / 16
    ensures Skips(s[..n])
  {
    hide Read32;
    assert s[..4] == s[..n][..4];
    SameWord(s[..4], s);
    SameWord(s[..4], s[..n]);
  }

  lemma SuffixWord(h: U32, word: U32, rest: seq<Byte>)
    requires Bytes32(word) + rest == Bytes32(h)
    ensures word == h && rest == []
  {
    hide Bytes32, Read32;
    assert |rest| == 0 && Bytes32(word) == Bytes32(h);
    Read32Bytes(word, Bytes32(word));
    Read32Bytes(h, Bytes32(h));
  }

  lemma DropMagic(a: seq<Byte>, r: seq<Byte>, b: seq<Byte>, s: seq<Byte>)
    requires a + r == b + s && |a| >= 4 && |b| >= 4
    ensures a[4..] + r == b[4..] + s
  {
    assert (a + r)[4..] == a[4..] + r && (b + s)[4..] == b[4..] + s;
  }

  /** What is left of a waiting block after `n` more of its bytes. */
  lemma FlushAhead(m: seq<Byte>, m': seq<Byte>, at: nat, size: nat, start: nat, n: nat, before: seq<Byte>)
    requires start + n <= size && at + size <= |m| == |m'| && Slice(m', at, size) == Slice(m, at, size)
    ensures var pend := Slice(m, at + start, size - start);
            && pend[n..] == Slice(m', at + (start + n), size - (start + n))
            && before + Slice(m', at + start, n) + pend[n..] == before + pend
  {
    hide Slice;
    SubSlice(m, m', at, size, start, size - start);
    SplitSlice(m', at + start, n, size - start);
  }

  lemma SplitSlice(m: seq<Byte>, at: nat, n: nat, size: nat)
    requires n <= size && at + size <= |m|
    ensures Slice(m, at, size) == Slice(m, at, n) + Slice(m, at + n, size - n)
    ensures Slice(m, at, size)[n..] == Slice(m, at + n, size - n)
  {
  }

  lemma SliceSize(m: seq<Byte>, at: nat, n: nat)
    requires at + n <= |m|
    ensures |Slice(m, at, n)| == n
  {
  }

  lemma SubSlice(m: seq<Byte>, m': seq<Byte>, at: nat, size: nat, from: nat, n: nat)
    requires at + size <= |m| && at + size <= |m'| && Slice(m', at, size) == Slice(m, at, size) && from + n <= size
    ensures Slice(m', at + from, n) == Slice(m, at + from, n)
  {
    SliceOfSlice(m, at, at + size, from, from + n);
    SliceOfSlice(m', at, at + size, from, from + n);
  }

  lemma InPackedKind(hash: Hash, h: Header, out: seq<Byte>, todo: seq<Block>, rest: seq<Byte>, goal: seq<Byte>)
    requires InPacked(hash, h, out, todo, rest, goal)
    ensures todo != [] && todo[0].Packed? && h.Ok()
  {
  }

  lemma SliceIs(a: seq<Byte>, b: seq<Byte>, c: seq<Byte>)
    ensures a + b == a + c ==> b == c
  {
    if a + b == a + c { assert (a + b)[|a|..] == b && (a + c)[|a|..] == c; }
  }

  lemma SameTwice(a: seq<Byte>, b: seq<Byte>, c: seq<Byte>, from: int, to: int)
    requires SameOutside(a, b, from, to) && SameOutside(b, c, from, to)
    ensures SameOutside(a, c, from, to)
  {
  }

  lemma SameWord(s: seq<Byte>, t: seq<Byte>)
    requires |s| == 4 && |t| >= 4 && s == t[..4]
    ensures Read32(s) == Read32(t)
  {
    assert s[0] == t[0] && s[1] == t[1] && s[2] == t[2] && s[3] == t[3];
  }

  lemma DifferentWords(a: U32, b: U32)
    requires a != b
    ensures Bytes32(a) != Bytes32(b)
  {
    hide Bytes32, Read32;
    Read32Bytes(a, Bytes32(a));
    Read32Bytes(b, Bytes32(b));
  }

  lemma WordBytes(s: seq<Byte>)
    requires |s| == 4
    ensures Bytes32(Read32(s)) == s
  {
    Read32Bytes(Read32(s), s);
  }

  lemma StoredLeft(hash: Hash, h: Header, out: seq<Byte>, pend: seq<Byte>, sum: seq<Byte>, todo: seq<Block>,
                   rest: seq<Byte>, goal: seq<Byte>)
    requires InStored(hash, h, out, pend, sum, todo, rest, goal)
    ensures out + pend <= goal
  {
    TotalExtends(out + pend, todo);
  }

  /** Without block checksums, the running one does not matter. */
  lemma SumFree(hash: Hash, h: Header, out: seq<Byte>, pend: seq<Byte>, sum: seq<Byte>, sum': seq<Byte>,
                todo: seq<Block>,
                rest: seq<Byte>, goal: seq<Byte>)
    requires InStored(hash, h, out, pend, sum, todo, rest, goal) && (h.blockChecksum ==> sum == sum')
    ensures InStored(hash, h, out, pend, sum', todo, rest, goal)
  {
  }

  lemma SuffixAgrees(src: seq<Byte>, ip: nat, rest: seq<Byte>)
    requires ip <= |src| && Agrees(src, ip, rest)
    ensures Agrees(src[ip..], 0, rest)
  {
  }

  lemma GoesOnStill(s: seq<Byte>, t: seq<Byte>, n: nat, size: nat)
    requires size == MIN_HEADER || (n >= MIN_HEADER && GoesOn(s, size))
    requires n <= |s| && n <= |t| && s[..n] == t[..n]
    ensures size == MIN_HEADER || GoesOn(t, size)
  {
    if size != MIN_HEADER {
      assert s[0] == s[..n][0] && s[1] == s[..n][1] && s[2] == s[..n][2] && s[3] == s[..n][3] && s[4] == s[..n][4];
      assert t[0] == t[..n][0] && t[1] == t[..n][1] && t[2] == t[..n][2] && t[3] == t[..n][3] && t[4] == t[..n][4];
    }
  }

  lemma PrefixAgrees(s: seq<Byte>, rest: seq<Byte>, all: seq<Byte>)
    requires s + rest == all
    ensures Agrees(s, 0, all) && rest == all[|s|..]
  {
  }

  /** memcpy of what is wanted and there of the input. */
  method Fill(buffer: array<Byte>, size: nat, target: nat, src: seq<Byte>, ip: nat) returns (n: nat)
    requires size <= target <= buffer.Length && ip <= |src|
    modifies buffer
    ensures n == Min(target - size, |src| - ip)
    ensures buffer[..size + n] == old(buffer[..size]) + src[ip..ip + n]
  {
    n := Min(target - size, |src| - ip);
    forall k | 0 <= k < n { buffer[size + k] := src[ip + k]; }
    assert buffer[..size] == old(buffer[..size]) && buffer[size..size + n] == src[ip..ip + n];
    assert buffer[..size + n] == buffer[..size] + buffer[size..size + n];
  }

  /** Setting bytes aside changes nothing about what is left, counted with them. */
  lemma SavedMore(saved: seq<Byte>, src: seq<Byte>, ip: nat, rest: seq<Byte>, n: nat)
    requires ip + n <= |src| && n <= |rest| && Agrees(src, ip, rest)
    ensures saved + src[ip..ip + n] + rest[n..] == saved + rest && Agrees(src, ip + n, rest[n..])
  {
    AgreesTake(src, ip, rest, n);
    assert rest == rest[..n] + rest[n..];
  }

  /** Two sequences that agree share the prefixes both are long enough for. */
  lemma PrefixOfBoth(p: seq<Byte>, s: seq<Byte>, t: seq<Byte>)
    requires p <= t && |p| <= |s| && Agrees(s, 0, t)
    ensures p <= s
  {
  }

  lemma MovedTail(h: seq<Byte>, m: seq<Byte>, m': seq<Byte>, from: nat, to: nat, n: nat, k: nat)
    requires k <= n && from + n <= |m| && to + n <= |m'| && EndsWith(h, m, from + n - k, k)
    requires Slice(m', to, n) == Slice(m, from, n)
    ensures EndsWith(h, m', to + n - k, k)
  {
    assert m'[to + n - k..to + n] == m'[to..to + n][n - k..];
    assert m[from + n - k..from + n] == m[from..from + n][n - k..];
  }

  /** A history is lost with its last byte. */
  lemma LastByte(m: seq<Byte>, m': seq<Byte>, out: seq<Byte>, dict: nat, dictSize: nat, good: nat)
    requires Remembers(m, out, dict, dictSize, good) && good > 0
    requires |m'| == |m| && m'[dict + dictSize - 1] != m[dict + dictSize - 1]
    ensures !Remembers(m', out, dict, dictSize, good)
  {
    var p := dict + dictSize - good;
    assert m[p..p + good][good - 1] == m[dict + dictSize - 1];
    assert m'[p..p + good][good - 1] == m'[dict + dictSize - 1];
  }

  lemma SliceKept(m: seq<Byte>, n: seq<Byte>, from: int, to: int, at: nat, size: nat)
    requires SameOutside(m, n, from, to) && at + size <= |m| && (at + size <= from || to <= at)
    ensures |m| == |n| && Slice(m, at, size) == Slice(n, at, size)
  {
    SameSlice(m, n, from, to, at, at + size);
  }
}
