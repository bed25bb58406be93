/**
 What the frame decoder accepts, whatever it is given: the shell of a frame, with its sizes and checksums right. The
 blocks in it need not all be valid; those that are have been decoded to their content.
 */
module FrameShell {
  import opened Bytes
  import opened BlockFormat
  import opened BlockMeaning
  import opened FrameFormat
  import opened FrameChain

  const TWO64: nat := 0x1_0000_0000_0000_0000

  /** A block as the decoder takes it after `hist`: what it makes of compressed data is what that means. */
  ghost predicate Taken(h: Header, hist: seq<Byte>, b: Block)
    requires h.Ok()
  {
    && 1 <= |b.data| <= BlockSize(h.sizeId) && |b.Content()| <= BlockSize(h.sizeId)
    && (b.Packed? ==> Opens(h, hist, b.data, b.decoded))
  }

  /** The compressed data means `c`, in a frame with this header, unless that is undefined. */
  ghost predicate Opens(h: Header, hist: seq<Byte>, data: seq<Byte>, c: seq<Byte>)
    requires h.Ok()
  {
    Accepts(data, if h.independent then [] else hist, BlockSize(h.sizeId), c)
  }

  ghost predicate AllTaken(h: Header, blocks: seq<Block>)
    requires h.Ok()
  {
    blocks == [] ||
    (AllTaken(h, blocks[..|blocks| - 1]) && Taken(h, ChainContent(blocks[..|blocks| - 1]), blocks[|blocks| - 1]))
  }

  lemma TakenSize(h: Header, hist: seq<Byte>, b: Block)
    requires h.Ok() && Taken(h, hist, b)
    ensures |b.data| < UNCOMPRESSED_FLAG
  {
  }

  /** The bytes of the blocks, each with its size field and its checksum. */
  ghost function ShellBytes(hash: Hash, h: Header, blocks: seq<Block>): seq<Byte>
    requires h.Ok() && AllTaken(h, blocks)
  {
    if blocks == [] then []
    else
      TakenSize(h, ChainContent(blocks[..|blocks| - 1]), blocks[|blocks| - 1]);
      ShellBytes(hash, h, blocks[..|blocks| - 1]) + BlockBytes(hash, h, blocks[|blocks| - 1])
  }

  /** One more block. */
  lemma ShellMore(hash: Hash, h: Header, blocks: seq<Block>, b: Block)
    requires h.Ok() && AllTaken(h, blocks) && Taken(h, ChainContent(blocks), b)
    ensures AllTaken(h, blocks + [b]) && ChainContent(blocks + [b]) == ChainContent(blocks) + b.Content()
    ensures |b.data| < UNCOMPRESSED_FLAG
    ensures ShellBytes(hash, h, blocks + [b]) == ShellBytes(hash, h, blocks) + BlockBytes(hash, h, b)
  {
    hide Taken, BlockBytes;
    assert (blocks + [b])[..|blocks|] == blocks && (blocks + [b])[|blocks|] == b;
    TakenSize(h, ChainContent(blocks), b);
  }

  /** A header, blocks, and the word that ended them. */
  datatype Shell = Shell(header: Header, blocks: seq<Block>, mark: U32)

  /**
   `bytes` are the header, the blocks with their checksums, an end mark, whose highest bit is not looked at, and the
   checksum of `content`, which is that of the blocks and has the size the header gives, modulo 2^64.
   */
  ghost predicate ShellOf(hash: Hash, s: Shell, bytes: seq<Byte>, content: seq<Byte>) {
    && s.header.Ok() && AllTaken(s.header, s.blocks) && s.mark % UNCOMPRESSED_FLAG == 0
    && content == ChainContent(s.blocks)
    && bytes == HeaderBytes(hash, s.header) + ShellBytes(hash, s.header, s.blocks)
                + (Bytes32(s.mark) + Checksum(hash, s.header.contentChecksum, content))
    && (s.header.contentSize.Some? && s.header.contentSize.value != 0 ==>
          |content| % TWO64 == s.header.contentSize.value)
  }

  /** `bytes` are a whole frame with right checksums, and `content` is what it holds. */
  ghost predicate Delivered(hash: Hash, bytes: seq<Byte>, content: seq<Byte>) {
    || (exists s: Shell :: ShellOf(hash, s, bytes, content))
    || (content == [] && exists f: Frame :: f.Skippable? && FrameOk(f) && FrameBytes(hash, f) == bytes)
  }

  /** Blocks that are valid are taken. */
  lemma {:induction false} ChainTaken(hash: Hash, h: Header, blocks: seq<Block>)
    requires h.Ok() && ChainOk(h, blocks)
    ensures AllTaken(h, blocks) && ShellBytes(hash, h, blocks) == ChainBytes(hash, h, blocks)
    decreases |blocks|
  {
    hide BlockBytes;
    if blocks != [] {
      var init, b := blocks[..|blocks| - 1], blocks[|blocks| - 1];
      ChainTaken(hash, h, init);
      ValidTaken(h, ChainContent(init), b);
    }
  }

  lemma ValidTaken(h: Header, hist: seq<Byte>, b: Block)
    requires h.Ok() && BlockOk(h, hist, b)
    ensures Taken(h, hist, b)
  {
    hide Decodes, BlockMeans;
    if b.Packed? {
      ValidMeans(b.data, if h.independent then [] else hist, b.decoded, BlockSize(h.sizeId));
    }
  }

  /**
   A shell whose blocks are valid, which ends with 0 and holds as much as it says, is a frame; and every frame is one.
   */
  lemma ShellIsFrame(hash: Hash, h: Header, blocks: seq<Block>, bytes: seq<Byte>, content: seq<Byte>)
    requires h.Ok() && ChainOk(h, blocks) && (h.contentSize.Some? ==> h.contentSize.value == |content|)
    ensures ShellOf(hash, Shell(h, blocks, 0), bytes, content) <==>
              && FrameOk(Lz4(h, blocks)) && FrameBytes(hash, Lz4(h, blocks)) == bytes
              && FrameContent(Lz4(h, blocks)) == content
  {
    hide BodyOk, HeaderBytes, Bytes32, ChainOk, AllTaken, ShellBytes, ChainBytes, ChainContent;
    ChainTaken(hash, h, blocks);
    if content == ChainContent(blocks) { ChainFrame(hash, h, blocks); }
    EmptyHolds();
    assert blocks[..0] == [] && blocks[0..] == blocks;
    ChainHolds(h, [], blocks, 0);
  }

  lemma EmptyHolds()
    ensures ChainContent([]) == []
  {
  }

  /** What a frame holds are its blocks one after the other. */
  lemma {:induction false} ChainHolds(h: Header, hist: seq<Byte>, blocks: seq<Block>, i: nat)
    requires i <= |blocks| && hist == ChainContent(blocks[..i])
    ensures Total(hist, blocks[i..]) == ChainContent(blocks)
    decreases |blocks| - i
  {
    if i < |blocks| {
      assert blocks[..i + 1][..i] == blocks[..i] && blocks[i..][1..] == blocks[i + 1..];
      ChainHolds(h, hist + blocks[i].Content(), blocks, i + 1);
    } else {
      assert blocks[..i] == blocks && blocks[i..] == [];
    }
  }

  /**
   What a caller can see in the bytes: an accepted header, the checksum of the content last if the header asks for one,
   and the size it gives. Anything else that is delivered is a skippable frame, without content.
   */
  lemma DeliveredMeans(hash: Hash, bytes: seq<Byte>, content: seq<Byte>)
    requires Delivered(hash, bytes, content)
    ensures |bytes| >= 8
    ensures Read32(bytes) == MAGIC ==>
              && HeaderAccepted(hash, bytes)
              && (ReadHeader(bytes).contentChecksum ==> bytes[|bytes| - 4..] == Bytes32(hash(content)))
              && (var size := ReadHeader(bytes).contentSize;
                  size.Some? && size.value != 0 ==> |content| % TWO64 == size.value)
    ensures Read32(bytes) != MAGIC ==>
              Read32(bytes) / 16 == MAGIC_SKIPPABLE / 16 && Read32(bytes[4..]) == |bytes| - 8 && content == []
  {
    hide Bytes32, Read32, HeaderAccepted, ReadHeader, AllTaken, ShellBytes, ChainContent;
    if s: Shell :| ShellOf(hash, s, bytes, content) {
      ShellMeans(hash, s, bytes, content);
    } else {
      var f: Frame :| f.Skippable? && FrameOk(f) && FrameBytes(hash, f) == bytes;
      Read32Bytes(f.magic, bytes);
      assert bytes[4..] == Bytes32(|f.data|) + f.data;
      Read32Bytes(|f.data|, bytes[4..]);
    }
  }

  lemma ShellMeans(hash: Hash, s: Shell, bytes: seq<Byte>, content: seq<Byte>)
    requires ShellOf(hash, s, bytes, content)
    ensures |bytes| >= 8 && Read32(bytes) == MAGIC && HeaderAccepted(hash, bytes) && ReadHeader(bytes) == s.header
    ensures s.header.contentChecksum ==> bytes[|bytes| - 4..] == Bytes32(hash(content))
  {
    hide Bytes32, Read32, HeaderBytes, ReadHeader, AllTaken, ShellBytes, ChainContent;
    HeaderCodec(hash, bytes, s.header);
  }

  /** The shortest frame there is, byte by byte. */
  lemma EmptyFrame(hash: Hash)
    ensures FrameOk(Lz4(Header(true, false, true, 4, None, None), []))
    ensures FrameBytes(hash, Lz4(Header(true, false, true, 4, None, None), [])) ==
            [0x04, 0x22, 0x4D, 0x18, 0x64, 0x40, hash([0x64, 0x40]) / 0x100 % 0x100, 0, 0, 0, 0] + Bytes32(hash([]))
  {
    MagicOnWire();
    var h := Header(true, false, true, 4, None, None);
    assert Descriptor(h) == [0x64, 0x40];
    assert Bytes32(0) == [0, 0, 0, 0];
  }

  /** The size in front of a block, the highest bit for a stored one, and its checksum. */
  lemma BlockOnWire(hash: Hash, h: Header, b: Block)
    requires |b.data| < UNCOMPRESSED_FLAG
    ensures var n, s := |b.data|, BlockBytes(hash, h, b);
            && s[..4] == Bytes32(n)[..3] + [n / 0x100_0000 + if b.Stored? then 0x80 else 0]
            && s[4..4 + n] == b.data && |s| == 4 + n + (if h.blockChecksum then 4 else 0)
            && (h.blockChecksum ==> s[4 + n..] == Bytes32(hash(b.data)))
  {
    hide Bytes32;
    var n, s := |b.data|, BlockBytes(hash, h, b);
    assert s[..4] == Bytes32(SizeField(b));
    if b.Stored? { HighestBit(n); } else { HighestByte(n); }
  }

  lemma HighestByte(n: U32)
    ensures Bytes32(n) == Bytes32(n)[..3] + [n / 0x100_0000]
  {
  }

  lemma HighestBit(n: nat)
    requires n < 0x8000_0000
    ensures Bytes32(0x8000_0000 + n) == Bytes32(n)[..3] + [n / 0x100_0000 + 0x80]
  {
    assert (0x8000_0000 + n) / 0x100_0000 == 0x80 + n / 0x100_0000;
    assert (0x8000_0000 + n) / 0x1_0000 == 0x8000 + n / 0x1_0000 && (0x8000_0000 + n) / 0x100 == 0x80_0000 + n / 0x100;
  }

  /** The bytes of a skippable frame. */
  lemma SkippableOnWire(hash: Hash, f: Frame)
    requires f.Skippable? && FrameOk(f)
    ensures var s, n := FrameBytes(hash, f), |f.data|;
            && 0x50 <= s[0] <= 0x5F && s[1..4] == [0x2A, 0x4D, 0x18] && s[8..] == f.data
            && s[4..8] == Bytes32(n)
  {
    var m := f.magic;
    assert m / 16 == 0x184D2A5;
    assert m / 0x100 == m / 16 / 16 && m / 0x1_0000 == m / 0x100 / 0x100 && m / 0x100_0000 == m / 0x1_0000 / 0x100;
    assert FrameBytes(hash, f)[..4] == Bytes32(m);
  }

  /** 64 KB, 256 KB, 1 MB and 4 MB. */
  lemma BlockSizes()
    ensures BlockSize(4) == 0x1_0000 && BlockSize(5) == 0x4_0000 && BlockSize(6) == 0x10_0000
    ensures BlockSize(7) == 0x40_0000
  {
  }
}
