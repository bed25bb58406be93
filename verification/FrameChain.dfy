/** The blocks of a frame in the order an encoder emits them, and the frame they make up. */
module FrameChain {
  import opened Bytes
  import opened BlockFormat
  import opened FrameFormat

  /** A block with its size field and its checksum. */
  function BlockBytes(hash: Hash, h: Header, b: Block): seq<Byte>
    requires |b.data| < UNCOMPRESSED_FLAG
  {
    Bytes32(SizeField(b)) + b.data + Checksum(hash, h.blockChecksum, b.data)
  }

  function ChainContent(blocks: seq<Block>): seq<Byte> {
    if blocks == [] then [] else ChainContent(blocks[..|blocks| - 1]) + blocks[|blocks| - 1].Content()
  }

  ghost predicate ChainOk(h: Header, blocks: seq<Block>)
    requires h.Ok()
  {
    blocks == [] ||
    (ChainOk(h, blocks[..|blocks| - 1]) && BlockOk(h, ChainContent(blocks[..|blocks| - 1]), blocks[|blocks| - 1]))
  }

  ghost function ChainBytes(hash: Hash, h: Header, blocks: seq<Block>): seq<Byte>
    requires h.Ok() && ChainOk(h, blocks)
  {
    if blocks == [] then []
    else ChainBytes(hash, h, blocks[..|blocks| - 1]) + BlockBytes(hash, h, blocks[|blocks| - 1])
  }

  /** One more block. */
  lemma ChainMore(hash: Hash, h: Header, blocks: seq<Block>, b: Block)
    requires h.Ok() && ChainOk(h, blocks) && BlockOk(h, ChainContent(blocks), b)
    ensures ChainOk(h, blocks + [b]) && ChainContent(blocks + [b]) == ChainContent(blocks) + b.Content()
    ensures ChainBytes(hash, h, blocks + [b]) == ChainBytes(hash, h, blocks) + BlockBytes(hash, h, b)
  {
    hide BlockOk, BlockBytes;
    assert (blocks + [b])[..|blocks|] == blocks && (blocks + [b])[|blocks|] == b;
    BlockOkSize(h, ChainContent(blocks), b);
  }

  lemma BlockOkSize(h: Header, hist: seq<Byte>, b: Block)
    requires h.Ok() && BlockOk(h, hist, b)
    ensures |b.data| < UNCOMPRESSED_FLAG
  {
  }

  lemma {:induction false} ChainPrefix(h: Header, blocks: seq<Block>, i: nat)
    requires h.Ok() && ChainOk(h, blocks) && i <= |blocks|
    ensures ChainOk(h, blocks[..i])
    decreases |blocks|
  {
    hide BlockOk;
    if i == |blocks| {
      assert blocks[..i] == blocks;
    } else {
      var init := blocks[..|blocks| - 1];
      ChainPrefix(h, init, i);
      assert init[..i] == blocks[..i];
    }
  }

  lemma ChainAt(hash: Hash, h: Header, blocks: seq<Block>, i: nat)
    requires h.Ok() && ChainOk(h, blocks) && i < |blocks|
    ensures ChainOk(h, blocks[..i]) && ChainOk(h, blocks[..i + 1]) && BlockOk(h, ChainContent(blocks[..i]), blocks[i])
    ensures ChainContent(blocks[..i + 1]) == ChainContent(blocks[..i]) + blocks[i].Content()
    ensures ChainBytes(hash, h, blocks[..i + 1]) == ChainBytes(hash, h, blocks[..i]) + BlockBytes(hash, h, blocks[i])
  {
    hide BlockOk, BlockBytes;
    ChainPrefix(h, blocks, i + 1);
    ChainPrefix(h, blocks, i);
    var p := blocks[..i + 1];
    assert p[..|p| - 1] == blocks[..i] && p[|p| - 1] == blocks[i];
    BlockOkSize(h, ChainContent(blocks[..i]), blocks[i]);
  }

  /** From any point on, the chain and the body that follows it say the same. */
  lemma {:induction false} ChainTail(hash: Hash, h: Header, blocks: seq<Block>, i: nat)
    requires h.Ok() && ChainOk(h, blocks) && i <= |blocks|
    requires h.contentSize.Some? ==> h.contentSize.value == |ChainContent(blocks)|
    ensures ChainOk(h, blocks[..i])
    ensures var c := ChainContent(blocks[..i]);
            && BodyOk(h, c, blocks[i..]) && Total(c, blocks[i..]) == ChainContent(blocks)
            && ChainBytes(hash, h, blocks[..i]) + Body(hash, h, c, blocks[i..])
               == ChainBytes(hash, h, blocks) + (Bytes32(0) + Checksum(hash, h.contentChecksum, ChainContent(blocks)))
    decreases |blocks| - i
  {
    hide BlockOk, ChainOk, ChainBytes, ChainContent, Bytes32, Checksum;
    if i == |blocks| {
      assert blocks[..i] == blocks && blocks[i..] == [];
    } else {
      ChainAt(hash, h, blocks, i);
      ChainTail(hash, h, blocks, i + 1);
      var c, todo := ChainContent(blocks[..i]), blocks[i..];
      assert todo[0] == blocks[i] && todo[1..] == blocks[i + 1..];
      ChainStep(hash, h, c, todo, ChainBytes(hash, h, blocks[..i]));
    }
  }

  lemma ChainStep(hash: Hash, h: Header, c: seq<Byte>, todo: seq<Block>, before: seq<Byte>)
    requires h.Ok() && todo != [] && BlockOk(h, c, todo[0]) && BodyOk(h, c + todo[0].Content(), todo[1..])
    ensures BodyOk(h, c, todo) && Total(c, todo) == Total(c + todo[0].Content(), todo[1..])
    ensures before + Body(hash, h, c, todo)
         == (before + BlockBytes(hash, h, todo[0])) + Body(hash, h, c + todo[0].Content(), todo[1..])
  {
    hide Decodes, Bytes32, Checksum;
    var a, d := Bytes32(SizeField(todo[0])), todo[0].data;
    var k, rest := Checksum(hash, h.blockChecksum, d), Body(hash, h, c + todo[0].Content(), todo[1..]);
    assert Body(hash, h, c, todo) == a + (d + k + rest);
    assert before + (a + (d + k + rest)) == (before + (a + d + k)) + rest;
  }

  /** A header, a chain, an end mark and a checksum are a frame. */
  lemma ChainFrame(hash: Hash, h: Header, blocks: seq<Block>)
    requires h.Ok() && ChainOk(h, blocks) && (h.contentSize.Some? ==> h.contentSize.value == |ChainContent(blocks)|)
    ensures FrameOk(Lz4(h, blocks)) && FrameContent(Lz4(h, blocks)) == ChainContent(blocks)
    ensures FrameBytes(hash, Lz4(h, blocks))
         == HeaderBytes(hash, h) + ChainBytes(hash, h, blocks)
            + (Bytes32(0) + Checksum(hash, h.contentChecksum, ChainContent(blocks)))
  {
    hide BlockOk, Bytes32, Checksum, Body, BodyOk, Total, HeaderBytes;
    ChainTail(hash, h, blocks, 0);
    assert blocks[..0] == [] && blocks[0..] == blocks;
    assert ChainBytes(hash, h, blocks[..0]) + Body(hash, h, [], blocks) == Body(hash, h, [], blocks);
  }
}
