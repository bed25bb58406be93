/** Positions inside a frame: what is left of its bytes and of its content at each point a decoder can stop. */
module FramePosition {
  import opened Bytes
  import opened BlockFormat
  import opened FrameFormat

  /** The input from `ip` on and the bytes that are due agree as far as both go. */
  ghost predicate Agrees(src: seq<Byte>, ip: nat, rest: seq<Byte>)
    requires ip <= |src|
  {
    forall k :: 0 <= k < |src| - ip && k < |rest| ==> src[ip + k] == rest[k]
  }

  lemma AgreesTake(src: seq<Byte>, ip: nat, rest: seq<Byte>, n: nat)
    requires ip + n <= |src| && n <= |rest| && Agrees(src, ip, rest)
    ensures src[ip..ip + n] == rest[..n] && Agrees(src, ip + n, rest[n..])
  {
  }

  /** At a block header, or at the end mark. */
  ghost predicate AtBlock(hash: Hash, h: Header, out: seq<Byte>, todo: seq<Block>, rest: seq<Byte>, goal: seq<Byte>) {
    h.Ok() && BodyOk(h, out, todo) && rest == Body(hash, h, out, todo) && Total(out, todo) == goal
  }

  /** Inside a stored block, with `pend` of it left and `sum` of it done. */
  ghost predicate InStored(hash: Hash, h: Header, out: seq<Byte>, pend: seq<Byte>, sum: seq<Byte>, todo: seq<Block>,
                           rest: seq<Byte>, goal: seq<Byte>)
  {
    && h.Ok() && BodyOk(h, out + pend, todo) && Total(out + pend, todo) == goal
    && rest == pend + Checksum(hash, h.blockChecksum, sum + pend) + Body(hash, h, out + pend, todo)
  }

  /** At the checksum of a stored block. */
  ghost predicate AtChecksum(hash: Hash, h: Header, out: seq<Byte>, sum: seq<Byte>, todo: seq<Block>, rest: seq<Byte>,
                             goal: seq<Byte>) {
    && h.Ok() && h.blockChecksum && BodyOk(h, out, todo) && Total(out, todo) == goal
    && rest == Bytes32(hash(sum)) + Body(hash, h, out, todo)
  }

  /** At the data of a compressed block. */
  ghost predicate InPacked(hash: Hash, h: Header, out: seq<Byte>, todo: seq<Block>, rest: seq<Byte>, goal: seq<Byte>) {
    && h.Ok() && todo != [] && todo[0].Packed? && BodyOk(h, out, todo) && Total(out, todo) == goal
    && rest == BlockRest(hash, h, out, todo)
  }

  /** After the end mark. */
  ghost predicate AtSuffix(hash: Hash, h: Header, out: seq<Byte>, rest: seq<Byte>, goal: seq<Byte>) {
    h.Ok() && rest == Checksum(hash, h.contentChecksum, out) && out == goal
  }

  /** What the next four bytes say, and where they lead. */
  lemma ReadBlockHeader(hash: Hash, h: Header, out: seq<Byte>, todo: seq<Block>, rest: seq<Byte>, goal: seq<Byte>)
    requires AtBlock(hash, h, out, todo, rest, goal)
    ensures |rest| >= 4
    ensures todo == [] ==> Read32(rest) == 0 && AtSuffix(hash, h, out, rest[4..], goal)
    ensures todo != [] ==> 1 <= |todo[0].data| <= BlockSize(h.sizeId) && Read32(rest) == SizeField(todo[0])
    ensures todo != [] && todo[0].Stored? ==> InStored(hash, h, out, todo[0].data, [], todo[1..], rest[4..], goal)
    ensures todo != [] && todo[0].Packed? ==> InPacked(hash, h, out, todo, rest[4..], goal)
  {
    hide Decodes, Bytes32, Read32;
    if todo == [] {
      Read32Bytes(0, rest);
    } else {
      Read32Bytes(SizeField(todo[0]), rest);
      var d := todo[0].data;
      assert rest[4..] == BlockRest(hash, h, out, todo);
      var none: seq<Byte> := [];
      assert none + d == d;
      if todo[0].Stored? {
        assert rest[4..] == d + Checksum(hash, h.blockChecksum, d) + Body(hash, h, out + d, todo[1..]);
      }
    }
  }

  /** `n` bytes of a stored block. */
  lemma CopyStored(hash: Hash, h: Header, out: seq<Byte>, pend: seq<Byte>, sum: seq<Byte>, todo: seq<Block>,
                   rest: seq<Byte>, goal: seq<Byte>, n: nat)
    requires InStored(hash, h, out, pend, sum, todo, rest, goal) && n <= |pend|
    ensures n <= |rest| && rest[..n] == pend[..n]
    ensures InStored(hash, h, out + pend[..n], pend[n..], sum + pend[..n], todo, rest[n..], goal)
  {
    hide BodyOk, Body, Total;
    var x, y := pend[..n], pend[n..];
    assert pend == x + y;
    assert out + pend == (out + x) + y && sum + pend == (sum + x) + y;
    var tail := Checksum(hash, h.blockChecksum, sum + pend);
    var after := Body(hash, h, out + pend, todo);
    assert rest == x + (y + tail + after);
  }

  lemma StoredDone(hash: Hash, h: Header, out: seq<Byte>, sum: seq<Byte>, todo: seq<Block>, rest: seq<Byte>,
                   goal: seq<Byte>)
    requires InStored(hash, h, out, [], sum, todo, rest, goal)
    ensures !h.blockChecksum ==> AtBlock(hash, h, out, todo, rest, goal)
    ensures h.blockChecksum ==> AtChecksum(hash, h, out, sum, todo, rest, goal)
  {
    hide BodyOk, Body, Total;
    assert out + [] == out && sum + [] == sum;
    assert [] + Checksum(hash, h.blockChecksum, sum) == Checksum(hash, h.blockChecksum, sum);
    assert [] + Body(hash, h, out, todo) == Body(hash, h, out, todo);
  }

  lemma ReadChecksum(hash: Hash, h: Header, out: seq<Byte>, sum: seq<Byte>, todo: seq<Block>, rest: seq<Byte>,
                     goal: seq<Byte>)
    requires AtChecksum(hash, h, out, sum, todo, rest, goal)
    ensures |rest| >= 4 && Read32(rest) == hash(sum) && AtBlock(hash, h, out, todo, rest[4..], goal)
  {
    hide BodyOk, Body, Total, Read32, Bytes32;
    Read32Bytes(hash(sum), rest);
  }

  /** A compressed block with its checksum. */
  lemma ReadPacked(hash: Hash, h: Header, out: seq<Byte>, todo: seq<Block>, rest: seq<Byte>, goal: seq<Byte>)
    requires InPacked(hash, h, out, todo, rest, goal)
    ensures var n := |todo[0].data|;
            var size := n + if h.blockChecksum then 4 else 0;
            && size <= |rest| && rest[..n] == todo[0].data && BlockOk(h, out, todo[0])
            && (h.blockChecksum ==> Read32(rest[n..]) == hash(todo[0].data))
            && AtBlock(hash, h, out + todo[0].decoded, todo[1..], rest[size..], goal)
  {
    hide Decodes, Read32, Bytes32;
    var d := todo[0].data;
    var tail := Checksum(hash, h.blockChecksum, d);
    var after := Body(hash, h, out + todo[0].decoded, todo[1..]);
    assert rest == d + tail + after;
    assert rest[|d|..] == tail + after && rest[|d| + |tail|..] == after;
    if h.blockChecksum { Read32Bytes(hash(d), rest[|d|..]); }
  }

  /** Something is left of every frame that is not finished. */
  lemma BodyNonEmpty(hash: Hash, h: Header, out: seq<Byte>, todo: seq<Block>, rest: seq<Byte>, goal: seq<Byte>)
    requires AtBlock(hash, h, out, todo, rest, goal)
    ensures |rest| >= 4 && out <= goal && (h.contentSize.Some? ==> h.contentSize.value == |goal|)
  {
    hide Bytes32, Decodes;
    ReadBlockHeader(hash, h, out, todo, rest, goal);
    TotalExtends(out, todo);
    BodySize(h, out, todo);
  }

  // ----- Frames are read in one way only -----

  lemma SamePrefix(a: seq<Byte>, b: seq<Byte>, s: seq<Byte>, t: seq<Byte>)
    requires a + s == b + t && |a| == |b|
    ensures a == b && s == t
  {
    assert a == (a + s)[..|a|] && b == (b + t)[..|b|];
    assert s == (a + s)[|a|..] && t == (b + t)[|b|..];
  }

  lemma SameNumber(v: U32, w: U32)
    requires Bytes32(v) == Bytes32(w)
    ensures v == w
  {
    hide Bytes32, Read32;
    Read32Bytes(v, Bytes32(v));
    Read32Bytes(w, Bytes32(w));
  }

  /** Two blocks with the same bytes, after the same content, are the same block. */
  lemma BlockUnique(hash: Hash, h: Header, hist: seq<Byte>, a: Block, b: Block, s: seq<Byte>, t: seq<Byte>)
    requires h.Ok() && BlockOk(h, hist, a) && BlockOk(h, hist, b)
    requires Bytes32(SizeField(a)) + (a.data + Checksum(hash, h.blockChecksum, a.data) + s)
          == Bytes32(SizeField(b)) + (b.data + Checksum(hash, h.blockChecksum, b.data) + t)
    ensures a == b && s == t
  {
    hide Bytes32, Decodes;
    SamePrefix(Bytes32(SizeField(a)), Bytes32(SizeField(b)), a.data + Checksum(hash, h.blockChecksum, a.data) + s,
               b.data + Checksum(hash, h.blockChecksum, b.data) + t);
    SameNumber(SizeField(a), SizeField(b));
    SamePrefix(a.data + Checksum(hash, h.blockChecksum, a.data), b.data + Checksum(hash, h.blockChecksum, b.data), s,
               t);
    SamePrefix(a.data, b.data, Checksum(hash, h.blockChecksum, a.data), Checksum(hash, h.blockChecksum, b.data));
    if a.Packed? { DecodesUnique(a.data, if h.independent then [] else hist, a.decoded, b.decoded); }
  }

  lemma {:induction false} BodyUnique(hash: Hash, h: Header, hist: seq<Byte>, x: seq<Block>, y: seq<Block>,
                                      s: seq<Byte>, t: seq<Byte>)
    requires h.Ok() && BodyOk(h, hist, x) && BodyOk(h, hist, y)
    requires Body(hash, h, hist, x) + s == Body(hash, h, hist, y) + t
    ensures x == y && s == t
    decreases |x|
  {
    hide Bytes32, Decodes, Checksum, BlockOk;
    FirstWord(hash, h, hist, x, s);
    FirstWord(hash, h, hist, y, t);
    if x == [] || y == [] {
      SameFirst(hash, h, hist, x, y, s, t);
      SamePrefix(Body(hash, h, hist, x), Body(hash, h, hist, y), s, t);
    } else {
      var c := hist + x[0].Content();
      var left, right := Body(hash, h, c, x[1..]) + s, Body(hash, h, hist + y[0].Content(), y[1..]) + t;
      BlockUnique(hash, h, hist, x[0], y[0], left, right);
      BodyUnique(hash, h, c, x[1..], y[1..], s, t);
      assert x == [x[0]] + x[1..] && y == [y[0]] + y[1..];
    }
  }

  /** The first word of a body. */
  function Lead(todo: seq<Block>): U32
    requires todo != [] ==> |todo[0].data| < UNCOMPRESSED_FLAG
  {
    if todo == [] then 0 else SizeField(todo[0])
  }

  lemma FirstWord(hash: Hash, h: Header, hist: seq<Byte>, x: seq<Block>, s: seq<Byte>)
    requires h.Ok() && BodyOk(h, hist, x)
    ensures x != [] ==> BlockOk(h, hist, x[0]) && 1 <= |x[0].data| < UNCOMPRESSED_FLAG && SizeField(x[0]) != 0
    ensures Bytes32(Lead(x)) <= Body(hash, h, hist, x) + s
    ensures x != [] ==>
              Body(hash, h, hist, x) + s
              == Bytes32(SizeField(x[0])) + (x[0].data + Checksum(hash, h.blockChecksum, x[0].data)
                 + (Body(hash, h, hist + x[0].Content(), x[1..]) + s))
  {
    hide Bytes32, Decodes, Checksum;
    if x != [] {
      var d := x[0].data;
      var k, rest := Checksum(hash, h.blockChecksum, d), Body(hash, h, hist + x[0].Content(), x[1..]);
      assert d + k + rest + s == d + k + (rest + s);
    }
  }

  lemma SameFirst(hash: Hash, h: Header, hist: seq<Byte>, x: seq<Block>, y: seq<Block>, s: seq<Byte>, t: seq<Byte>)
    requires h.Ok() && BodyOk(h, hist, x) && BodyOk(h, hist, y)
    requires Body(hash, h, hist, x) + s == Body(hash, h, hist, y) + t
    requires x == [] || y == []
    ensures x == y
  {
    hide Bytes32, Decodes, Checksum, BlockOk, Body, BodyOk, Read32;
    FirstWord(hash, h, hist, x, s);
    FirstWord(hash, h, hist, y, t);
    var all := Body(hash, h, hist, x) + s;
    Read32Bytes(Lead(x), all);
    Read32Bytes(Lead(y), all);
  }

  /** No frame's bytes begin another's: what a sequence of bytes starts with can be read as one frame at most. */
  lemma FrameUnique(hash: Hash, f: Frame, g: Frame, s: seq<Byte>, t: seq<Byte>)
    requires FrameOk(f) && FrameOk(g) && FrameBytes(hash, f) + s == FrameBytes(hash, g) + t
    ensures f == g && s == t
  {
    hide Bytes32, Read32, Body, BodyOk;
    var all := FrameBytes(hash, f) + s;
    FrameMagic(hash, f, s);
    FrameMagic(hash, g, t);
    if f.Lz4? {
      HeaderFirst(hash, f, s);
      HeaderFirst(hash, g, t);
      HeaderCodec(hash, all, f.header);
      HeaderCodec(hash, all, g.header);
      SamePrefix(HeaderBytes(hash, f.header), HeaderBytes(hash, g.header),
                 Body(hash, f.header, [], f.blocks) + s, Body(hash, g.header, [], g.blocks) + t);
      BodyUnique(hash, f.header, [], f.blocks, g.blocks, s, t);
    } else {
      SkipUnique(f, g, s, t, hash);
    }
  }

  lemma HeaderFirst(hash: Hash, f: Frame, s: seq<Byte>)
    requires FrameOk(f) && f.Lz4?
    ensures FrameBytes(hash, f) + s == HeaderBytes(hash, f.header) + (Body(hash, f.header, [], f.blocks) + s)
    ensures HeaderBytes(hash, f.header) <= FrameBytes(hash, f) + s
  {
    hide HeaderBytes, Body, BodyOk;
  }

  lemma SkipUnique(f: Frame, g: Frame, s: seq<Byte>, t: seq<Byte>, hash: Hash)
    requires FrameOk(f) && FrameOk(g) && f.Skippable? && g.Skippable?
    requires FrameBytes(hash, f) + s == FrameBytes(hash, g) + t
    ensures f == g && s == t
  {
    hide Bytes32;
    var a, b := Bytes32(f.magic), Bytes32(g.magic);
    var c, d := Bytes32(|f.data|), Bytes32(|g.data|);
    assert a + (c + (f.data + s)) == FrameBytes(hash, f) + s && b + (d + (g.data + t)) == FrameBytes(hash, g) + t;
    SamePrefix(a, b, c + (f.data + s), d + (g.data + t));
    SamePrefix(c, d, f.data + s, g.data + t);
    SameNumber(f.magic, g.magic);
    SameNumber(|f.data|, |g.data|);
    SamePrefix(f.data, g.data, s, t);
  }

  lemma FrameMagic(hash: Hash, f: Frame, s: seq<Byte>)
    requires FrameOk(f)
    ensures |FrameBytes(hash, f) + s| >= 4
    ensures f.Lz4? <==> Read32(FrameBytes(hash, f) + s) == MAGIC
  {
    hide Bytes32, Read32, Body, BodyOk;
    var all := FrameBytes(hash, f) + s;
    if f.Lz4? {
      assert Bytes32(MAGIC) <= all;
      Read32Bytes(MAGIC, all);
    } else {
      assert Bytes32(f.magic) <= all;
      Read32Bytes(f.magic, all);
    }
  }
}
