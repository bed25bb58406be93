/**
 The LZ4 frame format as a reference: what a frame is, which bytes stand for it and which content
 it holds. XXH32 is an arbitrary function of the bytes it is given.
 */
module FrameFormat {
  import opened Bytes
  import opened BlockFormat

  type U32 = x: int | 0 <= x < 0x1_0000_0000
  type U64 = x: int | 0 <= x < 0x1_0000_0000_0000_0000
  type Hash = seq<Byte> -> U32

  const MAGIC: U32 := 0x184D2204
  const MAGIC_SKIPPABLE: U32 := 0x184D2A50
  const UNCOMPRESSED_FLAG: nat := 0x80000000
  const MIN_HEADER: nat := 7
  const MAX_HEADER: nat := 19
  const BLOCK_HEADER: nat := 4
  const BLOCK_FOOTER: nat := 4

  // ----- Little-endian numbers -----

  /** LZ4F_writeLE32. */
  function Bytes32(v: U32): (s: seq<Byte>)
    ensures |s| == 4
  {
    [v % 256, v / 256 % 256, v / 65536 % 256, v / 16777216]
  }

  /** LZ4F_readLE32. */
  function Read32(s: seq<Byte>): U32
    requires |s| >= 4
  {
    s[0] as int + 256 * (s[1] as int) + 65536 * (s[2] as int) + 16777216 * (s[3] as int)
  }

  /** Reading and writing are inverse, both ways. */
  lemma Read32Bytes(v: U32, s: seq<Byte>)
    requires |s| >= 4
    ensures Read32(s) == v <==> Bytes32(v) <= s
  {
    if Read32(s) == v {
      var b1: int, b2: int, b3: int := s[1], s[2], s[3];
      assert v / 256 == b1 + 256 * b2 + 65536 * b3;
      assert v / 65536 == b2 + 256 * b3;
      assert Bytes32(v) == s[..4];
    }
    if Bytes32(v) <= s {
      var b := Bytes32(v);
      assert b[0] == s[0] && b[1] == s[1] && b[2] == s[2] && b[3] == s[3];
      assert v == v % 256 + 256 * (v / 256) && v / 256 / 256 == v / 65536 && v / 65536 / 256 == v / 16777216;
    }
  }

  function Bytes64(v: U64): (s: seq<Byte>)
    ensures |s| == 8
  {
    Bytes32(v % 0x1_0000_0000) + Bytes32(v / 0x1_0000_0000)
  }

  function Read64(s: seq<Byte>): U64
    requires |s| >= 8
  {
    Read32(s) + 0x1_0000_0000 * Read32(s[4..])
  }

  lemma Read64Bytes(v: U64, s: seq<Byte>)
    requires |s| >= 8
    ensures Read64(s) == v <==> Bytes64(v) <= s
  {
    hide Bytes32, Read32;
    var lo, hi := v % 0x1_0000_0000, v / 0x1_0000_0000;
    Read32Bytes(lo, s);
    Read32Bytes(hi, s[4..]);
    PrefixParts(Bytes32(lo), Bytes32(hi), s);
  }

  lemma PrefixParts<T>(a: seq<T>, b: seq<T>, s: seq<T>)
    ensures a + b <= s <==> a <= s && b <= s[|a|..]
  {
    if a + b <= s {
      assert (a + b)[..|a|] == a && (a + b)[|a|..] == b;
      assert s[..|a|] == a && s[|a|..][..|b|] == b;
    }
    if a <= s && b <= s[|a|..] {
      assert s[..|a| + |b|] == s[..|a|] + s[|a|..][..|b|];
    }
  }

  // ----- The frame descriptor -----

  datatype Header = Header(independent: bool, blockChecksum: bool, contentChecksum: bool, sizeId: nat,
                           contentSize: Option<U64>, dictId: Option<U32>)
  {
    predicate Ok() { 4 <= sizeId <= 7 }
  }

  /** LZ4F_getBlockSize. */
  function BlockSize(sizeId: nat): (n: nat)
    requires 4 <= sizeId <= 7
    ensures KB64 <= n <= 64 * KB64
  {
    if sizeId == 4 then KB64 else if sizeId == 5 then 4 * KB64 else if sizeId == 6 then 16 * KB64 else 64 * KB64
  }

  function Flag(b: bool): (n: nat)
    ensures n <= 1
  {
    if b then 1 else 0
  }

  function Flg(h: Header): Byte {
    64 + 32 * Flag(h.independent) + 16 * Flag(h.blockChecksum) + 8 * Flag(h.contentSize.Some?)
    + 4 * Flag(h.contentChecksum) + Flag(h.dictId.Some?)
  }

  function Descriptor(h: Header): (s: seq<Byte>)
    requires h.Ok()
    ensures |s| == 2 + 8 * Flag(h.contentSize.Some?) + 4 * Flag(h.dictId.Some?)
  {
    [Flg(h), 16 * h.sizeId]
    + (if h.contentSize.Some? then Bytes64(h.contentSize.value) else [])
    + (if h.dictId.Some? then Bytes32(h.dictId.value) else [])
  }

  /** LZ4F_headerChecksum. */
  function HeaderChecksum(hash: Hash, s: seq<Byte>): Byte { hash(s) / 256 % 256 }

  function HeaderBytes(hash: Hash, h: Header): (s: seq<Byte>)
    requires h.Ok()
    ensures MIN_HEADER <= |s| <= MAX_HEADER
  {
    Bytes32(MAGIC) + Descriptor(h) + [HeaderChecksum(hash, Descriptor(h))]
  }

  /** The bytes of a header, one by one. */
  lemma HeaderOnWire(hash: Hash, h: Header)
    requires h.Ok()
    ensures var s := HeaderBytes(hash, h);
            && s[..4] == [0x04, 0x22, 0x4D, 0x18]
            && s[4] == 0x40 + (if h.independent then 0x20 else 0) + (if h.blockChecksum then 0x10 else 0)
                       + (if h.contentSize.Some? then 0x08 else 0) + (if h.contentChecksum then 0x04 else 0)
                       + (if h.dictId.Some? then 0x01 else 0)
            && s[5] == 0x10 * h.sizeId
            && |s| == 7 + (if h.contentSize.Some? then 8 else 0) + (if h.dictId.Some? then 4 else 0)
            && s[|s| - 1] == hash(s[4..|s| - 1]) / 0x100 % 0x100
    ensures h.contentSize.Some? ==>
              HeaderBytes(hash, h)[6..14] == Bytes64(h.contentSize.value)
    ensures h.dictId.Some? ==>
              var s := HeaderBytes(hash, h); s[|s| - 5..|s| - 1] == Bytes32(h.dictId.value)
  {
    hide Bytes64, Flg;
    var s, d := HeaderBytes(hash, h), Descriptor(h);
    MagicOnWire();
    assert s[4..|s| - 1] == d;
    assert s[4] == d[0] == Flg(h) && s[5] == d[1];
    FlgOnWire(h);
    var size := if h.contentSize.Some? then Bytes64(h.contentSize.value) else [];
    var id := if h.dictId.Some? then Bytes32(h.dictId.value) else [];
    assert d[2..] == size + id;
    if h.contentSize.Some? {
      SliceOfSlice(s, 4, |s| - 1, 2, 10);
      assert d[2..10] == d[2..][..8] == size;
    }
    if h.dictId.Some? {
      SliceOfSlice(s, 4, |s| - 1, |d| - 4, |d|);
      assert d[|d| - 4..|d|] == d[2..][|size|..] == id;
    }
  }

  lemma MagicOnWire()
    ensures Bytes32(MAGIC) == [0x04, 0x22, 0x4D, 0x18]
  {
  }

  lemma FlgOnWire(h: Header)
    ensures Flg(h) == 0x40 + (if h.independent then 0x20 else 0) + (if h.blockChecksum then 0x10 else 0)
                      + (if h.contentSize.Some? then 0x08 else 0) + (if h.contentChecksum then 0x04 else 0)
                      + (if h.dictId.Some? then 0x01 else 0)
  {
  }

  // ----- Blocks -----

  datatype Block = Stored(data: seq<Byte>) | Packed(data: seq<Byte>, decoded: seq<Byte>)
  {
    function Content(): seq<Byte> { if Stored? then data else decoded }
  }

  function Checksum(hash: Hash, wanted: bool, s: seq<Byte>): (r: seq<Byte>)
    ensures |r| == if wanted then 4 else 0
  {
    if wanted then Bytes32(hash(s)) else []
  }

  /** The size field of a block, whose highest bit tells a stored block. */
  function SizeField(b: Block): U32
    requires |b.data| < UNCOMPRESSED_FLAG
  {
    if b.Stored? then UNCOMPRESSED_FLAG + |b.data| else |b.data|
  }

  /** A block as a frame with header `h` may hold it, after content `hist`. */
  ghost predicate BlockOk(h: Header, hist: seq<Byte>, b: Block)
    requires h.Ok()
  {
    && 1 <= |b.data| <= BlockSize(h.sizeId) && |b.Content()| <= BlockSize(h.sizeId)
    && (b.Packed? ==> Decodes(b.data, if h.independent then [] else hist, b.decoded))
  }

  // ----- Frames -----

  datatype Frame = Lz4(header: Header, blocks: seq<Block>) | Skippable(magic: U32, data: seq<Byte>)

  /** Everything after the frame header, when `hist` has been decoded and `todo` is left. */
  ghost predicate BodyOk(h: Header, hist: seq<Byte>, todo: seq<Block>)
    requires h.Ok()
    decreases |todo|
  {
    if todo == [] then h.contentSize.Some? ==> h.contentSize.value == |hist|
    else BlockOk(h, hist, todo[0]) && BodyOk(h, hist + todo[0].Content(), todo[1..])
  }

  ghost function Body(hash: Hash, h: Header, hist: seq<Byte>, todo: seq<Block>): seq<Byte>
    requires h.Ok() && BodyOk(h, hist, todo)
    decreases |todo|
  {
    if todo == [] then Bytes32(0) + Checksum(hash, h.contentChecksum, hist)
    else Bytes32(SizeField(todo[0])) + BlockRest(hash, h, hist, todo)
  }

  /** A body after the size field of its first block. */
  ghost function BlockRest(hash: Hash, h: Header, hist: seq<Byte>, todo: seq<Block>): seq<Byte>
    requires h.Ok() && todo != [] && BodyOk(h, hist, todo)
    decreases |todo|, 0
  {
    todo[0].data + Checksum(hash, h.blockChecksum, todo[0].data) + Body(hash, h, hist + todo[0].Content(), todo[1..])
  }

  /** All content of a body, with the content before it. */
  function Total(hist: seq<Byte>, todo: seq<Block>): seq<Byte>
    decreases |todo|
  {
    if todo == [] then hist else Total(hist + todo[0].Content(), todo[1..])
  }

  ghost predicate FrameOk(f: Frame) {
    match f
    case Lz4(h, blocks) => h.Ok() && BodyOk(h, [], blocks)
    case Skippable(magic, data) => MAGIC_SKIPPABLE <= magic < MAGIC_SKIPPABLE + 16 && |data| < 0x1_0000_0000
  }

  ghost function FrameBytes(hash: Hash, f: Frame): seq<Byte>
    requires FrameOk(f)
  {
    match f
    case Lz4(h, blocks) => HeaderBytes(hash, h) + Body(hash, h, [], blocks)
    case Skippable(magic, data) => Bytes32(magic) + Bytes32(|data|) + data
  }

  function FrameContent(f: Frame): seq<Byte> {
    match f
    case Lz4(_, blocks) => Total([], blocks)
    case Skippable(_, _) => []
  }

  lemma {:induction false} TotalExtends(hist: seq<Byte>, todo: seq<Block>)
    ensures hist <= Total(hist, todo)
    decreases |todo|
  {
    if todo != [] { TotalExtends(hist + todo[0].Content(), todo[1..]); }
  }

  lemma {:induction false} BodySize(h: Header, hist: seq<Byte>, todo: seq<Block>)
    requires h.Ok() && BodyOk(h, hist, todo)
    ensures h.contentSize.Some? ==> h.contentSize.value == |Total(hist, todo)|
    decreases |todo|
  {
    hide Decodes;
    if todo != [] { BodySize(h, hist + todo[0].Content(), todo[1..]); }
  }

  // ----- Headers back from bytes -----

  function Bit(b: Byte, weight: nat): bool
    requires weight > 0
  {
    b / weight % 2 == 1
  }

  /** The size of a header with flags `flg`. */
  function HeaderSize(flg: Byte): (n: nat)
    ensures MIN_HEADER <= n <= MAX_HEADER
  {
    MIN_HEADER + (if Bit(flg, 8) then 8 else 0) + (if Bit(flg, 1) then 4 else 0)
  }

  /** The descriptor found at the start of `s`, whatever is there. */
  function ReadHeader(s: seq<Byte>): Header
    requires |s| >= MIN_HEADER && |s| >= HeaderSize(s[4])
  {
    var flg, size := s[4], HeaderSize(s[4]);
    Header(Bit(flg, 32), Bit(flg, 16), Bit(flg, 4), s[5] / 16 % 8,
           if Bit(flg, 8) then Some(Read64(s[6..])) else None,
           if Bit(flg, 1) then Some(Read32(s[size - 5..])) else None)
  }

  /** The tests of LZ4F_decodeHeader on a complete header. */
  predicate HeaderAccepted(hash: Hash, s: seq<Byte>) {
    && |s| >= MIN_HEADER && Read32(s) == MAGIC
    && !Bit(s[4], 2) && s[4] / 64 % 4 == 1
    && |s| >= HeaderSize(s[4])
    && !Bit(s[5], 128) && s[5] / 16 % 8 >= 4 && s[5] % 16 == 0
    && HeaderChecksum(hash, s[4..HeaderSize(s[4]) - 1]) == s[HeaderSize(s[4]) - 1]
  }

  lemma FlgBits(h: Header)
    ensures var b := Flg(h);
            && Bit(b, 32) == h.independent && Bit(b, 16) == h.blockChecksum && Bit(b, 8) == h.contentSize.Some?
            && Bit(b, 4) == h.contentChecksum && Bit(b, 1) == h.dictId.Some? && !Bit(b, 2) && b / 64 % 4 == 1
  {
  }

  lemma FlgBack(flg: Byte, h: Header)
    requires !Bit(flg, 2) && flg / 64 % 4 == 1
    requires h.independent == Bit(flg, 32) && h.blockChecksum == Bit(flg, 16) && h.contentSize.Some? == Bit(flg, 8)
    requires h.contentChecksum == Bit(flg, 4) && h.dictId.Some? == Bit(flg, 1)
    ensures Flg(h) == flg
  {
    hide Bit;
    LowNibble(flg);
    HighNibble(flg);
  }

  lemma LowNibble(b: Byte)
    ensures b % 16 == 8 * Flag(Bit(b, 8)) + 4 * Flag(Bit(b, 4)) + 2 * Flag(Bit(b, 2)) + Flag(Bit(b, 1))
  {
    var n: int := b;
    assert n % 2 == n - 2 * (n / 2) && n / 2 % 2 == n / 2 - 2 * (n / 4);
    assert n / 4 % 2 == n / 4 - 2 * (n / 8) && n / 8 % 2 == n / 8 - 2 * (n / 16);
  }

  lemma HighNibble(b: Byte)
    requires b / 64 % 4 == 1
    ensures b - b % 16 == 64 + 32 * Flag(Bit(b, 32)) + 16 * Flag(Bit(b, 16))
  {
    var n: int := b;
    assert n / 16 % 2 == n / 16 - 2 * (n / 32) && n / 32 % 2 == n / 32 - 2 * (n / 64);
  }

  /**
   Header bytes and header values correspond one to one: a header is accepted exactly when it is some header's
   encoding.
   */
  lemma HeaderCodec(hash: Hash, s: seq<Byte>, h: Header)
    ensures HeaderAccepted(hash, s) && ReadHeader(s) == h ==> h.Ok() && HeaderBytes(hash, h) <= s
    ensures h.Ok() && HeaderBytes(hash, h) <= s ==>
              HeaderAccepted(hash, s) && ReadHeader(s) == h && HeaderSize(s[4]) == |HeaderBytes(hash, h)|
  {
    hide Bytes32, Read32, Bytes64, Read64, HeaderChecksum, Flg, Bit;
    if HeaderAccepted(hash, s) && ReadHeader(s) == h { HeaderRead(hash, s, h); }
    if h.Ok() && HeaderBytes(hash, h) <= s { HeaderWritten(hash, s, h); }
  }

  /** The optional fields of a descriptor. */
  lemma DescriptorFields(s: seq<Byte>, h: Header)
    requires h.Ok() && |s| >= |Descriptor(h)|
    ensures Descriptor(h) <= s <==>
              && s[0] == Flg(h) && s[1] == 16 * h.sizeId
              && (h.contentSize.Some? ==> Bytes64(h.contentSize.value) <= s[2..])
              && (h.dictId.Some? ==> Bytes32(h.dictId.value) <= s[|Descriptor(h)| - 4..])
  {
    hide Bytes32, Bytes64, Flg;
    var a: seq<Byte> := [Flg(h), 16 * h.sizeId];
    var b := if h.contentSize.Some? then Bytes64(h.contentSize.value) else [];
    var c := if h.dictId.Some? then Bytes32(h.dictId.value) else [];
    PrefixParts(a + b, c, s);
    PrefixParts(a, b, s);
    assert a <= s <==> s[0] == a[0] && s[1] == a[1];
  }

  lemma HeaderRead(hash: Hash, s: seq<Byte>, h: Header)
    requires HeaderAccepted(hash, s) && ReadHeader(s) == h
    ensures h.Ok() && HeaderBytes(hash, h) <= s
  {
    hide Bytes32, Read32, Bytes64, Read64, HeaderChecksum, Flg, Bit, Descriptor;
    FlgBack(s[4], h);
    BlockIdBack(s[5]);
    var size, d := HeaderSize(s[4]), s[4..];
    assert |Descriptor(h)| == size - 5;
    if h.contentSize.Some? { Read64Bytes(h.contentSize.value, s[6..]); assert d[2..] == s[6..]; }
    if h.dictId.Some? { Read32Bytes(h.dictId.value, s[size - 5..]); assert d[size - 9..] == s[size - 5..]; }
    DescriptorFields(d, h);
    assert Descriptor(h) == d[..size - 5] == s[4..size - 1];
    Read32Bytes(MAGIC, s);
    assert s[..size] == s[..4] + s[4..size - 1] + [s[size - 1]];
  }

  lemma HeaderWritten(hash: Hash, s: seq<Byte>, h: Header)
    requires h.Ok() && HeaderBytes(hash, h) <= s
    ensures HeaderAccepted(hash, s) && ReadHeader(s) == h && HeaderSize(s[4]) == |HeaderBytes(hash, h)|
  {
    hide Bytes32, Read32, Bytes64, Read64, HeaderChecksum, Flg, Bit, Descriptor;
    var d := Descriptor(h);
    PrefixParts(Bytes32(MAGIC) + d, [HeaderChecksum(hash, d)], s);
    PrefixParts(Bytes32(MAGIC), d, s);
    Read32Bytes(MAGIC, s);
    DescriptorFields(s[4..], h);
    FlgBits(h);
    var size := |HeaderBytes(hash, h)|;
    assert HeaderSize(s[4]) == size;
    assert s[4..size - 1] == d && s[size - 1] == HeaderChecksum(hash, d);
    if h.contentSize.Some? { Read64Bytes(h.contentSize.value, s[6..]); assert s[4..][2..] == s[6..]; }
    if h.dictId.Some? { Read32Bytes(h.dictId.value, s[size - 5..]); assert s[4..][size - 9..] == s[size - 5..]; }
    BlockIdByte(s[5], h.sizeId);
  }

  lemma BlockIdBack(b: Byte)
    requires !Bit(b, 128) && b / 16 % 8 >= 4 && b % 16 == 0
    ensures 4 <= b / 16 % 8 <= 7 && b == 16 * (b / 16 % 8)
  {
  }

  lemma BlockIdByte(b: Byte, sizeId: nat)
    requires 4 <= sizeId <= 7 && b == 16 * sizeId
    ensures !Bit(b, 128) && b / 16 % 8 == sizeId && b % 16 == 0
  {
  }
}
