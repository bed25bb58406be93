/**
 Content that no LZ4 block can shorten: within the reach of an offset, no four bytes of it occur twice.
 It shows that the costs the frame encoder reckons with are reached, for every size.
 */
module Incompressible {
  import opened Bytes
  import opened BlockFormat
  import opened FrameFormat
  import opened FrameChain
  import opened FrameHistory
  import opened FrameEncoder

  // ----- The content -----

  function Digit(j: nat, k: nat): (d: nat)
    ensures d < 64
  {
    if k == 0 then j % 64 else if k == 1 then j / 64 % 64 else if k == 2 then j / 4096 % 64 else 0
  }

  /** Byte `i`: which of four it is, and a digit of the number of its group of four. */
  function Varied(i: nat): Byte { 64 * (i % 4) + Digit(i / 4, i % 4) }

  /** A stretch of these bytes. */
  ghost predicate Dense(s: seq<Byte>, from: nat) {
    forall i :: 0 <= i < |s| ==> s[i] == Varied(from + i)
  }

  /** There is such content of every size. */
  function Content(n: nat): (s: seq<Byte>)
    ensures |s| == n && Dense(s, 0)
  {
    seq(n, i requires i >= 0 => Varied(i))
  }

  lemma SameGroup(p: nat, q: nat)
    requires Varied(p) == Varied(q)
    ensures p % 4 == q % 4 && Digit(p / 4, p % 4) == Digit(q / 4, q % 4)
  {
  }

  lemma Successors(x: nat, y: nat, m: nat)
    requires 0 < m && (x + 1) % m == (y + 1) % m
    ensures x % m == y % m
  {
    var a, b := (x + 1) / m, (y + 1) / m;
    var r := (x + 1) % m;
    assert x + 1 == a * m + r && y + 1 == b * m + r;
    if r > 0 {
      DivUnique(x, m, a, r - 1);
      DivUnique(y, m, b, r - 1);
    } else {
      assert a >= 1 && b >= 1;
      assert (a - 1) * m == a * m - m && (b - 1) * m == b * m - m;
      DivUnique(x, m, a - 1, m - 1);
      DivUnique(y, m, b - 1, m - 1);
    }
  }

  /** A remainder and the digit above it make up the larger remainder. */
  lemma NextDigit(x: nat, a: nat, b: nat)
    requires 0 < a && 0 < b
    ensures 0 < a * b && x % (a * b) == a * (x / a % b) + x % a
  {
    var r, d, q := x % a, x / a % b, x / a / b;
    DigitRange(a, b, d, r);
    DivMul(x, a);
    DivMul(x / a, b);
    Regroup(a, b, q, d);
    DivUnique(x, a * b, q, a * d + r);
  }

  lemma DigitRange(a: nat, b: nat, d: nat, r: nat)
    requires d < b && r < a
    ensures 0 <= a * d + r < a * b
  {
    MulMono(d + 1, b, a);
    assert a * (d + 1) == a * d + a;
  }

  lemma Regroup(a: nat, b: nat, q: nat, d: nat)
    ensures a * (b * q + d) == q * (a * b) + a * d
  {
    assert a * (b * q + d) == a * (b * q) + a * d;
    assert a * (b * q) == (a * b) * q;
  }

  /** Numbers that agree in three digits are far apart. */
  lemma SameDigits(x: nat, y: nat)
    ensures x % 64 == y % 64 && Digit(x, 1) == Digit(y, 1) ==> x % 4096 == y % 4096
    ensures x % 4096 == y % 4096 && Digit(x, 2) == Digit(y, 2) ==> x % 262144 == y % 262144
  {
    NextDigit(x, 64, 64);
    NextDigit(y, 64, 64);
    NextDigit(x, 4096, 64);
    NextDigit(y, 4096, 64);
  }

  lemma FarApart(x: nat, y: nat)
    requires x < y && x % 262144 == y % 262144
    ensures y - x >= 262144
  {
  }

  predicate SameFour(p: nat, q: nat) {
    Varied(p) == Varied(q) && Varied(p + 1) == Varied(q + 1) && Varied(p + 2) == Varied(q + 2)
      && Varied(p + 3) == Varied(q + 3)
  }

  /** Four bytes do not occur twice within the reach of an offset. */
  lemma VariedApart(p: nat, q: nat)
    requires p < q <= p + DISTANCE_MAX
    ensures !SameFour(p, q)
  {
    hide SameFour;
    if SameFour(p, q) {
      GroupsAgree(p, q);
      FarApart(p / 4, q / 4);
    }
  }

  lemma GroupsAgree(p: nat, q: nat)
    requires p < q && SameFour(p, q)
    ensures p % 4 == q % 4 && p / 4 < q / 4 && (p / 4) % 262144 == (q / 4) % 262144
  {
    SameGroup(p, q);
    hide SameFour, Varied, Digit;
    var x, y, r := p / 4, q / 4, p % 4;
    DigitsAgree(p, q, 0);
    DigitsAgree(p, q, 1);
    DigitsAgree(p, q, 2);
    LowDigits(x, y);
    SameDigits(x, y);
    SameDigits(x + 1, y + 1);
    if r == 1 { Successors(x, y, 64); }
    if r == 2 { Successors(x, y, 4096); }
    if r == 3 { Successors(x, y, 262144); }
  }

  lemma LowDigits(x: nat, y: nat)
    ensures Digit(x, 0) == x % 64 && Digit(y, 0) == y % 64
    ensures Digit(x + 1, 0) == (x + 1) % 64 && Digit(y + 1, 0) == (y + 1) % 64
  {
  }

  /** A digit of a group is seen from any of its four bytes: in this group, or in the next. */
  lemma DigitsAgree(p: nat, q: nat, d: nat)
    requires d < 3 && p % 4 == q % 4 && SameFour(p, q)
    ensures var next := if d < p % 4 then 1 else 0; Digit(p / 4 + next, d) == Digit(q / 4 + next, d)
  {
    hide Varied, Digit;
    var k := if d < p % 4 then 4 + d - p % 4 else d - p % 4;
    SameGroup(p + k, q + k);
  }

  // ----- Blocks -----

  /** No block for such content is shorter than the content. */
  lemma BlockNotShorter(src: seq<Byte>, hist: seq<Byte>, content: seq<Byte>, from: nat)
    requires Decodes(src, hist, content) && Dense(hist + content, from)
    ensures |src| > |content|
  {
    hide ReadMatch, LitRun, Varied, CopyMatch;
    var lit := LitRun(src, 0).value;
    var ip := lit.next + lit.len;
    var out := hist + src[lit.next..ip];
    if ip < |src| {
      var m := ReadMatch(src, ip, src[0]).value;
      OffsetReach(src, ip, src[0]);
      var copied := CopyMatch(out, m.offset, m.len);
      DecodeExtends(src, m.next, copied, |hist| + |content|);
      CopyMatchPeriod(out, m.offset, m.len);
      MatchRepeats(hist + content, copied, |out|, m.offset, from);
    }
  }

  lemma OffsetReach(src: seq<Byte>, ip: nat, token: Byte)
    ensures ReadMatch(src, ip, token).Some? ==> ReadMatch(src, ip, token).value.offset <= DISTANCE_MAX
  {
  }

  lemma Repeats(text: seq<Byte>, copied: seq<Byte>, k: nat, offset: nat)
    requires 1 <= offset <= k < |copied| <= |text| && text[..|copied|] == copied && copied[k] == copied[k - offset]
    ensures text[k] == text[k - offset]
  {
    assert text[k] == text[..|copied|][k] && text[k - offset] == text[..|copied|][k - offset];
  }

  lemma MatchRepeats(text: seq<Byte>, copied: seq<Byte>, p: nat, offset: nat, from: nat)
    requires 1 <= offset <= p && offset <= DISTANCE_MAX && p + MINMATCH <= |copied| <= |text|
    requires text[..|copied|] == copied
    requires forall k :: p <= k < |copied| ==> copied[k] == copied[k - offset]
    ensures !Dense(text, from)
  {
    hide Varied;
    if Dense(text, from) {
      Repeats(text, copied, p, offset);
      Repeats(text, copied, p + 1, offset);
      Repeats(text, copied, p + 2, offset);
      Repeats(text, copied, p + 3, offset);
      VariedApart(from + p - offset, from + p);
    }
  }

  // ----- Frames -----

  lemma DensePart(a: seq<Byte>, b: seq<Byte>, from: nat)
    requires Dense(a + b, from)
    ensures Dense(a, from) && Dense(b, from + |a|)
  {
    hide Varied;
    forall i | 0 <= i < |a|
      ensures a[i] == Varied(from + i)
    {
      assert (a + b)[i] == a[i];
    }
    forall i | 0 <= i < |b|
      ensures b[i] == Varied(from + |a| + i)
    {
      assert (a + b)[|a| + i] == b[i];
    }
  }

  lemma DataNotShorter(h: Header, hist: seq<Byte>, b: Block)
    requires h.Ok() && BlockOk(h, hist, b) && Dense(hist + b.Content(), 0)
    ensures |b.data| >= |b.Content()| && |b.Content()| <= BlockSize(h.sizeId)
  {
    hide Dense, Decodes;
    if b.Packed? {
      if h.independent {
        DensePart(hist, b.decoded, 0);
        assert [] + b.decoded == b.decoded;
        BlockNotShorter(b.data, [], b.decoded, |hist|);
      } else {
        BlockNotShorter(b.data, hist, b.decoded, 0);
      }
    }
  }

  /** A chain of blocks holds all of it, and adds what every block adds. */
  lemma {:induction false} ChainNotShorter(hash: Hash, h: Header, blocks: seq<Block>)
    requires h.Ok() && ChainOk(h, blocks) && Dense(ChainContent(blocks), 0)
    ensures |ChainBytes(hash, h, blocks)| >=
            |ChainContent(blocks)| + (BLOCK_HEADER + if h.blockChecksum then BLOCK_FOOTER else 0) * |blocks|
    ensures |ChainContent(blocks)| <= BlockSize(h.sizeId) * |blocks|
    decreases |blocks|
  {
    hide Dense, BlockOk, Bytes32, BlockSize, Checksum;
    if blocks != [] {
      var init, b := blocks[..|blocks| - 1], blocks[|blocks| - 1];
      CostParts(BLOCK_HEADER + if h.blockChecksum then BLOCK_FOOTER else 0, 0, |init|);
      CostParts(BlockSize(h.sizeId), 0, |init|);
      DensePart(ChainContent(init), b.Content(), 0);
      ChainNotShorter(hash, h, init);
      DataNotShorter(h, ChainContent(init), b);
      BlockOkSize(h, ChainContent(init), b);
    }
  }

  /**
   With automatic flushing the cost of an update is reached: no chain of blocks for such content is
   shorter than what `n` bytes of anything may cost at most.
   */
  lemma CostReached(hash: Hash, p: Preferences, blocks: seq<Block>)
    requires p.Ok() && p.autoFlush && ChainOk(p.Head(), blocks) && Dense(ChainContent(blocks), 0)
    ensures |ChainBytes(hash, p.Head(), blocks)| >= UpdateCost(p, |ChainContent(blocks)|)
  {
    hide Dense, BlockSize, ChainOk, ChainBytes, ChainContent, Cost;
    var n, b, u := |ChainContent(blocks)|, p.BlockMax(), BLOCK_HEADER + p.CrcSize();
    ChainNotShorter(hash, p.Head(), blocks);
    CostByBlocks(p, n);
    BlocksNeeded(n, b, |blocks|);
    MulMono(n / b + (if n % b > 0 then 1 else 0), |blocks|, u);
  }

  lemma BlocksNeeded(n: nat, b: nat, m: nat)
    requires 0 < b && n <= b * m
    ensures n / b + (if n % b > 0 then 1 else 0) <= m
  {
    DivMul(n, b);
    MulMono(m, n / b, b);
    if n / b > m {
      MulMono(m + 1, n / b, b);
      CostParts(b, 0, m);
    }
  }

  lemma AllInBlocks(e: Encoder)
    requires e.Valid() && e.begun && e.prefs.autoFlush && Dense(e.input, 0)
    ensures e.prefs.Ok() && |e.sent| >= |HeaderBytes(e.hash, e.prefs.Head())| + UpdateCost(e.prefs, |e.input|)
  {
    hide Dense, BlockSize, ChainOk, ChainBytes, HeaderBytes, UpdateCost;
    assert e.input == ChainContent(e.blocks);
    CostReached(e.hash, e.prefs, e.blocks);
  }

  /**
   The first update of a frame, with automatic flushing and such a source: its output takes all it can
   cost, and leaves room for the end of the frame within the bound exactly when the blocks can be counted.
   */
  method WorstUpdate(e: Encoder, src: nat, n: nat, dst: array<Byte>, at: nat, capacity: nat) returns (r: Outcome)
    requires e.Valid() && e.begun && e.prefs.autoFlush && e.tmpInSize == 0 && e.input == []
    requires e.sent == HeaderBytes(e.hash, e.prefs.Head()) && !e.Retakes(src, n)
    requires src + n <= e.mem.Length && Foreign(e.arena, e.reserve, src, src + n) && (n > 0 ==> 0 < src)
    requires Dense(Slice(e.mem[..], src, n), 0) && at + capacity <= dst.Length && dst != e.mem
    requires Affordable(n, e.prefs, 0, capacity)
    modifies e, e.mem, e.stream, e.stream.table, dst
    ensures r.Done? <==> capacity >= old(CompressBoundInternal(n, e.prefs, 0))
    ensures r.Done? ==> r.size == old(UpdateCost(e.prefs, n))
    ensures r.Done? ==>
              old(r.size + e.prefs.EndSize() <= CompressBoundInternal(n, e.prefs, 0) <==> Countable(n, e.prefs, 0))
  {
    hide Dense, BlockSize, HeaderBytes, UpdateCost, Encoder.Running, CompressBoundInternal, Countable;
    e.RunningBasics();
    BoundCovers(e.prefs, 0, n);
    r := e.Update(src, n, true, dst, at, capacity);
    if r.Done? {
      assert e.input == Slice(old(e.mem[..]), src, n);
      AllInBlocks(e);
    }
  }
}
