/**
 Memory as the frame codec sees it: one flat array in which the codec's own buffer and the caller's
 buffers are ranges. And the history a decoder keeps for linked blocks: where the last bytes of its
 output still lie, in the caller's buffers or in its own.
 */
module FrameHistory {
  import opened Bytes
  import opened BlockFormat
  import opened BlockMeaning
  import opened Copies
  import opened BlockStream
  import opened BlockDecoder

  /** [a, b) is the caller's: no address of it is among the `reserve` bytes the codec can allocate at `arena`. */
  predicate Foreign(arena: nat, reserve: nat, a: nat, b: nat) { b <= arena || arena + reserve <= a }

  /** The last `good` of the `dictSize` bytes at `dict` are the last bytes of the output. */
  ghost predicate Remembers(m: seq<Byte>, out: seq<Byte>, dict: nat, dictSize: nat, good: nat) {
    && good <= dictSize && (dictSize > 0 ==> 0 < dict) && dict + dictSize <= |m|
    && EndsWith(out, m, dict + dictSize - good, good)
  }

  /** With `pending` bytes still to follow it, a dictionary will have all that an offset can reach. */
  predicate Enough(outLen: nat, dictSize: nat, good: nat, pending: nat) {
    good + pending >= Min(KB64, outLen + pending) && good + pending >= Min(KB64, dictSize + pending)
  }

  function Slice(m: seq<Byte>, at: nat, n: nat): (s: seq<Byte>)
    requires at + n <= |m|
    ensures |s| == n
  {
    m[at..at + n]
  }

  /** [a, b) and [c, d) have no address in common. */
  predicate Apart(a: int, b: int, c: int, d: int) { a >= b || c >= d || b <= c || d <= a }

  lemma SameAll(m: seq<Byte>, from: int, to: int)
    ensures SameOutside(m, m, from, to)
  {
  }

  lemma SameWide(m: seq<Byte>, n: seq<Byte>, from: int, to: int, from': int, to': int)
    requires SameOutside(m, n, from, to) && from' <= from && to <= to'
    ensures SameOutside(m, n, from', to')
  {
  }

  /** memcpy, whose ranges must not overlap. */
  method Memcpy(mem: array<Byte>, d: nat, s: nat, n: nat)
    requires d + n <= mem.Length && s + n <= mem.Length && Apart(d, d + n, s, s + n)
    modifies mem
    ensures SameOutside(mem[..], old(mem[..]), d, d + n) && Slice(mem[..], d, n) == Slice(old(mem[..]), s, n)
  {
    hide SameOutside;
    MemCopy(mem, d, s, n);
    assert mem[..][d..d + n] == mem[d..d + n] && old(mem[..])[s..s + n] == old(mem[s..s + n]);
  }

  lemma EndsWithKept(h: seq<Byte>, m: seq<Byte>, m': seq<Byte>, p: nat, n: nat, from: int, to: int)
    requires EndsWith(h, m, p, n) && SameOutside(m', m, from, to) && Apart(p, p + n, from, to)
    ensures EndsWith(h, m', p, n)
  {
    if from >= to {
      assert m' == m;
    } else if n > 0 {
      SameSlice(m', m, from, to, p, p + n);
    }
  }

  /** The history followed by bytes that stand right after it. */
  lemma EndsWithMore(h: seq<Byte>, x: seq<Byte>, m: seq<Byte>, p: nat, n: nat)
    requires EndsWith(h, m, p, n) && p + n + |x| <= |m| && m[p + n..p + n + |x|] == x
    ensures EndsWith(h + x, m, p, n + |x|)
  {
    EndsWithAppend(h, m, p, n, |x|);
  }

  /** Part of the history, some way back from its end. */
  lemma EndsWithPart(h: seq<Byte>, m: seq<Byte>, p: nat, n: nat, back: nat, k: nat)
    requires EndsWith(h, m, p, n) && back + k <= n
    ensures EndsWith(h[..|h| - back], m, p + n - back - k, k)
  {
    EndsWithShorter(h, m, p, n, back + k);
    var q := p + n - back - k;
    assert m[q..q + k] == m[q..q + (back + k)][..k];
    assert h[|h| - (back + k)..][..k] == h[..|h| - back][|h| - back - k..];
  }

  /** The dictionary goes on with new output that stands right after it. */
  lemma RemembersMore(m: seq<Byte>, out: seq<Byte>, dict: nat, dictSize: nat, good: nat, pending: nat, at: nat, n: nat)
    requires Remembers(m, out, dict, dictSize, good) && Enough(|out|, dictSize, good, pending) && n <= pending
    requires dict + dictSize + n <= |m| && at + n <= |m| && (n > 0 ==> 0 < dict)
    requires Slice(m, at, n) == Slice(m, dict + dictSize, n)
    ensures Remembers(m, out + Slice(m, at, n), dict, dictSize + n, good + n)
    ensures Enough(|out + Slice(m, at, n)|, dictSize + n, good + n, pending - n)
  {
    hide EndsWith;
    EndsWithMore(out, m[at..at + n], m, dict + dictSize - good, good);
  }

  lemma RemembersBounds(m: seq<Byte>, out: seq<Byte>, dict: nat, dictSize: nat, good: nat)
    requires Remembers(m, out, dict, dictSize, good)
    ensures good <= dictSize && good <= |out| && dict + dictSize <= |m| && (dictSize > 0 ==> 0 < dict)
  {
  }

  lemma RemembersKept(m: seq<Byte>, m': seq<Byte>, out: seq<Byte>, dict: nat, dictSize: nat, good: nat, from: int,
                      to: int)
    requires Remembers(m, out, dict, dictSize, good) && SameOutside(m', m, from, to)
    requires Apart(dict + dictSize - good, dict + dictSize, from, to)
    ensures Remembers(m', out, dict, dictSize, good)
  {
    hide EndsWith;
    EndsWithKept(out, m, m', dict + dictSize - good, good, from, to);
  }

  /** Two adjacent parts of the history. */
  lemma EndsWithTwo(h: seq<Byte>, m: seq<Byte>, p: nat, n: nat, k: nat)
    requires k <= |h| && EndsWith(h[..|h| - k], m, p, n) && EndsWith(h, m, p + n, k)
    ensures EndsWith(h, m, p, n + k)
  {
    assert h == h[..|h| - k] + h[|h| - k..];
    EndsWithMore(h[..|h| - k], h[|h| - k..], m, p, n);
  }

  /** Copying part of the history to the front of what follows that part. */
  lemma EndsWithInFront(h: seq<Byte>, m: seq<Byte>, m': seq<Byte>, p: nat, n: nat, q: nat, k: nat, copied: nat)
    requires EndsWith(h, m, p, n) && EndsWith(h, m, q, k) && k + copied <= n && copied <= q
    requires p + n <= |m| && q <= |m'| && SameOutside(m', m, q - copied, q)
    requires Slice(m', q - copied, copied) == Slice(m, p + n - k - copied, copied)
    ensures EndsWith(h, m', q - copied, copied + k) && EndsWith(h, m', q, k)
  {
    hide EndsWith;
    EndsWithPart(h, m, p, n, k, copied);
    EndsWithBounds(h, m, q, k);
    EndsWithMoved(h[..|h| - k], m, m', p + n - k - copied, q - copied, copied);
    EndsWithKept(h, m, m', q, k, q - copied, q);
    EndsWithTwo(h, m', q - copied, copied, k);
  }

  lemma EndsWithBounds(h: seq<Byte>, m: seq<Byte>, p: nat, n: nat)
    requires EndsWith(h, m, p, n)
    ensures p + n <= |m| && n <= |h|
  {
  }

  /** What the block decoder sees of a dictionary is enough for every valid block. */
  lemma DictDecodes(data: seq<Byte>, m: seq<Byte>, out: seq<Byte>, dict: nat, dictSize: nat, good: nat,
                    content: seq<Byte>)
    requires Remembers(m, out, dict, dictSize, good) && Enough(|out|, dictSize, good, 0)
    requires Decodes(data, out, content)
    ensures Decodes(data, DictContent(m, dict, dictSize), content)
  {
    hide Decodes, EndsWith;
    var w := Min(dictSize, KB64);
    EndsWithShorter(out, m, dict + dictSize - good, good, w);
    LastDecodes(data, m, out, dict, dictSize, content);
  }

  /** Nor does it make any difference to what a block means. */
  lemma DictAccepts(data: seq<Byte>, m: seq<Byte>, out: seq<Byte>, dict: nat, dictSize: nat, good: nat, room: nat,
                    text: seq<Byte>)
    requires Remembers(m, out, dict, dictSize, good) && Enough(|out|, dictSize, good, 0)
    requires Accepts(data, DictContent(m, dict, dictSize), room, text)
    ensures Accepts(data, out, room, text)
  {
    hide Accepts, EndsWith;
    var w := Min(dictSize, KB64);
    EndsWithShorter(out, m, dict + dictSize - good, good, w);
    LastAccepts(data, m, out, dict, dictSize, room, text);
  }

  lemma LastAccepts(data: seq<Byte>, m: seq<Byte>, out: seq<Byte>, dict: nat, dictSize: nat, room: nat,
                    text: seq<Byte>)
    requires var w := Min(dictSize, KB64); EndsWith(out, m, dict + dictSize - w, w) && (w < DISTANCE_MAX ==> w == |out|)
    requires Accepts(data, DictContent(m, dict, dictSize), room, text)
    ensures Accepts(data, out, room, text)
  {
    hide Accepts;
    var w := Min(dictSize, KB64);
    var pre, last := out[..|out| - w], out[|out| - w..];
    assert out == pre + last;
    if w >= DISTANCE_MAX { AcceptsWindow(data, pre, last, room, text); } else { assert last == out; }
    if dictSize == 0 { assert last == []; }
  }

  lemma LastDecodes(data: seq<Byte>, m: seq<Byte>, out: seq<Byte>, dict: nat, dictSize: nat, content: seq<Byte>)
    requires var w := Min(dictSize, KB64); EndsWith(out, m, dict + dictSize - w, w) && (w < DISTANCE_MAX ==> w == |out|)
    requires Decodes(data, out, content)
    ensures Decodes(data, DictContent(m, dict, dictSize), content)
  {
    hide Decodes;
    var w := Min(dictSize, KB64);
    var pre, last := out[..|out| - w], out[|out| - w..];
    assert out == pre + last;
    DecodesWindow(data, pre, last, content);
    if w < DISTANCE_MAX { assert last == out; }
    if dictSize == 0 { assert last == []; }
  }
}
