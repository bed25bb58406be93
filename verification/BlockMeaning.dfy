/**
 What a sequence of bytes means as a block when it is read without the restrictions on the end of a block: the literals
 and matches it names, one after the other, within the room there is. A decoder that does not test all restrictions
 accepts more than the reference decoder does, but nothing that is malformed in this sense.
 */
module BlockMeaning {
  import opened Bytes
  import opened BlockFormat

  /** Lengths are summed up as unsigned int. */
  const LENGTH_LIMIT: nat := 0x1_0000_0000

  /** The text, history included; or what cannot be a block; or one with offset 0 or a length of 2^32 or more. */
  datatype Meaning = Text(bytes: seq<Byte>) | Malformed | Undefined

  /** The sum of the length bytes at `ip`, whether or not they come to an end. */
  function ExtSum(src: seq<Byte>, ip: nat): nat
    decreases |src| - ip
  {
    if ip >= |src| then 0 else if src[ip] < 255 then src[ip] else 255 + ExtSum(src, ip + 1)
  }

  /** From the token at `ip`, after `out`, with room up to `end`. */
  function Means(src: seq<Byte>, ip: nat, out: seq<Byte>, end: nat): Meaning
    decreases |src| - ip, 0
  {
    if ip >= |src| then Malformed
    else if src[ip] / 16 < 15 then MeansLits(src, src[ip], ip + 1, src[ip] / 16, out, end)
    else if ExtSum(src, ip + 1) >= LENGTH_LIMIT then Undefined
    else match ReadExt(src, ip + 1)
         case None => Malformed
         case Some(e) => MeansLits(src, src[ip], e.next, 15 + e.len, out, end)
  }

  /** From literals at `ip`. */
  function MeansLits(src: seq<Byte>, token: Byte, ip: nat, len: nat, out: seq<Byte>, end: nat): Meaning
    decreases |src| - ip, 1
  {
    if ip + len > |src| || |out| + len > end then Malformed
    else if ip + len == |src| then Text(out + src[ip..ip + len])
    else MeansMatch(src, token, ip + len, out + src[ip..ip + len], end)
  }

  /** From the offset of a match at `ip`. */
  function MeansMatch(src: seq<Byte>, token: Byte, ip: nat, out: seq<Byte>, end: nat): Meaning
    decreases |src| - ip, 0
  {
    if ip + 2 > |src| then Malformed
    else
      var offset := src[ip] as int + 256 * src[ip + 1] as int;
      if token % 16 < 15 then MeansCopy(src, ip + 2, offset, token % 16 + MINMATCH, out, end)
      else if ExtSum(src, ip + 2) >= LENGTH_LIMIT then Undefined
      else match ReadExt(src, ip + 2)
           case None => Malformed
           case Some(e) => MeansCopy(src, e.next, offset, 15 + e.len + MINMATCH, out, end)
  }

  /** From the copy of a match; `ip` is the next token. */
  function MeansCopy(src: seq<Byte>, ip: nat, offset: nat, len: nat, out: seq<Byte>, end: nat): Meaning
    decreases |src| - ip, 1
  {
    if offset == 0 then Undefined
    else if offset > |out| || |out| + len > end then Malformed
    else Means(src, ip, CopyMatch(out, offset, len), end)
  }

  /** A block with this history and this much room. */
  function BlockMeans(src: seq<Byte>, hist: seq<Byte>, room: nat): Meaning {
    Means(src, 0, hist, |hist| + room)
  }

  /** `text` is what the block means, unless that is undefined. */
  predicate Accepts(src: seq<Byte>, hist: seq<Byte>, room: nat, text: seq<Byte>) {
    BlockMeans(src, hist, room).Undefined? || BlockMeans(src, hist, room) == Text(hist + text)
  }

  // ----- The reference decoder agrees -----

  lemma {:induction false} ExtSumIs(src: seq<Byte>, ip: nat)
    ensures ReadExt(src, ip).Some? ==> ReadExt(src, ip).value.len == ExtSum(src, ip)
    decreases |src| - ip
  {
    if ip < |src| && src[ip] == 255 { ExtSumIs(src, ip + 1); }
  }

  lemma LitMeans(src: seq<Byte>, ip: nat, out: seq<Byte>, end: nat)
    requires ip < |src| < LENGTH_LIMIT && LitRun(src, ip).Some?
    ensures var lit := LitRun(src, ip).value;
            Means(src, ip, out, end) == MeansLits(src, src[ip], lit.next, lit.len, out, end)
  {
    hide MeansLits;
    ExtSumIs(src, ip + 1);
  }

  lemma MatchMeans(src: seq<Byte>, token: Byte, ip: nat, out: seq<Byte>, end: nat)
    requires ReadMatch(src, ip, token).Some? && ReadMatch(src, ip, token).value.len < LENGTH_LIMIT
    ensures var m := ReadMatch(src, ip, token).value;
            MeansMatch(src, token, ip, out, end) == MeansCopy(src, m.next, m.offset, m.len, out, end)
  {
    hide MeansCopy;
    ExtSumIs(src, ip + 2);
  }

  /** What the reference decoder makes of a block is what it means. */
  lemma {:induction false} DecodeMeans(src: seq<Byte>, ip: nat, out: seq<Byte>, end: nat, room: nat)
    requires Decode(src, ip, out, end).Some? && end <= room < |out| + LENGTH_LIMIT && |src| < LENGTH_LIMIT
    ensures Means(src, ip, out, room) == Text(Decode(src, ip, out, end).value)
    decreases |src| - ip
  {
    hide CopyMatch, Means, MeansMatch;
    LitMeans(src, ip, out, room);
    var lit := LitRun(src, ip).value;
    var ip1 := lit.next + lit.len;
    var out1 := out + src[lit.next..ip1];
    DecodeExtends(src, ip, out, end);
    if ip1 < |src| {
      var m := ReadMatch(src, ip1, src[ip]).value;
      MatchMeans(src, src[ip], ip1, out1, room);
      DecodeMeans(src, m.next, CopyMatch(out1, m.offset, m.len), end, room);
    }
  }

  /** A valid block means its content, whatever the room it is given beyond that. */
  lemma ValidMeans(src: seq<Byte>, hist: seq<Byte>, content: seq<Byte>, room: nat)
    requires Decodes(src, hist, content) && |content| <= room < LENGTH_LIMIT && |src| < LENGTH_LIMIT
    ensures BlockMeans(src, hist, room) == Text(hist + content)
  {
    DecodeMeans(src, 0, hist, |hist| + |content|, |hist| + room);
  }

  // ----- Only the last 64 KB matter -----

  function Prepend(pre: seq<Byte>, m: Meaning): Meaning {
    if m.Text? then Text(pre + m.bytes) else m
  }

  lemma {:induction false} MeansPrepend(src: seq<Byte>, ip: nat, pre: seq<Byte>, out: seq<Byte>, end: nat)
    requires |out| >= DISTANCE_MAX
    ensures Means(src, ip, pre + out, |pre| + end) == Prepend(pre, Means(src, ip, out, end))
    decreases |src| - ip, 0
  {
    hide MeansLits;
    if ip < |src| {
      if src[ip] / 16 < 15 {
        LitsPrepend(src, src[ip], ip + 1, src[ip] / 16, pre, out, end);
      } else if ReadExt(src, ip + 1).Some? {
        var e := ReadExt(src, ip + 1).value;
        LitsPrepend(src, src[ip], e.next, 15 + e.len, pre, out, end);
      }
    }
  }

  lemma {:induction false} LitsPrepend(src: seq<Byte>, token: Byte, ip: nat, len: nat, pre: seq<Byte>, out: seq<Byte>,
                                       end: nat)
    requires |out| >= DISTANCE_MAX
    ensures MeansLits(src, token, ip, len, pre + out, |pre| + end) ==
            Prepend(pre, MeansLits(src, token, ip, len, out, end))
    decreases |src| - ip, 1
  {
    hide MeansMatch;
    if ip + len <= |src| {
      assert pre + out + src[ip..ip + len] == pre + (out + src[ip..ip + len]);
      if ip + len < |src| { MatchPrepend(src, token, ip + len, pre, out + src[ip..ip + len], end); }
    }
  }

  lemma {:induction false} MatchPrepend(src: seq<Byte>, token: Byte, ip: nat, pre: seq<Byte>, out: seq<Byte>, end: nat)
    requires |out| >= DISTANCE_MAX
    ensures MeansMatch(src, token, ip, pre + out, |pre| + end) == Prepend(pre, MeansMatch(src, token, ip, out, end))
    decreases |src| - ip, 0
  {
    hide MeansCopy;
    if ip + 2 <= |src| {
      var offset := src[ip] as int + 256 * src[ip + 1] as int;
      if token % 16 < 15 {
        CopyPrepend(src, ip + 2, offset, token % 16 + MINMATCH, pre, out, end);
      } else if ReadExt(src, ip + 2).Some? {
        var e := ReadExt(src, ip + 2).value;
        CopyPrepend(src, e.next, offset, 15 + e.len + MINMATCH, pre, out, end);
      }
    }
  }

  lemma {:induction false} CopyPrepend(src: seq<Byte>, ip: nat, offset: nat, len: nat, pre: seq<Byte>, out: seq<Byte>,
                                       end: nat)
    requires |out| >= DISTANCE_MAX >= offset
    ensures MeansCopy(src, ip, offset, len, pre + out, |pre| + end) ==
            Prepend(pre, MeansCopy(src, ip, offset, len, out, end))
    decreases |src| - ip, 1
  {
    hide Means, CopyMatch;
    if offset > 0 {
      CopyMatchPrepend(pre, out, offset, len);
      if |out| + len <= end { MeansPrepend(src, ip, pre, CopyMatch(out, offset, len), end); }
    }
  }

  /** A block means the same after any history that agrees on the last 64 KB. */
  lemma AcceptsWindow(src: seq<Byte>, pre: seq<Byte>, hist: seq<Byte>, room: nat, text: seq<Byte>)
    requires |hist| >= DISTANCE_MAX
    ensures Accepts(src, pre + hist, room, text) <==> Accepts(src, hist, room, text)
  {
    MeansPrepend(src, 0, pre, hist, |hist| + room);
    assert pre + hist + text == pre + (hist + text);
    var m := BlockMeans(src, hist, room);
    if m.Text? && pre + m.bytes == pre + (hist + text) {
      assert (pre + m.bytes)[|pre|..] == m.bytes && (pre + (hist + text))[|pre|..] == hist + text;
    }
  }
}
