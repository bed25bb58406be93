/**
 The LZ4 block format: the byte-at-a-time reference decoder, with the parsing
 restrictions the compressor and decoder rely on (the last five bytes are literals,
 no match starts within the last twelve bytes), and the encoding of a list of sequences.
 */
module BlockFormat {
  import opened Bytes

  const MINMATCH: nat := 4
  const LASTLITERALS: nat := 5
  const MFLIMIT: nat := 12
  const DISTANCE_MAX: nat := 65535

  /** dict_directive: where the history of a block lies. */
  datatype DictMode = NoDict | WithPrefix64k | UsingExtDict

  // ----- The length codec -----

  datatype Run = Run(len: nat, next: nat)

  /** Reads a length extension at `ip`: bytes are summed up to and including the first one below 255. */
  function ReadExt(src: seq<Byte>, ip: nat): (r: Option<Run>)
    ensures r.Some? ==> ip < r.value.next <= |src|
    decreases |src| - ip
  {
    if ip >= |src| then None
    else if src[ip] < 255 then Some(Run(src[ip], ip + 1))
    else match ReadExt(src, ip + 1)
         case None => None
         case Some(r) => Some(Run(255 + r.len, r.next))
  }

  function ExtBytes(n: nat): (r: seq<Byte>)
    ensures |r| == n / 255 + 1
  {
    if n < 255 then [n] else [255] + ExtBytes(n - 255)
  }

  /** The bytes that follow the token for a run of `n`, whose first 15 fit in the token's nibble. */
  function RunExt(n: nat): (r: seq<Byte>)
    ensures |r| == (n + 240) / 255
  {
    if n < 15 then [] else ExtBytes(n - 15)
  }

  function Nibble(n: nat): (r: nat)
    ensures r <= 15
  {
    if n < 15 then n else 15
  }

  /** `part` stands in `src` at `ip`. */
  predicate At(src: seq<Byte>, ip: nat, part: seq<Byte>) {
    ip + |part| <= |src| && src[ip..ip + |part|] == part
  }

  lemma AtSplit(src: seq<Byte>, ip: nat, a: seq<Byte>, b: seq<Byte>)
    requires At(src, ip, a + b)
    ensures At(src, ip, a) && At(src, ip + |a|, b)
  {
    var w := src[ip..ip + |a + b|];
    assert w[..|a|] == a && w[|a|..] == b;
    SliceOfSlice(src, ip, ip + |a + b|, 0, |a|);
    SliceOfSlice(src, ip, ip + |a + b|, |a|, |a + b|);
  }

  /** A length extension is read back wherever it stands. */
  lemma {:induction false} ReadExtBytes(src: seq<Byte>, ip: nat, n: nat)
    requires At(src, ip, ExtBytes(n))
    ensures ReadExt(src, ip) == Some(Run(n, ip + n / 255 + 1))
    decreases n
  {
    assert src[ip] == src[ip..ip + |ExtBytes(n)|][0];
    if n >= 255 {
      AtSplit(src, ip, [255], ExtBytes(n - 255));
      ReadExtBytes(src, ip + 1, n - 255);
    }
  }

  // ----- The reference decoder -----

  /** Appends `len` bytes, each a copy of the byte `offset` places before it. */
  function CopyMatch(out: seq<Byte>, offset: nat, len: nat): (r: seq<Byte>)
    requires 1 <= offset <= |out|
    ensures |r| == |out| + len
    decreases len
  {
    if len == 0 then out
    else CopyMatch(out + [out[|out| - offset]], offset, len - 1)
  }

  /** The literal run announced by the token at `ip`; `next` is its first literal. */
  function LitRun(src: seq<Byte>, ip: nat): (r: Option<Run>)
    requires ip < |src|
    ensures r.Some? ==> ip < r.value.next && r.value.next + r.value.len <= |src|
  {
    var l := src[ip] / 16;
    var run := if l < 15 then Some(Run(l, ip + 1))
               else match ReadExt(src, ip + 1)
                    case None => None
                    case Some(e) => Some(Run(15 + e.len, e.next));
    if run.Some? && run.value.next + run.value.len <= |src| then run else None
  }

  function LE16(lo: int, hi: int): int { lo + 256 * hi }

  datatype MatchRun = MatchRun(offset: nat, len: nat, next: nat)

  /** The match whose offset field starts at `ip`; `next` is the following token. */
  function ReadMatch(src: seq<Byte>, ip: nat, token: Byte): (r: Option<MatchRun>)
    ensures r.Some? ==> ip + 2 <= r.value.next <= |src| && r.value.len >= MINMATCH
  {
    if ip + 2 > |src| then None
    else
      var offset := LE16(src[ip], src[ip + 1]);
      if token % 16 < 15 then Some(MatchRun(offset, token % 16 + MINMATCH, ip + 2))
      else match ReadExt(src, ip + 2)
           case None => None
           case Some(e) => Some(MatchRun(offset, 15 + e.len + MINMATCH, e.next))
  }

  /** Whether a match may be copied after `out`, in a block whose content ends at `end`. */
  predicate MatchAllowed(outLen: nat, offset: nat, len: nat, end: nat) {
    && 1 <= offset <= outLen
    && outLen + MFLIMIT <= end
    && outLen + len + LASTLITERALS <= end
  }

  /**
   Decodes the sequences of `src` from `ip` on, after `out` (history and earlier output);
   `end` is the length of history plus the whole content, which the parsing restrictions refer to.
   */
  function Decode(src: seq<Byte>, ip: nat, out: seq<Byte>, end: nat): (r: Option<seq<Byte>>)
    decreases |src| - ip
  {
    if ip >= |src| then None
    else
      var lit := LitRun(src, ip);
      if lit.None? then None
      else
        var ip1 := lit.value.next + lit.value.len;
        var out1 := out + src[lit.value.next..ip1];
        if ip1 == |src| then (if |out1| <= end then Some(out1) else None)
        else
          var m := ReadMatch(src, ip1, src[ip]);
          if m.None? || !MatchAllowed(|out1|, m.value.offset, m.value.len, end) then None
          else Decode(src, m.value.next, CopyMatch(out1, m.value.offset, m.value.len), end)
  }

  /** `src` is a well-formed block for `content`, given the history `hist`. */
  predicate Decodes(src: seq<Byte>, hist: seq<Byte>, content: seq<Byte>) {
    Decode(src, 0, hist, |hist| + |content|) == Some(hist + content)
  }

  // ----- Facts about copying -----

  /** A self-referential copy is fixed by its period: every new byte equals the one `offset` before it. */
  lemma {:induction false} CopyMatchPeriod(out: seq<Byte>, offset: nat, len: nat)
    requires 1 <= offset <= |out|
    ensures CopyMatch(out, offset, len)[..|out|] == out
    ensures forall k :: |out| <= k < |out| + len ==>
              CopyMatch(out, offset, len)[k] == CopyMatch(out, offset, len)[k - offset]
    decreases len
  {
    if len > 0 {
      var out' := out + [out[|out| - offset]];
      CopyMatchPeriod(out', offset, len - 1);
      var r := CopyMatch(out, offset, len);
      assert r[..|out|] == r[..|out'|][..|out|];
      assert r[|out|] == r[..|out'|][|out|] && r[|out| - offset] == r[..|out'|][|out| - offset];
    }
  }

  /** Conversely, a sequence with that period is the copy. */
  lemma {:induction false} PeriodIsCopyMatch(out: seq<Byte>, offset: nat, len: nat, r: seq<Byte>)
    requires 1 <= offset <= |out|
    requires |r| == |out| + len && r[..|out|] == out
    requires forall k :: |out| <= k < |r| ==> r[k] == r[k - offset]
    ensures r == CopyMatch(out, offset, len)
    decreases len
  {
    if len > 0 {
      assert r[|out| - offset] == r[..|out|][|out| - offset];
      assert r[..|out| + 1] == out + [out[|out| - offset]];
      PeriodIsCopyMatch(out + [out[|out| - offset]], offset, len - 1, r);
    } else {
      assert r == r[..|out|];
    }
  }

  /** Copying is blind to whatever precedes the bytes it can reach. */
  lemma {:induction false} CopyMatchPrepend(pre: seq<Byte>, out: seq<Byte>, offset: nat, len: nat)
    requires 1 <= offset <= |out|
    ensures CopyMatch(pre + out, offset, len) == pre + CopyMatch(out, offset, len)
    decreases len
  {
    if len > 0 {
      var b := out[|out| - offset];
      assert pre + out + [b] == pre + (out + [b]);
      CopyMatchPrepend(pre, out + [b], offset, len - 1);
    }
  }

  // ----- Facts about decoding -----

  /** Output is only ever appended, and never past `end`. */
  lemma {:induction false} DecodeExtends(src: seq<Byte>, ip: nat, out: seq<Byte>, end: nat)
    requires Decode(src, ip, out, end).Some?
    ensures |out| <= |Decode(src, ip, out, end).value| <= end
    ensures Decode(src, ip, out, end).value[..|out|] == out
    decreases |src| - ip
  {
    var lit := LitRun(src, ip).value;
    var ip1 := lit.next + lit.len;
    var out1 := out + src[lit.next..ip1];
    if ip1 < |src| {
      var m := ReadMatch(src, ip1, src[ip]).value;
      var out2 := CopyMatch(out1, m.offset, m.len);
      CopyMatchPeriod(out1, m.offset, m.len);
      DecodeExtends(src, m.next, out2, end);
      var r := Decode(src, ip, out, end).value;
      assert r[..|out|] == r[..|out2|][..|out1|][..|out|];
    }
  }

  /** No history makes a block decode whose first match has offset 0. */
  lemma OffsetZero(src: seq<Byte>, hist: seq<Byte>, content: seq<Byte>)
    requires src != [] && LitRun(src, 0).Some?
    requires var lit := LitRun(src, 0).value; At(src, lit.next + lit.len, [0, 0])
    ensures !Decodes(src, hist, content)
  {
    var lit := LitRun(src, 0).value;
    var ip := lit.next + lit.len;
    assert src[ip] == src[ip..ip + 2][0] && src[ip + 1] == src[ip..ip + 2][1];
  }

  /** Relaxing the declared end accepts everything accepted before. */
  lemma {:induction false} DecodeEndMonotone(src: seq<Byte>, ip: nat, out: seq<Byte>, end: nat, end': nat)
    requires end <= end'
    requires Decode(src, ip, out, end).Some?
    ensures Decode(src, ip, out, end') == Decode(src, ip, out, end)
    decreases |src| - ip
  {
    var lit := LitRun(src, ip).value;
    var ip1 := lit.next + lit.len;
    var out1 := out + src[lit.next..ip1];
    if ip1 < |src| {
      var m := ReadMatch(src, ip1, src[ip]).value;
      DecodeEndMonotone(src, m.next, CopyMatch(out1, m.offset, m.len), end, end');
    }
  }

  /** A block has at most one content. */
  lemma DecodesUnique(src: seq<Byte>, hist: seq<Byte>, c: seq<Byte>, d: seq<Byte>)
    requires Decodes(src, hist, c) && Decodes(src, hist, d)
    ensures c == d
  {
    if |c| <= |d| {
      DecodeEndMonotone(src, 0, hist, |hist| + |c|, |hist| + |d|);
    } else {
      DecodeEndMonotone(src, 0, hist, |hist| + |d|, |hist| + |c|);
    }
    assert (hist + c)[|hist|..] == c && (hist + d)[|hist|..] == d;
  }

  /** More history never changes a decoding that succeeds without it. */
  lemma {:induction false} DecodePrepend(src: seq<Byte>, ip: nat, pre: seq<Byte>, out: seq<Byte>, end: nat)
    requires Decode(src, ip, out, end).Some?
    ensures Decode(src, ip, pre + out, |pre| + end) == Some(pre + Decode(src, ip, out, end).value)
    decreases |src| - ip
  {
    var lit := LitRun(src, ip).value;
    var ip1 := lit.next + lit.len;
    var out1 := out + src[lit.next..ip1];
    assert pre + out + src[lit.next..ip1] == pre + out1;
    if ip1 < |src| {
      var m := ReadMatch(src, ip1, src[ip]).value;
      CopyMatchPrepend(pre, out1, m.offset, m.len);
      DecodePrepend(src, m.next, pre, CopyMatch(out1, m.offset, m.len), end);
    }
  }

  /** Conversely, history further back than an offset can express is never needed. */
  lemma {:induction false} DecodeTrim(src: seq<Byte>, ip: nat, pre: seq<Byte>, out: seq<Byte>, end: nat)
    requires |out| >= DISTANCE_MAX
    requires Decode(src, ip, pre + out, |pre| + end).Some?
    ensures Decode(src, ip, out, end).Some?
    ensures Decode(src, ip, pre + out, |pre| + end).value == pre + Decode(src, ip, out, end).value
    decreases |src| - ip
  {
    var lit := LitRun(src, ip).value;
    var ip1 := lit.next + lit.len;
    var out1 := out + src[lit.next..ip1];
    assert pre + out + src[lit.next..ip1] == pre + out1;
    if ip1 < |src| {
      var m := ReadMatch(src, ip1, src[ip]).value;
      assert m.offset <= DISTANCE_MAX;
      CopyMatchPrepend(pre, out1, m.offset, m.len);
      DecodeTrim(src, m.next, pre, CopyMatch(out1, m.offset, m.len), end);
    }
  }

  /** A block may be decoded against any history that agrees on the last 64 KB. */
  lemma DecodesWindow(src: seq<Byte>, pre: seq<Byte>, hist: seq<Byte>, content: seq<Byte>)
    ensures Decodes(src, hist, content) ==> Decodes(src, pre + hist, content)
    ensures |hist| >= DISTANCE_MAX && Decodes(src, pre + hist, content) ==> Decodes(src, hist, content)
  {
    assert pre + hist + content == pre + (hist + content);
    var end := |hist| + |content|;
    if Decodes(src, hist, content) {
      DecodePrepend(src, 0, pre, hist, end);
    }
    if |hist| >= DISTANCE_MAX && Decodes(src, pre + hist, content) {
      DecodeTrim(src, 0, pre, hist, end);
      var o := Decode(src, 0, hist, end).value;
      assert (pre + o)[|pre|..] == o && (pre + (hist + content))[|pre|..] == hist + content;
    }
  }

  /** When content is still missing after a match, the block still holds a token and five literals. */
  lemma {:induction false} InputLeft(src: seq<Byte>, ip: nat, out: seq<Byte>, end: nat)
    requires Decode(src, ip, out, end).Some? && |Decode(src, ip, out, end).value| == end
    requires |out| + LASTLITERALS <= end
    ensures ip + 1 + LASTLITERALS <= |src|
    decreases |src| - ip
  {
    var lit := LitRun(src, ip).value;
    var ip1 := lit.next + lit.len;
    var out1 := out + src[lit.next..ip1];
    if ip1 < |src| {
      var m := ReadMatch(src, ip1, src[ip]).value;
      InputLeft(src, m.next, CopyMatch(out1, m.offset, m.len), end);
    }
  }

  // ----- Encoding -----

  /** Literals followed by a match of length `code + MINMATCH`. */
  datatype Sequence = Sequence(lits: seq<Byte>, offset: nat, code: nat)

  function Token(litLen: nat, matchCode: nat): (r: Byte)
    ensures r / 16 == Nibble(litLen) && r % 16 == Nibble(matchCode)
  {
    16 * Nibble(litLen) + Nibble(matchCode)
  }

  function EncodeLits(lits: seq<Byte>, matchCode: nat): (r: seq<Byte>)
    ensures |r| == 1 + (|lits| + 240) / 255 + |lits|
  {
    [Token(|lits|, matchCode)] + RunExt(|lits|) + lits
  }

  function OffsetBytes(offset: nat): (r: seq<Byte>)
    ensures |r| == 2
    ensures offset <= DISTANCE_MAX ==> LE16(r[0], r[1]) == offset
  {
    [offset % 256, offset / 256 % 256]
  }

  function EncodeSeq(s: Sequence): (r: seq<Byte>)
    ensures |r| == 3 + (|s.lits| + 240) / 255 + |s.lits| + (s.code + 240) / 255
  {
    EncodeLits(s.lits, s.code) + OffsetBytes(s.offset) + RunExt(s.code)
  }

  function EncodeSeqs(ss: seq<Sequence>): (r: seq<Byte>)
  {
    if ss == [] then [] else EncodeSeqs(ss[..|ss| - 1]) + EncodeSeq(ss[|ss| - 1])
  }

  /** What `ss` reconstructs after the history `hist`; None when a match is not allowed. */
  function Replay(hist: seq<Byte>, ss: seq<Sequence>, end: nat): (r: Option<seq<Byte>>)
  {
    if ss == [] then Some(hist)
    else
      var s := ss[|ss| - 1];
      var before := Replay(hist, ss[..|ss| - 1], end);
      if before.None? then None
      else
        var out := before.value + s.lits;
        if s.offset > DISTANCE_MAX || !MatchAllowed(|out|, s.offset, s.code + MINMATCH, end) then None
        else Some(CopyMatch(out, s.offset, s.code + MINMATCH))
  }

  lemma {:induction false} ReplayEndMonotone(hist: seq<Byte>, ss: seq<Sequence>, end: nat, end': nat)
    requires end <= end' && Replay(hist, ss, end).Some?
    ensures Replay(hist, ss, end') == Replay(hist, ss, end)
    decreases |ss|
  {
    if ss != [] { ReplayEndMonotone(hist, ss[..|ss| - 1], end, end'); }
  }

  lemma LitRunIs(src: seq<Byte>, ip: nat, len: nat, start: nat)
    requires ip < |src| && start + len <= |src| && src[ip] / 16 == Nibble(len)
    requires if len < 15 then start == ip + 1 else ReadExt(src, ip + 1) == Some(Run(len - 15, start))
    ensures LitRun(src, ip) == Some(Run(len, start))
  {
  }

  /** The literal run of an encoded sequence is read back wherever it stands. */
  lemma LitRunEncoded(src: seq<Byte>, ip: nat, lits: seq<Byte>, code: nat)
    requires At(src, ip, EncodeLits(lits, code))
    ensures ip < |src| && src[ip] == Token(|lits|, code)
    ensures var start := ip + 1 + (|lits| + 240) / 255;
            LitRun(src, ip) == Some(Run(|lits|, start)) && At(src, start, lits)
  {
    hide At, Token, LitRun, ReadExt, ExtBytes;
    var t, e := [Token(|lits|, code)], RunExt(|lits|);
    AtSplit(src, ip, t + e, lits);
    AtSplit(src, ip, t, e);
    AtSlice(src, ip, t);
    AtSlice(src, ip + 1 + |e|, lits);
    assert src[ip] == src[ip..ip + 1][0];
    if |lits| >= 15 {
      ReadExtBytes(src, ip + 1, |lits| - 15);
    }
    LitRunIs(src, ip, |lits|, ip + 1 + |e|);
  }

  lemma ReadMatchEncoded(src: seq<Byte>, ip: nat, s: Sequence, token: Byte)
    requires s.offset <= DISTANCE_MAX && token % 16 == Nibble(s.code)
    requires At(src, ip, OffsetBytes(s.offset) + RunExt(s.code))
    ensures ReadMatch(src, ip, token) == Some(MatchRun(s.offset, s.code + MINMATCH, ip + 2 + (s.code + 240) / 255))
  {
    AtSplit(src, ip, OffsetBytes(s.offset), RunExt(s.code));
    assert src[ip] == src[ip..ip + 2][0] && src[ip + 1] == src[ip..ip + 2][1];
    if s.code >= 15 {
      ReadExtBytes(src, ip + 2, s.code - 15);
    }
  }

  /** One step of the decoder over a sequence that is not the last. */
  lemma DecodeStep(src: seq<Byte>, ip: nat, lit: Run, m: MatchRun, out: seq<Byte>, end: nat)
    requires ip < |src| && LitRun(src, ip) == Some(lit)
    requires ReadMatch(src, lit.next + lit.len, src[ip]) == Some(m)
    requires MatchAllowed(|out| + lit.len, m.offset, m.len, end)
    ensures Decode(src, ip, out, end) ==
            Decode(src, m.next, CopyMatch(out + src[lit.next..lit.next + lit.len], m.offset, m.len), end)
  {
    hide LitRun, ReadMatch, CopyMatch;
  }

  /** One encoded sequence is decoded by appending its literals and copying its match. */
  lemma DecodeEncodedSeq(src: seq<Byte>, ip: nat, s: Sequence, out: seq<Byte>, end: nat)
    requires s.offset <= DISTANCE_MAX && At(src, ip, EncodeSeq(s))
    requires MatchAllowed(|out + s.lits|, s.offset, s.code + MINMATCH, end)
    ensures Decode(src, ip, out, end) ==
            Decode(src, ip + |EncodeSeq(s)|, CopyMatch(out + s.lits, s.offset, s.code + MINMATCH), end)
  {
    hide *;
    var head := EncodeLits(s.lits, s.code);
    var tail := OffsetBytes(s.offset) + RunExt(s.code);
    var start := ip + 1 + (|s.lits| + 240) / 255;
    EncodeSeqParts(src, ip, s);
    LitRunEncoded(src, ip, s.lits, s.code);
    ReadMatchEncoded(src, ip + |head|, s, src[ip]);
    AtSlice(src, start, s.lits);
    DecodeStep(src, ip, Run(|s.lits|, start), MatchRun(s.offset, s.code + MINMATCH, ip + |EncodeSeq(s)|), out, end);
  }

  lemma AtSlice(src: seq<Byte>, ip: nat, part: seq<Byte>)
    requires At(src, ip, part)
    ensures ip + |part| <= |src| && src[ip..ip + |part|] == part
  {
  }

  lemma EncodeSeqParts(src: seq<Byte>, ip: nat, s: Sequence)
    requires At(src, ip, EncodeSeq(s))
    ensures At(src, ip, EncodeLits(s.lits, s.code))
    ensures At(src, ip + |EncodeLits(s.lits, s.code)|, OffsetBytes(s.offset) + RunExt(s.code))
  {
    var head := EncodeLits(s.lits, s.code);
    assert EncodeSeq(s) == head + (OffsetBytes(s.offset) + RunExt(s.code));
    AtSplit(src, ip, head, OffsetBytes(s.offset) + RunExt(s.code));
  }

  lemma {:induction false} DecodeEncodedSeqs(src: seq<Byte>, hist: seq<Byte>, ss: seq<Sequence>, end: nat)
    requires At(src, 0, EncodeSeqs(ss)) && Replay(hist, ss, end).Some?
    ensures Decode(src, 0, hist, end) == Decode(src, |EncodeSeqs(ss)|, Replay(hist, ss, end).value, end)
    decreases |ss|
  {
    hide Decode, At, EncodeSeq, CopyMatch;
    if ss != [] {
      var init, s := ss[..|ss| - 1], ss[|ss| - 1];
      AtSplit(src, 0, EncodeSeqs(init), EncodeSeq(s));
      DecodeEncodedSeqs(src, hist, init, end);
      DecodeEncodedSeq(src, |EncodeSeqs(init)|, s, Replay(hist, init, end).value, end);
    }
  }

  lemma DecodeLast(src: seq<Byte>, ip: nat, lits: seq<Byte>, out: seq<Byte>, end: nat)
    requires At(src, ip, EncodeLits(lits, 0)) && ip + |EncodeLits(lits, 0)| == |src|
    requires |out| + |lits| <= end
    ensures Decode(src, ip, out, end) == Some(out + lits)
  {
    hide EncodeLits;
    LitRunEncoded(src, ip, lits, 0);
  }

  /** The round trip of the format: an encoded list of sequences decodes to what they reconstruct. */
  lemma DecodeEncoded(hist: seq<Byte>, ss: seq<Sequence>, last: seq<Byte>, end: nat)
    requires Replay(hist, ss, end).Some?
    requires |Replay(hist, ss, end).value| + |last| <= end
    ensures Decode(EncodeSeqs(ss) + EncodeLits(last, 0), 0, hist, end) == Some(Replay(hist, ss, end).value + last)
  {
    hide Decode, EncodeLits, EncodeSeqs, Replay;
    var src := EncodeSeqs(ss) + EncodeLits(last, 0);
    DecodeEncodedSeqs(src, hist, ss, end);
    DecodeLast(src, |EncodeSeqs(ss)|, last, Replay(hist, ss, end).value, end);
  }
}
