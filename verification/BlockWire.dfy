/** The LZ4 block format byte by byte: what stands where in a block, and what it stands for. */
module BlockWire {
  import opened Bytes
  import opened BlockFormat
  import opened MatchCount
  import opened Copies
  import opened BlockWriter
  import Decoder = BlockDecoder

  /** `k` bytes of 255 and one below. */
  predicate Extension(src: seq<Byte>, ip: nat, k: nat) {
    ip + k < |src| && src[ip + k] < 255 && forall i :: ip <= i < ip + k ==> src[i] == 255
  }

  /** A length extension adds 255 for every byte of 255, and the last byte. */
  lemma {:induction false} ExtensionInBytes(src: seq<Byte>, ip: nat, k: nat)
    requires Extension(src, ip, k)
    ensures ReadExt(src, ip) == Some(Run(255 * k + src[ip + k], ip + k + 1))
    decreases k
  {
    if k > 0 {
      assert src[ip] == 255;
      ExtensionInBytes(src, ip + 1, k - 1);
    }
  }

  /** The literals behind the token at `ip`: `n` from `at` on, by its high half, or 15 and an extension of `k` 255s. */
  ghost predicate LiteralsAt(src: seq<Byte>, ip: nat, k: nat, at: nat, n: nat) {
    && ip < |src|
    && (if src[ip] / 16 < 15 then at == ip + 1 && n == src[ip] / 16
        else Extension(src, ip + 1, k) && at == ip + k + 2 && n == 15 + 255 * k + src[ip + 1 + k])
  }

  /** The length of a match with its offset at `a`: four more than the low half, or 19 and an extension of `k` 255s. */
  ghost predicate MatchLengthAt(src: seq<Byte>, token: Byte, a: nat, k: nat, len: nat) {
    if token % 16 < 15 then len == token % 16 + 4
    else Extension(src, a + 2, k) && len == 19 + 255 * k + src[a + 2 + k]
  }

  lemma LiteralsRead(src: seq<Byte>, ip: nat, k: nat, at: nat, n: nat)
    requires LiteralsAt(src, ip, k, at, n) && LitRun(src, ip).Some?
    ensures LitRun(src, ip) == Some(Run(n, at)) && at + n <= |src|
  {
    if src[ip] / 16 == 15 { ExtensionInBytes(src, ip + 1, k); }
  }

  lemma MatchRead(src: seq<Byte>, token: Byte, a: nat, k: nat, len: nat)
    requires a + 2 <= |src| && MatchLengthAt(src, token, a, k, len)
    ensures var m := ReadMatch(src, a, token);
            m.Some? && m.value.offset == src[a] as int + 256 * src[a + 1] as int && m.value.len == len
  {
    if token % 16 == 15 { ExtensionInBytes(src, a + 2, k); }
  }

  /** The literals of a sequence of a valid block are output as they stand behind the token and its extension. */
  lemma LiteralsInBytes(src: seq<Byte>, ip: nat, out: seq<Byte>, end: nat, k: nat, at: nat, n: nat)
    requires Decode(src, ip, out, end).Some? && LiteralsAt(src, ip, k, at, n)
    ensures var text := Decode(src, ip, out, end).value;
            at + n <= |src| && out + src[at..at + n] <= text && (at + n == |src| ==> text == out + src[at..])
  {
    hide LitRun, ReadMatch, CopyMatch, LiteralsAt;
    LiteralsRead(src, ip, k, at, n);
    var out1 := out + src[at..at + n];
    if at + n < |src| {
      var m := ReadMatch(src, at + n, src[ip]).value;
      CopyMatchPeriod(out1, m.offset, m.len);
      var copied := CopyMatch(out1, m.offset, m.len);
      DecodeExtends(src, m.next, copied, end);
      assert Decode(src, ip, out, end).value[..|out1|] == copied[..|out1|];
    }
  }

  /**
   Unless the block ends with the literals, two bytes b0 and b1 follow them, and the output goes on with as many
   bytes as the match is long, each a copy of the one b0 + 256 b1 before it.
   */
  lemma MatchInBytes(src: seq<Byte>, ip: nat, out: seq<Byte>, end: nat, j: nat, at: nat, n: nat, k: nat, len: nat)
    requires Decode(src, ip, out, end).Some? && LiteralsAt(src, ip, j, at, n) && at + n < |src|
    requires MatchLengthAt(src, src[ip], at + n, k, len)
    ensures at + n + 2 <= |src|
    ensures var text, p, back := Decode(src, ip, out, end).value, |out| + n,
            src[at + n] as int + 256 * src[at + n + 1] as int;
            && 1 <= back <= p && p + len <= |text|
            && forall i :: p <= i < p + len ==> text[i] == text[i - back]
  {
    hide LitRun, ReadMatch, CopyMatch, LiteralsAt, MatchLengthAt;
    LiteralsRead(src, ip, j, at, n);
    MatchFits(src, at + n, src[ip]);
    MatchRead(src, src[ip], at + n, k, len);
    var out1, m := out + src[at..at + n], ReadMatch(src, at + n, src[ip]).value;
    CopyMatchPeriod(out1, m.offset, m.len);
    var copied := CopyMatch(out1, m.offset, m.len);
    DecodeExtends(src, m.next, copied, end);
    var text := Decode(src, ip, out, end).value;
    forall i | |out1| <= i < |copied|
      ensures text[i] == text[i - m.offset]
    {
      assert text[..|copied|][i] == copied[i] && text[..|copied|][i - m.offset] == copied[i - m.offset];
    }
  }

  lemma MatchFits(src: seq<Byte>, a: nat, token: Byte)
    requires ReadMatch(src, a, token).Some?
    ensures a + 2 <= |src|
  {
  }

  /** What the compressor writes for a sequence with few literals and a short match. */
  lemma EncodedInBytes(s: Sequence)
    requires |s.lits| < 15 && s.code < 15 && s.offset <= DISTANCE_MAX
    ensures EncodeSeq(s) == [16 * |s.lits| + s.code] + s.lits + [s.offset % 256, s.offset / 256]
  {
  }

  /**
   In every sequence the compressor writes, the low byte of the offset follows the literals, and then the high byte.
   */
  lemma OffsetInBytes(s: Sequence)
    requires s.offset <= DISTANCE_MAX
    ensures var a := 1 + (|s.lits| + 240) / 255 + |s.lits|;
            EncodeSeq(s)[a] == s.offset % 256 && EncodeSeq(s)[a + 1] == s.offset / 256
  {
    hide EncodeLits;
  }

  const VECTOR: seq<Byte> := [0x13, 97, 1, 0, 0x50, 98, 99, 100, 101, 102]
  const VECTOR_CONTENT: seq<Byte> := [97, 97, 97, 97, 97, 97, 97, 97, 98, 99, 100, 101, 102]

  /** A literal, a match at offset 1 and five literals. */
  lemma VectorDecodes()
    ensures Decodes(VECTOR, [], VECTOR_CONTENT)
  {
    hide Decode;
    VectorMatch();
    VectorEnd();
    assert [] + VECTOR_CONTENT == VECTOR_CONTENT;
  }

  lemma VectorMatch()
    ensures Decode(VECTOR, 0, [], 13) == Decode(VECTOR, 4, VECTOR_CONTENT[..8], 13)
  {
    hide LitRun, ReadMatch, CopyMatch, Decode;
    VectorFields();
    VectorCopy();
    assert [] + VECTOR[1..2] == [97];
    DecodeStep(VECTOR, 0, Run(1, 1), MatchRun(1, 7, 4), [], 13);
  }

  lemma VectorFields()
    ensures LitRun(VECTOR, 0) == Some(Run(1, 1)) && ReadMatch(VECTOR, 2, 0x13) == Some(MatchRun(1, 7, 4))
  {
  }

  lemma VectorCopy()
    ensures CopyMatch([97], 1, 7) == VECTOR_CONTENT[..8]
  {
    hide CopyMatch;
    PeriodIsCopyMatch([97], 1, 7, VECTOR_CONTENT[..8]);
  }

  lemma VectorEnd()
    ensures Decode(VECTOR, 4, VECTOR_CONTENT[..8], 13) == Some(VECTOR_CONTENT)
  {
    assert LitRun(VECTOR, 4) == Some(Run(5, 5));
    assert VECTOR_CONTENT[..8] + VECTOR[5..10] == VECTOR_CONTENT;
  }

  method DecompressVector() returns (output: seq<Byte>)
    ensures output == VECTOR_CONTENT
  {
    VectorDecodes();
    var out := new Byte[13];
    var r := Decoder.DecompressSafe(VECTOR, out, 0, 13, VECTOR_CONTENT);
    output := out[..r];
  }
}
