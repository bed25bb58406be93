/**
 Matches that must not be encoded. A block decodes only if every match in it repeats bytes that really
 agree; the compressor breaks this when it cannot tell a match in the block from one in the external
 dictionary, and when its search stands still.
 */
module WrongMatches {
  import opened Bytes
  import opened BlockFormat
  import opened MatchCount
  import opened MatchSearch
  import opened BlockEncoder

  // ----- What a decoder demands of a match -----

  /** A block decodes only if its next match lies within what precedes it, and repeats the bytes it stands for. */
  lemma MatchDemanded(src: seq<Byte>, ip: nat, s: Sequence, out: seq<Byte>, end: nat)
    requires s.offset <= DISTANCE_MAX && At(src, ip, EncodeSeq(s)) && Decode(src, ip, out, end).Some?
    ensures MatchAllowed(|out + s.lits|, s.offset, s.code + MINMATCH, end)
    ensures var text, p := Decode(src, ip, out, end).value, |out + s.lits|;
            Agree(text, p, p - s.offset, s.code + MINMATCH)
  {
    hide *;
    MatchRefused(src, ip, s, out, end);
    AllowedOffset(|out + s.lits|, s.offset, s.code + MINMATCH, end);
    DecodeEncodedSeq(src, ip, s, out, end);
    var copied := CopyMatch(out + s.lits, s.offset, s.code + MINMATCH);
    DecodeExtends(src, ip + |EncodeSeq(s)|, copied, end);
    CopyMatchPeriod(out + s.lits, s.offset, s.code + MINMATCH);
    PeriodAgrees(Decode(src, ip, out, end).value, copied, |out + s.lits|, s.offset, s.code + MINMATCH);
  }

  lemma AllowedOffset(outLen: nat, offset: nat, len: nat, end: nat)
    requires MatchAllowed(outLen, offset, len, end)
    ensures 1 <= offset <= outLen
  {
  }

  lemma MatchRefused(src: seq<Byte>, ip: nat, s: Sequence, out: seq<Byte>, end: nat)
    requires s.offset <= DISTANCE_MAX && At(src, ip, EncodeSeq(s)) && Decode(src, ip, out, end).Some?
    ensures MatchAllowed(|out + s.lits|, s.offset, s.code + MINMATCH, end)
  {
    hide At, LitRun, ReadMatch, CopyMatch, EncodeSeq, EncodeLits, RunExt, OffsetBytes, Token;
    EncodeSeqParts(src, ip, s);
    LitRunEncoded(src, ip, s.lits, s.code);
    ReadMatchEncoded(src, ip + |EncodeLits(s.lits, s.code)|, s, src[ip]);
    AtSlice(src, ip + |EncodeLits(s.lits, s.code)|, OffsetBytes(s.offset) + RunExt(s.code));
  }

  lemma PeriodAgrees(text: seq<Byte>, copied: seq<Byte>, p: nat, offset: nat, len: nat)
    requires 1 <= offset <= p && |copied| == p + len <= |text| && text[..|copied|] == copied
    requires forall k :: p <= k < p + len ==> copied[k] == copied[k - offset]
    ensures Agree(text, p, p - offset, len)
  {
    var x, y := text[p..p + len], text[p - offset..p - offset + len];
    forall k | 0 <= k < len
      ensures x[k] == y[k]
    {
      assert copied[p + k] == text[..|copied|][p + k] && copied[p + k - offset] == text[..|copied|][p + k - offset];
    }
  }

  /**
   Once the sequences so far reconstruct the input up to `anchor`, whatever follows the next one: the
   block decodes to the input only if the match of that sequence agrees with it.
   */
  lemma OnlyUsable(job: Job, ss: seq<Sequence>, need: nat, anchor: nat, ip: nat, offset: nat, code: nat, src: seq<Byte>)
    requires job.Ok() && job.source <= anchor <= ip <= job.End() && offset <= DISTANCE_MAX && need <= job.n
    requires Replay(job.Hist(), ss, job.dictSize + need) == Some(job.Text()[..job.dictSize + anchor - job.source])
    requires At(src, 0, EncodeSeqs(ss + [Sequence(job.mem[anchor..ip], offset, code)]))
    requires Decodes(src, job.Hist(), job.mem[job.source..job.End()])
    ensures var p := job.Place(job.Index(ip)); 1 <= offset <= p && Agree(job.Text(), p, p - offset, code + MINMATCH)
  {
    hide Job.Text, Job.Hist, Replay, Decode, At, EncodeSeq, CopyMatch, Agree;
    var s, end := Sequence(job.mem[anchor..ip], offset, code), job.dictSize + job.n;
    assert (ss + [s])[..|ss|] == ss;
    AtSplit(src, 0, EncodeSeqs(ss), EncodeSeq(s));
    ReplayEndMonotone(job.Hist(), ss, job.dictSize + need, end);
    DecodeEncodedSeqs(src, job.Hist(), ss, end);
    TextUpTo(job, job.n);
    assert job.Text()[..job.dictSize + job.n] == job.Text();
    MatchDemanded(src, |EncodeSeqs(ss)|, s, job.Text()[..job.dictSize + anchor - job.source], end);
  }

  // ----- A dictionary that starts where the block does -----

  /** A candidate that is counted further than its bytes agree. */
  ghost predicate Miscounted(job: Job, ip: nat, index: nat) {
    && Candidate(job, ip, index, MINMATCH) && ip + MFLIMIT <= job.End() && job.Hits(index, ip)
    && !job.Usable(index, ip, Counted(job, ip, index) + MINMATCH)
  }

  /**
   Whether every candidate is counted right, in every block of `n` bytes at `source` with this external dictionary.
   */
  ghost predicate CountsRight(source: nat, n: nat, dictionary: nat, dictSize: nat) {
    forall job: Job, ip: nat, index: nat ::
      job.dict.UsingExtDict? && job.source == source && job.n == n && job.dictionary == dictionary
        && job.dictSize == dictSize
      ==> !Miscounted(job, ip, index)
  }

  /** Zeros, but for some bytes of the block. */
  function Marked(source: nat, n: nat, marks: set<nat>): (m: seq<Byte>)
    ensures |m| == source + n
  {
    seq(source + n, i requires i >= 0 => if source <= i && i - source in marks then 1 else 0)
  }

  function SameStart(source: nat, n: nat, dictSize: nat, marks: set<nat>, slots: nat, hash: seq<Byte> -> nat): Job {
    Job(Marked(source, n, marks), source, n, dictSize, UsingExtDict, source, dictSize, false,
        false, LimitedOutput, 1, slots, hash)
  }

  lemma SameStartOk(source: nat, n: nat, dictSize: nat, marks: set<nat>, slots: nat, hash: seq<Byte> -> nat)
    requires MINMATCH <= dictSize <= n <= MAX_INPUT_SIZE && forall w :: hash(w) < slots
    ensures SameStart(source, n, dictSize, marks, slots, hash).Ok()
  {
  }

  lemma Judge(job: Job, ip: nat, index: nat, k: nat)
    requires job.Ok() && job.source <= ip && job.startIndex <= index < job.Index(ip) && ip + MFLIMIT <= job.End()
    requires job.InWindow(index, job.Index(ip)) && job.Index(ip) - index <= DISTANCE_MAX
    requires Agree(job.mem, ip, job.Address(index), MINMATCH)
    requires ip + k < job.End() && job.mem[ip + k] != job.mem[job.Address(index) + k]
    requires Counted(job, ip, index) + MINMATCH > k
    ensures Miscounted(job, ip, index)
  {
    hide Job.Text, Job.Hist, Agree, Counted, Job.Hits;
    MemoryUsable(job, index, ip, MINMATCH);
    AgreeHits(job, index, ip);
    var n := Counted(job, ip, index) + MINMATCH;
    if job.Usable(index, ip, n) {
      UsableMemory(job, index, ip, n);
      AgreeAt(job.mem, ip, job.Address(index), n, k);
    }
  }

  lemma AgreeHits(job: Job, index: nat, ip: nat)
    requires job.source <= ip && job.InWindow(index, job.Index(ip)) && 0 <= job.Address(index)
    requires Agree(job.mem, ip, job.Address(index), MINMATCH)
    ensures job.Hits(index, ip)
  {
    hide Job.InWindow, Job.Address;
    var x, y := job.mem[ip..ip + MINMATCH], job.mem[job.Address(index)..job.Address(index) + MINMATCH];
    assert x[0] == y[0] && x[1] == y[1] && x[2] == y[2] && x[3] == y[3];
  }

  /** A match in the block that ends where the dictionary does is counted on from the start of the block. */
  lemma CountsAcross(job: Job, ip: nat, index: nat, len: nat)
    requires job.dict.UsingExtDict? && job.dictionary == job.source && job.source <= ip
    requires job.startIndex <= index < job.Index(ip)
    requires len >= MINMATCH && job.Address(index) + len == job.source + job.dictSize
    requires ip + len < job.MatchLimit() <= |job.mem|
    requires Agree(job.mem, ip, job.Address(index), len) && job.mem[ip + len] == job.mem[job.source]
    ensures Counted(job, ip, index) + MINMATCH > len
  {
    hide Agree, Common;
    var m, q := job.mem, job.Address(index);
    CommonFrom(m, ip, q, ip + len, len);
    CommonOne(m, ip + len, job.source, job.MatchLimit());
  }

  lemma CommonOne(m: seq<Byte>, p: nat, q: nat, limit: int)
    requires p < limit && p < |m| && q < |m| && m[p] == m[q]
    ensures Common(m, p, q, limit) >= 1
  {
  }

  lemma MarkedAgree(source: nat, n: nat, marks: set<nat>, a: nat, b: nat, len: nat)
    requires a + len <= n && b + len <= n
    requires forall k :: a <= k < a + len ==> (k in marks <==> k - a + b in marks)
    ensures Agree(Marked(source, n, marks), source + a, source + b, len)
  {
    var m := Marked(source, n, marks);
    var x, y := m[source + a..source + a + len], m[source + b..source + b + len];
    forall k | 0 <= k < len
      ensures x[k] == y[k]
    {
      assert a + k in marks <==> b + k in marks;
    }
  }

  /** A run of zeros reaches the end of the dictionary, where the byte at the start of the block stands. */
  lemma MiscountRun(source: nat, n: nat, dictSize: nat, slots: nat, hash: seq<Byte> -> nat)
    requires 5 <= dictSize && dictSize + 7 <= n <= MAX_INPUT_SIZE && n >= 14 && forall w :: hash(w) < slots
    ensures Miscounted(SameStart(source, n, dictSize, {0, dictSize + 1}, slots, hash), source + 2, dictSize + 1)
  {
    hide Agree, Counted, Miscounted, Job.Ok, Steady;
    var marks := {0, dictSize + 1};
    var job, ip := SameStart(source, n, dictSize, marks, slots, hash), source + 2;
    SameStartOk(source, n, dictSize, marks, slots, hash);
    MarkedAgree(source, n, marks, 2, 1, dictSize - 1);
    AgreeCut(job.mem, ip, source + 1, dictSize - 1, MINMATCH);
    CountsAcross(job, ip, dictSize + 1, dictSize - 1);
    Judge(job, ip, dictSize + 1, dictSize - 1);
  }

  /** With a dictionary of four bytes: a pattern of period three, which goes on as the block starts. */
  lemma MiscountShort(source: nat, n: nat, slots: nat, hash: seq<Byte> -> nat)
    requires 15 <= n <= MAX_INPUT_SIZE && forall w :: hash(w) < slots
    ensures Miscounted(SameStart(source, n, 4, {0, 3, 6, 7}, slots, hash), source + 3, 4)
  {
    hide Agree, Counted, Miscounted, Job.Ok, Steady;
    var marks := {0, 3, 6, 7};
    var job, ip := SameStart(source, n, 4, marks, slots, hash), source + 3;
    SameStartOk(source, n, 4, marks, slots, hash);
    MarkedAgree(source, n, marks, 3, 0, 4);
    CountsAcross(job, ip, 4, 4);
    Judge(job, ip, 4, 4);
  }

  /**
   Candidates are counted right, whatever the content, exactly when the external dictionary does not start
   where the block does or the block is too short; and in blocks of any size exactly when it does not.
   */
  lemma CountingExact(source: nat, dictionary: nat, dictSize: nat)
    requires MINMATCH <= dictSize
    ensures forall n: nat :: n <= MAX_INPUT_SIZE ==>
              (CountsRight(source, n, dictionary, dictSize) <==> dictionary != source || !Outlasts(n, dictSize))
    ensures dictSize <= MAX_INPUT_SIZE - 11 ==>
              (dictionary != source <==> forall n: nat :: CountsRight(source, n, dictionary, dictSize))
  {
    forall n: nat | dictionary != source || !Outlasts(n, dictSize)
      ensures CountsRight(source, n, dictionary, dictSize)
    {
      RightWhen(source, n, dictionary, dictSize);
    }
    forall n: nat | dictionary == source && Outlasts(n, dictSize) && n <= MAX_INPUT_SIZE
      ensures !CountsRight(source, n, dictionary, dictSize)
    {
      if dictSize == MINMATCH {
        MiscountShort(source, n, 1, (w: seq<Byte>) => 0);
      } else {
        MiscountRun(source, n, dictSize, 1, (w: seq<Byte>) => 0);
      }
    }
    if dictSize <= MAX_INPUT_SIZE - 11 && dictionary == source {
      assert !CountsRight(source, dictSize + 11, dictionary, dictSize);
    }
  }

  lemma RightWhen(source: nat, n: nat, dictionary: nat, dictSize: nat)
    requires MINMATCH <= dictSize && (dictionary != source || !Outlasts(n, dictSize))
    ensures CountsRight(source, n, dictionary, dictSize)
  {
    hide Job.Usable, Job.Hits, Job.Ok;
    forall job: Job, ip: nat, index: nat |
      job.dict.UsingExtDict? && job.source == source && job.n == n && job.dictionary == dictionary
        && job.dictSize == dictSize
      ensures !Miscounted(job, ip, index)
    {
      if Candidate(job, ip, index, MINMATCH) { CountedUsable(job, ip, index, MINMATCH); }
    }
  }

  /**
   Such a match is found, whatever the hash: on a table no position has been entered in, which a first
   block of less than 13 bytes leaves behind, the first turn of the search finds nothing and the second
   finds it. Nothing can be written after it that makes the block decode.
   */
  lemma MiscountTaken(source: nat, n: nat, dictSize: nat, slots: nat, hash: seq<Byte> -> nat, t: seq<nat>,
      src: seq<Byte>)
    requires 9 <= dictSize && dictSize + 7 <= n <= MAX_INPUT_SIZE && forall w :: hash(w) < slots
    requires |t| == slots && forall h :: 0 <= h < slots ==> t[h] == 0
    ensures var job := SameStart(source, n, dictSize, {0, dictSize + 1}, slots, hash);
            && job.Ok()
            && var t0 := t[job.Slot(source) := job.Index(source)];
               var t1 := t0[job.Slot(source + 1) := job.Index(source + 1)];
               var index := t1[job.Slot(source + 2)];
               && !job.Hits(t0[job.Slot(source + 1)], source + 1) && Reach(job.acceleration, 1) == 1
               && job.Hits(index, source + 2) && !CanGoBack(job, source + 2, index, source)
               && Miscounted(job, source + 2, index)
               && var s := Sequence(job.mem[source..source + 2], job.Index(source + 2) - index,
                  Counted(job, source + 2, index));
                  (At(src, 0, EncodeSeq(s)) ==> !Decodes(src, job.Hist(), job.mem[source..job.End()]))
  {
    hide Miscounted, Counted, EncodeSeq, Decodes, At, Steady, Counter, Job.Ok, Job.Hits, Job.Slot, CanGoBack;
    var marks := {0, dictSize + 1};
    var job := SameStart(source, n, dictSize, marks, slots, hash);
    SameStartOk(source, n, dictSize, marks, slots, hash);
    MiscountRun(source, n, dictSize, slots, hash);
    ReachNext(1, 0);
    MarkedTurns(job, dictSize);
    MiscountedIs(job, source + 2, dictSize + 1, src);
  }

  lemma MarkedTurns(job: Job, dictSize: nat)
    requires job.Ok() && 9 <= dictSize && dictSize + 7 <= job.n && job.startIndex == dictSize
    requires job == SameStart(job.source, job.n, dictSize, {0, dictSize + 1}, job.slots, job.hash)
    ensures job.Slot(job.source + 1) == job.Slot(job.source + 2)
    ensures !job.Hits(0, job.source + 1) && !job.Hits(dictSize, job.source + 1)
    ensures !CanGoBack(job, job.source + 2, dictSize + 1, job.source)
  {
    assert job.mem[job.source + 1..job.source + 1 + 8] == job.mem[job.source + 2..job.source + 2 + 8];
  }

  /** A block with a miscounted match in its first sequence does not decode to the input. */
  lemma MiscountedIs(job: Job, ip: nat, index: nat, src: seq<Byte>)
    requires Miscounted(job, ip, index)
    ensures job.Ok() && job.Hits(index, ip) && job.source <= ip
    ensures 0 <= job.Index(ip) - index && 0 <= job.Address(index)
    ensures At(src, 0, EncodeSeq(Sequence(job.mem[job.source..ip], job.Index(ip) - index, Counted(job, ip, index))))
            ==> !Decodes(src, job.Hist(), job.mem[job.source..job.End()])
  {
    hide Job.Text, Job.Hist, Counted, EncodeSeq, Decodes, At, Agree, Steady, Job.Hits, Within, Replay, EncodeSeqs;
    var code, offset := Counted(job, ip, index), job.Index(ip) - index;
    var s := Sequence(job.mem[job.source..ip], offset, code);
    if At(src, 0, EncodeSeq(s)) && Decodes(src, job.Hist(), job.mem[job.source..job.End()]) {
      StartReplay(job, s);
      OnlyUsable(job, [], 0, job.source, ip, offset, code, src);
      AgreeInside(job.Text(), job.Place(job.Index(ip)), job.Place(job.Index(ip)) - offset, code + MINMATCH);
    }
  }

  lemma StartReplay(job: Job, s: Sequence)
    requires job.Ok()
    ensures Replay(job.Hist(), [], job.dictSize) == Some(job.Text()[..job.dictSize])
    ensures EncodeSeqs([] + [s]) == EncodeSeq(s)
  {
    assert job.Text()[..job.dictSize] == job.Hist();
    assert [] + [s] == [s];
    assert EncodeSeqs([s]) == EncodeSeqs([s][..0]) + EncodeSeq(s);
  }

  // ----- A search that does not move on -----

  /**
   The match that a search that stands still finds makes the block undecodable: it is found at offset 0,
   and keeps that offset however far it is extended backwards.
   */
  lemma StalledBlock(job: Job, acceleration: nat, t: seq<nat>, ip0: nat, ss: seq<Sequence>, need: nat, anchor: nat,
                     ip: nat,
                     code: nat, src: seq<Byte>)
    requires job.Ok() && |t| == job.slots && job.source <= anchor <= ip <= ip0 + 1 && job.source <= ip0
    requires ip0 + MFLIMIT < job.End()
    requires acceleration >= 1 && acceleration % STEADY_PERIOD == 0 && need <= job.n
    requires Replay(job.Hist(), ss, job.dictSize + need) == Some(job.Text()[..job.dictSize + anchor - job.source])
    ensures Reach(acceleration, 2) == Reach(acceleration, 1) == 1
    ensures var p := ip0 + 1;
            var index := t[job.Slot(p) := job.Index(p)][job.Slot(p)];
            && job.Hits(index, p) && index == job.Index(p)
            && (At(src, 0, EncodeSeqs(ss + [Sequence(job.mem[anchor..ip], job.Index(p) - index, code)]))
                ==> !Decodes(src, job.Hist(), job.mem[job.source..job.End()]))
  {
    hide Job.Text, Job.Hist, Replay, Decodes, At, EncodeSeqs, Counter, Steady;
    StalledSearch(job, acceleration, t, ip0);
    if At(src, 0, EncodeSeqs(ss + [Sequence(job.mem[anchor..ip], 0, code)]))
      && Decodes(src, job.Hist(), job.mem[job.source..job.End()]) {
      OnlyUsable(job, ss, need, anchor, ip, 0, code, src);
    }
  }
}
