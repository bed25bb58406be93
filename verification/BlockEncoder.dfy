/**
 LZ4_compress_generic: the greedy compressor, with unlimited, limited and filling output. What is
 written decodes to exactly the input consumed, and never exceeds the announced bound.
 */
module BlockEncoder {
  import opened Bytes
  import opened BlockFormat
  import opened Copies
  import opened BlockWriter
  import opened MatchCount
  import opened MatchSearch
  import opened GreedyParse

  /** LZ4_COMPRESSBOUND. */
  function CompressBound(n: nat): nat {
    if n > MAX_INPUT_SIZE then 0 else n + n / 255 + 16
  }

  // ----- How far the output can get -----

  /** `t` bytes of output for `a` bytes of input: the ratio kept by every whole sequence. */
  predicate Tight(t: int, a: int) { 255 * t <= 256 * a }

  lemma TightLits(t: nat, a: nat, run: nat, n: nat)
    requires Tight(t, a) && a + run + MFLIMIT <= n
    ensures t + 1 + (run + 240) / 255 + run + 8 <= n + n / 255 + 16
    ensures t + 1 + run + (2 + 1 + LASTLITERALS) + run / 255 <= n + n / 255 + 16
  {
  }

  lemma TightSeq(t: nat, a: nat, run: nat, code: nat, n: nat)
    requires Tight(t, a) && a + run + code + MINMATCH + LASTLITERALS <= n
    ensures var t' := t + 3 + (run + 240) / 255 + run + (code + 240) / 255;
            Tight(t', a + run + code + MINMATCH) && t' + 6 <= n + n / 255 + 16
  {
  }

  lemma TightLast(t: nat, a: nat, n: nat)
    requires Tight(t, a) && a <= n
    ensures t + 1 + (n - a) + (n - a + 240) / 255 <= n + n / 255 + 16
  {
  }

  // ----- What has been written -----

  /**
   The output up to `op` is a list of sequences that reconstructs the input up to `anchor`, in a
   block whose content reaches at least `need`, so that the parsing restrictions hold for them.
   */
  ghost predicate Progress(job: Job, d: seq<Byte>, dest: nat, op: nat, anchor: nat, ss: seq<Sequence>, need: nat)
    requires job.Ok()
  {
    && dest <= op <= |d| && job.source <= anchor <= job.End()
    && d[dest..op] == EncodeSeqs(ss)
    && Replay(job.Hist(), ss, job.dictSize + need) == Some(job.Text()[..job.dictSize + anchor - job.source])
    && need <= job.n && need <= anchor - job.source + 8
    && Tight(op - dest, anchor - job.source)
  }

  lemma TextCopy(job: Job, ip: nat, index: nat, len: nat)
    requires job.Ok() && job.Usable(index, ip, len)
    ensures var out := job.Text()[..job.Place(job.Index(ip))];
            && 1 <= job.Index(ip) - index <= |out|
            && CopyMatch(out, job.Index(ip) - index, len) == job.Text()[..job.Place(job.Index(ip)) + len]
  {
    hide CopyMatch, Job.Text;
    var t, p, q := job.Text(), job.Place(job.Index(ip)), job.Place(index);
    var r := t[..p + len];
    assert r[..p] == t[..p];
    forall k | p <= k < |r|
      ensures r[k] == r[k - (p - q)]
    {
      AgreeAt(t, p, q, len, k - p);
    }
    PeriodIsCopyMatch(t[..p], p - q, len, r);
  }

  /** A usable match extends the reconstruction by its literals and its bytes. */
  lemma ReplayStep(job: Job, ss: seq<Sequence>, need: nat, need': nat, anchor: nat, ip: nat, index: nat, code: nat)
    requires job.Ok() && job.source <= anchor <= ip && job.Usable(index, ip, code + MINMATCH)
    requires Replay(job.Hist(), ss, job.dictSize + need) == Some(job.Text()[..job.dictSize + anchor - job.source])
    requires need <= need' && ip - job.source + MFLIMIT <= need'
    requires ip - job.source + code + MINMATCH + LASTLITERALS <= need'
    ensures var s := Sequence(job.mem[anchor..ip], job.Index(ip) - index, code);
            Replay(job.Hist(), ss + [s], job.dictSize + need')
            == Some(job.Text()[..job.dictSize + ip + code + MINMATCH - job.source])
  {
    hide CopyMatch, Job.Text, Job.Hist, Agree, Replay, Steady;
    var s := Sequence(job.mem[anchor..ip], job.Index(ip) - index, code);
    ReplayEndMonotone(job.Hist(), ss, job.dictSize + need, job.dictSize + need');
    TextBlock(job, anchor - job.source, ip - job.source);
    var t, a, p := job.Text(), job.dictSize + anchor - job.source, job.dictSize + ip - job.source;
    assert t[..p] == t[..a] + t[a..p];
    TextCopy(job, ip, index, code + MINMATCH);
    UsableReach(job, index, ip, code + MINMATCH);
    ReplayMore(job.Hist(), ss, s, job.dictSize + need', t[..a]);
  }

  lemma UsableReach(job: Job, index: nat, ip: nat, len: nat)
    requires job.Ok() && job.Usable(index, ip, len)
    ensures job.source <= ip && ip + len <= job.End() && 0 < job.Index(ip) - index <= DISTANCE_MAX
    ensures job.Index(ip) - index <= job.dictSize + ip - job.source
  {
    hide Job.Text, Job.Hist, Agree, Steady;
  }

  lemma ReplayMore(hist: seq<Byte>, ss: seq<Sequence>, s: Sequence, end: nat, before: seq<Byte>)
    requires Replay(hist, ss, end) == Some(before) && s.offset <= DISTANCE_MAX
    requires MatchAllowed(|before + s.lits|, s.offset, s.code + MINMATCH, end)
    ensures Replay(hist, ss + [s], end) == Some(CopyMatch(before + s.lits, s.offset, s.code + MINMATCH))
  {
    hide CopyMatch;
    assert (ss + [s])[..|ss|] == ss;
  }

  lemma EncodeStep(d: seq<Byte>, dest: nat, token: nat, op: nat, ss: seq<Sequence>, s: Sequence)
    requires dest <= token <= op <= |d| && d[dest..token] == EncodeSeqs(ss) && d[token..op] == EncodeSeq(s)
    ensures d[dest..op] == EncodeSeqs(ss + [s])
  {
    hide EncodeSeq;
    assert (ss + [s])[..|ss|] == ss;
    assert d[dest..op] == d[dest..token] + d[token..op];
  }

  // ----- Encoding one match -----

  /**
   Counts the match at `ip0` and, when the output is limited, makes sure its length fits: a limited
   block gives up, a filling one shortens the match and takes the positions beyond it off the table.
   */
  method CountAndFit(job: Job, table: array<nat>, op: nat, limit: nat, ip0: nat, index: nat, filledIp: nat,
                     ghost known: nat, ghost top: nat)
    returns (ok: bool, code: nat, ip: nat)
    requires Candidate(job, ip0, index, known) && job.TellsApart() && job.source <= ip0 && top < ip0 + known
    requires job.source <= filledIp <= top && (top == ip0 || top == filledIp) && top + MFLIMIT <= job.End()
    requires job.TableOk(table[..], job.Index(top) + 1)
    requires job.mode.FillOutput? ==> op + 9 <= limit
    modifies table
    ensures ip0 + code + MINMATCH <= job.MatchLimit() && 0 <= job.Address(index)
    ensures !job.mode.FillOutput? || code == Counted(job, ip0, index) ==>
              code == Counted(job, ip0, index) && table[..] == old(table[..])
    ensures code != Counted(job, ip0, index) ==>
              (code + 240) / 255 < (Counted(job, ip0, index) + 240) / 255 && op + 6 + (code + 240) / 255 == limit
    ensures !ok ==>
              && job.mode.LimitedOutput? && op + 6 + (code + 240) / 255 > limit
              && job.TableOk(table[..], job.Index(top) + 1)
    ensures ok ==>
              && ip == ip0 + code + MINMATCH && job.Usable(index, ip0, code + MINMATCH)
              && job.TableOk(table[..], job.Index(ip))
              && (!job.mode.NotLimited? ==> op + 6 + (code + 240) / 255 <= limit)
              && (filledIp < ip || (job.mode.FillOutput? && op + 6 + (code + 240) / 255 == limit))
  {
    hide Job.Usable, Job.EntryOk, Job.Slot, Counted, Job.TellsApart, Within, Job.Address;
    ok := true;
    code := CountMatch(job, ip0, index, known);
    ip := ip0 + code + MINMATCH;
    if !job.mode.NotLimited? && op + (1 + LASTLITERALS) + (code + 240) / 255 > limit {
      if job.mode.FillOutput? {
        var newCode := 15 - 1 + (limit - op - 1 - LASTLITERALS) * 255;
        ip := ip - (code - newCode);
        UsableCut(job, index, ip0, code + MINMATCH, newCode + MINMATCH);
        code := newCode;
        if ip <= filledIp {
          ClearPositions(job, table, ip, filledIp);
        }
      } else {
        ok := false;
      }
    }
  }

  datatype Outcome = Encoded | Rewound | Failed

  /** Where the literals of a sequence have been written, and its match is to follow. */
  ghost predicate Pending(job: Job, d: seq<Byte>, dest: nat, token: nat, op: nat, anchor: nat, ip: nat,
                          ss: seq<Sequence>, need: nat)
    requires job.Ok()
  {
    && Progress(job, d, dest, token, anchor, ss, need)
    && anchor <= ip && ip + MFLIMIT <= job.End()
    && op == token + 1 + (ip - anchor + 240) / 255 + ip - anchor && op <= |d|
    && d[token..op] == EncodeLits(job.mem[anchor..ip], 0)
  }

  /** The space the next sequence may count on: for the token and offset, and in filling mode for the last literals. */
  predicate Room(job: Job, op: int, limit: int, anchor: int, need: int) {
    && (job.mode.LimitedOutput? ==> op + 6 <= limit)
    && (job.mode.FillOutput? ==> op + 6 <= limit && op + 1 + (need - (anchor - job.source)) <= limit)
  }

  function NextNeed(job: Job, need: nat, ip: nat, code: nat): nat
    requires job.source <= ip
  {
    var a := ip - job.source;
    var n := if a + MFLIMIT > a + code + MINMATCH + LASTLITERALS then a + MFLIMIT
      else a + code + MINMATCH + LASTLITERALS;
    if n > need then n else need
  }

  /** A complete sequence advances the output and the reconstruction together. */
  lemma ProgressStep(job: Job, d: seq<Byte>, d': seq<Byte>, dest: nat, token: nat, op1: nat, op: nat, limit: nat,
                     anchor: nat, ip: nat, index: nat, code: nat, ss: seq<Sequence>, need: nat)
    requires job.Ok() && op1 >= 2 && Pending(job, d, dest, token, op1 - 2, anchor, ip, ss, need)
    requires job.Usable(index, ip, code + MINMATCH) && ip + code + MINMATCH <= job.MatchLimit()
    requires |d'| == |d| && op == op1 + (code + 240) / 255 <= |d'| && d'[dest..token] == d[dest..token]
    requires d'[token..op] == EncodeSeq(Sequence(job.mem[anchor..ip], job.Index(ip) - index, code))
    ensures var s := Sequence(job.mem[anchor..ip], job.Index(ip) - index, code);
            Progress(job, d', dest, op, ip + code + MINMATCH, ss + [s], NextNeed(job, need, ip, code))
    ensures op - dest + 6 <= CompressBound(job.n)
  {
    hide Job.Text, Job.Hist, EncodeSeq, EncodeLits, Replay, CopyMatch, Agree;
    var need' := NextNeed(job, need, ip, code);
    ReplayStep(job, ss, need, need', anchor, ip, index, code);
    EncodeStep(d', dest, token, op, ss, Sequence(job.mem[anchor..ip], job.Index(ip) - index, code));
    TightSeq(token - dest, anchor - job.source, ip - anchor, code, job.n);
  }

  /** The sequence of a match at `ip` with the literals before it. */
  ghost function Found(job: Job, anchor: nat, ip: nat, index: nat): Sequence
    requires anchor <= ip <= |job.mem| && job.source <= ip && index < job.Index(ip) && 0 <= job.Address(index)
  {
    Sequence(job.mem[anchor..ip], job.Index(ip) - index, Counted(job, ip, index))
  }

  /** `s` is the sequence `a` with a shorter match, which takes fewer bytes. */
  predicate Shorter(s: Sequence, a: Sequence) {
    s.lits == a.lits && s.offset == a.offset && (s.code + 240) / 255 < (a.code + 240) / 255
  }

  predicate CutTo(ss: seq<Sequence>, s: Sequence, ss': seq<Sequence>) {
    |ss'| == |ss| + 1 && ss'[..|ss|] == ss && Shorter(ss'[|ss|], s)
  }

  /** Written at `op`, the sequence leaves no room for the least last literals. */
  ghost predicate Overflows(s: Sequence, op: nat, limit: nat) {
    op + |EncodeSeq(s)| + 1 + LASTLITERALS > limit
  }

  lemma Emitted(job: Job, anchor: nat, ip: nat, index: nat, code: nat, ss: seq<Sequence>)
    requires anchor <= ip <= |job.mem| && job.source <= ip && index < job.Index(ip) && 0 <= job.Address(index)
    ensures var s, s' := Found(job, anchor, ip, index), Sequence(job.mem[anchor..ip], job.Index(ip) - index, code);
            && s.code == Counted(job, ip, index)
            && (code == s.code ==> s' == s) && ((code + 240) / 255 < (s.code + 240) / 255 ==> CutTo(ss, s, ss + [s']))
  {
    hide Counted;
  }

  lemma MatchOverflows(job: Job, anchor: nat, ip: nat, index: nat, token: nat, limit: nat)
    requires anchor <= ip <= |job.mem| && job.source <= ip && index < job.Index(ip) && 0 <= job.Address(index)
    requires token + 1 + (ip - anchor + 240) / 255 + (ip - anchor) + 2 + 6
             + (Counted(job, ip, index) + 240) / 255 > limit
    ensures Overflows(Found(job, anchor, ip, index), token, limit)
  {
    hide Counted;
  }

  /**
   From _next_match to the end of a sequence: offset and match length are written, or in filling
   mode the whole sequence is given up, or in limited mode the block is.
   */
  method EncodeMatch(job: Job, table: array<nat>, dst: array<Byte>, dest: nat, limit: nat,
                     token: nat, op0: nat, anchor: nat, ip0: nat, index: nat, filledIp: nat,
                     ghost known: nat, ghost top: nat, ghost ss: seq<Sequence>, ghost need: nat)
    returns (outcome: Outcome, ip: nat, op: nat, ghost ss': seq<Sequence>, ghost need': nat)
    requires job.Ok() && dest <= limit <= dst.Length && Pending(job, dst[..], dest, token, op0, anchor, ip0, ss, need)
    requires job.TellsApart() && known >= MINMATCH && ip0 + known - MINMATCH + MFLIMIT <= job.End() && top < ip0 + known
    requires job.Usable(index, ip0, known) && Within(job, index, known)
    requires job.source <= filledIp && (filledIp <= top || (job.mode.FillOutput? && op0 + 11 > limit))
    requires (top == ip0 || top == filledIp) && top + MFLIMIT <= job.End()
    requires job.TableOk(table[..], job.Index(top) + 1)
    requires job.mode.NotLimited? ==> limit - dest >= CompressBound(job.n)
    requires job.mode.LimitedOutput? ==> op0 + 2 <= limit
    modifies table, dst
    ensures SameOutside(dst[..], old(dst[..]), token, limit) && 0 <= job.Address(index) && index < job.Index(ip0)
    ensures outcome.Failed? ==> job.mode.LimitedOutput? && limit - dest < CompressBound(job.n)
    ensures outcome.Failed? ==> Overflows(Found(job, anchor, ip0, index), token, limit)
    ensures outcome.Rewound? <==> job.mode.FillOutput? && op0 + 11 > limit
    ensures outcome.Encoded? ==>
              var s := Found(job, anchor, ip0, index);
              || (ip == ip0 + s.code + MINMATCH && ss' == ss + [s] && table[..] == old(table[..]))
              || (job.mode.FillOutput? && op + 6 == limit && CutTo(ss, s, ss'))
    ensures !outcome.Encoded? ==> job.TableOk(table[..], job.Index(top) + 1)
    ensures outcome.Rewound? ==>
              job.mode.FillOutput? && op == token && dst[..] == old(dst[..]) && ss' == ss && need' == need
    ensures outcome.Encoded? ==>
              && anchor + MINMATCH <= ip <= job.MatchLimit() && job.TableOk(table[..], job.Index(ip))
              && (filledIp < ip || (job.mode.FillOutput? && op + 6 == limit))
              && Progress(job, dst[..], dest, op, ip, ss', need') && Room(job, op, limit, ip, need')
              && op - dest + 6 <= CompressBound(job.n)
  {
    hide Job.Usable, Job.EntryOk, Job.Slot, Progress, EncodeSeq, EncodeLits, Job.TableOk, Job.TellsApart, Within,
         Steady, Tight, Counted, Overflows, Job.Address, CutTo, Found, Pending, Room, NextNeed;
    ss', need', ip, op := ss, need, ip0, token;
    UsableOffset(job, index, ip0, known);
    PendingOp(job, dst[..], dest, token, op0, anchor, ip0, ss, need);
    if job.mode.FillOutput? && op0 + 2 + 1 + MFLIMIT - MINMATCH > limit {
      return Rewound, ip, op, ss', need';
    }
    var ok, code;
    ok, ip, op, code := EmitMatch(job, table, dst, dest, limit, token, op0, anchor, ip0, index, filledIp, known, top,
                                  ss, need);
    if !ok {
      MatchOverflows(job, anchor, ip0, index, token, limit);
      return Failed, ip, op, ss', need';
    }
    Emitted(job, anchor, ip0, index, code, ss);
    ss', need' := ss + [Sequence(job.mem[anchor..ip0], job.Index(ip0) - index, code)], NextNeed(job, need, ip0, code);
    outcome := Encoded;
  }

  /** Offset and match length of a match that is not rewound. */
  method EmitMatch(job: Job, table: array<nat>, dst: array<Byte>, dest: nat, limit: nat,
                   token: nat, op0: nat, anchor: nat, ip0: nat, index: nat, filledIp: nat,
                   ghost known: nat, ghost top: nat, ghost ss: seq<Sequence>, ghost need: nat)
    returns (ok: bool, ip: nat, op: nat, code: nat)
    requires job.Ok() && dest <= limit <= dst.Length && Pending(job, dst[..], dest, token, op0, anchor, ip0, ss, need)
    requires job.TellsApart() && known >= MINMATCH && ip0 + known - MINMATCH + MFLIMIT <= job.End() && top < ip0 + known
    requires job.Usable(index, ip0, known) && Within(job, index, known)
    requires job.source <= filledIp <= top && (job.mode.FillOutput? ==> op0 + 11 <= limit)
    requires (top == ip0 || top == filledIp) && top + MFLIMIT <= job.End()
    requires job.TableOk(table[..], job.Index(top) + 1)
    requires job.mode.NotLimited? ==> limit - dest >= CompressBound(job.n)
    requires job.mode.LimitedOutput? ==> op0 + 2 <= limit
    modifies table, dst
    ensures SameOutside(dst[..], old(dst[..]), token, limit) && job.source <= ip0 && index < job.Index(ip0)
    ensures 0 <= job.Address(index) && anchor <= ip0 && op == op0 + 2 + (code + 240) / 255
    ensures ip == ip0 + code + MINMATCH
    ensures !job.mode.FillOutput? || code == Counted(job, ip0, index) ==>
              code == Counted(job, ip0, index) && table[..] == old(table[..])
    ensures code != Counted(job, ip0, index) ==>
              (code + 240) / 255 < (Counted(job, ip0, index) + 240) / 255 && op + 6 == limit
    ensures !ok ==> job.mode.LimitedOutput? && limit - dest < CompressBound(job.n) && op + 6 > limit
    ensures !ok ==> job.TableOk(table[..], job.Index(top) + 1)
    ensures ok ==>
              && anchor + MINMATCH <= ip <= job.MatchLimit() && job.TableOk(table[..], job.Index(ip))
              && (filledIp < ip || (job.mode.FillOutput? && op + 6 == limit))
              && Progress(job, dst[..], dest, op, ip, ss + [Sequence(job.mem[anchor..ip0],
                          job.Index(ip0) - index, code)], NextNeed(job, need, ip0, code))
              && Room(job, op, limit, ip, NextNeed(job, need, ip0, code)) && op - dest + 6 <= CompressBound(job.n)
  {
    hide Job.Usable, Job.EntryOk, Job.Slot, Progress, EncodeSeq, EncodeLits, Job.TableOk, Job.TellsApart, Within,
         Steady, Tight, Counted, Job.Address;
    PendingRoom(job, dst[..], dest, token, op0, anchor, ip0, ss, need);
    UsableOffset(job, index, ip0, known);
    var offset := job.Index(ip0) - index;
    PutOffset(dst, dest, token, op0, offset, job.mem[anchor..ip0]);
    ghost var d := dst[..];
    ok, code, ip := CountAndFit(job, table, op0 + 2, limit, ip0, index, filledIp, known, top);
    CodeRoom(job, dest, token, anchor, ip0, code);
    if !ok {
      op, ip := op0 + 2 + (code + 240) / 255, ip0 + code + MINMATCH;
      return;
    }
    op := WriteCode(dst, token, op0 + 2, job.mem[anchor..ip0], offset, code);
    SameSlice(dst[..], d, token, op + 3, dest, token);
    ProgressStep(job, old(dst[..]), dst[..], dest, token, op0 + 2, op, limit, anchor, ip0, index, code, ss, need);
  }

  lemma PendingOp(job: Job, d: seq<Byte>, dest: nat, token: nat, op: nat, anchor: nat, ip: nat, ss: seq<Sequence>,
                  need: nat)
    requires job.Ok() && Pending(job, d, dest, token, op, anchor, ip, ss, need)
    ensures anchor <= ip && op == token + 1 + (ip - anchor + 240) / 255 + ip - anchor
  {
    hide Progress, EncodeLits;
  }

  lemma UsableOffset(job: Job, index: nat, ip: nat, len: nat)
    requires job.Ok() && job.Usable(index, ip, len)
    ensures job.source <= ip && 0 < job.Index(ip) - index <= DISTANCE_MAX && 0 <= job.Address(index)
  {
  }

  method PutOffset(dst: array<Byte>, dest: nat, token: nat, op: nat, offset: nat, ghost lits: seq<Byte>)
    requires dest <= token <= op && op + 2 <= dst.Length && dst[token..op] == EncodeLits(lits, 0)
    modifies dst
    ensures SameOutside(dst[..], old(dst[..]), op, op + 2)
    ensures dst[token..op + 2] == EncodeLits(lits, 0) + OffsetBytes(offset)
    ensures dst[dest..token] == old(dst[dest..token])
  {
    hide EncodeLits, OffsetBytes;
    WriteOffset(dst, op, offset);
    SameSlice(dst[..], old(dst[..]), op, op + 2, dest, token);
    SameSlice(dst[..], old(dst[..]), op, op + 2, token, op);
    assert dst[token..op + 2] == dst[token..op] + dst[op..op + 2];
  }

  lemma PendingRoom(job: Job, d: seq<Byte>, dest: nat, token: nat, op: nat, anchor: nat, ip: nat, ss: seq<Sequence>,
                    need: nat)
    requires job.Ok() && Pending(job, d, dest, token, op, anchor, ip, ss, need)
    ensures dest <= token < op && job.source <= anchor && Tight(token - dest, anchor - job.source)
    ensures need <= anchor - job.source + 8 && op == token + 1 + (ip - anchor + 240) / 255 + ip - anchor
    ensures |EncodeLits(job.mem[anchor..ip], 0)| == op - token
    ensures op - dest + 8 <= CompressBound(job.n)
  {
    hide EncodeSeqs, Replay, Job.Text, Job.Hist;
    TightLits(token - dest, anchor - job.source, ip - anchor, job.n);
  }

  lemma CodeRoom(job: Job, dest: nat, token: nat, anchor: nat, ip: nat, code: nat)
    requires job.Ok() && dest <= token && job.source <= anchor <= ip && Tight(token - dest, anchor - job.source)
    requires ip + code + MINMATCH <= job.MatchLimit()
    ensures token - dest + 3 + (ip - anchor + 240) / 255 + (ip - anchor) + (code + 240) / 255 + 6
         <= CompressBound(job.n)
  {
    TightSeq(token - dest, anchor - job.source, ip - anchor, code, job.n);
  }

  /** The literals between `anchor` and a match at `ip`, if the output has room for them and a match. */
  method EncodeLiterals(job: Job, dst: array<Byte>, dest: nat, limit: nat, op0: nat, anchor: nat, ip: nat,
                        ghost ss: seq<Sequence>, ghost need: nat)
    returns (outcome: Outcome, op: nat)
    requires job.Ok() && dest <= limit <= dst.Length && Progress(job, dst[..], dest, op0, anchor, ss, need)
    requires anchor <= ip && ip + MFLIMIT <= job.End()
    requires job.mode.NotLimited? ==> limit - dest >= CompressBound(job.n)
    modifies dst
    ensures SameOutside(dst[..], old(dst[..]), op0, limit)
    ensures outcome.Failed? ==> job.mode.LimitedOutput? && limit - dest < CompressBound(job.n)
    ensures outcome.Failed? ==> op0 + 9 + (ip - anchor) + (ip - anchor) / 255 > limit
    ensures outcome.Rewound? ==> op == op0 && dst[..] == old(dst[..])
    ensures outcome.Rewound? <==>
              job.mode.FillOutput? && op0 + 12 + (ip - anchor + 240) / 255 + (ip - anchor) > limit
    ensures outcome.Encoded? ==> Pending(job, dst[..], dest, op0, op, anchor, ip, ss, need)
    ensures outcome.Encoded? && job.mode.LimitedOutput? ==> op + 2 <= limit
  {
    hide Replay, EncodeSeqs, EncodeLits, Job.Text, Job.Hist;
    var run := ip - anchor;
    op := op0;
    TightLits(op0 - dest, anchor - job.source, run, job.n);
    if job.mode.LimitedOutput? && op + 1 + run + (2 + 1 + LASTLITERALS) + run / 255 > limit {
      return Failed, op;
    }
    if job.mode.FillOutput? && op + 1 + (run + 240) / 255 + run + 2 + 1 + MFLIMIT - MINMATCH > limit {
      return Rewound, op;
    }
    op := WriteLits(dst, op0, job.mem, anchor, run);
    SameSlice(dst[..], old(dst[..]), op0, op + Overshoot(run), dest, op0);
    outcome := Encoded;
  }

  /** How many last literals fit in `space` bytes. */
  function FittingRun(space: nat): (run: nat)
    ensures 1 + run + (run + 240) / 255 <= 1 + space
    ensures run >= space || run >= 8
    ensures run + (run + 240) / 255 + 1 + space / 65025 >= space
  {
    space - (space + 240) / 255
  }

  /** The last literals of the block; a filling output takes as many as it has room for. */
  method LastLiterals(job: Job, dst: array<Byte>, dest: nat, limit: nat, op0: nat, anchor: nat,
                      ghost ss: seq<Sequence>, ghost need: nat)
    returns (ok: bool, op: nat, consumed: nat)
    requires job.Ok() && dest <= limit <= dst.Length && Progress(job, dst[..], dest, op0, anchor, ss, need)
    requires job.mode.NotLimited? ==> limit - dest >= CompressBound(job.n)
    requires job.mode.FillOutput? ==> op0 + 1 <= limit && op0 + 1 + (need - (anchor - job.source)) <= limit
    modifies dst
    ensures SameOutside(dst[..], old(dst[..]), op0, limit)
    ensures !ok ==> job.mode.LimitedOutput? && limit - dest < CompressBound(job.n)
    ensures !ok ==> |EncodeSeqs(ss)| + |EncodeLits(job.mem[anchor..job.End()], 0)| > limit - dest
    ensures ok ==>
              && dest < op <= limit && op - dest <= CompressBound(job.n) && consumed <= job.n
              && (!job.mode.FillOutput? ==> consumed == job.n)
              && (consumed == job.n || op - dest + 1 + (limit - dest) / 65025 >= limit - dest)
              && anchor - job.source <= consumed
              && dst[dest..op] == EncodeSeqs(ss) + EncodeLits(job.mem[anchor..job.source + consumed], 0)
              && Decodes(dst[dest..op], job.Hist(), job.mem[job.source..job.source + consumed])
              && (job.n == 0 ==> dst[dest..op] == [0])
  {
    hide Progress, EncodeSeqs, EncodeLits, Job.Text, Job.Hist, Decodes, Tight, Steady, Replay;
    ProgressParts(job, dst[..], dest, op0, anchor, ss, need);
    var run;
    op, consumed := op0, 0;
    ok, run := LastRun(job, dest, limit, op0, anchor, need);
    if !ok { return; }
    op := WriteLast(dst, op0, job.mem, anchor, run);
    SameSlice(dst[..], old(dst[..]), op0, op, dest, op0);
    assert dst[dest..op] == dst[dest..op0] + dst[op0..op];
    consumed := anchor - job.source + run;
    BlockDecodes(job, anchor, run, ss, need);
    if job.n == 0 { EmptyLits(job.mem[anchor..anchor]); }
  }

  /** How many last literals are written: all, or in a filling output as many as fit. */
  method LastRun(job: Job, dest: nat, limit: nat, op: nat, anchor: nat, ghost need: nat) returns (ok: bool, run: nat)
    requires job.Ok() && dest <= op && dest <= limit && job.source <= anchor <= job.End() && need <= job.n
    requires need <= anchor - job.source + 8 && Tight(op - dest, anchor - job.source)
    requires job.mode.NotLimited? ==> limit - dest >= CompressBound(job.n)
    requires job.mode.FillOutput? ==> op + 1 <= limit && op + 1 + (need - (anchor - job.source)) <= limit
    ensures anchor + run <= job.End() && (!job.mode.FillOutput? ==> anchor + run == job.End())
    ensures !ok ==> job.mode.LimitedOutput? && limit - dest < CompressBound(job.n)
    ensures !ok ==> op - dest + 1 + run + (run + 240) / 255 > limit - dest
    ensures ok ==>
              var size := op - dest + 1 + run + (run + 240) / 255;
              && need <= anchor - job.source + run && size <= limit - dest && size <= CompressBound(job.n)
              && (anchor + run == job.End() || size + 1 + (limit - dest) / 65025 >= limit - dest)
  {
    ok, run := true, job.End() - anchor;
    TightLast(op - dest, anchor - job.source, job.n);
    hide Steady, Tight;
    if !job.mode.NotLimited? && op + run + 1 + (run + 240) / 255 > limit {
      if job.mode.FillOutput? {
        run := FittingRun(limit - op - 1);
      } else {
        ok := false;
      }
    }
  }

  lemma ProgressParts(job: Job, d: seq<Byte>, dest: nat, op: nat, anchor: nat, ss: seq<Sequence>, need: nat)
    requires job.Ok() && Progress(job, d, dest, op, anchor, ss, need)
    ensures dest <= op <= |d| && job.source <= anchor <= job.End() && d[dest..op] == EncodeSeqs(ss)
    ensures need <= job.n && need <= anchor - job.source + 8 && Tight(op - dest, anchor - job.source)
    ensures Replay(job.Hist(), ss, job.dictSize + need) == Some(job.Text()[..job.dictSize + anchor - job.source])
  {
  }

  lemma EmptyLits(lits: seq<Byte>)
    requires lits == []
    ensures EncodeLits(lits, 0) == [0]
  {
  }

  lemma BlockDecodes(job: Job, anchor: nat, run: nat, ss: seq<Sequence>, need: nat)
    requires job.Ok() && job.source <= anchor && anchor + run <= job.End() && need <= anchor - job.source + run
    requires Replay(job.Hist(), ss, job.dictSize + need) == Some(job.Text()[..job.dictSize + anchor - job.source])
    ensures Decodes(EncodeSeqs(ss) + EncodeLits(job.mem[anchor..anchor + run], 0), job.Hist(),
                    job.mem[job.source..anchor + run])
  {
    hide Replay, EncodeSeqs, EncodeLits, Job.Text, Job.Hist, Decode;
    var last, end := job.mem[anchor..anchor + run], job.dictSize + anchor - job.source + run;
    ReplayEndMonotone(job.Hist(), ss, job.dictSize + need, end);
    DecodeEncoded(job.Hist(), ss, last, end);
    TextUpTo(job, anchor - job.source);
    SplitContent(job.Hist(), job.mem, job.source, anchor, anchor + run);
  }

  lemma SplitContent(hist: seq<Byte>, m: seq<Byte>, a: nat, b: nat, c: nat)
    requires a <= b <= c <= |m|
    ensures hist + m[a..b] + m[b..c] == hist + m[a..c]
  {
    assert m[a..c] == m[a..b] + m[b..c];
  }

  lemma TextUpTo(job: Job, a: nat)
    requires job.Ok() && a <= job.n
    ensures job.Text()[..job.dictSize + a] == job.Hist() + job.mem[job.source..job.source + a]
  {
    hide Job.Hist;
    assert job.mem[job.source..job.source + a] == job.mem[job.source..job.source + job.n][..a];
  }

  // ----- The main loop -----

  /**
   Enters the position before last, and tests the one right after the match; a hit starts a sequence without literals.
   */
  method AfterMatch(job: Job, table: array<nat>, dst: array<Byte>, dest: nat, limit: nat, op0: nat, ip: nat,
                    ghost ss: seq<Sequence>, ghost need: nat)
    returns (found: bool, index: nat, op: nat)
    requires job.Ok() && dest <= limit <= dst.Length && Progress(job, dst[..], dest, op0, ip, ss, need)
    requires job.source + 2 <= ip < job.MfLimitPlusOne() && job.TableOk(table[..], job.Index(ip)) && op0 + 6 <= limit
    modifies table, dst
    ensures SameOutside(dst[..], old(dst[..]), op0, limit)
    ensures job.TableOk(table[..], job.Index(ip) + 1)
    ensures found ==>
              job.Usable(index, ip, MINMATCH) && Pending(job, dst[..], dest, op0, op, ip, ip, ss, need) && op == op0 + 1
    ensures !found ==> op == op0 && dst[..] == old(dst[..])
    ensures var t1 := Entered(job, old(table[..]), ip - 2);
            && index == t1[job.Slot(ip)] && (found <==> Takes(job, index, ip)) && table[..] == Entered(job, t1, ip)
  {
    hide Progress, Pending, Tight, Steady, Job.TableOk, Job.Usable, Job.EntryOk, Job.Slot, EncodeLits;
    op := op0;
    ProgressBasics(job, dst[..], dest, op0, ip, ss, need);
    PutPosition(job, table, ip - 2, job.Index(ip));
    found, index := TestNext(job, table, ip);
    if found {
      dst[op] := 0;
      op := op + 1;
      NoLiterals(job, old(dst[..]), dst[..], dest, op0, ip, ss, need);
    }
  }

  /** A sequence without literals has been begun. */
  lemma NoLiterals(job: Job, d: seq<Byte>, d': seq<Byte>, dest: nat, op: nat, ip: nat, ss: seq<Sequence>, need: nat)
    requires job.Ok() && Progress(job, d, dest, op, ip, ss, need) && ip + MFLIMIT <= job.End()
    requires op < |d| && d' == d[op := 0]
    ensures Pending(job, d', dest, op, op + 1, ip, ip, ss, need)
  {
    hide Replay, EncodeSeqs, Job.Text, Job.Hist, Steady;
    assert d'[dest..op] == d[dest..op];
    assert d'[op..op + 1] == [0] && job.mem[ip..ip] == [];
  }

  /** The local variables of the main loop. */
  datatype State = State(ip: nat, anchor: nat, token: nat, op: nat, index: nat, filledIp: nat)

  datatype Exit = Search | Match | Stop | Fail

  /** The sequences still to come, and where they lead. */
  ghost function Rest(job: Job, t: seq<nat>, exit: Exit, st: State): Parsed {
    if exit == Search && Seeks(job, t, st.ip, st.anchor) then FromSearch(job, t, st.ip, st.anchor)
    else if exit == Match && Meets(job, t, st.ip, st.index, st.anchor)
      then FromMatch(job, t, st.ip, st.index, st.anchor)
    else Parsed([], st.anchor, t)
  }

  /** `ss`, and then what is still to come. */
  ghost function Then(ss: seq<Sequence>, p: Parsed): Parsed { Parsed(ss + p.ss, p.anchor, p.table) }

  /** `ss` are the first sequences of `goal`, the last of them shortened. */
  ghost predicate Shortened(ss: seq<Sequence>, goal: seq<Sequence>) {
    0 < |ss| <= |goal| && ss[..|ss| - 1] == goal[..|ss| - 1] && Shorter(ss[|ss| - 1], goal[|ss| - 1])
  }

  /** With this sequence, a filling output would not have room for the least last literals of a shortened match. */
  predicate NoRoomFor(s: Sequence, op: nat, limit: nat) {
    op + 12 + (|s.lits| + 240) / 255 + |s.lits| > limit
  }

  /**
   What a filling output holds of the sequences of a block: all of them; as many as leave room; or as many as there
   is room for when the last is shortened, and then to the last byte.
   */
  ghost predicate Fills(ss: seq<Sequence>, goal: seq<Sequence>, op: nat, limit: nat) {
    || ss == goal
    || (|ss| < |goal| && ss == goal[..|ss|] && NoRoomFor(goal[|ss|], op, limit))
    || (Shortened(ss, goal) && op + 6 == limit)
  }

  /** The sequences are those of the block, or as many as fill the output. */
  ghost predicate Ended(job: Job, goal: Parsed, t: seq<nat>, st: State, ss: seq<Sequence>, limit: nat) {
    goal == Parsed(ss, st.anchor, t) || (job.mode.FillOutput? && Fills(ss, goal.ss, st.op, limit))
  }

  /** Where the sequences so far stand among those of the block. */
  ghost predicate OnTheWay(job: Job, goal: Parsed, t: seq<nat>, exit: Exit, st: State, ss: seq<Sequence>, limit: nat) {
    || goal == Then(ss, Rest(job, t, exit, st))
    || (&& job.mode.FillOutput?
        && match exit
           case Search => Shortened(ss, goal.ss) && st.op + 6 == limit
           case Match => Shortened(ss, goal.ss) && st.token + 6 == limit && st.op == st.token + 1
           case Stop => Fills(ss, goal.ss, st.op, limit)
           case Fail => false)
  }

  predicate FillRoom(job: Job, op: int, limit: int, anchor: int, need: int) {
    job.mode.FillOutput? ==> op + 1 <= limit && op + 1 + (need - (anchor - job.source)) <= limit
  }

  /** Whole sequences written; the search goes on from `ip`. */
  ghost predicate Searching(job: Job, t: seq<nat>, d: seq<Byte>, dest: nat, limit: nat, st: State,
                            ss: seq<Sequence>, need: nat)
    requires job.Ok()
  {
    && job.source <= st.anchor < st.ip <= job.MfLimitPlusOne() && job.TableOk(t, job.Index(st.ip))
    && Progress(job, d, dest, st.op, st.anchor, ss, need) && FillRoom(job, st.op, limit, st.anchor, need)
  }

  /** Literals written, and a match at `ip` to follow; positions up to `top` are in the table. */
  ghost predicate Matched(job: Job, t: seq<nat>, d: seq<Byte>, dest: nat, limit: nat, st: State,
                          ss: seq<Sequence>, need: nat, known: nat, top: nat)
    requires job.Ok()
  {
    && Pending(job, d, dest, st.token, st.op, st.anchor, st.ip, ss, need)
    && FillRoom(job, st.token, limit, st.anchor, need) && (job.mode.LimitedOutput? ==> st.op + 2 <= limit)
    && known >= MINMATCH && st.ip + known - MINMATCH + MFLIMIT <= job.End() && top < st.ip + known
    && job.Usable(st.index, st.ip, known) && Within(job, st.index, known)
    && job.source <= st.filledIp && (st.filledIp <= top || (job.mode.FillOutput? && st.op + 11 > limit))
    && (top == st.ip || top == st.filledIp) && job.source <= top && top + MFLIMIT <= job.End()
    && job.TableOk(t, job.Index(top) + 1)
  }

  /** Nothing but the last literals is left to write. */
  ghost predicate Stopped(job: Job, t: seq<nat>, d: seq<Byte>, dest: nat, limit: nat, st: State,
                          ss: seq<Sequence>, need: nat)
    requires job.Ok()
  {
    && job.n >= LASTLITERALS && job.TableOk(t, job.startIndex + job.n - LASTLITERALS)
    && Progress(job, d, dest, st.op, st.anchor, ss, need) && FillRoom(job, st.op, limit, st.anchor, need)
  }

  lemma TableWiden(job: Job, t: seq<nat>, bound: nat, bound': nat)
    requires job.Ok() && job.TableOk(t, bound) && bound <= bound'
    ensures job.TableOk(t, bound')
  {
  }

  /** One turn of the search, up to the literals before a match. */
  method SearchTurn(job: Job, table: array<nat>, dst: array<Byte>, dest: nat, limit: nat, st0: State,
                    ghost ss: seq<Sequence>, ghost need: nat)
    returns (exit: Exit, st: State, ghost known: nat, ghost top: nat)
    requires job.Ok() && dest <= limit <= dst.Length && Searching(job, table[..], dst[..], dest, limit, st0, ss, need)
    requires job.n >= MIN_LENGTH && (job.mode.NotLimited? ==> limit - dest >= CompressBound(job.n))
    modifies table, dst
    ensures SameOutside(dst[..], old(dst[..]), dest, limit)
    ensures exit == Match || exit == Stop || exit == Fail
    ensures exit == Match ==>
              st.anchor == st0.anchor && Matched(job, table[..], dst[..], dest, limit, st, ss, need, known, top)
    ensures exit == Stop ==> Stopped(job, table[..], dst[..], dest, limit, st, ss, need)
    ensures exit == Fail ==> job.mode.LimitedOutput? && limit - dest < CompressBound(job.n)
    ensures exit == Fail ==> job.TableOk(table[..], job.startIndex + job.n - LASTLITERALS)
    ensures var left := Rest(job, old(table[..]), Search, st0);
            if exit == Fail then left.ss != [] && Overflows(left.ss[0], st0.op, limit)
            else || left == Rest(job, table[..], exit, st)
                 || (job.mode.FillOutput? && exit == Stop && left.ss != [] && NoRoomFor(left.ss[0], st0.op, limit))
    ensures job.mode.FillOutput? && st0.op + 12 > limit ==> exit == Stop
    ensures exit == Stop ==> st == st0
  {
    hide Progress, Job.Usable, Job.TableOk, EncodeLits, Within, FromMatch, FromSearch, EncodeSeq, Counted, Steady,
         Tight;
    st, known, top := st0, MINMATCH, st0.ip;
    ProgressBasics(job, dst[..], dest, st0.op, st0.anchor, ss, need);
    SearchingSeeks(job, table[..], dst[..], dest, limit, st0, ss, need);
    var found, ip, index, filledIp := NextMatch(job, table, st0.ip, st0.anchor);
    if !found { return Stop, st, known, top; }
    known, top := filledIp - ip + MINMATCH, filledIp;
    var outcome, op := EncodeLiterals(job, dst, dest, limit, st0.op, st0.anchor, ip, ss, need);
    if outcome.Failed? { return Fail, st, known, top; }
    if outcome.Rewound? { return Stop, st, known, top; }
    exit, st := Match, State(ip, st0.anchor, st0.op, op, index, filledIp);
  }

  /** The next match: found by the search, and then extended backwards. */
  method NextMatch(job: Job, table: array<nat>, ip0: nat, anchor: nat)
    returns (found: bool, ip: nat, index: nat, filledIp: nat)
    requires Seeks(job, table[..], ip0, anchor) && job.n >= MIN_LENGTH && job.TableOk(table[..], job.Index(ip0))
    modifies table
    ensures job.TableOk(table[..], job.startIndex + job.n - LASTLITERALS)
    ensures !found ==> FromSearch(job, old(table[..]), ip0, anchor) == Parsed([], anchor, table[..])
    ensures found ==>
              && anchor <= ip <= filledIp && filledIp + MFLIMIT <= job.End()
              && job.TableOk(table[..], job.Index(filledIp) + 1)
              && job.Usable(index, ip, filledIp - ip + MINMATCH) && Within(job, index, filledIp - ip + MINMATCH)
              && Meets(job, table[..], ip, index, anchor)
    ensures found ==>
              && FromSearch(job, old(table[..]), ip0, anchor) == FromMatch(job, table[..], ip, index, anchor)
              && FromMatch(job, table[..], ip, index, anchor).ss[0] == Found(job, anchor, ip, index)
              && |EncodeSeq(Found(job, anchor, ip, index))| >= 3 + (ip - anchor) + (ip - anchor) / 255
  {
    hide Job.Usable, Job.TableOk, Within, MatchSearch.Search, Back, FromMatch, FromSearch, EncodeSeq, Counted, Steady,
         Reach, Inside,
         Meets, Found;
    found, ip, index := FindMatch(job, table, ip0);
    filledIp := ip;
    TableWiden(job, table[..], job.Index(ip) + (if found then 1 else 0), job.startIndex + job.n - LASTLITERALS);
    if !found {
      NoMatch(job, old(table[..]), table[..], ip0, anchor);
      return;
    }
    ip, index := CatchUp(job, ip, index, anchor);
    MatchStarts(job, old(table[..]), table[..], ip0, anchor, ip, index);
  }

  lemma NoMatch(job: Job, t: seq<nat>, t': seq<nat>, ip0: nat, anchor: nat)
    requires Seeks(job, t, ip0, anchor) && Inside(job.acceleration, 0) && Reach(job.acceleration, 0) == 0
    requires MatchSearch.Search(job, t, ip0, 0) == Missed(t')
    ensures FromSearch(job, t, ip0, anchor) == Parsed([], anchor, t')
  {
    hide MatchSearch.Search, Back, FromMatch, Reach, Inside;
  }

  lemma SearchingSeeks(job: Job, t: seq<nat>, d: seq<Byte>, dest: nat, limit: nat, st: State, ss: seq<Sequence>,
                       need: nat)
    requires job.Ok() && Searching(job, t, d, dest, limit, st, ss, need)
    ensures Seeks(job, t, st.ip, st.anchor)
  {
    hide Progress, Steady;
  }

  /** What the search found, extended backwards, is the next match. */
  lemma MatchStarts(job: Job, t: seq<nat>, t': seq<nat>, ip0: nat, anchor: nat, ip: nat, index: nat)
    requires Seeks(job, t, ip0, anchor) && Inside(job.acceleration, 0) && Reach(job.acceleration, 0) == 0
    requires var h := MatchSearch.Search(job, t, ip0, 0);
             h.Hit? && h.table == t' && (ip, index) == Back(job, h.ip, h.index, anchor)
    ensures Meets(job, t', ip, index, anchor)
    ensures FromSearch(job, t, ip0, anchor) == FromMatch(job, t', ip, index, anchor)
    ensures FromSearch(job, t, ip0, anchor).ss != []
    ensures FromSearch(job, t, ip0, anchor).ss[0] == Found(job, anchor, ip, index)
    ensures |EncodeSeq(Found(job, anchor, ip, index))| >= 3 + (ip - anchor) + (ip - anchor) / 255
  {
    hide MatchSearch.Search, Back, FromMatch, EncodeSeq, Counted, Reach, Inside;
  }

  /** One match, and the test of the position after it. */
  method MatchTurn(job: Job, table: array<nat>, dst: array<Byte>, dest: nat, limit: nat, st0: State,
                   ghost ss0: seq<Sequence>, ghost need0: nat, ghost known: nat, ghost top: nat)
    returns (exit: Exit, st: State, ghost ss: seq<Sequence>, ghost need: nat)
    requires job.Ok() && job.TellsApart() && dest <= limit <= dst.Length
    requires Matched(job, table[..], dst[..], dest, limit, st0, ss0, need0, known, top)
    requires job.n >= MIN_LENGTH && (job.mode.NotLimited? ==> limit - dest >= CompressBound(job.n))
    modifies table, dst
    ensures SameOutside(dst[..], old(dst[..]), dest, limit)
    ensures exit == Match || exit == Search ==> st0.anchor < st.anchor <= job.End()
    ensures exit == Match ==> Matched(job, table[..], dst[..], dest, limit, st, ss, need, MINMATCH, st.ip)
    ensures exit == Search ==> Searching(job, table[..], dst[..], dest, limit, st, ss, need)
    ensures exit == Stop ==> Stopped(job, table[..], dst[..], dest, limit, st, ss, need)
    ensures exit == Fail ==> job.mode.LimitedOutput? && limit - dest < CompressBound(job.n)
    ensures exit == Fail ==> job.TableOk(table[..], job.startIndex + job.n - LASTLITERALS)
    ensures var left := Rest(job, old(table[..]), Match, st0);
            if exit == Fail then left.ss != [] && Overflows(left.ss[0], st0.token, limit)
            else OnTheWay(job, Then(ss0, left), table[..], exit, st, ss, limit)
    ensures job.mode.FillOutput? && st0.op + 11 > limit ==> exit == Stop && ss == ss0 && st.op == st0.token
  {
    hide Progress, Job.Usable, Job.TableOk, EncodeLits, Within, Tight, Steady, Searching, FromMatch, FromSearch, Onward,
         Counted, Overflows, CutTo, Shortened, Fills, OnTheWay, Found, Meets, Then, Job.Address, EncodeSeq, Room,
         EncodeSeqs,
         CompressBound, Replay, FillRoom;
    ghost var t0 := table[..];
    MatchedMeets(job, t0, dst[..], dest, limit, st0, ss0, need0, known, top);
    MatchedParts(job, t0, dst[..], dest, limit, st0, ss0, need0, known, top);
    hide Matched, Pending;
    var outcome, ip: nat, op: nat;
    outcome, ip, op, ss, need :=
      EncodeMatch(job, table, dst, dest, limit, st0.token, st0.op, st0.anchor, st0.ip, st0.index, st0.filledIp,
                  known, top, ss0, need0);
    st := State(ip, ip, op, op, st0.index, st0.filledIp);
    ghost var t1 := table[..];
    if !outcome.Encoded? {
      TableWiden(job, table[..], job.Index(top) + 1, job.startIndex + job.n - LASTLITERALS);
      st := st0.(op := st0.token);
      if outcome.Rewound? { LeftOut(job, ss, Rest(job, t0, Match, st0), t1, st, limit); }
      return if outcome.Failed? then Fail else Stop, st, ss, need;
    }
    TableLength(job, t1, job.Index(ip));
    RoomMeans(job, dest, op, limit, ip, need);
    if ip >= job.MfLimitPlusOne() {
      TableWiden(job, table[..], job.Index(ip), job.startIndex + job.n - LASTLITERALS);
      MatchLeads(job, t0, st0, ss0, ss, ip, op, t1, t1, Stop, st, limit);
      return Stop, st, ss, need;
    }
    ProgressBasics(job, dst[..], dest, op, ip, ss, need);
    exit, st := NextTurn(job, table, dst, dest, limit, st, ss, need);
    MatchLeads(job, t0, st0, ss0, ss, ip, op, t1, table[..], exit, st, limit);
  }

  lemma RoomMeans(job: Job, dest: nat, op: nat, limit: nat, anchor: nat, need: nat)
    requires Room(job, op, limit, anchor, need) && op - dest + 6 <= CompressBound(job.n)
    requires job.mode.NotLimited? ==> limit - dest >= CompressBound(job.n)
    ensures op + 6 <= limit && FillRoom(job, op, limit, anchor, need)
  {
  }

  lemma MatchedParts(job: Job, t: seq<nat>, d: seq<Byte>, dest: nat, limit: nat, st: State, ss: seq<Sequence>,
                     need: nat,
                     known: nat, top: nat)
    requires job.Ok() && Matched(job, t, d, dest, limit, st, ss, need, known, top)
    ensures Pending(job, d, dest, st.token, st.op, st.anchor, st.ip, ss, need)
    ensures Progress(job, d, dest, st.token, st.anchor, ss, need) && dest <= st.token
    ensures job.source <= st.anchor <= st.ip
    ensures FillRoom(job, st.token, limit, st.anchor, need) && (job.mode.LimitedOutput? ==> st.op + 2 <= limit)
    ensures known >= MINMATCH && st.ip + known - MINMATCH + MFLIMIT <= job.End() && top < st.ip + known
    ensures job.Usable(st.index, st.ip, known) && Within(job, st.index, known)
    ensures job.source <= st.filledIp && (st.filledIp <= top || (job.mode.FillOutput? && st.op + 11 > limit))
    ensures (top == st.ip || top == st.filledIp) && job.source <= top && top + MFLIMIT <= job.End()
    ensures job.TableOk(t, job.Index(top) + 1)
    ensures st.op == st.token + 1 + (st.ip - st.anchor + 240) / 255 + st.ip - st.anchor
  {
    hide Progress, Job.Usable, Within, Job.TableOk, Steady, FillRoom, EncodeLits;
    PendingProgress(job, d, dest, st.token, st.op, st.anchor, st.ip, ss, need);
  }

  /** A match, in full or shortened, leads on to the next one or to the next search. */
  lemma MatchLeads(job: Job, t0: seq<nat>, st0: State, ss0: seq<Sequence>, ss: seq<Sequence>, ip: nat, op: nat,
                   t1: seq<nat>, t: seq<nat>, exit: Exit, st: State, limit: nat)
    requires Meets(job, t0, st0.ip, st0.index, st0.anchor) && |t1| == job.slots && job.source + 2 <= ip
    requires var s := Found(job, st0.anchor, st0.ip, st0.index);
             || (ip == st0.ip + s.code + MINMATCH && ss == ss0 + [s] && t1 == t0)
             || (job.mode.FillOutput? && op + 6 == limit && CutTo(ss0, s, ss))
    requires Rest(job, t, exit, st) == if ip >= job.MfLimitPlusOne() then Parsed([], ip, t1) else Onward(job, t1, ip)
    requires exit != Fail && st.token == op && st.op == op + if exit == Match then 1 else 0
    ensures OnTheWay(job, Then(ss0, Rest(job, t0, Match, st0)), t, exit, st, ss, limit)
  {
    hide FromMatch, FromSearch, Onward, Counted, CutTo, Shortened, OnTheWay, Then, Steady, Found;
    MatchEnds(job, t0, st0.ip, st0.index, st0.anchor, ss0);
    var left := FromMatch(job, t0, st0.ip, st0.index, st0.anchor);
    CutShort(ss0, left, ss);
    LeadsOn(job, Then(ss0, left), t, exit, st, ss, limit);
  }

  lemma MatchedMeets(job: Job, t: seq<nat>, d: seq<Byte>, dest: nat, limit: nat, st: State, ss: seq<Sequence>,
                     need: nat,
                     known: nat, top: nat)
    requires job.Ok() && Matched(job, t, d, dest, limit, st, ss, need, known, top)
    ensures Meets(job, t, st.ip, st.index, st.anchor)
    ensures var left := FromMatch(job, t, st.ip, st.index, st.anchor);
            left.ss != [] && left.ss[0] == Found(job, st.anchor, st.ip, st.index)
  {
    hide Progress, Steady, Job.Usable, FromMatch, Counted, Within;
    PendingProgress(job, d, dest, st.token, st.op, st.anchor, st.ip, ss, need);
    UsableOffset(job, st.index, st.ip, known);
  }

  lemma CutShort(ss0: seq<Sequence>, left: Parsed, ss: seq<Sequence>)
    requires left.ss != []
    ensures CutTo(ss0, left.ss[0], ss) ==> Shortened(ss, Then(ss0, left).ss)
  {
    var goal := Then(ss0, left).ss;
    if |ss| == |ss0| + 1 { assert goal[|ss| - 1] == left.ss[0] && ss0 == goal[..|ss| - 1]; }
  }

  lemma LeadsOn(job: Job, goal: Parsed, t: seq<nat>, exit: Exit, st: State, ss: seq<Sequence>, limit: nat)
    requires exit != Fail && st.op == st.token + if exit == Match then 1 else 0
    requires goal == Then(ss, Rest(job, t, exit, st)) ||
             (job.mode.FillOutput? && Shortened(ss, goal.ss) && st.token + 6 == limit)
    ensures OnTheWay(job, goal, t, exit, st, ss, limit)
  {
    hide Rest, Shortened;
  }

  /** A match that a filling output has no room for. */
  lemma LeftOut(job: Job, ss: seq<Sequence>, left: Parsed, t: seq<nat>, st: State, limit: nat)
    requires job.mode.FillOutput? && left.ss != [] && NoRoomFor(left.ss[0], st.op, limit)
    ensures OnTheWay(job, Then(ss, left), t, Stop, st, ss, limit)
  {
    hide Rest, NoRoomFor;
    Untaken(ss, left.ss);
  }

  lemma Untaken(ss: seq<Sequence>, left: seq<Sequence>)
    requires left != []
    ensures var goal := ss + left; |ss| < |goal| && ss == goal[..|ss|] && goal[|ss|] == left[0]
  {
  }

  /** What comes after a match. */
  lemma MatchEnds(job: Job, t: seq<nat>, ip: nat, index: nat, anchor: nat, ss: seq<Sequence>)
    requires Meets(job, t, ip, index, anchor)
    ensures var s := Found(job, anchor, ip, index);
            var next := ip + s.code + MINMATCH;
            && next <= job.MatchLimit()
            && Then(ss, FromMatch(job, t, ip, index, anchor))
               == Then(ss + [s], if next >= job.MfLimitPlusOne() then Parsed([], next, t) else Onward(job, t, next))
    ensures FromMatch(job, t, ip, index, anchor).ss[0] == Found(job, anchor, ip, index)
  {
    hide FromSearch, Onward, Counted;
    CountedBound(job, ip, index);
    var s := Found(job, anchor, ip, index);
    assert ss + [s] + [] == ss + [s];
    if ip + s.code + MINMATCH < job.MfLimitPlusOne() {
      var r := Onward(job, t, ip + s.code + MINMATCH);
      assert ss + ([s] + r.ss) == ss + [s] + r.ss;
    }
  }

  /** Another match right after the last one, or back to searching. */
  method NextTurn(job: Job, table: array<nat>, dst: array<Byte>, dest: nat, limit: nat, st0: State,
                  ghost ss: seq<Sequence>, ghost need: nat)
    returns (exit: Exit, st: State)
    requires job.Ok() && dest <= st0.op <= limit <= dst.Length && st0.op + 6 <= limit && st0.anchor == st0.ip
    requires st0.token == st0.op
    requires job.source + 2 <= st0.ip < job.MfLimitPlusOne() && job.TableOk(table[..], job.Index(st0.ip))
    requires job.source <= st0.filledIp && (st0.filledIp <= st0.ip || (job.mode.FillOutput? && st0.op + 11 > limit))
    requires Progress(job, dst[..], dest, st0.op, st0.ip, ss, need) && FillRoom(job, st0.op, limit, st0.ip, need)
    modifies table, dst
    ensures SameOutside(dst[..], old(dst[..]), dest, limit)
    ensures (exit == Match || exit == Search) && st.anchor == st0.anchor
    ensures exit == Match ==> Matched(job, table[..], dst[..], dest, limit, st, ss, need, MINMATCH, st.ip)
    ensures exit == Search ==> Searching(job, table[..], dst[..], dest, limit, st, ss, need)
    ensures |old(table[..])| == job.slots && Rest(job, table[..], exit, st) == Onward(job, old(table[..]), st0.ip)
    ensures st.token == st0.token && st.op == st0.op + if exit == Match then 1 else 0
  {
    hide Progress, Job.Usable, Job.TableOk, EncodeLits, Within, Pending, FromMatch, FromSearch, Steady, Rest, Onward,
         Takes,
         Entered;
    TableLength(job, table[..], job.Index(st0.ip));
    var found, index, op := AfterMatch(job, table, dst, dest, limit, st0.op, st0.ip, ss, need);
    if found {
      UsableWithin(job, index, st0.ip);
      exit, st := Match, st0.(op := op, index := index);
    } else {
      exit, st := Search, st0.(ip := st0.ip + 1);
    }
    NextIs(job, old(table[..]), table[..], st0.ip, index, found, exit, st);
  }

  lemma NextIs(job: Job, t: seq<nat>, t': seq<nat>, ip: nat, index: nat, found: bool, exit: Exit, st: State)
    requires job.Ok() && |t| == job.slots && job.source + 2 <= ip < job.MfLimitPlusOne() && st.anchor == ip
    requires var t1 := Entered(job, t, ip - 2);
             index == t1[job.Slot(ip)] && (found <==> Takes(job, index, ip)) && t' == Entered(job, t1, ip)
    requires if found then exit == Match && st.ip == ip && st.index == index else exit == Search && st.ip == ip + 1
    ensures Rest(job, t', exit, st) == Onward(job, t, ip)
  {
    hide FromMatch, FromSearch, Takes, Entered, Meets, Seeks, Job.Slot, Job.Ok;
    NextDefined(job, t', ip, index);
  }

  lemma TableLength(job: Job, t: seq<nat>, bound: nat)
    requires job.Ok() && job.TableOk(t, bound)
    ensures |t| == job.slots
  {
  }

  lemma ProgressBasics(job: Job, d: seq<Byte>, dest: nat, op: nat, anchor: nat, ss: seq<Sequence>, need: nat)
    requires job.Ok() && Progress(job, d, dest, op, anchor, ss, need)
    ensures dest <= op && job.source <= anchor <= job.End() && op == dest + |EncodeSeqs(ss)|
  {
  }

  lemma PendingProgress(job: Job, d: seq<Byte>, dest: nat, token: nat, op: nat, anchor: nat, ip: nat,
                        ss: seq<Sequence>, need: nat)
    requires job.Ok() && Pending(job, d, dest, token, op, anchor, ip, ss, need)
    ensures Progress(job, d, dest, token, anchor, ss, need) && dest <= token && job.source <= anchor
  {
  }

  /**
   The main loop, for inputs long enough to hold a match: finds matches and encodes them until the
   search reaches the limit, the last match reaches it, or the output is full.
   */
  method CompressLoop(job: Job, table: array<nat>, dst: array<Byte>, dest: nat, limit: nat)
    returns (ok: bool, st: State, ghost ss: seq<Sequence>, ghost need: nat)
    requires job.Ok() && job.TellsApart() && job.n >= MIN_LENGTH && dest <= limit <= dst.Length
    requires job.TableOk(table[..], job.startIndex + 1)
    requires job.mode.NotLimited? ==> limit - dest >= CompressBound(job.n)
    requires job.mode.FillOutput? ==> dest + 1 <= limit
    modifies table, dst
    ensures SameOutside(dst[..], old(dst[..]), dest, limit)
    ensures job.TableOk(table[..], job.startIndex + job.n - LASTLITERALS)
    ensures !ok ==> job.mode.LimitedOutput? && limit - dest < CompressBound(job.n)
    ensures ok ==> Stopped(job, table[..], dst[..], dest, limit, st, ss, need)
    ensures var goal := Parse(job, old(table[..]));
            if ok then Ended(job, goal, table[..], st, ss, limit) else TooLong(job, goal, limit - dest)
  {
    hide *;
    TableLength(job, table[..], job.startIndex + 1);
    ghost var goal := Parse(job, table[..]);
    ss, need := [], 0;
    StartProgress(job, dst[..], dest);
    st := State(job.source + 1, job.source, dest, dest, 0, job.source);
    ghost var t := table[..];
    LongEnough(job);
    PutPosition(job, table, job.source, job.startIndex + 1);
    StartLoop(job, goal, t, table[..], dst[..], dest, limit, st);
    var exit := Search;
    ghost var known: nat, top: nat := MINMATCH, job.source;
    SameAsBefore(dst[..], dest, limit);
    while exit == Search || exit == Match
      invariant SameOutside(dst[..], old(dst[..]), dest, limit)
      invariant InLoop(job, goal, table[..], dst[..], dest, limit, exit, st, ss, need, known, top)
      decreases Ahead(job, exit, st)
    {
      ghost var d := dst[..];
      exit, st, ss, need, known, top := Turn(job, table, dst, dest, limit, exit, st, ss, need, known, top, goal);
      SameBoth(dst[..], d, old(dst[..]), dest, limit);
    }
    ok := exit == Stop;
    LoopOver(job, goal, table[..], dst[..], dest, limit, exit, st, ss, need, known, top);
  }

  /** Between two turns: where the output and the table stand, and the way to the whole block. */
  ghost predicate InLoop(job: Job, goal: Parsed, t: seq<nat>, d: seq<Byte>, dest: nat, limit: nat, exit: Exit,
                         st: State,
                         ss: seq<Sequence>, need: nat, known: nat, top: nat)
  {
    && job.Ok() && job.n >= MIN_LENGTH && (goal.ss != [] ==> job.source <= goal.anchor <= job.MatchLimit())
    && match exit
       case Search =>
         && Searching(job, t, d, dest, limit, st, ss, need) && OnTheWay(job, goal, t, exit, st, ss, limit)
         && st.anchor <= job.End()
       case Match =>
         && Matched(job, t, d, dest, limit, st, ss, need, known, top) && OnTheWay(job, goal, t, exit, st, ss, limit)
         && st.anchor <= job.End()
       case Stop => Stopped(job, t, d, dest, limit, st, ss, need) && OnTheWay(job, goal, t, exit, st, ss, limit)
       case Fail =>
         && job.mode.LimitedOutput? && limit - dest < CompressBound(job.n) && TooLong(job, goal, limit - dest)
         && job.TableOk(t, job.startIndex + job.n - LASTLITERALS)
  }

  /** What is left to do. */
  function Ahead(job: Job, exit: Exit, st: State): int {
    if exit == Search then 2 * (job.End() - st.anchor) + 2 else if exit == Match then 2 * (job.End() - st.anchor) + 1
      else 0
  }

  /** A search, or a match and what comes right after it. */
  method Turn(job: Job, table: array<nat>, dst: array<Byte>, dest: nat, limit: nat, exit0: Exit, st0: State,
              ghost ss0: seq<Sequence>, ghost need0: nat, ghost known0: nat, ghost top0: nat, ghost goal: Parsed)
    returns (exit: Exit, st: State, ghost ss: seq<Sequence>, ghost need: nat, ghost known: nat, ghost top: nat)
    requires job.TellsApart() && dest <= limit <= dst.Length && (exit0 == Search || exit0 == Match)
    requires InLoop(job, goal, table[..], dst[..], dest, limit, exit0, st0, ss0, need0, known0, top0)
    requires job.n >= MIN_LENGTH && (job.mode.NotLimited? ==> limit - dest >= CompressBound(job.n))
    modifies table, dst
    ensures SameOutside(dst[..], old(dst[..]), dest, limit)
    ensures InLoop(job, goal, table[..], dst[..], dest, limit, exit, st, ss, need, known, top)
    ensures 0 <= Ahead(job, exit, st) < Ahead(job, exit0, st0)
  {
    hide Searching, Matched, Stopped, OnTheWay, TooLong, Job.TableOk, Rest, Overflows, CompressBound, Steady,
         NoRoomFor, Then;
    ss, need := ss0, need0;
    ghost var t := table[..];
    WrittenSoFar(job, t, dst[..], dest, limit, exit0, st0, ss0, need0, known0, top0);
    if exit0 == Search {
      exit, st, known, top := SearchTurn(job, table, dst, dest, limit, st0, ss0, need0);
      if exit == Fail {
        NotFilling(job, goal, t, Search, st0, ss0, limit);
        GivenUp(job, goal, ss0, Rest(job, t, Search, st0), dest, st0.op, limit);
      } else {
        AfterSearch(job, goal, t, st0, ss0, table[..], exit, st, limit);
      }
    } else {
      exit, st, ss, need := MatchTurn(job, table, dst, dest, limit, st0, ss0, need0, known0, top0);
      known, top := MINMATCH, st.ip;
      if exit == Fail {
        NotFilling(job, goal, t, Match, st0, ss0, limit);
        GivenUp(job, goal, ss0, Rest(job, t, Match, st0), dest, st0.token, limit);
      } else {
        AfterMatchTurn(job, goal, t, st0, ss0, table[..], exit, st, ss, limit);
      }
    }
  }

  lemma NotFilling(job: Job, goal: Parsed, t: seq<nat>, exit: Exit, st: State, ss: seq<Sequence>, limit: nat)
    requires !job.mode.FillOutput? && OnTheWay(job, goal, t, exit, st, ss, limit)
    ensures goal == Then(ss, Rest(job, t, exit, st))
  {
  }

  lemma AfterMatchTurn(job: Job, goal: Parsed, t: seq<nat>, st0: State, ss0: seq<Sequence>, t': seq<nat>, exit: Exit,
                       st: State, ss: seq<Sequence>, limit: nat)
    requires OnTheWay(job, goal, t, Match, st0, ss0, limit) && exit != Fail
    requires OnTheWay(job, Then(ss0, Rest(job, t, Match, st0)), t', exit, st, ss, limit)
    requires job.mode.FillOutput? && st0.op + 11 > limit ==> exit == Stop && ss == ss0 && st.op == st0.token
    ensures OnTheWay(job, goal, t', exit, st, ss, limit)
  {
    hide Rest, Shortened, NoRoomFor;
  }

  lemma LongEnough(job: Job)
    requires job.Ok() && job.n >= MIN_LENGTH
    ensures job.source + 8 <= job.End() && job.Index(job.source) == job.startIndex
  {
  }

  lemma SameAsBefore(d: seq<Byte>, dest: nat, limit: nat)
    ensures SameOutside(d, d, dest, limit)
  {
  }

  lemma SameBoth(d2: seq<Byte>, d1: seq<Byte>, d0: seq<Byte>, dest: nat, limit: nat)
    requires SameOutside(d2, d1, dest, limit) && SameOutside(d1, d0, dest, limit)
    ensures SameOutside(d2, d0, dest, limit)
  {
  }

  lemma StartLoop(job: Job, goal: Parsed, t: seq<nat>, t': seq<nat>, d: seq<Byte>, dest: nat, limit: nat, st: State)
    requires job.Ok() && |t| == job.slots && job.n >= MIN_LENGTH && goal == Parse(job, t)
    requires t' == Entered(job, t, job.source) && job.TableOk(t', job.startIndex + 1)
    requires Progress(job, d, dest, dest, job.source, [], 0) && (job.mode.FillOutput? ==> dest + 1 <= limit)
    requires st == State(job.source + 1, job.source, dest, dest, 0, job.source)
    ensures InLoop(job, goal, t', d, dest, limit, Search, st, [], 0, MINMATCH, job.source)
  {
    hide Progress, Job.TableOk, Rest, Parse, Entered, Steady;
    ParseStarts(job, t, dest);
  }

  lemma LoopOver(job: Job, goal: Parsed, t: seq<nat>, d: seq<Byte>, dest: nat, limit: nat, exit: Exit, st: State,
                 ss: seq<Sequence>, need: nat, known: nat, top: nat)
    requires InLoop(job, goal, t, d, dest, limit, exit, st, ss, need, known, top) && (exit == Stop || exit == Fail)
    requires job.n >= MIN_LENGTH
    ensures job.TableOk(t, job.startIndex + job.n - LASTLITERALS)
    ensures exit == Fail ==>
              job.mode.LimitedOutput? && limit - dest < CompressBound(job.n) && TooLong(job, goal, limit - dest)
    ensures exit == Stop ==> Stopped(job, t, d, dest, limit, st, ss, need) && Ended(job, goal, t, st, ss, limit)
  {
    hide Progress, TooLong, Shortened, NoRoomFor, Job.TableOk, CompressBound, Steady;
    assert ss + [] == ss;
  }

  /** The block is longer than the room there is. */
  ghost predicate TooLong(job: Job, p: Parsed, room: int) {
    job.source <= p.anchor <= job.End() <= |job.mem| &&
    |EncodeSeqs(p.ss)| + |EncodeLits(job.mem[p.anchor..job.End()], 0)| > room
  }

  /** A turn of the search leads on, or to where the output is filled. */
  lemma AfterSearch(job: Job, goal: Parsed, t: seq<nat>, st0: State, ss: seq<Sequence>, t': seq<nat>, exit: Exit,
                    st: State,
                    limit: nat)
    requires OnTheWay(job, goal, t, Search, st0, ss, limit) && exit != Fail && (exit == Stop ==> st == st0)
    requires var left := Rest(job, t, Search, st0);
             || left == Rest(job, t', exit, st)
             || (job.mode.FillOutput? && exit == Stop && left.ss != [] && NoRoomFor(left.ss[0], st0.op, limit))
    requires job.mode.FillOutput? && st0.op + 12 > limit ==> exit == Stop
    ensures OnTheWay(job, goal, t', exit, st, ss, limit)
  {
    hide Rest, NoRoomFor;
    var left := Rest(job, t, Search, st0);
    if left.ss != [] { Untaken(ss, left.ss); }
  }

  lemma ParseStarts(job: Job, t: seq<nat>, dest: nat)
    requires job.Ok() && |t| == job.slots && job.n >= MIN_LENGTH
    ensures var st := State(job.source + 1, job.source, dest, dest, 0, job.source);
            Parse(job, t) == Then([], Rest(job, Entered(job, t, job.source), Search, st))
    ensures Parse(job, t).ss != [] ==> Parse(job, t).anchor <= job.MatchLimit()
  {
    hide FromSearch, FromMatch, Steady;
    var p := Parse(job, t);
    assert [] + p.ss == p.ss;
  }

  lemma WrittenSoFar(job: Job, t: seq<nat>, d: seq<Byte>, dest: nat, limit: nat, exit: Exit, st: State,
                     ss: seq<Sequence>,
                     need: nat, known: nat, top: nat)
    requires job.Ok() && exit == Search ==> Searching(job, t, d, dest, limit, st, ss, need)
    requires job.Ok() && exit == Match ==> Matched(job, t, d, dest, limit, st, ss, need, known, top)
    requires job.Ok() && (exit == Search || exit == Match)
    ensures (if exit == Search then st.op else st.token) - dest == |EncodeSeqs(ss)|
  {
    hide EncodeSeqs, Replay, Job.Text, Job.Hist, Steady, Tight, Job.TableOk, Job.Usable, EncodeLits;
  }

  /** When the next sequence does not fit, the block does not. */
  lemma GivenUp(job: Job, goal: Parsed, ss: seq<Sequence>, left: Parsed, dest: nat, op: nat, limit: nat)
    requires goal == Then(ss, left) && left.ss != [] && op - dest == |EncodeSeqs(ss)|
    requires Overflows(left.ss[0], op, limit)
    requires job.Ok() && (goal.ss != [] ==> job.source <= goal.anchor <= job.MatchLimit())
    ensures TooLong(job, goal, limit - dest)
  {
    hide EncodeSeq, Steady;
    SizeOfBoth(ss, left.ss);
    SizeOfBoth([left.ss[0]], left.ss[1..]);
    assert left.ss == [left.ss[0]] + left.ss[1..];
    assert [left.ss[0]][..0] == [];
  }

  lemma {:induction false} SizeOfBoth(a: seq<Sequence>, b: seq<Sequence>)
    ensures |EncodeSeqs(a + b)| == |EncodeSeqs(a)| + |EncodeSeqs(b)|
    decreases |b|
  {
    hide EncodeSeq;
    if b == [] {
      assert a + b == a;
    } else {
      assert (a + b)[..|a + b| - 1] == a + b[..|b| - 1];
      SizeOfBoth(a, b[..|b| - 1]);
    }
  }

  lemma StartProgress(job: Job, d: seq<Byte>, dest: nat)
    requires job.Ok() && dest <= |d|
    ensures Progress(job, d, dest, dest, job.source, [], 0)
  {
    TextUpTo(job, 0);
    assert job.mem[job.source..job.source] == [];
    assert job.Hist() + [] == job.Hist();
    assert d[dest..dest] == [];
  }

  /** A hash table left by earlier blocks: no entry within four bytes of the index `next`. */
  ghost predicate TableBefore(t: seq<nat>, next: nat) {
    forall h :: 0 <= h < |t| ==> t[h] == 0 || t[h] + MINMATCH <= next
  }

  /**
   LZ4_compress_generic on arguments that pass its initial checks. A zero result means the block did
   not fit a limited output smaller than the bound. Otherwise the output decodes, against the history
   the block was compressed with, to the input consumed, which is all of it unless the output is
   being filled. Every write, overshoot included, stays below `limit`.
   */
  method CompressGeneric(job: Job, table: array<nat>, dst: array<Byte>, dest: nat, limit: nat)
    returns (r: nat, consumed: nat, ghost ss: seq<Sequence>, ghost anchor: nat)
    requires job.Ok() && job.TellsApart() && dest <= limit <= dst.Length
    requires table.Length == job.slots && TableBefore(table[..], job.startIndex)
    requires job.mode.NotLimited? ==> limit - dest >= CompressBound(job.n)
    requires job.mode.FillOutput? ==> dest + 1 <= limit
    modifies table, dst
    ensures SameOutside(dst[..], old(dst[..]), dest, limit)
    ensures TableBefore(table[..], job.startIndex + job.n) && (job.n < MIN_LENGTH ==> table[..] == old(table[..]))
    ensures r == 0 ==> job.mode.LimitedOutput? && limit - dest < CompressBound(job.n)
    ensures r > 0 ==>
              && r <= limit - dest && r <= CompressBound(job.n) && consumed <= job.n
              && (!job.mode.FillOutput? ==> consumed == job.n)
              && (consumed == job.n || r + 1 + (limit - dest) / 65025 >= limit - dest)
              && Decodes(dst[dest..dest + r], job.Hist(), job.mem[job.source..job.source + consumed])
              && (job.n == 0 ==> dst[dest..dest + r] == [0])
    ensures !job.mode.FillOutput? ==>
              var block := Block(job, old(table[..]));
              if |block| <= limit - dest
              then r == |block| && dst[dest..dest + r] == block && table[..] == Parse(job, old(table[..])).table
              else r == 0
    ensures job.mode.FillOutput? ==>
              && Fills(ss, Parse(job, old(table[..])).ss, dest + |EncodeSeqs(ss)|, limit)
              && job.source <= anchor <= job.source + consumed
              && dst[dest..dest + r] == EncodeSeqs(ss) + EncodeLits(job.mem[anchor..job.source + consumed], 0)
  {
    hide Decodes, Progress, Job.Text, Job.Hist, EncodeSeqs, EncodeLits, Parse, Block, Fills, Ended, TooLong, Steady,
         FillRoom,
         TableBefore, Job.TellsApart;
    r, consumed, anchor := 0, 0, job.source;
    ghost var t := table[..];
    var ok, st;
    ghost var need: nat;
    ok, st, ss, need := WriteSequences(job, table, dst, dest, limit);
    if !ok {
      BlockTooLong(job, t, limit - dest);
      return;
    }
    anchor := st.anchor;
    ProgressBasics(job, dst[..], dest, st.op, st.anchor, ss, need);
    RoomForLast(job, st.op, limit, st.anchor, need);
    var op;
    ok, op, consumed := LastLiterals(job, dst, dest, limit, st.op, st.anchor, ss, need);
    if ok { r := op - dest; }
    BlockEnds(job, t, table[..], st, ss, limit);
  }

  lemma RoomForLast(job: Job, op: nat, limit: nat, anchor: nat, need: nat)
    requires FillRoom(job, op, limit, anchor, need)
    ensures job.mode.FillOutput? ==> op + 1 <= limit && op + 1 + (need - (anchor - job.source)) <= limit
  {
  }

  /** All sequences of a block; there are none in a short one. */
  method WriteSequences(job: Job, table: array<nat>, dst: array<Byte>, dest: nat, limit: nat)
    returns (ok: bool, st: State, ghost ss: seq<Sequence>, ghost need: nat)
    requires job.Ok() && job.TellsApart() && dest <= limit <= dst.Length
    requires table.Length == job.slots && TableBefore(table[..], job.startIndex)
    requires job.mode.NotLimited? ==> limit - dest >= CompressBound(job.n)
    requires job.mode.FillOutput? ==> dest + 1 <= limit
    modifies table, dst
    ensures SameOutside(dst[..], old(dst[..]), dest, limit)
    ensures TableBefore(table[..], job.startIndex + job.n) && (job.n < MIN_LENGTH ==> table[..] == old(table[..]))
    ensures !ok ==> job.mode.LimitedOutput? && limit - dest < CompressBound(job.n)
    ensures ok ==>
              Progress(job, dst[..], dest, st.op, st.anchor, ss, need) && FillRoom(job, st.op, limit, st.anchor, need)
    ensures var goal := Parse(job, old(table[..]));
            if ok then Ended(job, goal, table[..], st, ss, limit) else TooLong(job, goal, limit - dest)
  {
    hide Progress, Job.Text, Job.Hist, EncodeSeqs, EncodeLits, Parse, Ended, TooLong, Steady;
    ok, st := true, State(job.source, job.source, dest, dest, 0, job.source);
    ss, need := [], 0;
    if job.n >= MIN_LENGTH {
      ok, st, ss, need := CompressLoop(job, table, dst, dest, limit);
    } else {
      StartProgress(job, dst[..], dest);
      ShortBlock(job, table[..], st, limit);
    }
  }

  lemma BlockTooLong(job: Job, t: seq<nat>, room: int)
    requires job.Ok() && |t| == job.slots && TooLong(job, Parse(job, t), room)
    ensures |Block(job, t)| > room
  {
    hide EncodeSeqs, EncodeLits, Parse, Steady;
  }

  lemma ShortBlock(job: Job, t: seq<nat>, st: State, limit: nat)
    requires job.Ok() && |t| == job.slots && job.n < MIN_LENGTH && st.anchor == job.source
    ensures Ended(job, Parse(job, t), t, st, [], limit)
  {
  }

  lemma BlockEnds(job: Job, t: seq<nat>, t': seq<nat>, st: State, ss: seq<Sequence>, limit: nat)
    requires job.Ok() && |t| == job.slots && Ended(job, Parse(job, t), t', st, ss, limit) && st.anchor <= job.End()
    ensures !job.mode.FillOutput? ==>
              && Block(job, t) == EncodeSeqs(ss) + EncodeLits(job.mem[st.anchor..job.End()], 0)
              && t' == Parse(job, t).table
    ensures job.mode.FillOutput? ==> Fills(ss, Parse(job, t).ss, st.op, limit)
  {
    hide EncodeSeqs, EncodeLits, Parse, Steady;
  }
}
