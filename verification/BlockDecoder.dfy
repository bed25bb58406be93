/**
 LZ4_decompress_generic and its instances: the fast loop with its wild copies, the safe loop
 with its shortcut, prefix and external-dictionary history, and partial decoding. Memory is one
 flat array and pointers are addresses in it; the compressed input is a separate buffer.
 Every access is in bounds for every input; for a well-formed block the result is the one the
 reference decoder gives.
 */
module BlockDecoder {
  import opened Bytes
  import opened BlockFormat
  import opened BlockMeaning
  import opened Copies

  const FASTLOOP_SAFE_DISTANCE: nat := 64
  const MATCH_SAFEGUARD_DISTANCE: nat := 12

  /** Sizes are of type int, and lengths are summed up as unsigned int. */
  const INT_LIMIT: nat := 0x8000_0000
  const UNSIGNED_LIMIT: nat := 0x1_0000_0000

  /** The arguments of LZ4_decompress_generic, with pointers as addresses. */
  datatype Job = Job(src: seq<Byte>, dst: nat, oend: nat, partial: bool,
                     dict: DictMode, low: nat, dictStart: nat, dictSize: nat)
  {
    predicate Ok(size: nat) {
      && low <= dst <= oend <= size
      && (dict.WithPrefix64k? ==> low + KB64 == dst)
      && (dict.UsingExtDict? ==> dictStart + dictSize <= size && (dictStart + dictSize <= dst || oend <= dictStart))
      && (!dict.UsingExtDict? ==> dictSize == 0)
      && (partial ==> dict.NoDict? && low == dst)
      && |src| < INT_LIMIT && oend - dst < INT_LIMIT
    }

    /** No length in a block for `want` is too long for 32 bits. */
    ghost predicate Short(want: seq<Byte>)
      requires low <= dst
    {
      |want| < OutLen(dst) + UNSIGNED_LIMIT
    }

    /** History and output up to `op`, as the reference decoder sees them. */
    ghost function Out(m: seq<Byte>, op: nat): (r: seq<Byte>)
      requires Ok(|m|) && low <= op <= |m|
      ensures |r| == OutLen(op)
    {
      (if dict.UsingExtDict? then m[dictStart..dictStart + dictSize] else []) + m[low..op]
    }

    ghost function OutLen(op: nat): nat
      requires low <= op
    {
      dictSize + op - low
    }

    /** The length of history and output together that there is room for. */
    ghost function End(): nat {
      if low <= oend then OutLen(oend) else 0
    }

    /** Whether an offset reaches before all history; only tested when the dictionary is short. */
    predicate BadOffset(op: nat, offset: nat) {
      dictSize < KB64 && op + dictSize < low + offset
    }
  }

  // ----- Where the reference decoder stands -----

  /** From token `ip`, after `out`, the reference decoder goes on to produce `want`. */
  ghost predicate Live(src: seq<Byte>, ip: nat, out: seq<Byte>, want: seq<Byte>) {
    Decode(src, ip, out, |want|) == Some(want)
  }

  /** The match field at `ip` is still to be read. */
  ghost predicate LiveMatch(src: seq<Byte>, token: Byte, ip: nat, out: seq<Byte>, want: seq<Byte>) {
    var m := ReadMatch(src, ip, token);
    m.Some? && LiveCopy(src, m.value.next, m.value.offset, m.value.len, out, want)
  }

  /** A match of `len` bytes is still to be copied; `ip` is the next token. */
  ghost predicate LiveCopy(src: seq<Byte>, ip: nat, offset: nat, len: nat, out: seq<Byte>, want: seq<Byte>) {
    MatchAllowed(|out|, offset, len, |want|) && Live(src, ip, CopyMatch(out, offset, len), want)
  }

  /** A literal run of `len` bytes at `ip` is still to be copied. */
  ghost predicate LiveLits(src: seq<Byte>, token: Byte, ip: nat, len: nat, out: seq<Byte>, want: seq<Byte>) {
    && ip + len <= |src|
    && var out' := out + src[ip..ip + len];
       if ip + len == |src| then out' == want else LiveMatch(src, token, ip + len, out', want)
  }

  lemma LiveToken(src: seq<Byte>, ip: nat, out: seq<Byte>, want: seq<Byte>)
    requires Live(src, ip, out, want)
    ensures ip < |src| && LitRun(src, ip).Some?
    ensures LiveLits(src, src[ip], LitRun(src, ip).value.next, LitRun(src, ip).value.len, out, want)
  {
  }

  /** A pending copy leaves room in the block for a token and five literals. */
  lemma LiveCopyLeft(src: seq<Byte>, ip: nat, offset: nat, len: nat, out: seq<Byte>, want: seq<Byte>)
    requires LiveCopy(src, ip, offset, len, out, want)
    ensures ip + 1 + LASTLITERALS <= |src|
  {
    InputLeft(src, ip, CopyMatch(out, offset, len), |want|);
  }

  lemma LivePrefix(src: seq<Byte>, ip: nat, out: seq<Byte>, want: seq<Byte>)
    requires Live(src, ip, out, want)
    ensures |out| <= |want| && want[..|out|] == out
  {
    DecodeExtends(src, ip, out, |want|);
  }

  lemma LiveCopyPrefix(src: seq<Byte>, ip: nat, offset: nat, len: nat, out: seq<Byte>, want: seq<Byte>)
    requires LiveCopy(src, ip, offset, len, out, want)
    ensures |out| + len <= |want| && want[..|out| + len] == CopyMatch(out, offset, len)
  {
    LivePrefix(src, ip, CopyMatch(out, offset, len), want);
  }

  lemma LiveLitsPrefix(src: seq<Byte>, token: Byte, ip: nat, len: nat, out: seq<Byte>, want: seq<Byte>)
    requires LiveLits(src, token, ip, len, out, want)
    ensures |out| + len <= |want| && want[..|out| + len] == out + src[ip..ip + len]
  {
    var out' := out + src[ip..ip + len];
    if ip + len < |src| {
      var m := ReadMatch(src, ip + len, token).value;
      LiveCopyPrefix(src, m.next, m.offset, m.len, out', want);
      CopyMatchPeriod(out', m.offset, m.len);
      assert want[..|out'|] == want[..|out'| + m.len][..|out'|];
    }
  }

  // ----- What the block means from here on, if that is defined -----

  ghost predicate OnToken(job: Job, ip: nat, out: seq<Byte>, goal: Meaning) {
    goal.Undefined? || goal == Means(job.src, ip, out, job.End())
  }

  ghost predicate OnLits(job: Job, token: Byte, ip: nat, len: nat, out: seq<Byte>, goal: Meaning) {
    goal.Undefined? || goal == MeansLits(job.src, token, ip, len, out, job.End())
  }

  ghost predicate OnMatch(job: Job, token: Byte, ip: nat, out: seq<Byte>, goal: Meaning) {
    goal.Undefined? || goal == MeansMatch(job.src, token, ip, out, job.End())
  }

  ghost predicate OnCopy(job: Job, ip: nat, offset: nat, len: nat, out: seq<Byte>, goal: Meaning) {
    goal.Undefined? || goal == MeansCopy(job.src, ip, offset, len, out, job.End())
  }

  ghost predicate OnEnd(out: seq<Byte>, goal: Meaning) {
    goal.Undefined? || goal == Text(out)
  }

  /** Literals lead to a match, or to the end. */
  lemma LitsOn(job: Job, token: Byte, ip: nat, len: nat, out: seq<Byte>, goal: Meaning)
    requires OnLits(job, token, ip, len, out, goal) && ip + len <= |job.src| && |out| + len <= job.End()
    ensures ip + len == |job.src| ==> OnEnd(out + job.src[ip..ip + len], goal)
    ensures ip + len < |job.src| ==> OnMatch(job, token, ip + len, out + job.src[ip..ip + len], goal)
  {
    hide MeansMatch;
  }

  /** A copy within the block leads to the next token. */
  lemma CopyOn(job: Job, m: seq<Byte>, before: seq<Byte>, ip: nat, op: nat, offset: nat, length: nat, goal: Meaning)
    requires job.Ok(|m|) && job.dst <= op && op + length <= job.oend
    requires offset <= op - job.low && SameOutside(m, before, op, job.oend)
    requires offset >= 1 ==> Periodic(m, op, op + length, offset)
    requires OnCopy(job, ip, offset, length, job.Out(before, op), goal)
    ensures OnToken(job, ip, job.Out(m, op + length), goal)
  {
    hide Means, CopyMatch, Periodic;
    if offset >= 1 { OutCopy(job, m, before, op, offset, length); }
  }

  /** So does a copy that starts in an external dictionary. */
  lemma ExtOn(job: Job, ip: nat, offset: nat, length: nat, out: seq<Byte>, out': seq<Byte>, goal: Meaning)
    requires 1 <= offset <= |out| && |out| + length <= job.End() && out' == CopyMatch(out, offset, length)
    requires OnCopy(job, ip, offset, length, out, goal)
    ensures OnToken(job, ip, out', goal)
  {
    hide Means, CopyMatch;
  }

  // ----- What copies do to the output -----

  lemma OutLits(job: Job, m: seq<Byte>, before: seq<Byte>, op: nat, lits: seq<Byte>)
    requires job.Ok(|m|) && job.dst <= op && op + |lits| <= job.oend
    requires SameOutside(m, before, op, job.oend) && m[op..op + |lits|] == lits
    ensures job.Out(m, op + |lits|) == job.Out(before, op) + lits
  {
    SameSlice(m, before, op, job.oend, job.low, op);
    if job.dict.UsingExtDict? {
      SameSlice(m, before, op, job.oend, job.dictStart, job.dictStart + job.dictSize);
    }
    assert |m| == |before|;
    hide SameOutside;
    assert m[job.low..op + |lits|] == m[job.low..op] + m[op..op + |lits|];
  }

  lemma SliceCopy(m: seq<Byte>, before: seq<Byte>, low: nat, op: nat, offset: nat, len: nat)
    requires 1 <= offset <= op - low && op + len <= |m| == |before|
    requires m[low..op] == before[low..op] && Periodic(m, op, op + len, offset)
    ensures m[low..op + len] == CopyMatch(before[low..op], offset, len)
  {
    hide CopyMatch;
    var r := m[low..op + len];
    assert r[..op - low] == m[low..op];
    forall k | op - low <= k < |r|
      ensures r[k] == r[k - offset]
    {
      assert r[k] == m[low + k] && r[k - offset] == m[low + k - offset];
    }
    PeriodIsCopyMatch(before[low..op], offset, len, r);
  }

  /** A copy with the right period within the block is the reference decoder's copy. */
  lemma OutCopy(job: Job, m: seq<Byte>, before: seq<Byte>, op: nat, offset: nat, len: nat)
    requires job.Ok(|m|) && job.dst <= op && op + len <= job.oend
    requires 1 <= offset <= op - job.low
    requires SameOutside(m, before, op, job.oend) && Periodic(m, op, op + len, offset)
    ensures job.Out(m, op + len) == CopyMatch(job.Out(before, op), offset, len)
  {
    hide CopyMatch, Periodic;
    SameSlice(m, before, op, job.oend, job.low, op);
    SliceCopy(m, before, job.low, op, offset, len);
    if job.dict.UsingExtDict? {
      SameSlice(m, before, op, job.oend, job.dictStart, job.dictStart + job.dictSize);
      CopyMatchPrepend(m[job.dictStart..job.dictStart + job.dictSize], before[job.low..op], offset, len);
    } else {
      assert [] + before[job.low..op] == before[job.low..op];
      assert [] + m[job.low..op + len] == m[job.low..op + len];
    }
  }

  // ----- Reading lengths -----

  datatype LengthError = LengthOk | LoopError | InitialError

  /**
   read_variable_length with loop checks on: a loop error still carries the length when the last
   byte read was below 255, and an impossibly long one otherwise. The length is `total` modulo 2^32.
   */
  method ReadVariableLength(src: seq<Byte>, ip0: nat, lencheck: int, initialCheck: bool)
    returns (length: nat, ip: nat, error: LengthError, ghost total: nat)
    requires ip0 <= |src| && lencheck <= |src| && (!initialCheck ==> ip0 < |src|)
    ensures ip0 <= ip <= |src| && length == total % UNSIGNED_LIMIT && total <= ExtSum(src, ip0)
    ensures error.LengthOk? ==> ip < lencheck && ReadExt(src, ip0) == Some(Run(total, ip))
    ensures error.InitialError? ==> initialCheck && ip0 >= lencheck
    ensures error.LoopError? ==>
              && ip >= lencheck
              && (ReadExt(src, ip0) == Some(Run(total, ip)) ||
                  (total >= 255 && (ReadExt(src, ip0).Some? ==>
                     ReadExt(src, ip0).value.next > ip && ReadExt(src, ip0).value.len >= 255)))
  {
    hide ReadExt, ExtSum, SoFar;
    length, ip, error, total := 0, ip0, LengthOk, 0;
    if initialCheck && ip >= lencheck { return length, ip, InitialError, total; }
    Nothing(src, ip0);
    while true
      invariant ip0 <= ip < |src| && length == total % UNSIGNED_LIMIT && SoFar(src, ip0, ip, total)
      decreases |src| - ip
    {
      var s := src[ip];
      OneMore(src, ip0, ip, total);
      ip := ip + 1;
      Wraps(total, s);
      length, total := (length + s) % UNSIGNED_LIMIT, total + s;
      if ip >= lencheck { return length, ip, LoopError, total; }
      if s != 255 { break; }
    }
  }

  /** Up to `ip`, all length bytes at `ip0` were 255 and add up to `total`. */
  ghost predicate SoFar(src: seq<Byte>, ip0: nat, ip: nat, total: nat) {
    && ip0 <= ip && total >= 255 * (ip - ip0) && ExtSum(src, ip0) == total + ExtSum(src, ip)
    && ReadExt(src, ip0) == match ReadExt(src, ip)
                            case None => None
                            case Some(r) => Some(Run(total + r.len, r.next))
  }

  lemma Nothing(src: seq<Byte>, ip: nat)
    ensures SoFar(src, ip, ip, 0)
  {
  }

  lemma OneMore(src: seq<Byte>, ip0: nat, ip: nat, total: nat)
    requires ip < |src| && SoFar(src, ip0, ip, total)
    ensures total + src[ip] <= ExtSum(src, ip0)
    ensures src[ip] < 255 ==> ReadExt(src, ip0) == Some(Run(total + src[ip], ip + 1))
    ensures src[ip] == 255 ==> SoFar(src, ip0, ip + 1, total + 255)
    ensures src[ip] == 255 && ReadExt(src, ip0).Some? ==>
              ReadExt(src, ip0).value.next > ip + 1 && ReadExt(src, ip0).value.len >= 255
  {
    hide ReadExt, ExtSum;
    OneByte(src, ip);
  }

  lemma Wraps(total: nat, s: nat)
    ensures (total % UNSIGNED_LIMIT + s) % UNSIGNED_LIMIT == (total + s) % UNSIGNED_LIMIT
  {
  }

  lemma OneByte(src: seq<Byte>, ip: nat)
    requires ip < |src|
    ensures src[ip] < 255 ==> ReadExt(src, ip) == Some(Run(src[ip], ip + 1)) && ExtSum(src, ip) == src[ip]
    ensures src[ip] == 255 ==> ExtSum(src, ip) == 255 + ExtSum(src, ip + 1)
    ensures src[ip] == 255 ==>
              ReadExt(src, ip) == match ReadExt(src, ip + 1)
                                  case None => None
                                  case Some(r) => Some(Run(255 + r.len, r.next))
  {
  }

  /** Reads the literal length of the token at `ip0`. */
  method LiteralLength(job: Job, ip0: nat, ghost out: seq<Byte>, ghost goal: Meaning)
    returns (ok: bool, length: nat, ip: nat)
    requires ip0 < |job.src| < INT_LIMIT && OnToken(job, ip0, out, goal)
    ensures ip0 < ip <= |job.src|
    ensures ok && job.src[ip0] / 16 < 15 ==> length < 15 && ip == ip0 + 1
    ensures LitRun(job.src, ip0).Some? ==> ok && LitRun(job.src, ip0) == Some(Run(length, ip))
    ensures ok ==> OnLits(job, job.src[ip0], ip, length, out, goal)
  {
    hide OnToken, OnLits;
    var src := job.src;
    ok, length, ip := true, src[ip0] / 16, ip0 + 1;
    if length < 15 { ShortRun(job, ip0, out, goal); }
    if length == 15 {
      var more, error;
      ghost var total;
      more, ip, error, total := ReadVariableLength(src, ip, |src| - 15, true);
      if error.InitialError? { ok := false; } else { LongRun(job, ip0, total, ip, out, goal); }
      length := length + more;
    }
  }

  lemma ShortRun(job: Job, ip: nat, out: seq<Byte>, goal: Meaning)
    requires ip < |job.src| && job.src[ip] / 16 < 15 && OnToken(job, ip, out, goal)
    ensures OnLits(job, job.src[ip], ip + 1, job.src[ip] / 16, out, goal)
  {
    hide MeansLits;
  }

  /** A length that is not read to its end is too long for the input, like the whole of it. */
  lemma LongRun(job: Job, ip0: nat, total: nat, ip: nat, out: seq<Byte>, goal: Meaning)
    requires ip0 < |job.src| && job.src[ip0] / 16 == 15 && OnToken(job, ip0, out, goal)
    requires total <= ExtSum(job.src, ip0 + 1)
    requires var e := ReadExt(job.src, ip0 + 1);
             e == Some(Run(total, ip)) ||
             (ip >= |job.src| - 15 && total >= 255 && (e.Some? ==> e.value.next > ip && e.value.len >= 255))
    ensures OnLits(job, job.src[ip0], ip, 15 + total % UNSIGNED_LIMIT, out, goal)
  {
    hide MeansMatch, ReadExt, ExtSum;
    if ExtSum(job.src, ip0 + 1) < UNSIGNED_LIMIT {
      var token, e := job.src[ip0], ReadExt(job.src, ip0 + 1);
      if e == Some(Run(total, ip)) {
        assert Means(job.src, ip0, out, job.End()) == MeansLits(job.src, token, ip, 15 + total, out, job.End());
      } else {
        assert MeansLits(job.src, token, ip, 15 + total, out, job.End()) == Malformed;
        if e.Some? { assert MeansLits(job.src, token, e.value.next, 15 + e.value.len, out, job.End()) == Malformed; }
      }
    }
  }

  /** Reads the match length for a token's low nibble, the extension being at `ip0`. */
  method MatchLength(src: seq<Byte>, nibble: nat, ip0: nat) returns (ok: bool, length: nat, ip: nat)
    requires ip0 < |src| && nibble <= 15
    ensures ip0 <= ip && length >= MINMATCH
    ensures ok ==> ip < |src|
    ensures nibble < 15 ==> ok && length == nibble + MINMATCH && ip == ip0
    ensures nibble == 15 && ReadExt(src, ip0).Some? && ReadExt(src, ip0).value.next + 6 <= |src| &&
            ReadExt(src, ip0).value.len < UNSIGNED_LIMIT ==>
              ok && length == 19 + ReadExt(src, ip0).value.len && ip == ReadExt(src, ip0).value.next
    ensures nibble == 15 && ok && ExtSum(src, ip0) < UNSIGNED_LIMIT ==>
              length >= 19 && ReadExt(src, ip0) == Some(Run(length - 19, ip))
  {
    ok, length, ip := true, nibble, ip0;
    if nibble == 15 {
      var more, error;
      ghost var total;
      more, ip, error, total := ReadVariableLength(src, ip, |src| - LASTLITERALS + 1, false);
      ok := error.LengthOk?;
      length := length + more;
    }
    length := length + MINMATCH;
  }

  // ----- Copying a match from the external dictionary -----

  method ExtCopy(job: Job, mem: array<Byte>, op: nat, offset: nat, length: nat)
    requires job.Ok(mem.Length) && job.dict.UsingExtDict?
    requires job.dst <= op && op + length <= job.oend
    requires op - job.low < offset <= op - job.low + job.dictSize
    modifies mem
    ensures SameOutside(mem[..], old(mem[..]), op, op + length)
    ensures job.Out(mem[..], op + length) == CopyMatch(job.Out(old(mem[..]), op), offset, length)
  {
    var dictEnd := job.dictStart + job.dictSize;
    var copySize := offset - (op - job.low);
    if length <= copySize {
      MemCopy(mem, op, dictEnd - copySize, length);
    } else {
      var restSize := length - copySize;
      MemCopy(mem, op, dictEnd - copySize, copySize);
      ghost var m := mem[..];
      var at := op + copySize;
      if restSize > at - job.low {
        ByteCopy(mem, at, job.low, restSize);
      } else {
        ExtendPeriodic(mem, at, at, at - job.low, restSize);
      }
      SameSlice(mem[..], m, at, op + length, op, at);
    }
    ExtOut(job, mem[..], old(mem[..]), op, offset, length);
  }

  /** Bytes taken from the end of `dict`, then from `low` on, continue the history at period `offset`. */
  lemma ExtPeriod(dict: seq<Byte>, m: seq<Byte>, low: nat, op: nat, offset: nat, length: nat)
    requires low <= op && op + length <= |m| && op - low < offset <= op - low + |dict|
    requires var copySize := offset - (op - low);
             && forall a :: op <= a < op + length && a < op + copySize ==> m[a] == dict[|dict| - copySize + a - op]
    requires var copySize := offset - (op - low); copySize < length ==> Periodic(m, op + copySize, op + length, offset)
    ensures var b := dict + m[low..op];
            dict + m[low..op + length] == CopyMatch(b, offset, length)
  {
    hide CopyMatch;
    var copySize := offset - (op - low);
    var v := dict + m[low..op + length];
    var b := dict + m[low..op];
    assert v[..|b|] == b;
    forall k | |b| <= k < |v|
      ensures v[k] == v[k - offset]
    {
      var a := op + k - |b|;
      assert v[k] == m[a];
      if a < op + copySize {
        assert v[k - offset] == dict[k - offset];
      } else {
        assert v[k - offset] == m[a - offset];
      }
    }
    PeriodIsCopyMatch(b, offset, length, v);
  }

  lemma ExtOut(job: Job, m: seq<Byte>, before: seq<Byte>, op: nat, offset: nat, length: nat)
    requires job.Ok(|m|) && job.dict.UsingExtDict?
    requires job.dst <= op && op + length <= job.oend
    requires op - job.low < offset <= op - job.low + job.dictSize
    requires SameOutside(m, before, op, op + length)
    requires var dictEnd, copySize := job.dictStart + job.dictSize, offset - (op - job.low);
             if length <= copySize then m[op..op + length] == before[dictEnd - copySize..dictEnd - copySize + length]
             else
               && m[op..op + copySize] == before[dictEnd - copySize..dictEnd]
               && Periodic(m, op + copySize, op + length, offset)
    ensures job.Out(m, op + length) == CopyMatch(job.Out(before, op), offset, length)
  {
    hide CopyMatch, Periodic;
    assert |m| == |before|;
    hide SameOutside;
    var dictEnd, copySize := job.dictStart + job.dictSize, offset - (op - job.low);
    var dict := m[job.dictStart..dictEnd];
    SameSlice(m, before, op, op + length, job.low, op);
    SameSlice(m, before, op, op + length, job.dictStart, dictEnd);
    ExtCells(dict, m, before, dictEnd, job.low, op, offset, length);
  }

  lemma ExtCells(dict: seq<Byte>, m: seq<Byte>, before: seq<Byte>, dictEnd: nat, low: nat, op: nat, offset: nat,
                 length: nat)
    requires low <= op && op + length <= |m| && op - low < offset <= op - low + |dict|
    requires |dict| <= dictEnd <= |before| && dict == before[dictEnd - |dict|..dictEnd]
    requires var copySize := offset - (op - low);
             if length <= copySize then m[op..op + length] == before[dictEnd - copySize..dictEnd - copySize + length]
             else
               && m[op..op + copySize] == before[dictEnd - copySize..dictEnd]
               && Periodic(m, op + copySize, op + length, offset)
    ensures dict + m[low..op + length] == CopyMatch(dict + m[low..op], offset, length)
  {
    hide CopyMatch, Periodic;
    var copySize := offset - (op - low);
    DictCells(dict, m, before, dictEnd, op, copySize, if length <= copySize then length else copySize);
    ExtPeriod(dict, m, low, op, offset, length);
  }

  /** Cells copied from the end of the dictionary. */
  lemma DictCells(dict: seq<Byte>, m: seq<Byte>, before: seq<Byte>, dictEnd: nat, op: nat, copySize: nat, n: nat)
    requires n <= copySize <= |dict| <= dictEnd <= |before| && op + n <= |m|
    requires dict == before[dictEnd - |dict|..dictEnd]
    requires m[op..op + n] == before[dictEnd - copySize..dictEnd - copySize + n]
    ensures forall a :: op <= a < op + n ==> m[a] == dict[|dict| - copySize + a - op]
  {
    forall a | op <= a < op + n
      ensures m[a] == dict[|dict| - copySize + a - op]
    {
      assert m[a] == m[op..op + n][a - op] == before[dictEnd - copySize..dictEnd - copySize + n][a - op];
    }
  }

  // ----- The fast loop -----

  datatype Goto = Continue | SafeLiteralCopy | SafeMatchCopy | Finished | OutputError

  /** Literals of one sequence in the fast loop: whole strides, or a jump into the safe loop. */
  method FastLiterals(job: Job, mem: array<Byte>, ip0: nat, op0: nat, ghost valid: bool, ghost want: seq<Byte>,
                      ghost goal: Meaning)
    returns (next: Goto, length: nat, ip: nat, op: nat)
    requires job.Ok(mem.Length) && job.dst <= op0 && op0 + FASTLOOP_SAFE_DISTANCE <= job.oend && ip0 < |job.src|
    requires valid ==> Live(job.src, ip0, job.Out(mem[..], op0), want)
    requires OnToken(job, ip0, job.Out(mem[..], op0), goal)
    modifies mem
    ensures SameOutside(mem[..], old(mem[..]), op0, job.oend)
    ensures ip0 < ip <= |job.src| && op0 <= op <= job.oend
    ensures next == Continue || next == SafeLiteralCopy || next == OutputError
    ensures next == OutputError ==> !valid
    ensures next == SafeLiteralCopy ==>
              && op == op0 && (valid ==> LiveLits(job.src, job.src[ip0], ip, length, job.Out(mem[..], op), want))
              && OnLits(job, job.src[ip0], ip, length, job.Out(mem[..], op), goal)
    ensures next == Continue ==>
              && ip + 3 <= |job.src| && op + 32 <= job.oend
              && (valid ==> LiveMatch(job.src, job.src[ip0], ip, job.Out(mem[..], op), want))
              && OnMatch(job, job.src[ip0], ip, job.Out(mem[..], op), goal)
  {
    hide Decode, Live, LiveMatch, OnToken, OnLits, OnMatch;
    var src, iend := job.src, |job.src|;
    if valid { LiveToken(src, ip0, job.Out(mem[..], op0), want); }
    var ok;
    ok, length, ip := LiteralLength(job, ip0, job.Out(mem[..], op0), goal);
    op := op0;
    if !ok { return OutputError, length, ip, op; }
    var wide := src[ip0] / 16 == 15;
    if wide && (op + length > job.oend - 32 || ip + length > iend - 32) { return SafeLiteralCopy, length, ip, op; }
    if !wide && ip > iend - 17 { return SafeLiteralCopy, length, ip, op; }
    LitsOn(job, src[ip0], ip, length, job.Out(mem[..], op), goal);
    LiteralStrides(job, mem, op, ip, length, wide);
    next, ip, op := Continue, ip + length, op + length;
  }

  /** The literal copies of the fast loop: 32-byte strides, or one of 16 bytes for a short run. */
  method LiteralStrides(job: Job, mem: array<Byte>, op: nat, ip: nat, length: nat, wide: bool)
    requires job.Ok(mem.Length) && job.dst <= op
    requires if wide then op + length + 32 <= job.oend && ip + length + 32 <= |job.src|
             else length <= 16 && op + 16 <= job.oend && ip + 16 <= |job.src|
    modifies mem
    ensures SameOutside(mem[..], old(mem[..]), op, job.oend)
    ensures job.Out(mem[..], op + length) == job.Out(old(mem[..]), op) + job.src[ip..ip + length]
  {
    if wide {
      WildCopyIn(mem, op, job.src, ip, op + length, 32);
    } else {
      CopySixteen(mem, op, job.src, ip, length);
    }
    OutLits(job, mem[..], old(mem[..]), op, job.src[ip..ip + length]);
  }

  /** Sixteen bytes at once, of which `length` are wanted. */
  method CopySixteen(mem: array<Byte>, op: nat, src: seq<Byte>, ip: nat, length: nat)
    requires length <= 16 && op + 16 <= mem.Length && ip + 16 <= |src|
    modifies mem
    ensures SameOutside(mem[..], old(mem[..]), op, op + 16) && mem[op..op + length] == src[ip..ip + length]
  {
    CopyIn(mem, op, src, ip, 16);
    assert mem[op..op + length] == mem[op..op + 16][..length];
    assert src[ip..ip + length] == src[ip..ip + 16][..length];
  }

  /** A copy within the block, of a match the reference decoder accepts, moves it to the next token. */
  lemma CopyDone(job: Job, m: seq<Byte>, before: seq<Byte>, ip: nat, op: nat, offset: nat, length: nat, want: seq<Byte>)
    requires job.Ok(|m|) && job.dst <= op && op + length <= job.oend
    requires offset <= op - job.low && SameOutside(m, before, op, job.oend)
    requires offset >= 1 ==> Periodic(m, op, op + length, offset)
    requires LiveCopy(job.src, ip, offset, length, job.Out(before, op), want)
    ensures Live(job.src, ip, job.Out(m, op + length), want)
  {
    hide Decode;
    OutCopy(job, m, before, op, offset, length);
  }

  /** Reads offset and match length; the offset field is at `ip0`. */
  method MatchField(job: Job, token: Byte, ip0: nat, ghost valid: bool, ghost out: seq<Byte>, ghost want: seq<Byte>,
                    ghost goal: Meaning)
    returns (ok: bool, offset: nat, length: nat, ip: nat)
    requires ip0 + 3 <= |job.src|
    requires valid ==> LiveMatch(job.src, token, ip0, out, want) && |want| < |out| + UNSIGNED_LIMIT
    requires OnMatch(job, token, ip0, out, goal)
    ensures offset <= DISTANCE_MAX && ip0 + 2 <= ip && length >= MINMATCH
    ensures ok ==> ip < |job.src|
    ensures token % 16 < 15 ==> ok && length <= 18
    ensures valid ==> ok && LiveCopy(job.src, ip, offset, length, out, want)
    ensures ok ==> OnCopy(job, ip, offset, length, out, goal)
  {
    hide Decode, Live, CopyMatch, MeansCopy;
    offset := LE16(job.src[ip0], job.src[ip0 + 1]);
    ok, length, ip := MatchLength(job.src, token % 16, ip0 + 2);
    if valid {
      var m := ReadMatch(job.src, ip0, token).value;
      LiveCopyLeft(job.src, m.next, m.offset, m.len, out, want);
    }
  }

  /** Three strides cover the longest match whose length fits in the token. */
  method CopyEighteen(mem: array<Byte>, op: nat, offset: nat)
    requires 8 <= offset <= op && op + 18 <= mem.Length
    modifies mem
    ensures SameOutside(mem[..], old(mem[..]), op, op + 18)
    ensures Periodic(mem[..], op, op + 18, offset)
  {
    ExtendPeriodic(mem, op, op, offset, 8);
    ExtendPeriodic(mem, op, op + 8, offset, 8);
    ExtendPeriodic(mem, op, op + 16, offset, 2);
  }

  /** The offset of a match the reference decoder accepts lies within the history. */
  lemma LiveOffset(job: Job, m: seq<Byte>, token: Byte, ip: nat, op: nat, want: seq<Byte>)
    requires job.Ok(|m|) && job.dst <= op <= job.oend && ip + 3 <= |job.src|
    requires LiveMatch(job.src, token, ip, job.Out(m, op), want)
    ensures !job.BadOffset(op, LE16(job.src[ip], job.src[ip + 1]))
  {
    hide Decode, CopyMatch;
  }

  /** The match of one sequence in the fast loop. */
  method FastMatch(job: Job, mem: array<Byte>, token: Byte, ip0: nat, op0: nat, ghost valid: bool,
                   ghost want: seq<Byte>, ghost goal: Meaning)
    returns (next: Goto, offset: nat, length: nat, ip: nat, op: nat)
    requires job.Ok(mem.Length) && job.dst <= op0 && op0 + 32 <= job.oend && ip0 + 3 <= |job.src|
    requires valid ==> LiveMatch(job.src, token, ip0, job.Out(mem[..], op0), want) && job.Short(want)
    requires OnMatch(job, token, ip0, job.Out(mem[..], op0), goal)
    modifies mem
    ensures SameOutside(mem[..], old(mem[..]), op0, job.oend)
    ensures ip0 < ip && op0 <= op <= job.oend && offset <= DISTANCE_MAX && length >= MINMATCH
    ensures next == Continue || next == SafeMatchCopy || next == OutputError
    ensures next == OutputError ==> !valid
    ensures next == SafeMatchCopy ==>
              && ip < |job.src| && op == op0
              && (valid ==> LiveCopy(job.src, ip, offset, length, job.Out(mem[..], op), want))
              && OnCopy(job, ip, offset, length, job.Out(mem[..], op), goal)
    ensures next == Continue ==>
              && ip < |job.src| && op + FASTLOOP_SAFE_DISTANCE <= job.oend
              && (valid ==> Live(job.src, ip, job.Out(mem[..], op), want))
              && OnToken(job, ip, job.Out(mem[..], op), goal)
  {
    hide Decode, Live, LiveMatch, CopyMatch, Periodic, OnMatch, OnCopy, OnToken;
    var ok;
    op, offset := op0, LE16(job.src[ip0], job.src[ip0 + 1]);
    if valid { LiveOffset(job, mem[..], token, ip0, op, want); }
    if token % 16 == 15 && job.BadOffset(op, offset) { return OutputError, offset, MINMATCH, ip0 + 2, op; }
    ok, offset, length, ip := MatchField(job, token, ip0, valid, job.Out(mem[..], op), want, goal);
    if !ok { return OutputError, offset, length, ip, op; }
    if op + length >= job.oend - FASTLOOP_SAFE_DISTANCE { return SafeMatchCopy, offset, length, ip, op; }
    if token % 16 < 15 && (job.dict.WithPrefix64k? || op - offset >= job.low) && offset >= 8 {
      CopyEighteen(mem, op, offset);
      PeriodicPrefix(mem[..], op, op + length, op + 18, offset);
      if valid { CopyDone(job, mem[..], old(mem[..]), ip, op, offset, length, want); }
      CopyOn(job, mem[..], old(mem[..]), ip, op, offset, length, goal);
      return Continue, offset, length, ip, op + length;
    }
    if job.BadOffset(op, offset) { return OutputError, offset, length, ip, op; }
    if job.dict.UsingExtDict? && op - offset < job.low {
      ExtCopy(job, mem, op, offset, length);
      ExtOn(job, ip, offset, length, job.Out(old(mem[..]), op), job.Out(mem[..], op + length), goal);
    } else {
      FastCopy(mem, op, offset, op + length);
      if valid { CopyDone(job, mem[..], old(mem[..]), ip, op, offset, length, want); }
      CopyOn(job, mem[..], old(mem[..]), ip, op, offset, length, goal);
    }
    next, op := Continue, op + length;
  }

  lemma PeriodicPrefix(m: seq<Byte>, from: nat, mid: nat, to: nat, offset: nat)
    requires Periodic(m, from, to, offset) && from <= mid <= to
    ensures Periodic(m, from, mid, offset)
  {
  }

  /** Where the two loops hand over: what remains to be done, and what the reference decoder makes of it. */
  datatype Cursor = Cursor(next: Goto, token: Byte, offset: nat, length: nat, ip: nat, op: nat)

  ghost predicate CursorOk(job: Job, m: seq<Byte>, c: Cursor, valid: bool, want: seq<Byte>, goal: Meaning)
    requires job.Ok(|m|)
  {
    && job.dst <= c.op <= job.oend && c.ip <= |job.src|
    && match c.next
       case Continue =>
         && c.ip < |job.src| && (valid ==> Live(job.src, c.ip, job.Out(m, c.op), want))
         && OnToken(job, c.ip, job.Out(m, c.op), goal)
       case SafeLiteralCopy =>
         && (valid ==> LiveLits(job.src, c.token, c.ip, c.length, job.Out(m, c.op), want))
         && OnLits(job, c.token, c.ip, c.length, job.Out(m, c.op), goal)
       case SafeMatchCopy =>
         && c.ip < |job.src| && c.offset <= DISTANCE_MAX && c.length >= MINMATCH
         && (if job.partial then c.op < job.oend else c.op + MFLIMIT <= job.oend)
         && (valid ==> LiveCopy(job.src, c.ip, c.offset, c.length, job.Out(m, c.op), want))
         && OnCopy(job, c.ip, c.offset, c.length, job.Out(m, c.op), goal)
       case Finished =>
         && (valid ==> if job.partial then EndsAt(job, m, c.op, want) else job.Out(m, c.op) == want)
         && OnEnd(job.Out(m, c.op), goal)
       case OutputError => !valid
  }

  /** The output is all of `want`, or as much of it as there is room for. */
  ghost predicate EndsAt(job: Job, m: seq<Byte>, op: nat, want: seq<Byte>)
    requires job.Ok(|m|) && job.dst <= op <= job.oend
  {
    && |job.Out(m, op)| <= |want| && want[..|job.Out(m, op)|] == job.Out(m, op)
    && (op == job.oend || |job.Out(m, op)| == |want|)
  }

  method FastLoop(job: Job, mem: array<Byte>, ghost valid: bool, ghost want: seq<Byte>, ghost goal: Meaning)
    returns (c: Cursor)
    requires job.Ok(mem.Length) && job.dst + FASTLOOP_SAFE_DISTANCE <= job.oend && |job.src| > 0
    requires valid ==> Live(job.src, 0, job.Out(mem[..], job.dst), want) && job.Short(want)
    requires OnToken(job, 0, job.Out(mem[..], job.dst), goal)
    modifies mem
    ensures SameOutside(mem[..], old(mem[..]), job.dst, job.oend)
    ensures CursorOk(job, mem[..], c, valid, want, goal) && !c.next.Continue? && !c.next.Finished?
  {
    hide Decode, Live, LiveLits, LiveMatch, LiveCopy, OnToken, OnLits, OnMatch, OnCopy;
    var ip, op := 0, job.dst;
    while true
      invariant job.dst <= op && op + FASTLOOP_SAFE_DISTANCE <= job.oend && ip < |job.src|
      invariant SameOutside(mem[..], old(mem[..]), job.dst, job.oend)
      invariant valid ==> Live(job.src, ip, job.Out(mem[..], op), want)
      invariant OnToken(job, ip, job.Out(mem[..], op), goal)
      decreases |job.src| - ip
    {
      var token := job.src[ip];
      var next, length, ip1, op1 := FastLiterals(job, mem, ip, op, valid, want, goal);
      if next != Continue {
        return Cursor(next, token, 0, length, ip1, op1);
      }
      var offset;
      next, offset, length, ip1, op1 := FastMatch(job, mem, token, ip1, op1, valid, want, goal);
      if next != Continue {
        return Cursor(next, token, offset, length, if next == OutputError then ip else ip1, op1);
      }
      ip, op := ip1, op1;
    }
  }

  // ----- The safe loop -----

  /** The two-stage shortcut: sixteen bytes of literals, then possibly eighteen of match. */
  method Shortcut(job: Job, mem: array<Byte>, ip0: nat, op0: nat, ghost valid: bool, ghost want: seq<Byte>,
                  ghost goal: Meaning)
    returns (c: Cursor)
    requires job.Ok(mem.Length) && job.dst <= op0 && op0 + 32 <= job.oend && ip0 + 1 + 16 < |job.src|
    requires job.src[ip0] / 16 != 15
    requires valid ==> Live(job.src, ip0, job.Out(mem[..], op0), want) && job.Short(want)
    requires OnToken(job, ip0, job.Out(mem[..], op0), goal)
    modifies mem
    ensures SameOutside(mem[..], old(mem[..]), op0, job.oend)
    ensures CursorOk(job, mem[..], c, valid, want, goal)
    ensures c.next == Continue || c.next == SafeMatchCopy || c.next == OutputError
    ensures c.ip > ip0
  {
    hide Decode, Live, LiveMatch, LiveCopy, CopyMatch, Periodic, MatchAllowed, OnToken, OnLits, OnMatch, OnCopy;
    var token := job.src[ip0];
    var op, ip := op0 + token / 16, ip0 + 1 + token / 16;
    ShortLits(job, mem, ip0, op0, valid, want, goal);
    ghost var m := mem[..];
    var ok, offset, length, ip1 := MatchField(job, token, ip, valid, job.Out(m, op), want, goal);
    if token % 16 != 15 && offset >= 8 && (job.dict.WithPrefix64k? || op - offset >= job.low) {
      ShortCopy(job, mem, ip1, op, offset, length, valid, want, goal);
      return Cursor(Continue, token, offset, length, ip1, op + length);
    }
    if !ok { return Cursor(OutputError, token, offset, length, ip0 + 1, op); }
    c := Cursor(SafeMatchCopy, token, offset, length, ip1, op);
  }

  /** The literals of the shortcut. */
  method ShortLits(job: Job, mem: array<Byte>, ip: nat, op: nat, ghost valid: bool, ghost want: seq<Byte>,
                   ghost goal: Meaning)
    requires job.Ok(mem.Length) && job.dst <= op && op + 32 <= job.oend && ip + 1 + 16 < |job.src|
    requires job.src[ip] / 16 != 15
    requires valid ==> Live(job.src, ip, job.Out(mem[..], op), want)
    requires OnToken(job, ip, job.Out(mem[..], op), goal)
    modifies mem
    ensures SameOutside(mem[..], old(mem[..]), op, job.oend)
    ensures var n := job.src[ip] / 16;
            && (valid ==> LiveMatch(job.src, job.src[ip], ip + 1 + n, job.Out(mem[..], op + n), want))
            && OnMatch(job, job.src[ip], ip + 1 + n, job.Out(mem[..], op + n), goal)
  {
    hide Decode, Live, LiveMatch, OnToken, OnLits, OnMatch;
    var n := job.src[ip] / 16;
    if valid { LiveToken(job.src, ip, job.Out(mem[..], op), want); }
    ShortRun(job, ip, job.Out(mem[..], op), goal);
    LitsOn(job, job.src[ip], ip + 1, n, job.Out(mem[..], op), goal);
    LiteralStrides(job, mem, op, ip + 1, n, false);
  }

  /** A match whose length fits in the token, copied with room to spare. */
  method ShortCopy(job: Job, mem: array<Byte>, ghost ip: nat, op: nat, offset: nat, length: nat, ghost valid: bool,
                   ghost want: seq<Byte>, ghost goal: Meaning)
    requires job.Ok(mem.Length) && job.dst <= op && op + 18 <= job.oend && 8 <= offset <= DISTANCE_MAX && length <= 18
    requires job.dict.WithPrefix64k? || op - offset >= job.low
    requires valid ==> LiveCopy(job.src, ip, offset, length, job.Out(mem[..], op), want)
    requires OnCopy(job, ip, offset, length, job.Out(mem[..], op), goal)
    modifies mem
    ensures SameOutside(mem[..], old(mem[..]), op, job.oend)
    ensures valid ==> Live(job.src, ip, job.Out(mem[..], op + length), want)
    ensures OnToken(job, ip, job.Out(mem[..], op + length), goal)
  {
    hide Decode, Live, LiveCopy, CopyMatch, Periodic, MatchAllowed, OnCopy, OnToken;
    CopyEighteen(mem, op, offset);
    PeriodicPrefix(mem[..], op, op + length, op + 18, offset);
    if valid { CopyDone(job, mem[..], old(mem[..]), ip, op, offset, length, want); }
    CopyOn(job, mem[..], old(mem[..]), ip, op, offset, length, goal);
  }

  /** safe_literal_copy: either the last literals of the block, or literals with a match to follow. */
  method SafeLiterals(job: Job, mem: array<Byte>, c0: Cursor, ghost valid: bool, ghost want: seq<Byte>,
                      ghost goal: Meaning)
    returns (next: Goto, ip: nat, op: nat)
    requires job.Ok(mem.Length) && c0.next == SafeLiteralCopy && CursorOk(job, mem[..], c0, valid, want, goal)
    requires valid && !job.partial ==> |want| <= job.OutLen(job.oend)
    requires job.partial ==> goal.Undefined?
    modifies mem
    ensures SameOutside(mem[..], old(mem[..]), job.dst, job.oend)
    ensures job.dst <= op <= job.oend && c0.ip <= ip <= |job.src|
    ensures next == Continue || next == Finished || next == OutputError
    ensures next == OutputError ==> !valid
    ensures next == Finished ==> valid ==>
              if job.partial then EndsAt(job, mem[..], op, want) else job.Out(mem[..], op) == want
    ensures next == Finished ==> OnEnd(job.Out(mem[..], op), goal)
    ensures next == Continue ==>
              && ip + 8 <= |job.src| && (if job.partial then op < job.oend else op + MFLIMIT <= job.oend)
              && (valid ==> LiveMatch(job.src, c0.token, ip, job.Out(mem[..], op), want))
              && OnMatch(job, c0.token, ip, job.Out(mem[..], op), goal)
  {
    hide Decode, Live, LiveCopy, LiveMatch, LiveLits, OnToken, OnLits, OnMatch, OnCopy, OnEnd;
    var length, iend := c0.length, |job.src|;
    ip, op := c0.ip, c0.op;
    ghost var out := job.Out(mem[..], op);
    if valid { LiveLitsFacts(job.src, c0.token, ip, length, out, want); }
    if op + length > job.oend - MFLIMIT || ip + length > iend - (2 + 1 + LASTLITERALS) {
      if job.partial {
        next, ip, op := PartialLiterals(job, mem, c0, valid, want, goal);
        Unclaimed(job, c0.token, ip, job.Out(mem[..], op), goal);
      } else {
        next, ip, op := FinalLiterals(job, mem, c0, valid, want, goal);
      }
    } else {
      LitsOn(job, c0.token, ip, length, out, goal);
      LiteralCopy(job, mem, op, ip, length, true);
      next, ip, op := Continue, ip + length, op + length;
    }
  }

  lemma Unclaimed(job: Job, token: Byte, ip: nat, out: seq<Byte>, goal: Meaning)
    requires goal.Undefined?
    ensures OnEnd(out, goal) && OnMatch(job, token, ip, out, goal)
  {
  }

  /** The last literals of a block, which end the input. */
  method FinalLiterals(job: Job, mem: array<Byte>, c0: Cursor, ghost valid: bool, ghost want: seq<Byte>,
                       ghost goal: Meaning)
    returns (next: Goto, ip: nat, op: nat)
    requires job.Ok(mem.Length) && c0.next == SafeLiteralCopy && CursorOk(job, mem[..], c0, valid, want, goal)
    requires !job.partial && (valid ==> |want| <= job.OutLen(job.oend))
    requires c0.op + c0.length > job.oend - MFLIMIT || c0.ip + c0.length > |job.src| - (2 + 1 + LASTLITERALS)
    modifies mem
    ensures SameOutside(mem[..], old(mem[..]), job.dst, job.oend)
    ensures job.dst <= op <= job.oend && c0.ip <= ip <= |job.src|
    ensures next == Finished || (next == OutputError && !valid)
    ensures next == Finished && valid ==> job.Out(mem[..], op) == want
    ensures next == Finished ==> OnEnd(job.Out(mem[..], op), goal)
  {
    hide Decode, Live, LiveCopy, LiveMatch, LiveLits, OnToken, OnLits, OnMatch, OnCopy, OnEnd;
    var length, iend := c0.length, |job.src|;
    ip, op := c0.ip, c0.op;
    if valid { LiveLitsFacts(job.src, c0.token, ip, length, job.Out(mem[..], op), want); }
    if ip + length != iend || op + length > job.oend { return OutputError, ip, op; }
    LitsOn(job, c0.token, ip, length, job.Out(mem[..], op), goal);
    LiteralCopy(job, mem, op, ip, length, false);
    next, ip, op := Finished, ip + length, op + length;
  }

  /** Literals near the end of the room of a partial decoding, which may stop inside them. */
  method PartialLiterals(job: Job, mem: array<Byte>, c0: Cursor, ghost valid: bool, ghost want: seq<Byte>,
                         ghost goal: Meaning)
    returns (next: Goto, ip: nat, op: nat)
    requires job.Ok(mem.Length) && c0.next == SafeLiteralCopy && CursorOk(job, mem[..], c0, valid, want, goal)
    requires job.partial && goal.Undefined?
    requires c0.op + c0.length > job.oend - MFLIMIT || c0.ip + c0.length > |job.src| - (2 + 1 + LASTLITERALS)
    modifies mem
    ensures SameOutside(mem[..], old(mem[..]), job.dst, job.oend)
    ensures job.dst <= op <= job.oend && c0.ip <= ip <= |job.src|
    ensures next == Continue || next == Finished || next == OutputError
    ensures next == OutputError ==> !valid
    ensures next == Finished && valid ==> EndsAt(job, mem[..], op, want)
    ensures next == Continue ==> ip + 8 <= |job.src| && op < job.oend
    ensures next == Continue && valid ==> LiveMatch(job.src, c0.token, ip, job.Out(mem[..], op), want)
  {
    hide Decode, Live, LiveCopy, LiveMatch, LiveLits, OnToken, OnLits, OnMatch, OnCopy, OnEnd;
    var length, iend := c0.length, |job.src|;
    ip, op := c0.ip, c0.op;
    ghost var out := job.Out(mem[..], op);
    if valid { LiveLitsFacts(job.src, c0.token, ip, length, out, want); }
    if ip + length > iend - (2 + 1 + LASTLITERALS) && ip + length != iend { return OutputError, ip, op; }
    if op + length > job.oend { length := job.oend - op; }
    if valid { LitsCut(job.src, ip, length, c0.length, out, want); }
    LiteralCopy(job, mem, op, ip, length, false);
    ip, op := ip + length, op + length;
    next := if op == job.oend || ip == iend then Finished else Continue;
  }

  /** memmove of exactly `length` literals, or LZ4_wildCopy8, which may write seven bytes more. */
  method LiteralCopy(job: Job, mem: array<Byte>, op: nat, ip: nat, length: nat, wild: bool)
    requires job.Ok(mem.Length) && job.dst <= op
    requires op + length + (if wild then 8 else 0) <= job.oend && ip + length + (if wild then 8 else 0) <= |job.src|
    modifies mem
    ensures SameOutside(mem[..], old(mem[..]), op, job.oend)
    ensures job.Out(mem[..], op + length) == job.Out(old(mem[..]), op) + job.src[ip..ip + length]
  {
    if wild {
      WildCopyIn(mem, op, job.src, ip, op + length, 8);
    } else {
      CopyIn(mem, op, job.src, ip, length);
    }
    OutLits(job, mem[..], old(mem[..]), op, job.src[ip..ip + length]);
  }

  lemma LiveLitsFacts(src: seq<Byte>, token: Byte, ip: nat, len: nat, out: seq<Byte>, want: seq<Byte>)
    requires LiveLits(src, token, ip, len, out, want)
    ensures ip + len <= |src| && |out| + len <= |want| && want[..|out| + len] == out + src[ip..ip + len]
    ensures ip + len == |src| ==> out + src[ip..ip + len] == want
    ensures ip + len < |src| ==>
              && ip + len + 8 <= |src| && |out| + len + MFLIMIT <= |want|
              && LiveMatch(src, token, ip + len, out + src[ip..ip + len], want)
  {
    hide Decode, LiveMatch;
    LiveLitsPrefix(src, token, ip, len, out, want);
    if ip + len < |src| { LiveLitsRoom(src, token, ip, len, out, want); }
  }

  /** Literals that are not the last leave room, in input and output, for what must follow them. */
  lemma LiveLitsRoom(src: seq<Byte>, token: Byte, ip: nat, len: nat, out: seq<Byte>, want: seq<Byte>)
    requires LiveLits(src, token, ip, len, out, want) && ip + len < |src|
    ensures ip + len + 8 <= |src| && |out| + len + MFLIMIT <= |want|
  {
    var m := ReadMatch(src, ip + len, token).value;
    LiveCopyLeft(src, m.next, m.offset, m.len, out + src[ip..ip + len], want);
  }

  lemma LitsCut(src: seq<Byte>, ip: nat, length: nat, full: nat, out: seq<Byte>, want: seq<Byte>)
    requires length <= full && ip + full <= |src| && |out| + full <= |want|
    requires want[..|out| + full] == out + src[ip..ip + full]
    ensures want[..|out| + length] == out + src[ip..ip + length]
  {
    assert want[..|out| + length] == want[..|out| + full][..|out| + length];
    assert (out + src[ip..ip + full])[..|out| + length] == out + src[ip..ip + length];
  }

  lemma {:induction false} CopyMatchCut(out: seq<Byte>, offset: nat, n: nat, len: nat)
    requires 1 <= offset <= |out| && n <= len
    ensures CopyMatch(out, offset, len)[..|out| + n] == CopyMatch(out, offset, n)
  {
    hide CopyMatch;
    CopyMatchPeriod(out, offset, len);
    var r := CopyMatch(out, offset, len)[..|out| + n];
    assert r[..|out|] == CopyMatch(out, offset, len)[..|out|];
    PeriodIsCopyMatch(out, offset, n, r);
  }

  /** The end of a partial decoding, where a match may stop anywhere. */
  method PartialMatch(job: Job, mem: array<Byte>, c0: Cursor, ghost valid: bool, ghost want: seq<Byte>,
                      ghost goal: Meaning)
    returns (c: Cursor)
    requires job.Ok(mem.Length) && job.partial && c0.next == SafeMatchCopy
    requires CursorOk(job, mem[..], c0, valid, want, goal)
    requires c0.offset <= c0.op - job.low && goal.Undefined?
    modifies mem
    ensures SameOutside(mem[..], old(mem[..]), job.dst, job.oend)
    ensures CursorOk(job, mem[..], c, valid, want, goal) && (c.next == Continue || c.next == Finished)
    ensures c.ip == c0.ip && (c.next == Continue ==> c.op < job.oend)
  {
    hide Decode, Live, CopyMatch;
    var op, offset := c0.op, c0.offset;
    ghost var out := job.Out(mem[..], op);
    var mlen := if c0.length < job.oend - op then c0.length else job.oend - op;
    if offset < mlen {
      ByteCopy(mem, op, op - offset, mlen);
    } else {
      ExtendPeriodic(mem, op, op, offset, mlen);
    }
    if valid {
      OutCopy(job, mem[..], old(mem[..]), op, offset, mlen);
      LiveCopyPrefix(job.src, c0.ip, offset, c0.length, out, want);
      CopyMatchCut(out, offset, mlen, c0.length);
      assert want[..|out| + mlen] == want[..|out| + c0.length][..|out| + mlen];
    }
    c := c0.(next := if op + mlen == job.oend then Finished else Continue, op := op + mlen);
  }

  /** safe_match_copy: dispatches on where the match lies. */
  method SafeMatch(job: Job, mem: array<Byte>, c0: Cursor, ghost valid: bool, ghost want: seq<Byte>,
                   ghost goal: Meaning)
    returns (c: Cursor)
    requires job.Ok(mem.Length) && c0.next == SafeMatchCopy && CursorOk(job, mem[..], c0, valid, want, goal)
    requires valid && !job.partial ==> |want| <= job.OutLen(job.oend)
    requires job.partial ==> goal.Undefined?
    modifies mem
    ensures SameOutside(mem[..], old(mem[..]), job.dst, job.oend)
    ensures CursorOk(job, mem[..], c, valid, want, goal)
    ensures c.next == Continue || c.next == Finished || c.next == OutputError
    ensures c.ip == c0.ip
    ensures c.next == Continue && job.partial ==> c.op < job.oend
  {
    hide Decode, Live, CopyMatch, Periodic, OnCopy, OnToken;
    var op, offset, length := c0.op, c0.offset, c0.length;
    if job.BadOffset(op, offset) { return c0.(next := OutputError); }
    if job.dict.UsingExtDict? && op - offset < job.low {
      if op + length > job.oend - LASTLITERALS { return c0.(next := OutputError); }
      ExtCopy(job, mem, op, offset, length);
      ExtOn(job, c0.ip, offset, length, job.Out(old(mem[..]), op), job.Out(mem[..], op + length), goal);
      return c0.(next := Continue, op := op + length);
    }
    if job.partial && op + length > job.oend - MATCH_SAFEGUARD_DISTANCE {
      c := PartialMatch(job, mem, c0, valid, want, goal);
      return;
    }
    var ok := SafeCopy(mem, op, offset, length, job.oend);
    if !ok { return c0.(next := OutputError); }
    if valid { CopyDone(job, mem[..], old(mem[..]), c0.ip, op, offset, length, want); }
    CopyOn(job, mem[..], old(mem[..]), c0.ip, op, offset, length, goal);
    c := c0.(next := Continue, op := op + length);
  }

  method LiteralsThenMatch(job: Job, mem: array<Byte>, c0: Cursor, ghost valid: bool, ghost want: seq<Byte>,
                           ghost goal: Meaning)
    returns (c: Cursor)
    requires job.Ok(mem.Length) && c0.next == SafeLiteralCopy && CursorOk(job, mem[..], c0, valid, want, goal)
    requires valid ==> job.Short(want) && (!job.partial ==> |want| <= job.OutLen(job.oend))
    requires job.partial ==> goal.Undefined?
    modifies mem
    ensures SameOutside(mem[..], old(mem[..]), job.dst, job.oend)
    ensures CursorOk(job, mem[..], c, valid, want, goal)
    ensures c.next == Continue || c.next == Finished || c.next == OutputError
    ensures c.next == Continue ==> c.ip > c0.ip
  {
    hide Decode, Live, LiveCopy, LiveMatch, LiveLits, OnToken, OnLits, OnMatch, OnCopy, OnEnd;
    var next, ip, op := SafeLiterals(job, mem, c0, valid, want, goal);
    if next != Continue { return c0.(next := next, ip := ip, op := op); }
    var ok, offset, length, ip1 := MatchField(job, c0.token, ip, valid, job.Out(mem[..], op), want, goal);
    if !ok { return c0.(next := OutputError, ip := ip, op := op); }
    c := SafeMatch(job, mem, Cursor(SafeMatchCopy, c0.token, offset, length, ip1, op), valid, want, goal);
  }

  /** One sequence of the safe loop, from its token. */
  method SafeSequence(job: Job, mem: array<Byte>, c0: Cursor, ghost valid: bool, ghost want: seq<Byte>,
                      ghost goal: Meaning)
    returns (c: Cursor)
    requires job.Ok(mem.Length) && c0.next == Continue && CursorOk(job, mem[..], c0, valid, want, goal)
    requires valid ==> job.Short(want) && (!job.partial ==> |want| <= job.OutLen(job.oend))
    requires job.partial ==> goal.Undefined?
    modifies mem
    ensures SameOutside(mem[..], old(mem[..]), job.dst, job.oend)
    ensures CursorOk(job, mem[..], c, valid, want, goal)
    ensures c.next == Continue || c.next == Finished || c.next == OutputError
    ensures c.next == Continue ==> c.ip > c0.ip
  {
    hide Decode, Live, LiveCopy, LiveMatch, LiveLits, OnToken, OnLits, OnMatch, OnCopy, OnEnd;
    var token := job.src[c0.ip];
    if token / 16 != 15 && c0.ip + 1 < |job.src| - 16 && c0.op <= job.oend - 32 {
      c := Shortcut(job, mem, c0.ip, c0.op, valid, want, goal);
      if c.next == SafeMatchCopy {
        c := SafeMatch(job, mem, c, valid, want, goal);
      }
    } else {
      if valid { LiveToken(job.src, c0.ip, job.Out(mem[..], c0.op), want); }
      var ok, length, ip := LiteralLength(job, c0.ip, job.Out(mem[..], c0.op), goal);
      if !ok { return c0.(next := OutputError); }
      c := LiteralsThenMatch(job, mem, Cursor(SafeLiteralCopy, token, 0, length, ip, c0.op), valid, want, goal);
    }
  }

  /** The safe loop, entered at a token or where the fast loop left off. */
  method SafeLoop(job: Job, mem: array<Byte>, c0: Cursor, ghost valid: bool, ghost want: seq<Byte>, ghost goal: Meaning)
    returns (c: Cursor)
    requires job.Ok(mem.Length) && !c0.next.Finished? && CursorOk(job, mem[..], c0, valid, want, goal)
    requires valid ==> job.Short(want) && (!job.partial ==> |want| <= job.OutLen(job.oend))
    requires job.partial ==> goal.Undefined?
    modifies mem
    ensures SameOutside(mem[..], old(mem[..]), job.dst, job.oend)
    ensures CursorOk(job, mem[..], c, valid, want, goal) && (c.next == Finished || c.next == OutputError)
  {
    hide Decode, Live, LiveCopy, LiveMatch, LiveLits, OnToken, OnLits, OnMatch, OnCopy, OnEnd;
    c := c0;
    if c.next == SafeLiteralCopy {
      c := LiteralsThenMatch(job, mem, c, valid, want, goal);
    } else if c.next == SafeMatchCopy {
      c := SafeMatch(job, mem, c, valid, want, goal);
    }
    while c.next == Continue
      invariant CursorOk(job, mem[..], c, valid, want, goal)
      invariant c.next == Continue || c.next == Finished || c.next == OutputError
      invariant SameOutside(mem[..], old(mem[..]), job.dst, job.oend)
      decreases if c.next == Continue then |job.src| - c.ip + 1 else 0
    {
      c := SafeSequence(job, mem, c, valid, want, goal);
    }
  }

  /**
   LZ4_decompress_generic. Nothing outside the output buffer changes, whatever the input. When the
   input is a well-formed block for `content` and there is room, all of it is produced; in partial
   mode, as much of it as there is room for.
   */
  method DecompressGeneric(job: Job, mem: array<Byte>, ghost content: seq<Byte>) returns (r: int)
    requires job.Ok(mem.Length)
    modifies mem
    ensures SameOutside(mem[..], old(mem[..]), job.dst, job.oend)
    ensures r <= job.oend - job.dst
    ensures Decodes(job.src, job.Out(old(mem[..]), job.dst), content) ==>
              (if job.partial then
                 |content| < UNSIGNED_LIMIT ==>
                   r == Min(|content|, job.oend - job.dst) && mem[job.dst..job.dst + r] == content[..r]
               else
                 |content| <= job.oend - job.dst && (job.oend > job.dst || job.src == [0]) ==>
                   r == |content| && mem[job.dst..job.dst + r] == content)
    ensures r >= 0 && !job.partial ==>
              Accepts(job.src, job.Out(old(mem[..]), job.dst), job.oend - job.dst, mem[job.dst..job.dst + r])
  {
    hide Decode, Decodes, Live, LiveCopy, LiveMatch, LiveLits, OnToken, Means;
    ghost var hist := job.Out(mem[..], job.dst);
    ghost var want := hist + content;
    ghost var valid := Decodes(job.src, hist, content) && |content| < UNSIGNED_LIMIT
      && (job.partial || |content| <= job.oend - job.dst);
    if valid { DecodesLive(job.src, hist, content); }
    if job.oend == job.dst {
      NoRoom(job.src, hist);
      return if job.partial then 0 else if job.src == [0] then 0 else -1;
    }
    if |job.src| == 0 { return -1; }
    ghost var goal := if job.partial then Undefined else BlockMeans(job.src, hist, job.oend - job.dst);
    assert OnToken(job, 0, hist, goal) by { Starts(job, hist, goal); }
    var c := BothLoops(job, mem, valid, want, goal);
    if c.next == OutputError { return -1 - c.ip; }
    if valid { OutContent(job, mem[..], old(mem[..]), c.op, content); }
    r := c.op - job.dst;
    OutText(job, mem[..], old(mem[..]), c.op);
    assert content[..|content|] == content;
  }

  /** The fast loop as far as it goes, and then the safe one. */
  method BothLoops(job: Job, mem: array<Byte>, ghost valid: bool, ghost want: seq<Byte>, ghost goal: Meaning)
    returns (c: Cursor)
    requires job.Ok(mem.Length) && job.dst < job.oend && |job.src| > 0
    requires valid ==> job.Short(want) && (!job.partial ==> |want| <= job.OutLen(job.oend))
    requires job.partial ==> goal.Undefined?
    requires valid ==> Live(job.src, 0, job.Out(mem[..], job.dst), want)
    requires OnToken(job, 0, job.Out(mem[..], job.dst), goal)
    modifies mem
    ensures SameOutside(mem[..], old(mem[..]), job.dst, job.oend)
    ensures CursorOk(job, mem[..], c, valid, want, goal) && (c.next == Finished || c.next == OutputError)
  {
    hide Decode, Live, LiveCopy, LiveMatch, LiveLits, OnToken, OnLits, OnMatch, OnCopy, OnEnd;
    c := Cursor(Continue, 0, 0, 0, 0, job.dst);
    if job.oend - job.dst >= FASTLOOP_SAFE_DISTANCE {
      c := FastLoop(job, mem, valid, want, goal);
    }
    if c.next != OutputError {
      c := SafeLoop(job, mem, c, valid, want, goal);
    }
  }

  /** A block of one zero byte is the empty one. */
  lemma NoRoom(src: seq<Byte>, hist: seq<Byte>)
    ensures src == [0] ==> Accepts(src, hist, 0, [])
  {
    if src == [0] {
      assert MeansLits(src, 0, 1, 0, hist, |hist|) == Text(hist + src[1..1]) && src[1..1] == [];
    }
  }

  lemma Starts(job: Job, hist: seq<Byte>, goal: Meaning)
    requires job.low <= job.dst <= job.oend && |hist| == job.OutLen(job.dst)
    requires goal.Undefined? || goal == BlockMeans(job.src, hist, job.oend - job.dst)
    ensures OnToken(job, 0, hist, goal)
  {
    hide Means;
  }

  lemma OutText(job: Job, m: seq<Byte>, before: seq<Byte>, op: nat)
    requires job.Ok(|m|) && job.dst <= op <= job.oend && SameOutside(m, before, job.dst, job.oend)
    ensures job.Out(m, op) == job.Out(before, job.dst) + m[job.dst..op]
  {
    OutLits(job, m, before, job.dst, m[job.dst..op]);
  }

  lemma DecodesLive(src: seq<Byte>, hist: seq<Byte>, content: seq<Byte>)
    requires Decodes(src, hist, content)
    ensures Live(src, 0, hist, hist + content) && |src| > 0
  {
  }

  /** Where the output agrees with the wanted bytes, so does the buffer. */
  lemma OutContent(job: Job, m: seq<Byte>, before: seq<Byte>, op: nat, content: seq<Byte>)
    requires job.Ok(|m|) && job.dst <= op <= job.oend && SameOutside(m, before, job.dst, job.oend)
    requires var want := job.Out(before, job.dst) + content;
             job.OutLen(op) <= |want| && want[..job.OutLen(op)] == job.Out(m, op)
    ensures op - job.dst <= |content| && m[job.dst..op] == content[..op - job.dst]
  {
    var want := job.Out(before, job.dst) + content;
    var n := job.OutLen(job.dst);
    assert want[..job.OutLen(op)][n..] == content[..op - job.dst];
    assert job.Out(m, op)[n..] == m[job.dst..op];
  }

  // ----- The decoding functions of the API -----

  /** LZ4_decompress_safe. */
  method DecompressSafe(src: seq<Byte>, mem: array<Byte>, dst: nat, capacity: nat, ghost content: seq<Byte>)
    returns (r: int)
    requires dst + capacity <= mem.Length && |src| < INT_LIMIT && capacity < INT_LIMIT
    modifies mem
    ensures SameOutside(mem[..], old(mem[..]), dst, dst + capacity) && r <= capacity
    ensures Decodes(src, [], content) && |content| <= capacity && (capacity > 0 || src == [0]) ==>
              r == |content| && mem[dst..dst + r] == content
    ensures r >= 0 ==> Accepts(src, [], capacity, mem[dst..dst + r])
  {
    hide Decodes, Accepts;
    var job := Job(src, dst, dst + capacity, false, NoDict, dst, 0, 0);
    assert job.Out(mem[..], dst) == [];
    r := DecompressGeneric(job, mem, content);
  }

  /** LZ4_decompress_safe_partial: a prefix of the full decoding, as long as the target allows. */
  method DecompressSafePartial(src: seq<Byte>, mem: array<Byte>, dst: nat, target: nat, dstCapacity: nat,
                               ghost content: seq<Byte>)
    returns (r: int)
    requires dst + dstCapacity <= mem.Length && |src| < INT_LIMIT && dstCapacity < INT_LIMIT
    modifies mem
    ensures SameOutside(mem[..], old(mem[..]), dst, dst + dstCapacity) && r <= Min(target, dstCapacity)
    ensures Decodes(src, [], content) && |content| < UNSIGNED_LIMIT ==>
              r == Min(|content|, Min(target, dstCapacity)) && mem[dst..dst + r] == content[..r]
  {
    hide Decodes;
    var job := Job(src, dst, dst + Min(target, dstCapacity), true, NoDict, dst, 0, 0);
    assert job.Out(mem[..], dst) == [];
    r := DecompressGeneric(job, mem, content);
  }

  /**
   LZ4_decompress_safe_usingDict. Whether the history lies directly before the output or elsewhere,
   and however long it is, a block that is well-formed for that history gives back its content.
   */
  method DecompressSafeUsingDict(src: seq<Byte>, mem: array<Byte>, dst: nat, capacity: nat,
                                 dictStart: nat, dictSize: nat, ghost content: seq<Byte>)
    returns (r: int)
    requires dst + capacity <= mem.Length && |src| < INT_LIMIT && capacity < INT_LIMIT
    requires dictSize > 0 ==>
               && 0 < dictStart && dictStart + dictSize <= mem.Length
               && (dictStart + dictSize <= dst || dst + capacity + Min(dictSize, KB64) <= dictStart + dictSize)
    modifies mem
    ensures SameOutside(mem[..], old(mem[..]), dst, dst + capacity) && r <= capacity
    ensures Decodes(src, DictContent(old(mem[..]), dictStart, dictSize), content) &&
            |content| <= capacity && (capacity > 0 || src == [0]) ==>
              r == |content| && mem[dst..dst + r] == content
    ensures r >= 0 ==> Accepts(src, DictContent(old(mem[..]), dictStart, dictSize), capacity, mem[dst..dst + r])
  {
    hide Decodes, Accepts, DictContent, DictJob, Job.Out, Job.Ok, SameOutside;
    if dictSize == 0 {
      NoDictContent(mem[..], dictStart);
      r := DecompressSafe(src, mem, dst, capacity, content);
      return;
    }
    var job := DictJob(src, dst, capacity, dictStart, dictSize);
    DictJobDecodes(src, mem[..], dst, capacity, dictStart, dictSize, content);
    r := DecompressGeneric(job, mem, content);
    if r >= 0 { DictJobAccepts(src, old(mem[..]), dst, capacity, dictStart, dictSize, mem[dst..dst + r]); }
  }

  /** Which instance of the decoder a dictionary calls for: a prefix of 64 KB, a small prefix, or one elsewhere. */
  function DictJob(src: seq<Byte>, dst: nat, capacity: nat, dictStart: nat, dictSize: nat): Job
    requires dictSize > 0 && dictStart > 0
  {
    var dictEnd := dictStart + dictSize;
    var window := if dictSize > KB64 then KB64 else dictSize;
    if dictEnd == dst && dictSize >= KB64 - 1 then Job(src, dst, dst + capacity, false, WithPrefix64k, dst - KB64, 0, 0)
    else if dictEnd == dst then Job(src, dst, dst + capacity, false, NoDict, dictStart, 0, 0)
    else Job(src, dst, dst + capacity, false, UsingExtDict, dst, dictEnd - window, window)
  }

  lemma DictJobDecodes(src: seq<Byte>, m: seq<Byte>, dst: nat, capacity: nat, dictStart: nat, dictSize: nat,
                       content: seq<Byte>)
    requires dst + capacity <= |m| && dictSize > 0 && 0 < dictStart && dictStart + dictSize <= |m|
    requires |src| < INT_LIMIT && capacity < INT_LIMIT
    requires dictStart + dictSize <= dst || dst + capacity + Min(dictSize, KB64) <= dictStart + dictSize
    ensures var job := DictJob(src, dst, capacity, dictStart, dictSize);
            && job.Ok(|m|) && job.src == src && job.dst == dst && job.oend == dst + capacity && !job.partial
            && (Decodes(src, DictContent(m, dictStart, dictSize), content) ==> Decodes(src, job.Out(m, dst), content))
  {
    hide Decodes;
    var job := DictJob(src, dst, capacity, dictStart, dictSize);
    if job.dict.WithPrefix64k? {
      WindowOf(src, m, dst, Min(dictSize, KB64), content);
      assert job.Out(m, dst) == m[dst - KB64..dst];
    } else {
      assert job.Out(m, dst) == DictContent(m, dictStart, dictSize);
    }
  }

  lemma NoDictContent(m: seq<Byte>, dictStart: nat)
    ensures DictContent(m, dictStart, 0) == []
  {
  }

  lemma DictJobAccepts(src: seq<Byte>, m: seq<Byte>, dst: nat, capacity: nat, dictStart: nat, dictSize: nat,
                       text: seq<Byte>)
    requires dst + capacity <= |m| && dictSize > 0 && 0 < dictStart && dictStart + dictSize <= |m|
    requires |src| < INT_LIMIT && capacity < INT_LIMIT
    requires dictStart + dictSize <= dst || dst + capacity + Min(dictSize, KB64) <= dictStart + dictSize
    ensures var job := DictJob(src, dst, capacity, dictStart, dictSize);
            && job.Ok(|m|)
            && (Accepts(src, job.Out(m, dst), capacity, text) ==>
                  Accepts(src, DictContent(m, dictStart, dictSize), capacity, text))
  {
    hide Accepts;
    var job := DictJob(src, dst, capacity, dictStart, dictSize);
    if job.dict.WithPrefix64k? {
      assert job.Out(m, dst) == m[dst - KB64..dst];
      if dictSize < KB64 {
        assert m[dst - KB64..dst] == m[dst - KB64..dst - dictSize] + m[dst - dictSize..dst];
        AcceptsWindow(src, m[dst - KB64..dst - dictSize], m[dst - dictSize..dst], capacity, text);
      }
    } else {
      assert job.Out(m, dst) == DictContent(m, dictStart, dictSize);
    }
  }

  /** What a dictionary amounts to: no offset reaches further than its last 64 KB. */
  ghost function DictContent(m: seq<Byte>, dictStart: nat, dictSize: nat): seq<Byte>
    requires dictSize > 0 ==> dictStart + dictSize <= |m|
  {
    if dictSize == 0 then [] else m[dictStart + dictSize - Min(dictSize, KB64)..dictStart + dictSize]
  }

  /** A prefix of at least 64 KB - 1 bytes may be read as one of exactly 64 KB. */
  lemma WindowOf(src: seq<Byte>, m: seq<Byte>, dst: nat, dictSize: nat, content: seq<Byte>)
    requires KB64 - 1 <= dictSize < dst <= |m|
    ensures Decodes(src, m[dst - dictSize..dst], content) ==> Decodes(src, m[dst - KB64..dst], content)
  {
    hide Decodes;
    if dictSize >= KB64 {
      assert m[dst - dictSize..dst] == m[dst - dictSize..dst - KB64] + m[dst - KB64..dst];
      DecodesWindow(src, m[dst - dictSize..dst - KB64], m[dst - KB64..dst], content);
    } else {
      assert m[dst - KB64..dst] == m[dst - KB64..dst - dictSize] + m[dst - dictSize..dst];
      DecodesWindow(src, m[dst - KB64..dst - dictSize], m[dst - dictSize..dst], content);
    }
  }
}
