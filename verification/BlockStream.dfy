/**
 LZ4_stream_t: compression of linked blocks. The stream remembers where the previous input lies
 and keeps indices into it across calls; memory is one flat array, and address 0 is NULL.
 */
module BlockStream {
  import opened Bytes
  import opened BlockFormat
  import opened Copies
  import opened MatchSearch
  import opened GreedyParse
  import opened BlockEncoder
  import opened BlockApi

  const INDEX_MAX: nat := 0x80000000
  const GB1: nat := 0x40000000

  datatype TableType = Cleared | ByU32 | ByU16

  // ----- Renormalisation of indices -----

  /** What LZ4_renormDictT makes of a table entry. */
  function RenormEntry(e: nat, delta: nat): nat {
    if e < delta then 0 else e - delta
  }

  function RenormAll(t: seq<nat>, delta: nat): (t': seq<nat>)
    ensures |t'| == |t|
  {
    seq(|t|, h requires 0 <= h < |t| => RenormEntry(t[h], delta))
  }

  /** The 32-bit difference LZ4_renormDictT subtracts. */
  function RenormDelta(currentOffset: nat): nat {
    if currentOffset >= KB64 then currentOffset - KB64 else currentOffset + 0x1_0000_0000 - KB64
  }

  /**
   Renormalising changes neither which entries the next block may take as candidates, at any of its
   positions, nor the offset they would be encoded with.
   */
  lemma RenormPreserves(before: Job, after: Job, e: nat, p: nat)
    requires !before.byU16 && KB64 <= before.startIndex && before.dictSize <= before.startIndex
    requires e <= before.startIndex
    requires before.dictSmall == (before.dictSize < KB64 && before.dictSize < before.startIndex)
    requires after == before.(startIndex := KB64, dictSize := after.dictSize, dictSmall := after.dictSmall,
                              dictionary := after.dictionary, dict := after.dict)
    requires after.dictSize == Min(before.dictSize, KB64) && after.dictSmall == (after.dictSize < KB64)
    requires before.source <= p
    ensures var e' := RenormEntry(e, RenormDelta(before.startIndex));
            && (before.InWindow(e, before.Index(p)) <==> after.InWindow(e', after.Index(p)))
            && (before.InWindow(e, before.Index(p)) ==> before.Index(p) - e == after.Index(p) - e')
  {
    hide RenormDelta;
    DeltaIs(before.startIndex);
  }

  lemma DeltaIs(currentOffset: nat)
    requires KB64 <= currentOffset
    ensures RenormDelta(currentOffset) == currentOffset - KB64
  {
  }

  /** The bytes of `m` at `p` are the last `n` bytes of `h`. */
  ghost predicate EndsWith(h: seq<Byte>, m: seq<Byte>, p: nat, n: nat) {
    p + n <= |m| && n <= |h| && m[p..p + n] == h[|h| - n..]
  }

  /**
   The part of the dictionary a source at `source` leaves usable: none of a tiny one elsewhere, and not what it
   overlaps.
   */
  function UsableDict(dictionary: nat, dictSize: nat, source: nat, n: nat): (d: nat)
    ensures d <= dictSize
  {
    var dictEnd := dictionary + dictSize;
    if 1 <= dictSize < 4 && dictEnd != source then 0
    else if dictionary < source + n < dictEnd then
      var left := dictEnd - (source + n);
      var kept := if left > KB64 then KB64 else left;
      if kept < 4 then 0 else kept
    else dictSize
  }

  /** What a stream knows of where its history lies: the dictionary, and the index that follows it. */
  datatype Window = Window(dictionary: nat, dictSize: nat, currentOffset: nat) {
    /** What is left of it when indices are renormalised before `n` more bytes. */
    function Renormed(n: nat): Window {
      if currentOffset + n > INDEX_MAX then
        var kept := Min(dictSize, KB64);
        Window(dictionary + dictSize - kept, kept, KB64)
      else this
    }

    /** What is left of it for a block at `source`: not a tiny one elsewhere, and not what the block overlaps. */
    function Settled(source: nat, n: nat): Window {
      if 1 <= dictSize < 4 && dictionary + dictSize != source then Window(source, 0, currentOffset)
      else
        var kept := UsableDict(dictionary, dictSize, source, n);
        Window(dictionary + dictSize - kept, kept, currentOffset)
    }

    predicate Adjacent(source: nat) {
      dictionary + dictSize == source || 1 <= dictSize < 4
    }

    /** After a block at `source`, which extends the dictionary if it follows it, and else replaces it. */
    function Next(source: nat, n: nat): Window {
      var w := Renormed(n);
      if w.dictionary + w.dictSize == source then Window(w.dictionary, w.dictSize + n, w.currentOffset + n)
      else Window(source, n, w.currentOffset + n)
    }

    /** The block starts where the dictionary it would use does, and is long enough for a match to be miscounted. */
    predicate Restarts(source: nat, n: nat) {
      var w := Renormed(n);
      w.dictionary == source && Outlasts(n, w.dictSize)
    }
  }

  /** A table, what it was last used for, and the next index. */
  datatype Prepared = Prepared(table: seq<nat>, kind: TableType, offset: nat) {
    /**
     Whether LZ4_prepareTable clears it: for another use, for lack of indices, or for an input that makes it worth it.
     */
    predicate Clears(inputSize: nat, wanted: TableType) {
      !kind.Cleared? &&
      (kind != wanted || (wanted == ByU16 && offset + inputSize >= 0xFFFF) || (wanted == ByU32 && offset > GB1) ||
       inputSize >= 4096)
    }

    /** After LZ4_prepareTable: cleared, or with a gap of 64 KB before the next index. */
    function Next(inputSize: nat, wanted: TableType): Prepared {
      var p := if Clears(inputSize, wanted) then Prepared(Empty(|table|), Cleared, 0) else this;
      if p.offset != 0 && wanted == ByU32 then p.(offset := p.offset + KB64) else p
    }
  }

  /** What becomes of a dictionary before the block is compressed, and what the block makes of it. */
  lemma SettledIs(w: Window, source: nat, n: nat)
    ensures var v := w.Renormed(n).Settled(source, n);
            && (v.dictionary + v.dictSize == source <==> w.Adjacent(source))
            && (v.dictionary + v.dictSize == source || v.dictSize == 0 || v.dictSize >= MINMATCH)
            && v.dictSize <= UsableDict(w.dictionary, w.dictSize, source, n)
            && (v.dictSize > 0 ==> v.dictionary + v.dictSize == w.dictionary + w.dictSize)
            && (v.currentOffset + n <= INDEX_MAX ==> v.Next(source, n) == w.Next(source, n))
            && (v.dictionary == source && v.dictionary + v.dictSize != source && Outlasts(n, v.dictSize) <==>
               w.Restarts(source, n))
  {
  }

  lemma EndsWithShorter(h: seq<Byte>, m: seq<Byte>, p: nat, n: nat, k: nat)
    requires EndsWith(h, m, p, n) && k <= n
    ensures EndsWith(h, m, p + n - k, k)
  {
    assert m[p + n - k..p + n] == m[p..p + n][n - k..];
    assert h[|h| - k..] == h[|h| - n..][n - k..];
  }

  lemma EndsWithAppend(h: seq<Byte>, m: seq<Byte>, p: nat, n: nat, k: nat)
    requires EndsWith(h, m, p, n) && p + n + k <= |m|
    ensures EndsWith(h + m[p + n..p + n + k], m, p, n + k)
  {
    assert m[p..p + (n + k)] == m[p..p + n] + m[p + n..p + n + k];
  }

  lemma EndsWithLast(h: seq<Byte>, m: seq<Byte>, p: nat, k: nat, n: nat)
    requires k <= p && EndsWith(h, m, p - k, k) && p + n <= |m|
    ensures EndsWith(h + m[p..p + n], m, p + n - Min(k + n, KB64), Min(k + n, KB64))
  {
    hide EndsWith;
    EndsWithAppend(h, m, p - k, k, n);
    EndsWithShorter(h + m[p..p + n], m, p - k, k + n, Min(k + n, KB64));
  }

  lemma EndsWithin(h: seq<Byte>, m: seq<Byte>, p: nat, n: nat)
    requires EndsWith(h, m, p, n)
    ensures p + n <= |m|
  {
  }

  lemma EndsWithNone(h: seq<Byte>, m: seq<Byte>, p: nat)
    requires p <= |m|
    ensures EndsWith(h, m, p, 0) && SameOutside(m, m, p, p)
  {
  }

  lemma EndsWithMoved(h: seq<Byte>, m: seq<Byte>, m': seq<Byte>, p: nat, q: nat, n: nat)
    requires EndsWith(h, m, p, n) && q + n <= |m'| && m'[q..q + n] == m[p..p + n]
    ensures EndsWith(h, m', q, n)
  {
  }

  /** memmove of the end of `h`. */
  method MoveEnd(mem: array<Byte>, to: nat, from: nat, n: nat, ghost h: seq<Byte>)
    requires to + n <= mem.Length && EndsWith(h, mem[..], from, n)
    modifies mem
    ensures SameOutside(mem[..], old(mem[..]), to, to + n) && EndsWith(h, mem[..], to, n)
  {
    EndsWithin(h, mem[..], from, n);
    ghost var m := mem[..];
    assert m[from..from + n] == mem[from..from + n];
    MemCopy(mem, to, from, n);
    assert mem[..][to..to + n] == mem[to..to + n];
    hide EndsWith, SameOutside;
    EndsWithMoved(h, m, mem[..], from, to, n);
  }

  class Stream {
    const hasher: Hasher
    const table: array<nat>
    var tableType: TableType
    var currentOffset: nat
    var dictionary: nat
    var dictSize: nat
    /** All input of this stream since it was last reset. */
    ghost var history: seq<Byte>

    ghost predicate Valid()
      reads this, table
    {
      && hasher.Ok() && table.Length == hasher.slots
      && TableBefore(table[..], currentOffset)
      && dictSize <= currentOffset <= INDEX_MAX
      && (tableType.Cleared? ==> currentOffset == 0)
    }

    /** LZ4_initStream. */
    constructor (h: Hasher)
      requires h.Ok()
      ensures Valid() && fresh(table) && hasher == h && history == []
      ensures tableType == Cleared && currentOffset == 0 && dictionary == 0 && dictSize == 0
    {
      hasher := h;
      table := new nat[h.slots](_ => 0);
      tableType, currentOffset, dictionary, dictSize, history := Cleared, 0, 0, 0, [];
    }

    /** Where its history lies. */
    function View(): Window
      reads `dictionary, `dictSize, `currentOffset
    {
      Window(dictionary, dictSize, currentOffset)
    }

    function Prep(): Prepared
      reads `tableType, `currentOffset, table
    {
      Prepared(table[..], tableType, currentOffset)
    }

    /** The table as it is after renormalisation before `n` more bytes. */
    function RenormedTable(n: nat): seq<nat>
      reads `currentOffset, table
    {
      if currentOffset + n > INDEX_MAX then RenormAll(table[..], RenormDelta(currentOffset)) else table[..]
    }

    /** Of the last `n` bytes of the dictionary, those an offset can reach are the end of the history. */
    ghost predicate Finds(mem: seq<Byte>, n: nat)
      reads `dictionary, `dictSize, `history
    {
      n <= dictSize && (n > 0 ==> EndsWith(history, mem, dictionary + dictSize - Min(n, KB64), Min(n, KB64)))
    }

    lemma FindsFewer(mem: seq<Byte>, n: nat, k: nat)
      requires Finds(mem, n) && k <= n
      ensures Finds(mem, k)
    {
      hide EndsWith;
      if k > 0 { EndsWithShorter(history, mem, dictionary + dictSize - Min(n, KB64), Min(n, KB64), Min(k, KB64)); }
    }

    /** LZ4_renormDictT: rescales the indices before they can overflow. */
    method Renorm(nextSize: nat, ghost mem: seq<Byte>, ghost source: nat)
      requires Valid() && nextSize < INDEX_MAX
      modifies this`currentOffset, this`dictionary, this`dictSize, table
      ensures Valid() && (nextSize <= MAX_INPUT_SIZE ==> currentOffset + nextSize <= INDEX_MAX)
      ensures View() == old(View()).Renormed(nextSize)
      ensures table[..] == old(RenormedTable(nextSize))
      ensures old(currentOffset) + nextSize <= INDEX_MAX ==>
                currentOffset == old(currentOffset) && dictSize == old(dictSize) && table[..] == old(table[..])
      ensures old(currentOffset) + nextSize > INDEX_MAX ==>
                && currentOffset == KB64 && dictSize == Min(old(dictSize), KB64)
                && forall h :: 0 <= h < table.Length ==>
                     table[h] == RenormEntry(old(table[h]), RenormDelta(old(currentOffset)))
      ensures nextSize <= MAX_INPUT_SIZE ==>
                var before, after := old(LinkedJob(mem, source, nextSize, 1)), LinkedJob(mem, source, nextSize, 1);
                forall h, p :: 0 <= h < table.Length && source <= p ==>
                  && (before.InWindow(old(table[h]), before.Index(p)) <==> after.InWindow(table[h], after.Index(p)))
                  && (before.InWindow(old(table[h]), before.Index(p)) ==>
                        before.Index(p) - old(table[h]) == after.Index(p) - table[h])
    {
      hide RenormDelta, Job.InWindow;
      if currentOffset + nextSize > INDEX_MAX {
        var delta, dictEnd := RenormDelta(currentOffset), dictionary + dictSize;
        var i := 0;
        while i < table.Length
          invariant 0 <= i <= table.Length
          invariant forall h :: 0 <= h < i ==> table[h] == RenormEntry(old(table[h]), delta)
          invariant forall h :: i <= h < table.Length ==> table[h] == old(table[h])
          modifies table
        {
          table[i] := RenormEntry(table[i], delta);
          i := i + 1;
        }
        forall h | 0 <= h < table.Length
          ensures table[h] == 0 || table[h] + MINMATCH <= KB64
        {
          assert old(table[..])[h] == old(table[h]);
          if currentOffset >= KB64 { DeltaIs(currentOffset); }
        }
        currentOffset := KB64;
        if dictSize > KB64 { dictSize := KB64; }
        dictionary := dictEnd - dictSize;
        if nextSize <= MAX_INPUT_SIZE {
          forall h, p | 0 <= h < table.Length && source <= p
            ensures var before, after := old(LinkedJob(mem, source, nextSize, 1)), LinkedJob(mem, source, nextSize, 1);
                    && (before.InWindow(old(table[h]), before.Index(p)) <==> after.InWindow(table[h], after.Index(p)))
                    && (before.InWindow(old(table[h]), before.Index(p)) ==>
                          before.Index(p) - old(table[h]) == after.Index(p) - table[h])
          {
            assert old(table[..])[h] == old(table[h]);
            RenormPreserves(old(LinkedJob(mem, source, nextSize, 1)), LinkedJob(mem, source, nextSize, 1),
                            old(table[h]), p);
          }
        }
      }
    }

    /** The job LZ4_compress_fast_continue runs, once the dictionary is settled. */
    function LinkedJob(mem: seq<Byte>, source: nat, n: nat, acceleration: nat): Job
      reads this
    {
      JobFor(View(), mem, source, n, acceleration)
    }

    function JobFor(w: Window, mem: seq<Byte>, source: nat, n: nat, acceleration: nat): Job {
      Job(mem, source, n, w.currentOffset,
          if w.dictionary + w.dictSize == source then WithPrefix64k else UsingExtDict, w.dictionary, w.dictSize,
          w.dictSize < KB64 && w.dictSize < w.currentOffset,
          false, LimitedOutput, acceleration, hasher.slots, hasher.hash)
    }

    /** What the next linked block is compressed to, when there is room for it. */
    ghost function LinkedBlock(mem: seq<Byte>, source: nat, n: nat, acceleration: int): seq<Byte>
      reads this, table
    {
      BlockFor(JobFor(View().Renormed(n).Settled(source, n), mem, source, n, Clamp(acceleration)), RenormedTable(n))
    }

    /** The job of a block on its own, on a prepared table. */
    function ResetJob(p: Prepared, mem: seq<Byte>, source: nat, n: nat, mode: OutputMode, acceleration: nat): Job {
      var byU16 := n < LIMIT_64K;
      Job(mem, source, n, p.offset, NoDict, 0, 0, byU16 && p.offset != 0, byU16, mode, acceleration, hasher.slots,
          hasher.hash)
    }

    /** What the next block on its own is compressed to, when there is room for it. */
    ghost function ResetBlock(p: Prepared, mem: seq<Byte>, source: nat, n: nat, acceleration: int): seq<Byte> {
      var q := p.Next(n, if n < LIMIT_64K then ByU16 else ByU32);
      BlockFor(ResetJob(q, mem, source, n, LimitedOutput, Clamp(acceleration)), q.table)
    }

    /** Forgets a tiny dictionary that is not adjacent, and the part of one that the input overlaps. */
    method SettleDict(mem: seq<Byte>, source: nat, n: nat)
      requires Valid()
      modifies this`dictionary, this`dictSize
      ensures Valid() && View() == old(View()).Settled(source, n)
    {
      var dictEnd := dictionary + dictSize;
      if 1 <= dictSize < 4 && dictEnd != source {
        dictSize, dictionary, dictEnd := 0, source, source;
      }
      var sourceEnd := source + n;
      if dictionary < sourceEnd < dictEnd {
        dictSize := dictEnd - sourceEnd;
        if dictSize > KB64 { dictSize := KB64; }
        if dictSize < 4 { dictSize := 0; }
        dictionary := dictEnd - dictSize;
      }
    }

    /**
     LZ4_compress_fast_continue. As long as what offsets can reach of the dictionary it will use is
     unmodified, the block decodes against all earlier input of the stream to exactly the new input,
     which then joins the history whether or not it was compressed; unless the dictionary starts where
     the block does and is shorter. An oversized input is refused, but unless the input is adjacent to
     the dictionary the stream is left claiming more history than it has indices for.
     */
    method Continue(mem: seq<Byte>, source: nat, n: nat, dst: array<Byte>, dest: nat, capacity: nat, acceleration: int)
      returns (r: nat)
      requires Valid() && !tableType.ByU16? && 0 < source && source + n <= |mem| && dest + capacity <= dst.Length
      requires n < INDEX_MAX && Steady(acceleration) && (n <= MAX_INPUT_SIZE ==> !View().Restarts(source, n))
      requires Finds(mem, UsableDict(dictionary, dictSize, source, n))
      modifies this, table, dst
      ensures SameOutside(dst[..], old(dst[..]), dest, dest + capacity)
      ensures n > MAX_INPUT_SIZE ==> r == 0 && history == old(history) && (Valid() <==> old(View()).Adjacent(source))
      ensures n > MAX_INPUT_SIZE ==>
                if old(View()).Adjacent(source) then dictionary + dictSize == source
                else dictionary == source && dictSize == n > currentOffset
      ensures n <= MAX_INPUT_SIZE ==> Valid() && tableType == ByU32 && history == old(history) + mem[source..source + n]
      ensures n <= MAX_INPUT_SIZE ==> View() == old(View()).Next(source, n) && Finds(mem, dictSize)
      ensures n < MIN_LENGTH && old(currentOffset) + n <= INDEX_MAX ==> table[..] == old(table[..])
      ensures n <= MAX_INPUT_SIZE && capacity >= CompressBound(n) ==> r > 0
      ensures r > 0 ==> r <= capacity && Decodes(dst[dest..dest + r], old(history), mem[source..source + n])
      ensures r > 0 && n == 0 ==> dst[dest..dest + r] == [0]
      ensures n <= MAX_INPUT_SIZE ==>
                var block := old(LinkedBlock(mem, source, n, acceleration));
                block != [] && if |block| <= capacity then r == |block| && dst[dest..dest + r] == block else r == 0
    {
      hide Decodes, EndsWith, TableBefore, Window.Renormed, Window.Settled, BlockFor;
      SettledIs(View(), source, n);
      var acc := Clamp(acceleration);
      SettleHistory(mem, source, n);
      if n > MAX_INPUT_SIZE {
        if dictionary + dictSize != source { dictionary, dictSize := source, n; }
        return 0;
      }
      SteadyClamp(acceleration);
      r := CompressLinked(mem, source, n, dst, dest, capacity, acc);
      Advance(mem, source, n);
    }

    /**
     After an oversized input was refused but taken as dictionary, an empty slot of the table passes for
     a candidate of the next block, somewhere in that input, which no decoder has been given.
     */
    lemma RefusedInput(mem: seq<Byte>, source: nat, n: nat, acceleration: nat)
      requires 0 < currentOffset <= DISTANCE_MAX && MAX_INPUT_SIZE < dictSize && dictionary + dictSize != source
      requires n <= MAX_INPUT_SIZE && !(dictionary < source + n < dictionary + dictSize)
      ensures View().Renormed(n) == View() && UsableDict(dictionary, dictSize, source, n) == dictSize && !Valid()
      ensures var job := LinkedJob(mem, source, n, acceleration);
              && job.InWindow(0, job.Index(source)) && dictionary <= job.Address(0) < dictionary + dictSize && !job.Ok()
    {
    }

    /** Renormalisation and dictionary checks, before a block is compressed. */
    method SettleHistory(mem: seq<Byte>, source: nat, n: nat)
      requires Valid() && n < INDEX_MAX && Finds(mem, UsableDict(dictionary, dictSize, source, n))
      modifies this`currentOffset, this`dictionary, this`dictSize, table
      ensures Valid() && (n <= MAX_INPUT_SIZE ==> currentOffset + n <= INDEX_MAX)
      ensures n > MAX_INPUT_SIZE ==> currentOffset < n
      ensures View() == old(View()).Renormed(n).Settled(source, n) && Finds(mem, dictSize)
      ensures table[..] == old(RenormedTable(n))
    {
      hide EndsWith, TableBefore, UsableDict, Window.Renormed, Window.Settled, Window.Next, Window.Restarts,
           Window.Adjacent, RenormDelta, RenormEntry, Job.InWindow, LinkedJob, Outlasts;
      ghost var u, dictEnd := UsableDict(dictionary, dictSize, source, n), dictionary + dictSize;
      SettledIs(View(), source, n);
      Renorm(n, mem, source);
      SettleDict(mem, source, n);
      if dictSize > 0 { EndsWithShorter(history, mem, dictEnd - Min(u, KB64), Min(u, KB64), Min(dictSize, KB64)); }
    }

    /** Counts the block just handled as history. */
    method Advance(mem: seq<Byte>, source: nat, n: nat)
      requires hasher.Ok() && table.Length == hasher.slots && TableBefore(table[..], currentOffset + n)
      requires source + n <= |mem| && dictSize <= currentOffset && currentOffset + n <= INDEX_MAX
      requires Finds(mem, dictSize)
      modifies this
      ensures Valid() && tableType == ByU32 && history == old(history) + mem[source..source + n]
      ensures View() == old(View()).Next(source, n) && Finds(mem, dictSize)
    {
      hide EndsWith, TableBefore;
      FindsMore(mem, source, n);
      if dictionary + dictSize == source {
        dictSize := dictSize + n;
      } else {
        dictionary, dictSize := source, n;
      }
      currentOffset, tableType, history := currentOffset + n, ByU32, history + mem[source..source + n];
    }

    lemma FindsMore(mem: seq<Byte>, source: nat, n: nat)
      requires source + n <= |mem| && Finds(mem, dictSize)
      ensures var size := if dictionary + dictSize == source then dictSize + n else n;
              EndsWith(history + mem[source..source + n], mem, source + n - Min(size, KB64), Min(size, KB64))
    {
      hide EndsWith;
      EndsWithNone(history, mem, source);
      EndsWithLast(history, mem, source, if dictionary + dictSize == source then Min(dictSize, KB64) else 0, n);
    }

    /** The call of LZ4_compress_generic, against the dictionary as settled. */
    method CompressLinked(mem: seq<Byte>, source: nat, n: nat, dst: array<Byte>, dest: nat, capacity: nat,
                          acceleration: nat)
      returns (r: nat)
      requires Valid() && acceleration >= 1 && Steady(acceleration) && source + n <= |mem|
      requires dest + capacity <= dst.Length
      requires n <= MAX_INPUT_SIZE && currentOffset + n <= INDEX_MAX
      requires dictionary + dictSize == source || dictSize == 0 || dictSize >= MINMATCH
      requires dictionary + dictSize == source || dictionary != source || !Outlasts(n, dictSize)
      requires Finds(mem, dictSize)
      modifies table, dst
      ensures TableBefore(table[..], currentOffset + n) && (n < MIN_LENGTH ==> table[..] == old(table[..]))
      ensures SameOutside(dst[..], old(dst[..]), dest, dest + capacity)
      ensures capacity >= CompressBound(n) ==> r > 0
      ensures r > 0 ==> r <= capacity && Decodes(dst[dest..dest + r], history, mem[source..source + n])
      ensures r > 0 && n == 0 ==> dst[dest..dest + r] == [0]
      ensures var block := old(BlockFor(LinkedJob(mem, source, n, acceleration), table[..]));
              block != [] && if |block| <= capacity then r == |block| && dst[dest..dest + r] == block else r == 0
    {
      hide Decodes, Steady, EndsWith, Block, Parse;
      var job := LinkedJob(mem, source, n, acceleration);
      if dictSize > 0 { EndsWithin(history, mem, dictionary + dictSize - Min(dictSize, KB64), Min(dictSize, KB64)); }
      var consumed;
      ghost var ss, anchor;
      r, consumed, ss, anchor := CompressGeneric(job, table, dst, dest, dest + capacity);
      if r > 0 { AgainstHistory(job, dst[dest..dest + r], mem[source..source + n]); }
    }

    /** Only what offsets can reach of the dictionary matters to a block compressed against it. */
    lemma AgainstHistory(job: Job, block: seq<Byte>, content: seq<Byte>)
      requires job.Ok() && !job.dict.NoDict? && job.dictionary == dictionary && job.dictSize == dictSize
      requires Finds(job.mem, dictSize)
      requires job.dict.WithPrefix64k? ==> dictionary + dictSize == job.source
      requires Decodes(block, job.Hist(), content)
      ensures Decodes(block, history, content)
    {
      hide Decodes, Finds, Job.Hist, Job.Ok;
      var k := Min(dictSize, KB64);
      var h := job.Hist();
      SameEnd(job, k);
      var far, near := h[..dictSize - k], h[dictSize - k..];
      assert h == far + near && history == history[..|history| - k] + near;
      if k == dictSize { assert near == h; }
      DecodesWindow(block, far, near, content);
      DecodesWindow(block, history[..|history| - k], near, content);
    }

    lemma SameEnd(job: Job, k: nat)
      requires job.Ok() && !job.dict.NoDict? && job.dictionary == dictionary && job.dictSize == dictSize
      requires Finds(job.mem, dictSize) && k == Min(dictSize, KB64)
      requires job.dict.WithPrefix64k? ==> dictionary + dictSize == job.source
      ensures |job.Hist()| == dictSize && k <= |history| && job.Hist()[dictSize - k..] == history[|history| - k..]
    {
    }

    lemma FindsLast(mem: seq<Byte>, k: nat)
      requires dictSize > 0 && Finds(mem, dictSize) && k <= Min(dictSize, KB64)
      ensures EndsWith(history, mem, dictionary + dictSize - k, k) && dictionary + dictSize <= |mem|
    {
      EndsWithShorter(history, mem, dictionary + dictSize - Min(dictSize, KB64), Min(dictSize, KB64), k);
    }

    lemma FoundAll(mem: seq<Byte>)
      requires dictSize <= KB64 && EndsWith(history, mem, dictionary, dictSize)
      ensures Finds(mem, dictSize)
    {
    }

    /** LZ4_saveDict: moves the end of the history to a safe place, from which the stream can go on. */
    method SaveDict(mem: array<Byte>, safeBuffer: nat, size: nat) returns (saved: nat)
      requires Valid() && Finds(mem[..], dictSize)
      requires safeBuffer + Min(Min(size, KB64), dictSize) <= mem.Length
      modifies mem, this`dictionary, this`dictSize
      ensures saved == Min(Min(size, KB64), old(dictSize)) && dictSize == saved && dictionary == safeBuffer
      ensures Valid() && SameOutside(mem[..], old(mem[..]), safeBuffer, safeBuffer + saved)
      ensures Finds(mem[..], dictSize)
    {
      hide EndsWith, TableBefore, SameOutside, Finds;
      ghost var m := mem[..];
      saved := if size > KB64 then KB64 else size;
      if saved > dictSize { saved := dictSize; }
      var from := dictionary + dictSize - saved;
      if dictSize > 0 {
        FindsLast(m, saved);
        MoveEnd(mem, safeBuffer, from, saved, history);
      } else {
        EndsWithNone(history, m, safeBuffer);
      }
      dictionary, dictSize := safeBuffer, saved;
      FoundAll(mem[..]);
    }

    /**
     LZ4_prepareTable on a stream that is not dirty: forgets the history, and clears the table or
     leaves a gap so that no old entry can be mistaken for a new one.
     */
    method PrepareTable(inputSize: nat, wanted: TableType)
      requires Valid() && !wanted.Cleared?
      modifies this, table
      ensures Valid() && dictionary == 0 && dictSize == 0 && history == []
      ensures tableType == Cleared || tableType == wanted
      ensures Prep() == old(Prep()).Next(inputSize, wanted)
      ensures wanted == ByU16 && currentOffset > 0 ==> currentOffset + inputSize < 0xFFFF
      ensures inputSize >= 4096 ==> currentOffset == 0
    {
      if !tableType.Cleared? {
        if tableType != wanted || (wanted == ByU16 && currentOffset + inputSize >= 0xFFFF)
           || (wanted == ByU32 && currentOffset > GB1) || inputSize >= 4096 {
          forall i | 0 <= i < table.Length { table[i] := 0; }
          assert table[..] == Empty(table.Length);
          currentOffset, tableType := 0, Cleared;
        }
      }
      if currentOffset != 0 && wanted == ByU32 { currentOffset := currentOffset + KB64; }
      dictionary, dictSize, history := 0, 0, [];
    }

    /** LZ4_resetStream_fast. */
    method ResetFast()
      requires Valid()
      modifies this, table
      ensures Valid() && !tableType.ByU16? && dictionary == 0 && dictSize == 0 && history == []
      ensures Prep() == old(Prep()).Next(0, ByU32)
    {
      PrepareTable(0, ByU32);
    }

    /** LZ4_compress_fast_extState_fastReset: a block on its own, on a table that may have been used before. */
    method CompressFastReset(mem: seq<Byte>, source: nat, n: nat, dst: array<Byte>, dest: nat, capacity: nat,
                             acceleration: int)
      returns (r: nat)
      requires Valid() && source + n <= |mem| && dest + capacity <= dst.Length && Steady(acceleration)
      modifies this, table, dst
      ensures Valid() && SameOutside(dst[..], old(dst[..]), dest, dest + capacity)
      ensures n > MAX_INPUT_SIZE ==> r == 0
      ensures n <= MAX_INPUT_SIZE && capacity >= CompressBound(n) ==> r > 0
      ensures r > 0 ==> r <= capacity && Decodes(dst[dest..dest + r], [], mem[source..source + n])
      ensures n <= MAX_INPUT_SIZE ==>
                var block := old(ResetBlock(Prep(), mem, source, n, acceleration));
                block != [] && if |block| <= capacity then r == |block| && dst[dest..dest + r] == block else r == 0
    {
      hide Decodes, Steady, Block, Parse, Fills, EncodeSeqs, EncodeLits, Prepared.Clears;
      var acc := Clamp(acceleration);
      var wanted := if n < LIMIT_64K then ByU16 else ByU32;
      PrepareTable(n, wanted);
      if n > MAX_INPUT_SIZE { return 0; }
      SteadyClamp(acceleration);
      var mode := if capacity >= CompressBound(n) then NotLimited else LimitedOutput;
      var job := ResetJob(Prep(), mem, source, n, mode, acc);
      BlockAlike(job, ResetJob(Prep(), mem, source, n, LimitedOutput, acc), table[..]);
      var consumed;
      ghost var ss, anchor;
      r, consumed, ss, anchor := CompressGeneric(job, table, dst, dest, dest + capacity);
      dictSize, currentOffset, tableType := dictSize + n, currentOffset + n, wanted;
    }
  }
}
