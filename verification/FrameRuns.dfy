/** Whole runs of the frame encoder and the frame decoder, whatever pieces the data comes in. */
module FrameRuns {
  import opened Bytes
  import opened Copies
  import opened FrameFormat
  import opened FrameHistory
  import opened MatchSearch
  import opened FramePosition
  import opened FrameDecoder
  import Shell = FrameShell
  import E = FrameEncoder

  // ----- Decoding -----

  /** One call: how much input to offer, where the output may go, and what the caller writes to its memory before it. */
  datatype Call = Call(offer: nat, dst: nat, capacity: nat, stableDst: bool, at: nat, bytes: seq<Byte>)

  /**
   What became of a call: not made because the caller may not, not made because its buffer would be taken
   for the continuation of the decoder's own, or made with so much input taken and output written.
   */
  datatype Result = Skipped | Adjacent | Made(taken: nat, written: nat)

  /** A range of addresses that holds the output from byte `at` on. */
  datatype Range = Range(from: nat, to: nat, at: nat) {
    /** Where the part of it starts that is among the last 64 KB of `total` bytes of output. */
    function Needed(total: nat): nat {
      if total > at + KB64 then from + (total - at - KB64) else from
    }
  }

  /** All output of these calls. */
  function WrittenSize(results: seq<Result>): nat {
    if results == [] then 0
    else
      var r := results[|results| - 1];
      WrittenSize(results[..|results| - 1]) + if r.Made? then r.written else 0
  }

  /**
   Stable output the decoder may look for where it was written, after `total` bytes of output of which `first` were
   stable: a call without promise makes it save what it needs.
   */
  function Promised(first: seq<Range>, total: nat, calls: seq<Call>, results: seq<Result>): seq<Range>
    requires |results| <= |calls|
  {
    if results == [] then first
    else
      var i := |results| - 1;
      AfterCall(Promised(first, total, calls, results[..i]), calls[i], results[i], total + WrittenSize(results[..i]))
  }

  function AfterCall(promised: seq<Range>, c: Call, r: Result, total: nat): seq<Range> {
    if !r.Made? then promised
    else if c.stableDst then promised + [Range(c.dst, c.dst + r.written, total)]
    else []
  }

  predicate ApartFrom(promised: seq<Range>, total: nat, a: nat, b: nat) {
    forall r <- promised :: r.Needed(total) < r.to ==> Apart(r.Needed(total), r.to, a, b)
  }

  /** A call that names the caller's own memory only. */
  predicate Sound(d: Decoder, c: Call) {
    && c.dst + c.capacity <= d.mem.Length && Foreign(d.arena, d.reserve, c.dst, c.dst + c.capacity)
       && (c.capacity > 0 ==> 0 < c.dst)
    && c.at + |c.bytes| <= d.mem.Length && Foreign(d.arena, d.reserve, c.at, c.at + |c.bytes|)
  }

  /** A caller makes a call if it is sound and leaves alone what was promised of the last 64 KB of output. */
  predicate MayCall(d: Decoder, promised: seq<Range>, total: nat, c: Call) {
    && Sound(d, c)
    && ApartFrom(promised, total, c.dst, c.dst + c.capacity) && ApartFrom(promised, total, c.at, c.at + |c.bytes|)
  }

  /** The calls that were made with input to offer and room for output. */
  function Useful(calls: seq<Call>, results: seq<Result>): nat
    requires |results| <= |calls|
  {
    if results == [] then 0
    else
      var i := |results| - 1;
      Useful(calls, results[..i]) + if results[i].Made? && calls[i].offer > 0 && calls[i].capacity > 0 then 1 else 0
  }

  /** All calls are sound and useful, promise nothing, and stay off the end of the decoder's memory. */
  predicate Plain(d: Decoder, calls: seq<Call>) {
    forall c <- calls :: Sound(d, c) && c.offer > 0 && c.capacity > 0 && !c.stableDst && c.dst != d.arena + d.reserve
  }

  /**
   A frame, followed by anything, decoded by any sequence of calls: with any input sizes, any output
   buffers, stable or not, and any use of the caller's memory in between that keeps its promises. The
   output is the beginning of the frame's content at every point, and all of it once the decoder says
   so; and every useful call brings it closer to that.
   */
  method DecodeInPieces(d: Decoder, ghost f: Frame, input: seq<Byte>, calls: seq<Call>)
    returns (output: seq<Byte>, consumed: nat, done: bool, results: seq<Result>)
    requires d.Valid() && d.stage == GetFrameHeader && FrameOk(f) && d.Holdable(f) && FrameBytes(d.hash, f) <= input
    modifies d, d.mem, d.tmpIn, d.header
    ensures output <= FrameContent(f) && consumed <= |FrameBytes(d.hash, f)|
    ensures done ==> output == FrameContent(f) && consumed == |FrameBytes(d.hash, f)|
    ensures !done ==> consumed < |FrameBytes(d.hash, f)| && |results| == |calls|
    ensures |results| <= |calls| && forall i :: 0 <= i < |results| ==>
              && (results[i].Skipped? <==> !MayCall(d, Promised([], 0, calls[..i], results[..i]),
                 WrittenSize(results[..i]), calls[i]))
              && (results[i].Adjacent? ==> calls[i].dst == d.arena + d.reserve)
    ensures !done ==> Useful(calls, results) <= consumed + |output|
    ensures Plain(d, calls) && |calls| > |FrameBytes(d.hash, f)| + |FrameContent(f)| ==> done
  {
    hide FrameBytes, FrameOk, FrameContent, Promised, WrittenSize, MayCall, Useful, Plain;
    d.Expect(f);
    d.Unstarted();
    output, consumed, done, results := DecodeRest(d, input, 0, [], [], calls, FrameBytes(d.hash, f));
  }

  /** The decoder is `consumed` bytes into `all`, has output `output`, and relies on promises only. */
  ghost predicate Underway(d: Decoder, all: seq<Byte>, consumed: nat, output: seq<Byte>, promised: seq<Range>,
                           goal: seq<Byte>)
    reads d, d.mem, d.tmpIn, d.header
  {
    && d.Valid() && d.live && consumed < |all| && d.rest == all[consumed..] && d.out == output <= d.goal == goal
    && forall x, pos :: d.Recalls(x, pos) ==> Covered(promised, x, pos)
  }

  /** Byte `pos` of the output is promised to stay at `x`. */
  ghost predicate Covered(promised: seq<Range>, x: int, pos: int) {
    exists r :: r in promised && r.from <= x < r.to && pos == r.at + x - r.from
  }

  /**
   A run of calls from anywhere before the end of the frame, when `before` has been output, of which `first` were
   stable.
   */
  method DecodeRest(d: Decoder, input: seq<Byte>, start: nat, before: seq<Byte>, first: seq<Range>, calls: seq<Call>,
                    ghost all: seq<Byte>)
    returns (output: seq<Byte>, consumed: nat, done: bool, results: seq<Result>)
    requires all <= input && Underway(d, all, start, before, first, d.goal)
    modifies d, d.mem, d.tmpIn, d.header
    ensures start <= consumed <= |all| && before <= output <= old(d.goal)
    ensures done ==> output == old(d.goal) && consumed == |all|
    ensures !done ==> consumed < |all| && |results| == |calls|
    ensures |results| <= |calls| && forall i :: 0 <= i < |results| ==>
              && (results[i].Skipped? <==> !MayCall(d, Promised(first, |before|, calls[..i], results[..i]),
                 |before| + WrittenSize(results[..i]), calls[i]))
              && (results[i].Adjacent? ==> calls[i].dst == d.arena + d.reserve)
    ensures !done ==> Useful(calls, results) <= consumed - start + |output| - |before|
    ensures first == [] && Plain(d, calls) && |calls| > |all| - start + |old(d.goal)| - |before| ==> done
  {
    hide Underway, Useful, MayCall, Promised, Plain, Sound, WrittenSize;
    output, consumed, done, results := before, start, false, [];
    ghost var goal := d.goal;
    UnderwayBounds(d, all, start, before, first, goal);
    NoResults(first, |before|, calls);
    var promised := first;
    var i := 0;
    while i < |calls| && !done
      invariant 0 <= i <= |calls| && |results| == i && promised == Promised(first, |before|, calls[..i], results)
      invariant before <= output && |output| == |before| + WrittenSize(results)
      invariant start <= consumed <= |all| && output <= goal && (d.tmpIn == old(d.tmpIn) || fresh(d.tmpIn))
      invariant !done ==> Underway(d, all, consumed, output, promised, goal) && consumed < |all|
      invariant done ==> output == goal && consumed == |all|
      invariant forall k :: 0 <= k < i ==>
                  && (results[k].Skipped? <==> !MayCall(d, Promised(first, |before|, calls[..k], results[..k]),
                     |before| + WrittenSize(results[..k]), calls[k]))
                  && (results[k].Adjacent? ==> calls[k].dst == d.arena + d.reserve)
      invariant !done ==> Useful(calls[..i], results) <= consumed - start + |output| - |before|
      invariant !done && first == [] && Plain(d, calls) ==> Useful(calls[..i], results) == i && promised == []
    {
      ghost var made, p := results, promised;
      var bytes, r, over := OneCall(d, input, consumed, promised, |output|, calls[i], all, output, goal);
      results, promised := results + [r], AfterCall(promised, calls[i], r, |output|);
      if r.Made? { output, consumed, done := output + bytes, consumed + r.taken, over; }
      OneMore(first, |before|, calls, made, r, i);
      assert results[..i] == made && forall k :: 0 <= k < i ==> results[..k] == made[..k];
      if Plain(d, calls) && p == [] { PlainCall(d, calls, i, r, |before| + WrittenSize(made)); }
      i := i + 1;
    }
    assert !done ==> calls[..i] == calls;
  }

  lemma NoResults(first: seq<Range>, total: nat, calls: seq<Call>)
    ensures Promised(first, total, calls[..0], []) == first && Useful(calls[..0], []) == 0 && WrittenSize([]) == 0
  {
  }

  lemma UnderwayBounds(d: Decoder, all: seq<Byte>, consumed: nat, output: seq<Byte>, promised: seq<Range>,
                       goal: seq<Byte>)
    requires Underway(d, all, consumed, output, promised, goal)
    ensures consumed < |all| && output <= goal
  {
  }

  lemma OneMore(first: seq<Range>, total: nat, calls: seq<Call>, results: seq<Result>, r: Result, i: nat)
    requires i == |results| < |calls|
    ensures var next := results + [r];
            && Useful(calls[..i + 1], next) ==
               Useful(calls[..i], results) + (if r.Made? && calls[i].offer > 0 && calls[i].capacity > 0 then 1 else 0)
            && Promised(first, total, calls[..i + 1], next) ==
               AfterCall(Promised(first, total, calls[..i], results), calls[i], r, total + WrittenSize(results))
            && WrittenSize(next) == WrittenSize(results) + if r.Made? then r.written else 0
  {
    hide AfterCall;
    var next := results + [r];
    assert next[..i] == results;
    SamePrefix(first, total, calls[..i + 1], calls[..i], results);
  }

  lemma {:induction false} SamePrefix(first: seq<Range>, total: nat, calls: seq<Call>, shorter: seq<Call>,
                                      results: seq<Result>)
    requires |results| <= |shorter| && shorter <= calls
    ensures Useful(calls, results) == Useful(shorter, results)
    ensures Promised(first, total, calls, results) == Promised(first, total, shorter, results)
  {
    if results != [] { SamePrefix(first, total, calls, shorter, results[..|results| - 1]); }
  }

  lemma PlainCall(d: Decoder, calls: seq<Call>, i: nat, r: Result, total: nat)
    requires Plain(d, calls) && i < |calls|
    ensures AfterCall([], calls[i], r, total) == []
    ensures MayCall(d, [], total, calls[i]) && calls[i].offer > 0 && calls[i].capacity > 0 && !calls[i].stableDst
    ensures calls[i].dst != d.arena + d.reserve
  {
  }

  /** One call of a run, if the caller may make it. */
  method OneCall(d: Decoder, input: seq<Byte>, consumed: nat, promised: seq<Range>, total: nat, c: Call,
                 ghost all: seq<Byte>, ghost output: seq<Byte>, ghost goal: seq<Byte>)
    returns (bytes: seq<Byte>, r: Result, over: bool)
    requires all <= input && Underway(d, all, consumed, output, promised, goal) && total == |output|
    modifies d, d.mem, d.tmpIn, d.header
    ensures d.tmpIn == old(d.tmpIn) || fresh(d.tmpIn)
    ensures r.Skipped? <==> !MayCall(d, promised, total, c)
    ensures r.Adjacent? <==>
              MayCall(d, promised, total, c) && c.capacity > 0 && old(d.HistoryInUse() && d.Touches(c.dst))
    ensures r.Adjacent? ==> c.dst == d.arena + d.reserve
    ensures !r.Made? ==> !over && bytes == [] && Underway(d, all, consumed, output, promised, goal)
    ensures r.Made? ==> |bytes| == r.written <= c.capacity && r.taken <= c.offer && consumed + r.taken <= |all|
    ensures r.Made? ==> c.dst + r.written <= d.mem.Length && bytes == Slice(d.mem[..], c.dst, r.written)
    ensures r.Made? && c.offer > 0 && c.capacity > 0 ==> r.taken + r.written > 0
    ensures r.Made? ==> output + bytes <= goal && (!over ==> consumed + r.taken < |all|)
    ensures over ==> r.Made? && output + bytes == goal && consumed + r.taken == |all|
    ensures r.Made? && !over ==>
              Underway(d, all, consumed + r.taken, output + bytes, AfterCall(promised, c, r, total), goal)
  {
    hide Decoder.Shape, Decoder.Follows, Decoder.SameButFor, Agrees, Slice, Decoder.Relies, Decoder.Recalls,
         SameOutside, Range.Needed;
    bytes, r, over := [], Skipped, false;
    if !MayCall(d, promised, total, c) { return; }
    if c.capacity > 0 && d.HistoryInUse() && d.Touches(c.dst) {
      Unpromised(d, promised, total, c.dst, c.capacity);
      d.Welcome(c.dst, c.capacity);
      return [], Adjacent, false;
    }
    Unpromised(d, promised, total, c.at, |c.bytes|);
    d.CallerWrites(c.at, c.bytes);
    Unpromised(d, promised, total, c.dst, c.capacity);
    var src := input[consumed..consumed + Min(c.offer, |input| - consumed)];
    InputAgrees(input, consumed, |src|, all);
    ghost var before := iset x: int, pos: int | d.Recalls(x, pos) :: (x, pos);
    var outcome, n, written := d.Decompress(src, c.dst, c.capacity, c.stableDst);
    bytes := Slice(d.mem[..], c.dst, written);
    r, over := Made(n, written), outcome == Hint(0);
    assert all[consumed..][n..] == all[consumed + n..];
    if !over { StillCovered(d, before, promised, c, r, total); }
  }

  lemma InputAgrees(input: seq<Byte>, consumed: nat, k: nat, all: seq<Byte>)
    requires all <= input && consumed <= |all| && consumed + k <= |input|
    ensures Agrees(input[consumed..consumed + k], 0, all[consumed..])
  {
  }

  lemma Unpromised(d: Decoder, promised: seq<Range>, total: nat, at: nat, n: nat)
    requires at + n <= d.mem.Length && Foreign(d.arena, d.reserve, at, at + n) && ApartFrom(promised, total, at, at + n)
    requires total == |d.out| && forall x, pos :: d.Recalls(x, pos) ==> Covered(promised, x, pos)
    ensures d.Spare(at, n)
  {
    hide Decoder.Relies, Decoder.Recalls;
    forall x | at <= x < at + n
      ensures !d.Relies(x)
    {
      if d.Relies(x) { var pos := d.ReliesOnLast(x); }
    }
  }

  /** What the decoder relies on after a call, it relied on before, or has been promised with it. */
  lemma StillCovered(d: Decoder, before: iset<(int, int)>, promised: seq<Range>, c: Call, r: Result, total: nat)
    requires r.Made? && forall x, pos :: (x, pos) in before ==> Covered(promised, x, pos)
    requires forall x, pos :: d.Recalls(x, pos) ==>
               (x, pos) in before || (c.dst <= x < c.dst + r.written && pos == total + x - c.dst)
    requires !c.stableDst ==> forall x :: !d.Relies(x)
    ensures forall x, pos :: d.Recalls(x, pos) ==> Covered(AfterCall(promised, c, r, total), x, pos)
  {
    var more := AfterCall(promised, c, r, total);
    forall x, pos | d.Recalls(x, pos)
      ensures Covered(more, x, pos)
    {
      assert d.Relies(x);
      hide Decoder.Relies, Decoder.Recalls;
      if (x, pos) in before {
        var q :| q in promised && q.from <= x < q.to && pos == q.at + x - q.from;
        assert q in more;
      } else {
        assert Range(c.dst, c.dst + r.written, total) in more;
      }
    }
  }

  /**
   All of a frame at once, with room for its content: one call outputs all of it, and reaches the end of
   the frame unless there is no room to spare and an empty compressed block comes last.
   */
  method DecodeAtOnce(d: Decoder, ghost f: Frame, input: seq<Byte>, dst: nat, capacity: nat)
    returns (output: seq<Byte>, consumed: nat)
    requires d.Valid() && d.stage == GetFrameHeader && FrameOk(f) && d.Holdable(f) && FrameBytes(d.hash, f) <= input
    requires d.Offered(dst, capacity) && capacity >= |FrameContent(f)|
    modifies d, d.mem, d.tmpIn, d.header
    ensures output == FrameContent(f) && consumed <= |FrameBytes(d.hash, f)|
    ensures consumed < |FrameBytes(d.hash, f)| ==> capacity == |FrameContent(f)| && d.EmptyDue()
  {
    hide FrameBytes, FrameOk, FrameContent;
    d.Expect(f);
    var r, written;
    r, consumed, written := d.Decompress(input, dst, capacity, false);
    output := Slice(d.mem[..], dst, written);
    if r != Hint(0) { assert output == FrameContent(f)[..written]; }
  }

  /**
   Any input at all, given to a new decoder in any pieces: it ends with an error, or runs out of calls, or says that a
   frame is complete; and then what it has taken is one, with the right sizes and checksums, and holds the output. A
   buffer that may not be offered is left out.
   */
  method DecodeAnything(d: Decoder, input: seq<Byte>, calls: seq<Call>)
    returns (output: seq<Byte>, consumed: nat, done: bool, error: Option<Error>)
    requires d.Valid() && d.stage == GetFrameHeader && !d.live
    modifies d, d.mem, d.tmpIn, d.header
    ensures consumed <= |input| && (done ==> error.None?)
    ensures done ==> Shell.Delivered(d.hash, input[..consumed], output)
  {
    hide Decoder.Shape, Decoder.SameButFor, Slice, Decoder.Relies, Decoder.Recalls, Shell.Delivered, SameOutside;
    d.Nothing();
    output, consumed, done, error := [], 0, false, None;
    var i := 0;
    while i < |calls| && !done && error.None?
      invariant 0 <= i <= |calls| && consumed <= |input| && (done ==> error.None?)
      invariant !done && error.None? ==>
                  && d.Valid() && !d.live && d.out == output && d.taken == input[..consumed]
                  && (d.tmpIn == old(d.tmpIn) || fresh(d.tmpIn))
      invariant done ==> Shell.Delivered(d.hash, input[..consumed], output)
    {
      var c := calls[i];
      i := i + 1;
      if d.Spare(c.at, |c.bytes|) { d.CallerWrites(c.at, c.bytes); }
      if d.Offered(c.dst, c.capacity) {
        var src := input[consumed..consumed + Min(c.offer, |input| - consumed)];
        var outcome, n, written := d.Decompress(src, c.dst, c.capacity, c.stableDst);
        assert input[..consumed] + src[..n] == input[..consumed + n];
        output, consumed := output + Slice(d.mem[..], c.dst, written), consumed + n;
        if outcome.Failed? { error := Some(outcome.error); } else { done := outcome == Hint(0); }
      }
    }
  }

  // ----- Encoding -----

  /** What a caller of the encoder may do inside a frame. */
  datatype Operation = Take(src: nat, n: nat, stableSrc: bool) | Flush | Overwrite(at: nat, bytes: seq<Byte>)

  /** The caller's memory after some operations. */
  function Memory(m: seq<Byte>, ops: seq<Operation>): (m': seq<Byte>)
    ensures |m'| == |m|
  {
    if ops == [] then m
    else
      var before, op := Memory(m, ops[..|ops| - 1]), ops[|ops| - 1];
      if op.Overwrite? && op.at + |op.bytes| <= |m| then Overwritten(before, op.at, op.bytes) else before
  }

  function Overwritten(m: seq<Byte>, at: nat, bytes: seq<Byte>): (m': seq<Byte>)
    requires at + |bytes| <= |m|
    ensures |m'| == |m|
  {
    m[..at] + bytes + m[at + |bytes|..]
  }

  /** The bytes an operation hands to the encoder. */
  function TakenBy(m: seq<Byte>, op: Operation): seq<Byte> {
    if op.Take? && op.src + op.n <= |m| then Slice(m, op.src, op.n) else []
  }

  /** All bytes handed over, each as they were at that time. */
  function Taken(m: seq<Byte>, ops: seq<Operation>): seq<Byte> {
    if ops == [] then []
    else Taken(m, ops[..|ops| - 1]) + TakenBy(Memory(m, ops[..|ops| - 1]), ops[|ops| - 1])
  }

  /** How many bytes that is. */
  function TakenSize(ops: seq<Operation>): nat {
    if ops == [] then 0
    else TakenSize(ops[..|ops| - 1]) + var op := ops[|ops| - 1]; if op.Take? then op.n else 0
  }

  /**
   How much of the source of operation `j` the encoder does not need any more at operation `i`: what lies
   more than 64 KB behind the end of the last block, which is less than a block behind the end of the input.
   */
  function Released(p: E.Preferences, ops: seq<Operation>, j: nat, i: nat): nat
    requires p.Ok() && j <= i <= |ops|
  {
    var since := TakenSize(ops[..i]) - TakenSize(ops[..j]);
    var needed := KB64 + if p.autoFlush then 0 else p.BlockMax() - 1;
    if since > needed then since - needed else 0
  }

  /** Byte `pos` of all that was taken came from `x`, in a source that was said to be stable. */
  predicate Stable(ops: seq<Operation>, x: int, pos: int) {
    exists j :: 0 <= j < |ops| && StableIn(ops, j, x, pos)
  }

  predicate StableIn(ops: seq<Operation>, j: nat, x: int, pos: int)
    requires j < |ops|
  {
    ops[j].Take? && ops[j].stableSrc && ops[j].src <= x < ops[j].src + ops[j].n
      && pos == TakenSize(ops[..j]) + x - ops[j].src
  }

  /** The last `since` bytes taken came from the addresses from `src` on that are the caller's, in stable sources. */
  predicate Lined(e: E.Encoder, ops: seq<Operation>, src: nat, since: nat) {
    forall x, pos ::
      src <= x < src + since && !(e.arena <= x < e.arena + e.reserve) && pos == TakenSize(ops) - since + x - src ==>
        Stable(ops, x, pos)
  }

  /**
   An operation the caller may do: sources and writes are in its own memory, sources are not too long to
   count their blocks, and what is still needed of a source that was said to be stable is not written to.
   With linked blocks, a source is not one that starts where the last bytes taken lie in one stretch, with a
   first block long enough for a match to be miscounted after a dictionary there.
   */
  predicate Allowed(e: E.Encoder, p: E.Preferences, ops: seq<Operation>, i: nat)
    requires p.Ok() && i < |ops|
  {
    match ops[i]
    case Take(src, n, _) =>
      && src + n <= e.mem.Length && Foreign(e.arena, e.reserve, src, src + n) && (n > 0 ==> 0 < src)
      && E.Countable(n, p, p.BlockMax() - 1)
      && (p.linked ==> forall since :: 0 <= since < n && Outlasts(p.FirstTaken(n), since) ==>
         !Lined(e, ops[..i], src, since))
    case Flush => true
    case Overwrite(at, bytes) =>
      && at + |bytes| <= e.mem.Length && Foreign(e.arena, e.reserve, at, at + |bytes|)
      && forall j :: 0 <= j < i && ops[j].Take? && ops[j].stableSrc && Released(p, ops, j, i) < ops[j].n ==>
           Apart(ops[j].src + Released(p, ops, j, i), ops[j].src + ops[j].n, at, at + |bytes|)
  }

  predicate AllAllowed(e: E.Encoder, p: E.Preferences, ops: seq<Operation>)
    requires p.Ok()
  {
    forall i :: 0 <= i < |ops| ==> Allowed(e, p, ops, i)
  }

  /** The encoder has taken the bytes of `ops`, written `bytes`, and remembers stable sources only. */
  ghost predicate InFrame(e: E.Encoder, p: E.Preferences, m: seq<Byte>, ops: seq<Operation>, bytes: seq<Byte>)
    reads e, e.mem, e.stream, e.stream.table
  {
    && e.Valid() && e.Backed() && e.begun && e.prefs == p.Normal() && e.input == Taken(m, ops) && e.sent == bytes
    && SameOutside(e.mem[..], Memory(m, ops), e.arena, e.arena + e.reserve)
    && |Taken(m, ops)| == TakenSize(ops)
    && forall x, pos :: e.Places(x, pos) ==> Stable(ops, x, pos)
  }

  /** `bytes` are the frame with the header for `p` that holds `content`. */
  ghost predicate IsFrame(hash: Hash, p: E.Preferences, f: Frame, bytes: seq<Byte>, content: seq<Byte>) {
    && p.Ok() && f.Lz4? && f.header == p.Head() && FrameOk(f)
    && bytes == FrameBytes(hash, f) && FrameContent(f) == content
  }

  /**
   A frame made by any sequence of updates and flushes, each with just the room the bound asks for, and
   with any use of the caller's memory in between that leaves alone what is still needed of stable sources.
   No operation is refused. The end is refused exactly when the header promised another size, modulo 2^64; all output
   together is otherwise a frame with that header that holds exactly what was taken, unless a size was
   promised and 2^64 bytes or more were taken.
   */
  method EncodeInPieces(e: E.Encoder, p: E.Preferences, ops: seq<Operation>)
    returns (bytes: seq<Byte>, ok: bool, ghost f: Frame)
    requires e.Valid() && e.Backed() && p.Ok() && p.BufferNeeded() <= Max(e.maxBufferSize, e.reserve)
    requires AllAllowed(e, p, ops)
    modifies e, e.mem, e.stream, e.stream.table
    ensures var content := Taken(old(e.mem[..]), ops);
            && (ok <==> p.contentSize == 0 || p.contentSize == |content| % E.TWO64)
            && (ok ==> (IsFrame(e.hash, p, f, bytes, content) <==> p.contentSize == 0 || |content| < E.TWO64))
    ensures e.Valid()
  {
    hide FrameBytes, FrameOk, FrameContent, E.Encoder.Running, HeaderBytes, BlockSize, InFrame, Taken, Allowed;
    E.NormalHead(p);
    var dst := new Byte[MAX_HEADER];
    ghost var m := e.mem[..];
    var r := e.Begin(p, dst, 0, MAX_HEADER);
    bytes := dst[0..r.size];
    FrameStarts(e, p, m, bytes);
    var i := 0;
    while i < |ops|
      invariant 0 <= i <= |ops| && InFrame(e, p, m, ops[..i], bytes)
    {
      var written := Operate(e, p, ops, i, m, bytes);
      bytes, i := bytes + written, i + 1;
    }
    assert ops[..i] == ops;
    var more;
    more, ok, f := Finish(e, p, m, ops, bytes);
    bytes := bytes + more;
  }

  lemma FrameStarts(e: E.Encoder, p: E.Preferences, m: seq<Byte>, bytes: seq<Byte>)
    requires e.Valid() && e.Backed() && e.begun && e.prefs == p.Normal() && e.input == [] && e.sent == bytes
    requires e.mem[..] == m
    requires forall x, pos :: !e.Places(x, pos)
    ensures InFrame(e, p, m, [], bytes)
  {
    hide E.Encoder.Running, E.Encoder.Places;
  }

  /** The end of the frame. */
  method Finish(e: E.Encoder, p: E.Preferences, ghost m: seq<Byte>, ops: seq<Operation>, ghost bytes: seq<Byte>)
    returns (more: seq<Byte>, ok: bool, ghost f: Frame)
    requires p.Ok() && InFrame(e, p, m, ops, bytes)
    modifies e, e.mem, e.stream, e.stream.table
    ensures var content := Taken(m, ops);
            && (ok <==> p.contentSize == 0 || p.contentSize == |content| % E.TWO64)
            && (ok ==> (IsFrame(e.hash, p, f, bytes + more, content) <==> p.contentSize == 0 || |content| < E.TWO64))
    ensures e.Valid()
  {
    hide FrameBytes, FrameOk, FrameContent, E.Encoder.Running, HeaderBytes, BlockSize, Taken, Memory, SameOutside,
         E.Encoder.Places;
    E.NormalHead(p);
    e.RunningBasics();
    var capacity := E.CompressBoundInternal(0, e.prefs, e.tmpInSize);
    var dst := new Byte[capacity];
    var r := e.End(dst, 0, capacity);
    ok := r.Done?;
    f := Lz4(e.prefs.Head(), e.blocks);
    more := if ok then dst[0..r.size] else [];
  }

  /** One operation: never refused, and with exactly the effect on input and memory it should have. */
  method Operate(e: E.Encoder, p: E.Preferences, ops: seq<Operation>, i: nat, ghost m: seq<Byte>,
                 ghost bytes: seq<Byte>)
    returns (written: seq<Byte>)
    requires p.Ok() && i < |ops| && Allowed(e, p, ops, i) && InFrame(e, p, m, ops[..i], bytes)
    modifies e, e.mem, e.stream, e.stream.table
    ensures InFrame(e, p, m, ops[..i + 1], bytes + written)
    ensures ops[i].Flush? ==> e.tmpInSize == 0
    ensures ops[i].Overwrite? ==> written == []
  {
    hide E.Encoder.Running, BlockSize, SameOutside, E.Encoder.Places, Taken, TakenSize, Memory, E.CompressBoundInternal,
         E.Countable, Stable, E.Encoder.Relies, E.Encoder.Retakes, Released,
         Lined, Outlasts;
    ghost var placed := iset x: int, pos: int | e.Places(x, pos) :: (x, pos);
    MemoryStep(m, ops, i);
    written := [];
    match ops[i] {
      case Take(src, n, stableSrc) =>
        e.RunningBasics();
        E.NormalHead(p);
        E.NormalCountable(n, p);
        E.StillCountable(n, e.prefs, e.tmpInSize);
        SourceSame(e.mem[..], Memory(m, ops[..i]), e.arena, e.reserve, src, n);
        NotRetaken(e, p, ops, i);
        written := TakeSource(e, src, n, stableSrc);
        SameOn(e.mem[..], old(e.mem[..]), Memory(m, ops[..i]), e.arena, e.reserve);
      case Flush =>
        written := FlushAll(e);
        SameOn(e.mem[..], old(e.mem[..]), Memory(m, ops[..i]), e.arena, e.reserve);
      case Overwrite(at, data) =>
        NotRelied(e, p, ops, i);
        e.CallerWrites(at, data);
        WrittenSame(old(e.mem[..]), e.mem[..], Memory(m, ops[..i]), e.arena, e.reserve, at, data);
        assert bytes + written == bytes;
    }
    StableMore(e, placed, ops, i);
  }

  method FlushAll(e: E.Encoder) returns (written: seq<Byte>)
    requires e.Valid() && e.begun && e.Backed()
    modifies e, e.mem, e.stream, e.stream.table
    ensures e.Valid() && e.begun && e.prefs == old(e.prefs) && e.Backed() && e.tmpInSize == 0
    ensures e.input == old(e.input) && e.sent == old(e.sent) + written
    ensures SameOutside(e.mem[..], old(e.mem[..]), e.arena, e.arena + e.reserve)
    ensures forall x, pos :: e.Places(x, pos) ==> old(e.Places(x, pos))
  {
    hide E.Encoder.Running, BlockSize, SameOutside, E.Encoder.Places;
    var capacity := e.tmpInSize + BLOCK_HEADER + BLOCK_FOOTER;
    var dst := new Byte[capacity];
    var r := e.Flush(dst, 0, capacity);
    written := dst[0..r.size];
  }

  method TakeSource(e: E.Encoder, src: nat, n: nat, stableSrc: bool) returns (written: seq<Byte>)
    requires e.Valid() && e.begun && e.Backed() && e.prefs.Ok() && E.Countable(n, e.prefs, e.tmpInSize)
    requires src + n <= e.mem.Length && Foreign(e.arena, e.reserve, src, src + n) && (n > 0 ==> 0 < src)
    requires !e.Retakes(src, n)
    modifies e, e.mem, e.stream, e.stream.table
    ensures e.Valid() && e.begun && e.prefs == old(e.prefs) && e.Backed()
    ensures e.input == old(e.input) + Slice(old(e.mem[..]), src, n) && e.sent == old(e.sent) + written
    ensures SameOutside(e.mem[..], old(e.mem[..]), e.arena, e.arena + e.reserve)
    ensures forall x, pos :: e.Places(x, pos) ==>
              old(e.Places(x, pos)) || (stableSrc && src <= x < src + n && pos == |old(e.input)| + x - src)
  {
    hide E.Encoder.Running, BlockSize, SameOutside, E.Encoder.Places, E.CompressBoundInternal, E.Countable,
         E.UpdateCost;
    var capacity := E.CompressBoundInternal(n, e.prefs, e.tmpInSize);
    var dst := new Byte[capacity];
    var r := e.Update(src, n, stableSrc, dst, 0, capacity);
    written := dst[0..r.size];
  }

  lemma MemoryStep(m: seq<Byte>, ops: seq<Operation>, i: nat)
    requires i < |ops|
    ensures var before, op := Memory(m, ops[..i]), ops[i];
            && Taken(m, ops[..i + 1]) == Taken(m, ops[..i]) + TakenBy(before, op)
            && TakenSize(ops[..i + 1]) == TakenSize(ops[..i]) + (if op.Take? then op.n else 0)
            && (if op.Overwrite? && op.at + |op.bytes| <= |m|
               then Memory(m, ops[..i + 1]) == Overwritten(before, op.at, op.bytes)
                else Memory(m, ops[..i + 1]) == before)
  {
    hide Overwritten, TakenBy;
    assert ops[..i + 1][..i] == ops[..i];
  }

  lemma SourceSame(m: seq<Byte>, n: seq<Byte>, arena: nat, reserve: nat, src: nat, size: nat)
    requires SameOutside(m, n, arena, arena + reserve) && src + size <= |m| && Foreign(arena, reserve, src, src + size)
    ensures |n| == |m| && Slice(m, src, size) == Slice(n, src, size)
  {
    SameSlice(m, n, arena, arena + reserve, src, src + size);
  }

  lemma SameOn(m: seq<Byte>, n: seq<Byte>, o: seq<Byte>, arena: nat, reserve: nat)
    requires SameOutside(m, n, arena, arena + reserve) && SameOutside(n, o, arena, arena + reserve)
    ensures SameOutside(m, o, arena, arena + reserve)
  {
  }

  lemma WrittenSame(m: seq<Byte>, m': seq<Byte>, n: seq<Byte>, arena: nat, reserve: nat, at: nat, bytes: seq<Byte>)
    requires SameOutside(m, n, arena, arena + reserve) && at + |bytes| <= |m|
    requires SameOutside(m', m, at, at + |bytes|) && Slice(m', at, |bytes|) == bytes
    ensures |n| == |m| && SameOutside(m', Overwritten(n, at, bytes), arena, arena + reserve)
  {
    forall k | 0 <= k < |m'| && !(arena <= k < arena + reserve)
      ensures m'[k] == Overwritten(n, at, bytes)[k]
    {
      if at <= k < at + |bytes| { assert m'[k] == Slice(m', at, |bytes|)[k - at]; }
    }
  }

  lemma {:induction false} TakenGrows(ops: seq<Operation>, j: nat, i: nat)
    requires j < i <= |ops|
    ensures TakenSize(ops[..i]) >= TakenSize(ops[..j]) + (if ops[j].Take? then ops[j].n else 0)
    ensures (forall k :: j < k < i ==> ops[k].Take? ==> ops[k].n == 0) ==>
              TakenSize(ops[..i]) == TakenSize(ops[..j]) + if ops[j].Take? then ops[j].n else 0
    decreases i
  {
    assert ops[..i][..i - 1] == ops[..i - 1];
    if j < i - 1 { TakenGrows(ops, j, i - 1); }
  }

  /**
   Only a source that starts as far in front of the end of the last one as the stretch is long can be shut out:
   the last byte taken is the last of the stretch.
   */
  lemma LinedEnds(e: E.Encoder, ops: seq<Operation>, src: nat, since: nat, j: nat)
    requires j < |ops| && ops[j].Take? && 0 < ops[j].n && forall k :: j < k < |ops| ==> ops[k].Take? ==> ops[k].n == 0
    requires 0 < since && Lined(e, ops, src, since) && !(e.arena <= src + since - 1 < e.arena + e.reserve)
    ensures ops[j].stableSrc && src + since == ops[j].src + ops[j].n
  {
    hide TakenSize;
    var x, pos := src + since - 1, TakenSize(ops) - 1;
    assert Stable(ops, x, pos);
    var k :| 0 <= k < |ops| && StableIn(ops, k, x, pos);
    assert ops[..|ops|] == ops;
    TakenGrows(ops, j, |ops|);
    if k < j { TakenGrows(ops, k, j); }
  }

  /** An allowed source is not taken for the continuation of a dictionary that starts where it does. */
  lemma NotRetaken(e: E.Encoder, p: E.Preferences, ops: seq<Operation>, i: nat)
    requires p.Ok() && i < |ops| && ops[i].Take? && Allowed(e, p, ops, i) && e.Valid() && e.begun
    requires e.prefs == p.Normal()
    requires |e.input| == TakenSize(ops[..i]) && forall x, pos :: e.Places(x, pos) ==> Stable(ops[..i], x, pos)
    ensures !e.Retakes(ops[i].src, ops[i].n)
  {
    hide E.Encoder.Running, TakenSize, E.Countable, BlockSize, E.Encoder.Places, E.Encoder.Retakes, Stable;
    var src, n := ops[i].src, ops[i].n;
    E.NormalHead(p);
    assert e.prefs.FirstTaken(n) == p.FirstTaken(n);
    if e.Retakes(src, n) { var since := e.RetakenFrom(src, n); }
  }

  /** What the encoder relies on has not been released. */
  lemma NotRelied(e: E.Encoder, p: E.Preferences, ops: seq<Operation>, i: nat)
    requires p.Ok() && i < |ops| && ops[i].Overwrite? && Allowed(e, p, ops, i) && e.Valid() && e.begun
    requires e.prefs == p.Normal()
    requires |e.input| == TakenSize(ops[..i]) && forall x, pos :: e.Places(x, pos) ==> Stable(ops[..i], x, pos)
    ensures forall x :: ops[i].at <= x < ops[i].at + |ops[i].bytes| ==> !e.Relies(x)
  {
    hide E.Encoder.Running, TakenSize, BlockSize, E.Encoder.Relies, E.Encoder.Places;
    forall x | ops[i].at <= x < ops[i].at + |ops[i].bytes|
      ensures !e.Relies(x)
    {
      if e.Relies(x) {
        var pos := e.ReliesOnLast(e.mem[..], x);
        assert Stable(ops[..i], x, pos);
        var j :| 0 <= j < i && StableIn(ops[..i], j, x, pos);
        assert ops[..i][j] == ops[j] && ops[..i][..j] == ops[..j];
        e.HeldBounds();
      }
    }
  }

  lemma StableMore(e: E.Encoder, placed: iset<(int, int)>, ops: seq<Operation>, i: nat)
    requires i < |ops| && forall x, pos :: (x, pos) in placed ==> Stable(ops[..i], x, pos)
    requires var op := ops[i];
             forall x, pos :: e.Places(x, pos) ==>
               (x, pos) in placed || (op.Take? && op.stableSrc && op.src <= x < op.src + op.n
                                      && pos == TakenSize(ops[..i]) + x - op.src)
    ensures forall x, pos :: e.Places(x, pos) ==> Stable(ops[..i + 1], x, pos)
  {
    hide E.Encoder.Places, TakenSize;
    forall x, pos | e.Places(x, pos)
      ensures Stable(ops[..i + 1], x, pos)
    {
      if (x, pos) in placed {
        var j :| 0 <= j < i && StableIn(ops[..i], j, x, pos);
        assert ops[..i + 1][j] == ops[..i][j] && ops[..i + 1][..j] == ops[..i][..j];
        assert StableIn(ops[..i + 1], j, x, pos);
      } else {
        assert ops[..i + 1][i] == ops[i] && ops[..i + 1][..i] == ops[..i];
        assert StableIn(ops[..i + 1], i, x, pos);
      }
    }
  }

  // ----- Both -----

  /**
   Frames round-trip. Whatever was taken by the encoder, in whatever pieces, comes back from the decoder,
   in whatever pieces, whether or not it is asked for the frame's header first; and with enough plain
   calls all of it does.
   */
  method RoundTrip(e: E.Encoder, p: E.Preferences, ops: seq<Operation>, d: Decoder, askFirst: bool, calls: seq<Call>)
    returns (packed: seq<Byte>, ok: bool, ghost f: Frame, info: Option<Info>, output: seq<Byte>, done: bool)
    requires e.Valid() && e.Backed() && p.Ok() && p.BufferNeeded() <= Max(e.maxBufferSize, e.reserve)
    requires AllAllowed(e, p, ops)
    requires d.Valid() && d.stage == GetFrameHeader && d.hash == e.hash && BufferNeeded(p.Head()) <= d.reserve
    requires {e, e.mem, e.stream, e.stream.table} !! {d, d.mem, d.tmpIn, d.header}
    modifies e, e.mem, e.stream, e.stream.table, d, d.mem, d.tmpIn, d.header
    ensures var content := Taken(old(e.mem[..]), ops);
            && (ok <==> p.contentSize == 0 || p.contentSize == |content| % E.TWO64)
            && (ok && (p.contentSize == 0 || |content| < E.TWO64) ==>
                  && IsFrame(e.hash, p, f, packed, content)
                  && output <= content && (done ==> output == content)
                  && (askFirst ==> info == Some(InfoOf(p.Head())))
                  && (Plain(d, calls) && |calls| > |packed| + |content| ==> done))
  {
    hide FrameBytes, FrameOk, FrameContent, E.Encoder.Running, Decoder.Shape, Decoder.Follows, Taken, AllAllowed, Plain;
    info, output, done := None, [], false;
    var m := e.mem[..];
    packed, ok, f := EncodeInPieces(e, p, ops);
    if ok && (p.contentSize == 0 || |Taken(m, ops)| < E.TWO64) {
      info, output, done := Decode(d, f, packed, askFirst, calls);
    }
  }

  /** A frame alone, decoded after a look at its header or without. */
  method Decode(d: Decoder, ghost f: Frame, packed: seq<Byte>, askFirst: bool, calls: seq<Call>)
    returns (info: Option<Info>, output: seq<Byte>, done: bool)
    requires d.Valid() && d.stage == GetFrameHeader && f.Lz4? && FrameOk(f) && d.Holdable(f)
    requires FrameBytes(d.hash, f) == packed
    modifies d, d.mem, d.tmpIn, d.header
    ensures output <= FrameContent(f) && (done ==> output == FrameContent(f))
    ensures askFirst ==> info == Some(InfoOf(f.header))
    ensures Plain(d, calls) && |calls| > |packed| + |FrameContent(f)| ==> done
  {
    hide FrameBytes, FrameOk, FrameContent, Decoder.Shape, Decoder.Follows, Plain, Useful, MayCall, Promised,
         HeaderLength;
    d.Expect(f);
    d.Unstarted();
    info := None;
    var start := 0;
    if askFirst {
      HeaderWithin(d.hash, f);
      var r, found, n := d.GetFrameInfo(packed);
      info, start := Some(found), n;
    }
    var consumed, results;
    output, consumed, done, results := DecodeRest(d, packed, start, [], [], calls, packed);
  }

  /** More than its header comes with a frame. */
  lemma HeaderWithin(hash: Hash, f: Frame)
    requires f.Lz4? && FrameOk(f)
    ensures HeaderLength(hash, f) < |FrameBytes(hash, f)|
  {
    hide HeaderBytes, Checksum;
  }
}
