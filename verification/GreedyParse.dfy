/**
 What LZ4_compress_generic looks for, as functions of the input, the hash and the table: where the greedy search
 finds matches, and the block they make. No limit of the output plays a part.
 */
module GreedyParse {
  import opened Bytes
  import opened BlockFormat
  import opened MatchCount
  import opened MatchSearch

  /** The sequences of a block, where its last literals start, and the table after it. */
  datatype Parsed = Parsed(ss: seq<Sequence>, anchor: nat, table: seq<nat>)

  function Prepend(s: Sequence, p: Parsed): Parsed { Parsed([s] + p.ss, p.anchor, p.table) }

  lemma CountedBound(job: Job, ip: nat, index: nat)
    requires 0 <= job.Address(index) && ip + MFLIMIT <= job.End()
    ensures ip + MINMATCH + Counted(job, ip, index) <= job.MatchLimit()
  {
  }

  ghost predicate Meets(job: Job, t: seq<nat>, ip: nat, index: nat, anchor: nat) {
    && job.Ok() && |t| == job.slots && job.source <= anchor <= ip && ip + MFLIMIT <= job.End()
    && 0 <= job.Address(index) && index < job.Index(ip)
  }

  ghost predicate Seeks(job: Job, t: seq<nat>, ip: nat, anchor: nat) {
    job.Ok() && |t| == job.slots && job.source <= anchor < ip <= job.MfLimitPlusOne()
  }

  /** The sequences from a match at `ip` on, with the literals from `anchor` before it. */
  ghost function FromMatch(job: Job, t: seq<nat>, ip: nat, index: nat, anchor: nat): (r: Parsed)
    requires Meets(job, t, ip, index, anchor)
    ensures |r.table| == job.slots && r.ss != [] && anchor < r.anchor <= job.MatchLimit()
    ensures r.ss[0] == Sequence(job.mem[anchor..ip], job.Index(ip) - index, Counted(job, ip, index))
    decreases job.End() - anchor, 0
  {
    CountedBound(job, ip, index);
    var code := Counted(job, ip, index);
    var s, next := Sequence(job.mem[anchor..ip], job.Index(ip) - index, code), ip + code + MINMATCH;
    if next >= job.MfLimitPlusOne() then Parsed([s], next, t) else Prepend(s, Onward(job, t, next))
  }

  /**
   The sequences after a match that ends at `ip`: the position before last is entered, and so is this one, which may
   be matched right away.
   */
  ghost function Onward(job: Job, t: seq<nat>, ip: nat): (r: Parsed)
    requires job.Ok() && |t| == job.slots && job.source + 2 <= ip < job.MfLimitPlusOne()
    ensures |r.table| == job.slots && ip <= r.anchor <= job.MatchLimit()
    decreases job.End() - ip, 2
  {
    var t1 := Entered(job, t, ip - 2);
    var i, t2 := t1[job.Slot(ip)], Entered(job, t1, ip);
    if Takes(job, i, ip) then FromMatch(job, t2, ip, i, ip) else FromSearch(job, t2, ip + 1, ip)
  }

  /** The sequences when the search goes on from `ip`, with the literals from `anchor` on not yet in a sequence. */
  ghost function FromSearch(job: Job, t: seq<nat>, ip: nat, anchor: nat): (r: Parsed)
    requires Seeks(job, t, ip, anchor)
    ensures |r.table| == job.slots && anchor <= r.anchor <= job.MatchLimit()
    decreases job.End() - anchor, 1
  {
    StartOfSearch(job.acceleration);
    match Search(job, t, ip, 0)
    case Missed(t') => Parsed([], anchor, t')
    case Hit(p, i, t') =>
      var (p', i') := Back(job, p, i, anchor);
      FromMatch(job, t', p', i', anchor)
  }

  /** All sequences of a block, and what it leaves in the table. */
  ghost function Parse(job: Job, t: seq<nat>): (r: Parsed)
    requires job.Ok() && |t| == job.slots
    ensures |r.table| == job.slots && job.source <= r.anchor <= job.End()
    ensures r.ss != [] ==> r.anchor <= job.MatchLimit()
  {
    if job.n < MIN_LENGTH then Parsed([], job.source, t)
    else FromSearch(job, Entered(job, t, job.source), job.source + 1, job.source)
  }

  /** The block: its sequences and the last literals. */
  ghost function Block(job: Job, t: seq<nat>): (b: seq<Byte>)
    requires job.Ok() && |t| == job.slots
    ensures b != []
  {
    var p := Parse(job, t);
    EncodeSeqs(p.ss) + EncodeLits(job.mem[p.anchor..job.End()], 0)
  }

  /** The block of a job that can be compressed. */
  ghost function BlockFor(job: Job, t: seq<nat>): seq<Byte> {
    if job.Ok() && |t| == job.slots then Block(job, t) else []
  }

  // ----- The limit plays no part -----

  /** The same job, but for the kind of output. */
  ghost predicate Alike(a: Job, b: Job) { a.Ok() && b.Ok() && b == a.(mode := b.mode) }

  lemma SearchInside(job: Job, p: int)
    requires job.Ok() && job.source <= p <= job.MfLimitPlusOne()
    ensures p + 8 <= |job.mem|
  {
  }

  lemma {:induction false} SearchAlike(a: Job, b: Job, t: seq<nat>, ip0: nat, k: nat)
    requires Alike(a, b) && |t| == a.slots && a.source <= ip0 && Inside(a.acceleration, k)
    requires ip0 + Reach(a.acceleration, k) <= a.MfLimitPlusOne() && Reach(a.acceleration, k) >= 0
    ensures Search(b, t, ip0, k) == Search(a, t, ip0, k)
    decreases a.End() - (ip0 + Reach(a.acceleration, k))
  {
    hide Job.Slot, Takes, Reach, Inside, Job.Ok, Entered;
    SearchStep(a, ip0, k);
    var p := ip0 + Reach(a.acceleration, k);
    SearchInside(a, p);
    EnteredAlike(a, b, t, p);
    TakesAlike(a, b, t[a.Slot(p)], p);
    if ip0 + Reach(a.acceleration, k + 1) <= a.MfLimitPlusOne() { SearchAlike(a, b, Entered(a, t, p), ip0, k + 1); }
  }

  lemma {:induction false} BackAlike(a: Job, b: Job, ip: nat, index: nat, anchor: nat)
    requires Alike(a, b) && anchor <= ip && 0 <= a.Address(index)
    ensures 0 <= b.Address(index) && Back(b, ip, index, anchor) == Back(a, ip, index, anchor)
    decreases ip
  {
    hide Job.Ok;
    if index > 0 && CanGoBack(a, ip, index, anchor) { BackAlike(a, b, ip - 1, index - 1, anchor); }
  }

  lemma CountedAlike(a: Job, b: Job, ip: nat, index: nat)
    requires Alike(a, b) && 0 <= a.Address(index)
    ensures 0 <= b.Address(index) && Counted(b, ip, index) == Counted(a, ip, index)
  {
    hide Job.Ok, Common;
  }

  lemma MeetsAlike(a: Job, b: Job, t: seq<nat>, ip: nat, index: nat, anchor: nat)
    requires Alike(a, b)
    ensures Meets(b, t, ip, index, anchor) <==> Meets(a, t, ip, index, anchor)
    ensures Seeks(b, t, ip, anchor) <==> Seeks(a, t, ip, anchor)
  {
    hide Job.Ok;
  }

  lemma EnteredAlike(a: Job, b: Job, t: seq<nat>, p: nat)
    requires Alike(a, b) && |t| == a.slots && a.source <= p && p + 8 <= |a.mem|
    ensures b.Slot(p) == a.Slot(p) && Entered(b, t, p) == Entered(a, t, p)
  {
    hide Steady;
  }

  lemma TakesAlike(a: Job, b: Job, i: nat, p: nat)
    requires Alike(a, b) && a.source <= p
    ensures Takes(b, i, p) <==> Takes(a, i, p)
  {
    hide Job.Ok;
  }

  lemma MatchParts(job: Job, t: seq<nat>, ip: nat, index: nat, anchor: nat)
    requires Meets(job, t, ip, index, anchor)
    ensures var code := Counted(job, ip, index);
            var s, next := Sequence(job.mem[anchor..ip], job.Index(ip) - index, code), ip + code + MINMATCH;
            && next <= job.MatchLimit()
            && FromMatch(job, t, ip, index, anchor)
               == if next >= job.MfLimitPlusOne() then Parsed([s], next, t) else Prepend(s, Onward(job, t, next))
  {
    hide Counted, Onward, Steady;
    CountedBound(job, ip, index);
  }

  lemma {:induction false} MatchAlike(a: Job, b: Job, t: seq<nat>, ip: nat, index: nat, anchor: nat)
    requires Alike(a, b) && Meets(a, t, ip, index, anchor)
    ensures Meets(b, t, ip, index, anchor) && FromMatch(b, t, ip, index, anchor) == FromMatch(a, t, ip, index, anchor)
    decreases a.End() - anchor, 0
  {
    hide Counted, Job.Ok, Onward, FromMatch, Job.Address;
    CountedAlike(a, b, ip, index);
    MeetsAlike(a, b, t, ip, index, anchor);
    MatchParts(a, t, ip, index, anchor);
    MatchParts(b, t, ip, index, anchor);
    var next := ip + Counted(a, ip, index) + MINMATCH;
    if next < a.MfLimitPlusOne() { OnwardAlike(a, b, t, next); }
  }

  lemma NextDefined(job: Job, t: seq<nat>, ip: nat, index: nat)
    requires job.Ok() && |t| == job.slots && job.source + 2 <= ip < job.MfLimitPlusOne()
    ensures Seeks(job, t, ip + 1, ip) && (Takes(job, index, ip) ==> Meets(job, t, ip, index, ip))
    ensures ip + 8 <= |job.mem|
  {
    hide Job.InWindow, Steady;
  }

  lemma {:induction false} OnwardAlike(a: Job, b: Job, t: seq<nat>, ip: nat)
    requires Alike(a, b) && |t| == a.slots && a.source + 2 <= ip < a.MfLimitPlusOne()
    ensures Onward(b, t, ip) == Onward(a, t, ip)
    decreases a.End() - ip, 2
  {
    hide FromMatch, FromSearch, Takes, Entered, Job.Slot, Job.Ok, Meets, Seeks;
    NextDefined(a, t, ip, 0);
    EnteredAlike(a, b, t, ip - 2);
    var t1 := Entered(a, t, ip - 2);
    EnteredAlike(a, b, t1, ip);
    var i, t2 := t1[a.Slot(ip)], Entered(a, t1, ip);
    TakesAlike(a, b, i, ip);
    NextDefined(a, t2, ip, i);
    if Takes(a, i, ip) { MatchAlike(a, b, t2, ip, i, ip); } else { FromSearchAlike(a, b, t2, ip + 1, ip); }
  }

  lemma {:induction false} FromSearchAlike(a: Job, b: Job, t: seq<nat>, ip: nat, anchor: nat)
    requires Alike(a, b) && Seeks(a, t, ip, anchor)
    ensures Seeks(b, t, ip, anchor) && FromSearch(b, t, ip, anchor) == FromSearch(a, t, ip, anchor)
    decreases a.End() - anchor, 1
  {
    hide Search, Back, FromMatch, Reach, Inside, Job.Ok;
    MeetsAlike(a, b, t, ip, 0, anchor);
    StartOfSearch(a.acceleration);
    SearchAlike(a, b, t, ip, 0);
    var h := Search(a, t, ip, 0);
    if h.Hit? {
      BackAlike(a, b, h.ip, h.index, anchor);
      var (p, i) := Back(a, h.ip, h.index, anchor);
      MatchAlike(a, b, h.table, p, i, anchor);
    }
  }

  /** The block is the same for every kind of output. */
  lemma BlockAlike(a: Job, b: Job, t: seq<nat>)
    requires Alike(a, b) && |t| == a.slots
    ensures Parse(b, t) == Parse(a, t) && Block(b, t) == Block(a, t)
  {
    hide FromSearch, EncodeSeqs, EncodeLits, Steady;
    if a.n >= MIN_LENGTH { EnteredAlike(a, b, t, a.source); }
    if a.n >= MIN_LENGTH { FromSearchAlike(a, b, Entered(a, t, a.source), a.source + 1, a.source); }
  }

  // ----- Equal bytes -----

  /** All bytes of the block are the same. */
  ghost predicate Uniform(job: Job) {
    job.End() <= |job.mem| && forall i :: job.source <= i < job.End() ==> job.mem[i] == job.mem[job.source]
  }

  lemma UniformAgree(job: Job, p: nat, q: nat, n: nat)
    requires Uniform(job) && job.source <= p && job.source <= q && p + n <= job.End() && q + n <= job.End()
    ensures Agree(job.mem, p, q, n)
  {
  }

  /** The search finds the first byte again at once. */
  lemma UniformHit(job: Job, t: seq<nat>)
    requires job.Ok() && job.dict.NoDict? && job.n >= MIN_LENGTH && Uniform(job) && |t| == job.slots
    requires Inside(job.acceleration, 0) && Reach(job.acceleration, 0) == 0
    ensures var t0 := Entered(job, t, job.source);
            Search(job, t0, job.source + 1, 0) == Hit(job.source + 1, job.startIndex, Entered(job, t0, job.source + 1))
  {
    var s := job.source;
    UniformAgree(job, s, s + 1, 8);
    ReachNext(job.acceleration, 0);
    hide Search, Reach, Inside, Counter, Steady, Uniform;
    assert job.Slot(s + 1) == job.Slot(s);
    UniformTakes(job);
    SearchOnce(job, Entered(job, t, s), s + 1);
  }

  lemma SearchOnce(job: Job, t: seq<nat>, ip: nat)
    requires job.Ok() && |t| == job.slots && job.source <= ip && ip + 1 <= job.MfLimitPlusOne()
    requires Inside(job.acceleration, 0) && Reach(job.acceleration, 0) == 0 && Reach(job.acceleration, 1) == 1
    requires Takes(job, t[job.Slot(ip)], ip)
    ensures Search(job, t, ip, 0) == Hit(ip, t[job.Slot(ip)], Entered(job, t, ip))
  {
    hide Takes, Reach, Inside, Job.Slot, Steady;
  }

  lemma UniformTakes(job: Job)
    requires job.Ok() && job.dict.NoDict? && job.n >= MIN_LENGTH && Uniform(job)
    ensures Takes(job, job.startIndex, job.source + 1) && job.Address(job.startIndex) == job.source
    ensures Back(job, job.source + 1, job.startIndex, job.source) == (job.source + 1, job.startIndex)
    ensures Counted(job, job.source + 1, job.startIndex) == job.n - 10
  {
    hide Uniform, Agree, Common, Steady;
    UniformAgree(job, job.source + 5, job.source + 4, job.n - 10);
    CommonLengthAll(job.mem, job.source + 5, job.source + 4, job.MatchLimit());
    UniformHits(job);
  }

  lemma UniformHits(job: Job)
    requires job.Ok() && job.dict.NoDict? && job.n >= MIN_LENGTH && Uniform(job)
    ensures job.Hits(job.startIndex, job.source + 1)
  {
    var s, m := job.source, job.mem;
    assert m[s] == m[s + 1] == m[s + 2] == m[s + 3] == m[s + 4];
    hide Uniform, Steady;
  }

  lemma CommonLengthAll(m: seq<Byte>, p: nat, q: nat, limit: nat)
    requires p <= limit <= |m| && q <= p && Agree(m, p, q, limit - p)
    ensures Common(m, p, q, limit) == limit - p
  {
    CommonIs(m, p, q, limit, limit - p);
  }

  /**
   A block of equal bytes is a literal, one match and five literals, whatever the hash, the table and the acceleration.
   */
  lemma UniformBlock(job: Job, t: seq<nat>)
    requires job.Ok() && job.dict.NoDict? && job.n >= MIN_LENGTH && Uniform(job) && |t| == job.slots
    ensures var b := job.mem[job.source];
            && Parse(job, t).ss == [Sequence([b], 1, job.n - 10)] && Parse(job, t).anchor == job.End() - 5
            && |Block(job, t)| == 10 + (job.n + 230) / 255
  {
    var s := job.source;
    StartOfSearch(job.acceleration);
    hide Search, Back, Reach, Inside, Counted, Uniform, Steady, Takes;
    UniformHit(job, t);
    UniformTakes(job);
    assert job.mem[s..s + 1] == [job.mem[s]];
    var t1 := Entered(job, Entered(job, t, s), s + 1);
    MatchParts(job, t1, s + 1, job.startIndex, s);
    OneSequence(Sequence([job.mem[s]], 1, job.n - 10));
  }

  lemma OneSequence(s: Sequence)
    ensures EncodeSeqs([s]) == EncodeSeq(s)
  {
    hide EncodeSeq;
    assert [s][..0] == [];
  }
}
