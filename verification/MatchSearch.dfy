/**
 The search side of LZ4_compress_generic: hash table, candidate selection, catching up and
 counting. The hash is an arbitrary function; only the comparisons make a match sound.
 */
module MatchSearch {
  import opened Bytes
  import opened BlockFormat
  import opened MatchCount

  const MAX_INPUT_SIZE: nat := 0x7E000000
  const LIMIT_64K: nat := 65536 + 11
  const MIN_LENGTH: nat := 13

  // ----- The search counter -----

  /** A 32-bit int whose arithmetic wraps around. */
  function Wrap32(x: int): int { (x + 0x8000_0000) % 0x1_0000_0000 - 0x8000_0000 }

  /** What the functions that take an acceleration make of it. */
  function Clamp(acceleration: int): (a: nat)
    ensures a >= 1
  {
    if acceleration < 1 then 1 else acceleration
  }

  /** searchMatchNb after `k` turns of the search loop, which starts it at `acceleration << LZ4_skipTrigger`. */
  function Counter(acceleration: int, k: nat): int { Wrap32(64 * acceleration + k) }

  /** The step of turn `k`. */
  function StepAt(acceleration: int, k: nat): int {
    if k == 0 then 1 else Counter(acceleration, k - 1) / 64
  }

  /** How far the search has come after `k` turns. */
  function Reach(acceleration: int, k: nat): int {
    if k == 0 then 0 else Reach(acceleration, k - 1) + StepAt(acceleration, k - 1)
  }

  /** In `k` turns the search has not left the longest input there can be. */
  ghost predicate Inside(acceleration: int, k: nat) {
    forall i :: 0 <= i <= k ==> Reach(acceleration, i) <= MAX_INPUT_SIZE
  }

  const STEADY_PERIOD: nat := 0x400_0000

  /** The accelerations whose first counter is positive as a 32-bit int. */
  predicate Steady(acceleration: int) {
    1 <= Clamp(acceleration) % STEADY_PERIOD < STEADY_PERIOD / 2
  }

  lemma SteadyClamp(acceleration: int)
    requires Steady(acceleration)
    ensures Steady(Clamp(acceleration))
  {
  }

  lemma WrapPeriod(x: int, q: int)
    ensures Wrap32(x + 0x1_0000_0000 * q) == Wrap32(x)
  {
  }

  lemma WrapNext(x: int)
    ensures Wrap32(Wrap32(x) + 1) == Wrap32(x + 1)
  {
  }

  /** Only the acceleration modulo its period matters. */
  lemma CounterAt(acceleration: nat, k: nat)
    ensures Counter(acceleration, k) == Wrap32(64 * (acceleration % STEADY_PERIOD) + k)
    ensures Wrap32(Counter(acceleration, k) + 1) == Counter(acceleration, k + 1)
  {
    var a, q := acceleration % STEADY_PERIOD, acceleration / STEADY_PERIOD;
    assert 64 * acceleration + k == 64 * a + k + 0x1_0000_0000 * q;
    WrapPeriod(64 * a + k, q);
    WrapNext(64 * acceleration + k);
  }

  /** Until the counter wraps, every step but the first is at least the acceleration. */
  lemma {:induction false} ReachSteady(acceleration: nat, k: nat)
    requires Steady(acceleration) && acceleration >= 1 && k >= 1
    requires 64 * (acceleration % STEADY_PERIOD) + k - 1 <= 0x8000_0000
    ensures Reach(acceleration, k) >= 1 + (acceleration % STEADY_PERIOD) * (k - 1)
  {
    hide Wrap32;
    if k > 1 {
      ReachSteady(acceleration, k - 1);
      BeforeWrap(acceleration, k - 2);
      assert (acceleration % STEADY_PERIOD) * (k - 1) ==
             (acceleration % STEADY_PERIOD) * (k - 2) + acceleration % STEADY_PERIOD;
    } else {
      assert Reach(acceleration, 1) == Reach(acceleration, 0) + 1;
    }
  }

  lemma BeforeWrap(acceleration: nat, k: nat)
    requires 64 * (acceleration % STEADY_PERIOD) + k < 0x8000_0000
    ensures Counter(acceleration, k) / 64 >= acceleration % STEADY_PERIOD
  {
    CounterAt(acceleration, k);
  }

  /** By the time a wrapped counter could give a step, the search is past the end of any input. */
  lemma PastTheEnd(acceleration: nat)
    requires Steady(acceleration) && acceleration >= 1
    ensures var b := STEADY_PERIOD / 2 - acceleration % STEADY_PERIOD;
            b >= 1 && Reach(acceleration, 64 * b + 1) > MAX_INPUT_SIZE
  {
    hide Counter, Wrap32, Reach;
    var a := acceleration % STEADY_PERIOD;
    var b := STEADY_PERIOD / 2 - a;
    ReachSteady(acceleration, 64 * b + 1);
    Product(a, b);
    assert a * (64 * b) == 64 * (a * b);
  }

  lemma SteadyStep(acceleration: nat, k: nat)
    requires Steady(acceleration) && acceleration >= 1 && Inside(acceleration, k)
    ensures StepAt(acceleration, k) >= 1
  {
    hide Counter, Wrap32, Reach;
    var a := acceleration % STEADY_PERIOD;
    PastTheEnd(acceleration);
    if k > 0 && 64 * a + k - 1 < 0x8000_0000 { BeforeWrap(acceleration, k - 1); }
  }

  lemma Product(a: nat, b: nat)
    requires a >= 1 && b >= 1
    ensures a * b >= a + b - 1
  {
    assert a * b - a - b + 1 == (a - 1) * (b - 1);
  }

  /**
   The search moves forward on every turn, for inputs of any size, exactly when its first counter is
   positive as a 32-bit int.
   */
  lemma SearchAdvances(acceleration: nat)
    requires acceleration >= 1
    ensures Steady(acceleration) <==> forall k: nat :: Inside(acceleration, k) ==> StepAt(acceleration, k) >= 1
  {
    hide Wrap32;
    if Steady(acceleration) {
      forall k: nat | Inside(acceleration, k)
        ensures StepAt(acceleration, k) >= 1
      {
        SteadyStep(acceleration, k);
      }
    } else {
      Stalled(acceleration);
      assert Reach(acceleration, 1) == Reach(acceleration, 0) + 1;
      assert Inside(acceleration, 1);
    }
  }

  lemma StartOfSearch(acceleration: nat)
    ensures Counter(acceleration, 0) == Wrap32(64 * acceleration) && Reach(acceleration, 0) == 0
    ensures Inside(acceleration, 0)
  {
  }

  lemma ReachNext(acceleration: nat, k: nat)
    ensures Reach(acceleration, k + 1) == Reach(acceleration, k) + StepAt(acceleration, k)
  {
  }

  /** Otherwise the second step already does not. */
  lemma Stalled(acceleration: nat)
    requires acceleration >= 1 && !Steady(acceleration)
    ensures StepAt(acceleration, 1) <= 0 && (acceleration % STEADY_PERIOD == 0 ==> StepAt(acceleration, 1) == 0)
  {
    CounterAt(acceleration, 0);
  }

  datatype OutputMode = NotLimited | LimitedOutput | FillOutput

  /**
   The arguments of LZ4_compress_generic that stay fixed. `mem` is the whole memory and pointers
   are addresses in it; table entries are indices, with `startIndex` the index of `source`.
   */
  datatype Job = Job(mem: seq<Byte>, source: nat, n: nat, startIndex: nat,
                     dict: DictMode, dictionary: nat, dictSize: nat, dictSmall: bool,
                     byU16: bool, mode: OutputMode, acceleration: nat,
                     slots: nat, hash: seq<Byte> -> nat)
  {
    ghost predicate Ok() {
      && source + n <= |mem| && n <= MAX_INPUT_SIZE && acceleration >= 1 && Steady(acceleration)
      && (forall w :: hash(w) < slots)
      && dictSize <= startIndex
      && (byU16 ==> dict.NoDict? && startIndex + n < LIMIT_64K)
      && (dict.NoDict? ==> dictSize == 0)
      && (dict.WithPrefix64k? ==> dictSize <= source)
      && (dict.UsingExtDict? ==> dictSize == 0 || (dictionary + dictSize <= |mem| && dictSize >= MINMATCH))
      && (!dictSmall ==> dictSize == startIndex || (!byU16 && dictSize >= KB64))
      && (mode.FillOutput? ==> dict.NoDict? && startIndex == 0)
    }

    /**
     Matches in the dictionary are recognised by their low limit, which is also that of matches in the
     block when the dictionary starts where the block does. It makes no difference to a block that is
     hardly longer than the dictionary.
     */
    predicate TellsApart() {
      dict.UsingExtDict? && dictionary == source ==> 0 < dictSize && !Outlasts(n, dictSize)
    }

    function End(): nat { source + n }

    /** mflimitPlusOne and matchlimit. */
    function MfLimitPlusOne(): int { source + n - MFLIMIT + 1 }
    function MatchLimit(): int { source + n - LASTLITERALS }

    function Index(p: nat): nat
      requires p >= source
    {
      startIndex + p - source
    }

    /** The history a block is compressed against. */
    ghost function Hist(): (h: seq<Byte>)
      requires Ok()
      ensures |h| == dictSize
    {
      match dict
      case NoDict => []
      case WithPrefix64k => mem[source - dictSize..source]
      case UsingExtDict => if dictSize == 0 then [] else mem[dictionary..dictionary + dictSize]
    }

    /** History and input, as one text. */
    ghost function Text(): (t: seq<Byte>)
      requires Ok()
      ensures |t| == dictSize + n
    {
      Hist() + mem[source..source + n]
    }

    /** The place of an index in the text. */
    ghost function Place(i: int): int {
      i - startIndex + dictSize
    }

    /** LZ4_hashPosition. */
    function Slot(p: nat): (h: nat)
      requires Ok() && p + 8 <= |mem|
      ensures h < slots
    {
      hash(mem[p..p + 8])
    }

    /** The address an index stands for, and the lowest address a match there may be extended to. */
    function Address(i: nat): int {
      if dict.UsingExtDict? && i < startIndex then dictionary + dictSize - startIndex + i
      else source - startIndex + i
    }

    function LowLimit(i: nat): int {
      match dict
      case NoDict => source
      case WithPrefix64k => source - dictSize
      case UsingExtDict => if i < startIndex then dictionary else source
    }

    /** The tests a candidate must pass before it is compared: not before the history, not too far. */
    predicate InWindow(i: nat, current: nat) {
      && !(dictSmall && i < startIndex - dictSize)
      && (byU16 || i + DISTANCE_MAX >= current)
    }

    /** A candidate is taken when it passes these tests and its four bytes are those at `p`. */
    predicate Hits(i: nat, p: nat)
      requires source <= p
    {
      && InWindow(i, Index(p))
      && 0 <= Address(i) && Address(i) + MINMATCH <= |mem| && p + MINMATCH <= |mem| && Same4(mem, Address(i), p)
    }

    /** What the hash table holds: indices below `bound`, none straddling the end of the history. */
    ghost predicate TableOk(t: seq<nat>, bound: nat)
      requires Ok()
    {
      && |t| == slots
      && forall h :: 0 <= h < |t| ==> t[h] < bound && EntryOk(t[h], h)
    }

    ghost predicate EntryOk(i: nat, h: nat)
      requires Ok()
    {
      || i == 0
      || (&& (i < startIndex ==> i + MINMATCH <= startIndex)
          && (mode.FillOutput? ==> i + 8 <= n && h == Slot(source + i)))
    }

    /** A candidate that may be encoded as a match for the bytes at `p`. */
    ghost predicate Usable(i: nat, p: nat, len: nat)
      requires Ok()
    {
      && source <= p && p + len <= End()
      && startIndex - dictSize <= i < Index(p) && Index(p) - i <= DISTANCE_MAX
      && (dict.UsingExtDict? && i < startIndex ==> i + MINMATCH <= startIndex)
      && Agree(Text(), Place(Index(p)), Place(i), len)
    }
  }

  /**
   A block of `n` bytes is long enough to hold a miscounted match, if it starts where a dictionary of that size does.
   */
  predicate Outlasts(n: nat, dictSize: nat) {
    && dictSize >= MINMATCH && n >= dictSize + 7
    && n > if dictSize == MINMATCH then MIN_LENGTH + 1 else MIN_LENGTH
  }

  // ----- Memory and text -----

  lemma TextDict(job: Job, a: nat, b: nat)
    requires job.Ok() && job.dict.UsingExtDict? && 0 < job.dictSize && a <= b <= job.dictSize
    ensures job.Text()[a..b] == job.mem[job.dictionary + a..job.dictionary + b]
  {
    SliceOfSlice(job.mem, job.dictionary, job.dictionary + job.dictSize, a, b);
    assert job.Text()[a..b] == job.Hist()[a..b];
  }

  lemma TextBlock(job: Job, a: nat, b: nat)
    requires job.Ok() && a <= b <= job.n
    ensures job.Text()[job.dictSize + a..job.dictSize + b] == job.mem[job.source + a..job.source + b]
  {
    SliceOfSlice(job.mem, job.source, job.source + job.n, a, b);
    var src := job.mem[job.source..job.source + job.n];
    assert job.Text()[job.dictSize + a..job.dictSize + b] == src[a..b];
  }

  lemma TextPrefix(job: Job, a: nat, b: nat)
    requires job.Ok() && !job.dict.UsingExtDict? && a <= b <= job.dictSize + job.n
    ensures job.Text()[a..b] == job.mem[job.source - job.dictSize + a..job.source - job.dictSize + b]
  {
    var all := job.mem[job.source - job.dictSize..job.source + job.n];
    assert job.Text() == all;
    SliceOfSlice(job.mem, job.source - job.dictSize, job.source + job.n, a, b);
  }

  /** The text from an index on is the memory at its address, within one segment. */
  lemma TextMemory(job: Job, i: nat, len: nat)
    requires job.Ok() && job.startIndex - job.dictSize <= i && i + len <= job.startIndex + job.n
    requires job.dict.UsingExtDict? && i < job.startIndex ==> i + len <= job.startIndex
    ensures 0 <= job.Address(i) && job.Address(i) + len <= |job.mem|
    ensures 0 <= job.Place(i)
    ensures job.Text()[job.Place(i)..job.Place(i) + len] == job.mem[job.Address(i)..job.Address(i) + len]
  {
    hide Job.Text, Job.Hist;
    if !job.dict.UsingExtDict? {
      TextPrefix(job, job.Place(i), job.Place(i) + len);
    } else if i < job.startIndex {
      TextDict(job, job.Place(i), job.Place(i) + len);
    } else {
      TextBlock(job, i - job.startIndex, i - job.startIndex + len);
    }
  }

  /** Two stretches of memory that agree are two stretches of text that agree. */
  lemma TextAgree(job: Job, i: nat, p: nat, len: nat)
    requires job.Ok() && job.startIndex - job.dictSize <= i && job.source <= p && p + len <= job.End()
    requires i + len <= job.startIndex + job.n
    requires job.dict.UsingExtDict? && i < job.startIndex ==> i + len <= job.startIndex
    ensures 0 <= job.Address(i) && job.Address(i) + len <= |job.mem|
    ensures job.mem[job.Address(i)..job.Address(i) + len] == job.mem[p..p + len] <==>
            Agree(job.Text(), job.Place(job.Index(p)), job.Place(i), len)
  {
    hide Job.Text, Job.Hist;
    TextMemory(job, i, len);
    TextMemory(job, job.Index(p), len);
  }

  /** A candidate from the table that passes the window tests can be compared safely. */
  lemma CandidateReadable(job: Job, i: nat, h: nat, p: nat)
    requires job.Ok() && job.EntryOk(i, h)
    requires job.source <= p && p + MFLIMIT <= job.End() && i < job.Index(p) && job.InWindow(i, job.Index(p))
    ensures job.startIndex - job.dictSize <= i && job.Index(p) - i <= DISTANCE_MAX
    ensures job.dict.UsingExtDict? && i < job.startIndex ==> i + MINMATCH <= job.startIndex
    ensures 0 <= job.Address(i) && job.Address(i) + MINMATCH <= |job.mem|
  {
  }

  lemma TableUpdate(job: Job, t: seq<nat>, t': seq<nat>, h: nat, p: nat, bound: nat, bound': nat)
    requires job.Ok() && job.TableOk(t, bound) && job.source <= p && p + 8 <= job.End()
    requires h == job.Slot(p) && t' == t[h := job.Index(p)] && bound <= bound' && job.Index(p) < bound'
    ensures job.TableOk(t', bound')
  {
  }

  // ----- Searching -----

  /** An earlier position is taken as a match for `p`. */
  predicate Takes(job: Job, i: nat, p: nat)
    requires job.source <= p
  {
    i < job.Index(p) && job.Hits(i, p)
  }

  /** The table with position `p` entered. */
  ghost function Entered(job: Job, t: seq<nat>, p: nat): (t': seq<nat>)
    requires job.Ok() && |t| == job.slots && job.source <= p && p + 8 <= |job.mem|
    ensures |t'| == job.slots
  {
    t[job.Slot(p) := job.Index(p)]
  }

  /** The result of a search: the position, its match, and the table then. */
  datatype Hit = Missed(table: seq<nat>) | Hit(ip: nat, index: nat, table: seq<nat>)

  /**
   The search from `ip0`, after `k` turns: it ends when the next position would be too close to the end of the block,
   or when the position is matched; otherwise the position is entered and the next one looked at.
   */
  ghost function Search(job: Job, t: seq<nat>, ip0: nat, k: nat): (r: Hit)
    requires job.Ok() && |t| == job.slots && job.source <= ip0 && Inside(job.acceleration, k)
    requires ip0 + Reach(job.acceleration, k) <= job.MfLimitPlusOne() && Reach(job.acceleration, k) >= 0
    ensures |r.table| == job.slots
    ensures r.Hit? ==> ip0 <= r.ip && r.ip + MFLIMIT <= job.End() && Takes(job, r.index, r.ip)
    decreases job.End() - (ip0 + Reach(job.acceleration, k))
  {
    var p := ip0 + Reach(job.acceleration, k);
    SearchStep(job, ip0, k);
    if ip0 + Reach(job.acceleration, k + 1) > job.MfLimitPlusOne() then Missed(t)
    else if Takes(job, t[job.Slot(p)], p) then Hit(p, t[job.Slot(p)], Entered(job, t, p))
    else Search(job, Entered(job, t, p), ip0, k + 1)
  }

  lemma SearchStep(job: Job, ip0: nat, k: nat)
    requires job.Ok() && job.source <= ip0 && Inside(job.acceleration, k)
    requires ip0 + Reach(job.acceleration, k) <= job.MfLimitPlusOne()
    ensures Reach(job.acceleration, k + 1) > Reach(job.acceleration, k)
    ensures ip0 + Reach(job.acceleration, k + 1) <= job.MfLimitPlusOne() ==> Inside(job.acceleration, k + 1)
  {
    hide Counter, Reach;
    SteadyStep(job.acceleration, k);
    ReachNext(job.acceleration, k);
  }

  /**
   The search loop: steps forward, faster the longer nothing is found, until a candidate matches
   four bytes or the limit is reached. Every position passed is entered in the table.
   */
  method FindMatch(job: Job, table: array<nat>, ip0: nat) returns (found: bool, ip: nat, index: nat)
    requires job.Ok() && job.source < ip0 <= job.MfLimitPlusOne()
    requires job.TableOk(table[..], job.Index(ip0))
    modifies table
    ensures ip0 <= ip && ip + MFLIMIT <= job.End() + 1
    ensures job.TableOk(table[..], job.Index(ip) + (if found then 1 else 0))
    ensures found ==> ip + MFLIMIT <= job.End() && job.Usable(index, ip, MINMATCH)
    ensures Inside(job.acceleration, 0) && Reach(job.acceleration, 0) == 0
    ensures Search(job, old(table[..]), ip0, 0) == if found then Hit(ip, index, table[..]) else Missed(table[..])
  {
    hide Job.Usable, Job.EntryOk, Job.Slot, Counter, Reach, Steady, Job.Hits, Inside;
    StartOfSearch(job.acceleration);
    ip, index := ip0, 0;
    var forwardIp := ip0;
    var forwardH := job.Slot(forwardIp);
    var step := 1;
    var searchMatchNb := Wrap32(64 * job.acceleration);
    ghost var k := 0;
    while true
      invariant ip0 <= forwardIp <= job.MfLimitPlusOne() && forwardIp == ip0 + Reach(job.acceleration, k)
      invariant step == StepAt(job.acceleration, k) && searchMatchNb == Counter(job.acceleration, k)
      invariant Inside(job.acceleration, k)
      invariant forwardH == job.Slot(forwardIp)
      invariant job.TableOk(table[..], job.Index(forwardIp))
      invariant Search(job, table[..], ip0, k) == Search(job, old(table[..]), ip0, 0)
      decreases job.End() - forwardIp
    {
      var h, current := forwardH, job.Index(forwardIp);
      index := table[h];
      ip := forwardIp;
      SearchStep(job, ip0, k);
      ReachNext(job.acceleration, k);
      CounterAt(job.acceleration, k);
      forwardIp := forwardIp + step;
      step := searchMatchNb / 64;
      searchMatchNb := Wrap32(searchMatchNb + 1);
      if forwardIp > job.MfLimitPlusOne() { return false, ip, index; }
      forwardH := job.Slot(forwardIp);
      ghost var t := table[..];
      assert index == t[h];
      table[h] := current;
      TableUpdate(job, t, table[..], h, ip, current, current + 1);
      if job.Hits(index, ip) {
        CandidateUsable(job, index, h, ip);
        return true, ip, index;
      }
      k := k + 1;
    }
  }

  /**
   With a counter that starts at 0, as at acceleration 2^26, the second and third turn look at the same
   position. The second enters it in the table, so the third takes it for its own match, at offset 0.
   */
  lemma StalledSearch(job: Job, acceleration: nat, t: seq<nat>, ip0: nat)
    requires job.Ok() && |t| == job.slots && job.source <= ip0 && ip0 + MFLIMIT < job.End()
    requires acceleration >= 1 && acceleration % STEADY_PERIOD == 0
    ensures Reach(acceleration, 1) == Reach(acceleration, 2) == 1
    ensures var p := ip0 + 1;
            var index := t[job.Slot(p) := job.Index(p)][job.Slot(p)];
            job.Hits(index, p) && job.Index(p) - index == 0 && !job.Usable(index, p, MINMATCH)
  {
    hide Counter;
    Stalled(acceleration);
    ReachNext(acceleration, 0);
    ReachNext(acceleration, 1);
  }

  /**
   With a counter that starts negative the third turn is not ahead of the first: it looks there again when
   the counter is just below 0, and further back otherwise. There, it can only find positions that are not
   earlier, such as itself.
   */
  lemma BackwardSearch(job: Job, acceleration: nat, t: seq<nat>, ip0: nat)
    requires job.Ok() && |t| == job.slots && job.source <= ip0 && ip0 + MFLIMIT < job.End()
    requires acceleration >= 1 && acceleration % STEADY_PERIOD >= STEADY_PERIOD / 2
    ensures Reach(acceleration, 1) == 1
    ensures Reach(acceleration, 2) == acceleration % STEADY_PERIOD - (STEADY_PERIOD - 1) <= 0
    ensures ip0 + Reach(acceleration, 2) == ip0 <==> acceleration % STEADY_PERIOD == STEADY_PERIOD - 1
    ensures var index := t[job.Slot(ip0) := job.Index(ip0)][job.Slot(ip0 + 1) := job.Index(ip0 + 1)][job.Slot(ip0)];
            && job.Index(ip0) <= index <= job.Index(ip0) + 1 && !job.Usable(index, ip0, MINMATCH)
            && (job.Slot(ip0) != job.Slot(ip0 + 1) ==> index == job.Index(ip0) && job.Hits(index, ip0))
  {
    hide Wrap32;
    FirstStep(acceleration);
    ReachNext(acceleration, 0);
    ReachNext(acceleration, 1);
  }

  lemma FirstStep(acceleration: nat)
    requires acceleration % STEADY_PERIOD >= STEADY_PERIOD / 2
    ensures StepAt(acceleration, 0) == 1 && StepAt(acceleration, 1) == acceleration % STEADY_PERIOD - STEADY_PERIOD
  {
    hide Counter;
    CounterAt(acceleration, 0);
    NegativeStep(acceleration % STEADY_PERIOD);
  }

  lemma NegativeStep(a: nat)
    requires STEADY_PERIOD / 2 <= a < STEADY_PERIOD
    ensures Wrap32(64 * a) / 64 == a - STEADY_PERIOD
  {
    assert Wrap32(64 * a) == 64 * (a - STEADY_PERIOD);
  }

  /** A candidate whose matched bytes, when it lies in an external dictionary, end within it. */
  ghost predicate Within(job: Job, i: nat, len: nat) {
    job.dict.UsingExtDict? && i < job.startIndex ==> i + len <= job.startIndex
  }

  lemma UsableMemory(job: Job, i: nat, p: nat, len: nat)
    requires job.Ok() && job.Usable(i, p, len) && Within(job, i, len)
    ensures 0 <= job.Address(i) && Agree(job.mem, p, job.Address(i), len)
  {
    hide Job.Text, Job.Hist;
    TextAgree(job, i, p, len);
  }

  lemma MemoryUsable(job: Job, i: nat, p: nat, len: nat)
    requires job.Ok() && job.source <= p && p + len <= job.End() && Within(job, i, len)
    requires job.startIndex - job.dictSize <= i < job.Index(p) && job.Index(p) - i <= DISTANCE_MAX
    requires job.dict.UsingExtDict? && i < job.startIndex ==> i + MINMATCH <= job.startIndex
    requires 0 <= job.Address(i) && Agree(job.mem, p, job.Address(i), len)
    ensures job.Usable(i, p, len)
  {
    hide Job.Text, Job.Hist;
    TextAgree(job, i, p, len);
  }

  lemma CandidateUsable(job: Job, i: nat, h: nat, p: nat)
    requires job.Ok() && job.EntryOk(i, h)
    requires job.source <= p && p + MFLIMIT <= job.End() && i < job.Index(p) && job.Hits(i, p)
    ensures job.Usable(i, p, MINMATCH)
  {
    CandidateReadable(job, i, h, p);
    assert Agree(job.mem, p, job.Address(i), 0);
    hide Agree, Job.Usable, Job.EntryOk;
    AgreeTwo(job.mem, p, job.Address(i), 0);
    AgreeTwo(job.mem, p, job.Address(i), 2);
    MemoryUsable(job, i, p, MINMATCH);
  }

  lemma AgreeBack(m: seq<Byte>, p: nat, q: nat, n: nat)
    requires 0 < p && 0 < q && Agree(m, p, q, n) && m[p - 1] == m[q - 1]
    ensures Agree(m, p - 1, q - 1, n + 1)
  {
    assert m[p - 1..p + n] == [m[p - 1]] + m[p..p + n];
    assert m[q - 1..q + n] == [m[q - 1]] + m[q..q + n];
  }

  predicate CanGoBack(job: Job, ip: nat, index: nat, anchor: nat) {
    var match_ := job.Address(index);
    && anchor < ip <= |job.mem| && 0 <= job.LowLimit(index) < match_ <= |job.mem|
    && job.mem[ip - 1] == job.mem[match_ - 1]
  }

  lemma BackStep(job: Job, ip: nat, index: nat, anchor: nat, len: nat)
    requires job.Ok() && len >= MINMATCH && job.Usable(index, ip, len) && Within(job, index, len)
    requires job.source <= anchor && CanGoBack(job, ip, index, anchor)
    ensures index > 0 && job.Usable(index - 1, ip - 1, len + 1) && Within(job, index - 1, len + 1)
  {
    hide Job.Text, Job.Hist, Agree;
    UsableMemory(job, index, ip, len);
    AgreeBack(job.mem, ip, job.Address(index), len);
    MemoryUsable(job, index - 1, ip - 1, len + 1);
  }

  /** A match extended backwards, over bytes that agree, to `anchor` at most. */
  ghost function Back(job: Job, ip: nat, index: nat, anchor: nat): (r: (nat, nat))
    requires anchor <= ip && 0 <= job.Address(index)
    ensures anchor <= r.0 <= ip && r.0 - r.1 == ip - index && 0 <= job.Address(r.1)
    decreases ip
  {
    if index > 0 && CanGoBack(job, ip, index, anchor) then Back(job, ip - 1, index - 1, anchor) else (ip, index)
  }

  /** Extends a match backwards over literals not yet written. */
  method CatchUp(job: Job, ip0: nat, index0: nat, anchor: nat) returns (ip: nat, index: nat)
    requires job.Ok() && job.source <= anchor <= ip0 && job.Usable(index0, ip0, MINMATCH)
    ensures anchor <= ip <= ip0 && ip - index == ip0 - index0
    ensures job.Usable(index, ip, ip0 - ip + MINMATCH) && Within(job, index, ip0 - ip + MINMATCH)
    ensures 0 <= job.Address(index0) && (ip, index) == Back(job, ip0, index0, anchor)
  {
    hide *;
    ip, index := ip0, index0;
    UsableWithin(job, index, ip);
    UsableMemory(job, index, ip, MINMATCH);
    while CanGoBack(job, ip, index, anchor)
      invariant anchor <= ip <= ip0 && ip - index == ip0 - index0
      invariant job.Usable(index, ip, ip0 - ip + MINMATCH) && Within(job, index, ip0 - ip + MINMATCH)
      invariant 0 <= job.Address(index) && Back(job, ip, index, anchor) == Back(job, ip0, index0, anchor)
      decreases ip
    {
      BackStep(job, ip, index, anchor, ip0 - ip + MINMATCH);
      GoesBack(job, ip, index, anchor);
      ip, index := ip - 1, index - 1;
    }
    StaysHere(job, ip, index, anchor);
  }

  lemma UsableWithin(job: Job, index: nat, ip: nat)
    requires job.Ok() && job.Usable(index, ip, MINMATCH)
    ensures Within(job, index, MINMATCH)
  {
  }

  lemma UsableCut(job: Job, index: nat, ip: nat, len: nat, k: nat)
    requires job.Ok() && job.Usable(index, ip, len) && k <= len
    ensures job.Usable(index, ip, k)
  {
    hide Agree, Job.Text;
    AgreeCut(job.Text(), job.Place(job.Index(ip)), job.Place(index), len, k);
  }

  lemma GoesBack(job: Job, ip: nat, index: nat, anchor: nat)
    requires index > 0 && CanGoBack(job, ip, index, anchor)
    ensures anchor < ip && 0 <= job.Address(index - 1)
    ensures Back(job, ip, index, anchor) == Back(job, ip - 1, index - 1, anchor)
  {
  }

  lemma StaysHere(job: Job, ip: nat, index: nat, anchor: nat)
    requires anchor <= ip && 0 <= job.Address(index) && !CanGoBack(job, ip, index, anchor)
    ensures Back(job, ip, index, anchor) == (ip, index)
  {
  }

  lemma AgreeAt(m: seq<Byte>, p: nat, q: nat, n: nat, k: nat)
    requires Agree(m, p, q, n) && k < n
    ensures m[p + k] == m[q + k]
  {
    assert m[p..p + n][k] == m[q..q + n][k];
  }

  lemma AgreeCut(m: seq<Byte>, p: nat, q: nat, n: nat, k: nat)
    requires Agree(m, p, q, n) && k <= n
    ensures Agree(m, p, q, k)
  {
    SliceOfSlice(m, p, p + n, 0, k);
    SliceOfSlice(m, q, q + n, 0, k);
  }

  /** Whether the match is counted as one in the external dictionary: its low limit is the dictionary's start. */
  predicate CountedAsDict(job: Job, index: nat) {
    job.dict.UsingExtDict? && job.LowLimit(index) == job.dictionary
  }

  /** Where the counting of such a match stops first: at the end of the dictionary, or short of the end of the block. */
  function DictLimit(job: Job, ip: nat, index: nat): int {
    var limit := ip + (job.dictionary + job.dictSize - job.Address(index));
    if limit > job.MatchLimit() then job.MatchLimit() else limit
  }

  /**
   What LZ4_compress_generic counts for a match, beyond its first four bytes. One that is counted as
   lying in the dictionary and reaches the end of it goes on at the start of the block.
   */
  ghost function Counted(job: Job, ip: nat, index: nat): nat
    requires 0 <= job.Address(index)
  {
    var p, q := ip + MINMATCH, job.Address(index) + MINMATCH;
    if CountedAsDict(job, index) then
      var limit := DictLimit(job, ip, index);
      var first := Common(job.mem, p, q, limit);
      if p + first == limit then first + Common(job.mem, p + first, job.source, job.MatchLimit()) else first
    else Common(job.mem, p, q, job.MatchLimit())
  }

  /** A candidate the compressor has found and perhaps extended backwards: its first `known` bytes agree. */
  ghost predicate Candidate(job: Job, ip: nat, index: nat, known: nat) {
    && job.Ok() && known >= MINMATCH && ip + known - MINMATCH + MFLIMIT <= job.End()
    && job.Usable(index, ip, known) && Within(job, index, known)
  }

  /** Counting on from the first four bytes, never short of what is known to agree. */
  lemma CommonFrom(m: seq<Byte>, ip: nat, q: nat, limit: nat, known: nat)
    requires MINMATCH <= known && ip + known <= limit && Agree(m, ip, q, known)
    ensures var n := Common(m, ip + MINMATCH, q + MINMATCH, limit) + MINMATCH;
            known <= n && ip + n <= limit && Agree(m, ip, q, n)
  {
    var n := Common(m, ip + MINMATCH, q + MINMATCH, limit);
    hide Common;
    AgreeCut(m, ip, q, known, MINMATCH);
    AgreeRest(m, ip, q, known, MINMATCH);
    CommonIs(m, ip + MINMATCH, q + MINMATCH, limit, known - MINMATCH);
    AgreeJoin(m, ip, q, MINMATCH, n);
  }

  lemma AgreeRest(m: seq<Byte>, p: nat, q: nat, n: nat, k: nat)
    requires Agree(m, p, q, n) && k <= n
    ensures Agree(m, p + k, q + k, n - k)
  {
    SliceOfSlice(m, p, p + n, k, n);
    SliceOfSlice(m, q, q + n, k, n);
  }

  /** A match in the block that is counted as one in the dictionary, and stops being so before the end of the block. */
  predicate InShortBlock(job: Job, ip: nat, index: nat) {
    CountedAsDict(job, index) && job.startIndex <= index && DictLimit(job, ip, index) < job.MatchLimit()
  }

  /** Bytes that are `times` periods apart are the same. */
  lemma {:induction false} SamePhase(m: seq<Byte>, source: nat, offset: nat, len: nat, k: nat, times: nat)
    requires k + offset * times < offset + len && Agree(m, source + offset, source, len)
    ensures m[source + k + offset * times] == m[source + k]
    decreases times
  {
    if times > 0 {
      assert offset * times == offset * (times - 1) + offset;
      AgreeAt(m, source + offset, source, len, k + offset * (times - 1));
      SamePhase(m, source, offset, len, k, times - 1);
    }
  }

  /** Where the block repeats, going on from its start is going on from whole periods behind it. */
  lemma {:induction false} PhaseGoesOn(m: seq<Byte>, source: nat, offset: nat, times: nat, d: nat, k: nat, limit: nat)
    requires 0 < offset && d == offset * times && limit <= |m| && Agree(m, source + offset, source, d + k)
    ensures Common(m, source + d + offset + k, source + k, limit) ==
            Common(m, source + d + offset + k, source + d + k, limit)
    decreases limit - k
  {
    hide Agree;
    AgreeInside(m, source + offset, source, d + k);
    SamePhase(m, source, offset, d + k, k, times);
    var p := source + d + offset + k;
    if p < limit && m[p] == m[source + k] {
      AgreeOne(m, source + offset, source, d + k);
      PhaseGoesOn(m, source, offset, times, d, k + 1, limit);
    }
  }

  /** Counting stops early, or goes on where a nearer limit stopped it. */
  lemma {:induction false} CommonPast(m: seq<Byte>, p: nat, q: nat, near: nat, limit: nat)
    requires p <= near <= limit <= |m| && q + (limit - p) <= |m|
    ensures var n := Common(m, p, q, near);
            Common(m, p, q, limit) == if p + n == near then n + Common(m, near, q + n, limit) else n
    decreases near - p
  {
    hide Agree;
    if p < near && m[p] == m[q] { CommonPast(m, p + 1, q + 1, near, limit); }
  }

  /**
   In a block too short for harm, such a match repeats with a period that the run-on keeps, or is not counted on at
   all.
   */
  lemma ShortCounted(job: Job, ip: nat, index: nat, known: nat)
    requires Candidate(job, ip, index, known) && job.TellsApart() && InShortBlock(job, ip, index)
    requires 0 <= job.Address(index) && Agree(job.mem, ip, job.Address(index), known)
    ensures if job.Address(index) == job.source
            then Counted(job, ip, index) == Common(job.mem, ip + MINMATCH, job.Address(index) + MINMATCH,
                                                   job.MatchLimit())
            else known == MINMATCH && Counted(job, ip, index) == 0
  {
    hide Job.Text, Job.Hist, Agree, Common, Steady;
    var m, s, d, end := job.mem, job.source, job.dictSize, job.MatchLimit();
    ShortPlaces(job, ip, index, known);
    if job.Address(index) == s {
      var near := ip + d;
      CommonPast(m, ip + MINMATCH, s + MINMATCH, near, end);
      var n := Common(m, ip + MINMATCH, s + MINMATCH, near);
      if ip + MINMATCH + n == near {
        AgreeCut(m, ip, s, known, MINMATCH);
        AgreeJoin(m, ip, s, MINMATCH, n);
        PhaseGoesOn(m, s, ip - s, if ip == s + 1 then d else 2, d, 0, end);
      }
    } else {
      CommonNone(m, ip + MINMATCH, job.Address(index) + MINMATCH, DictLimit(job, ip, index));
    }
  }

  lemma ShortPlaces(job: Job, ip: nat, index: nat, known: nat)
    requires Candidate(job, ip, index, known) && job.TellsApart() && InShortBlock(job, ip, index)
    ensures var s, d, q := job.source, job.dictSize, job.Address(index);
            && d >= MINMATCH && s <= q < ip && DictLimit(job, ip, index) == ip + d - (q - s)
            && (q == s ==> ip == s + 1 || (ip == s + 2 && d == MINMATCH))
            && (q != s ==> known == MINMATCH && d == MINMATCH && q == s + 1)
  {
  }

  /** What is counted may be encoded, when a match in the dictionary can be told from one in the block. */
  lemma CountedUsable(job: Job, ip: nat, index: nat, known: nat)
    requires Candidate(job, ip, index, known) && job.TellsApart()
    ensures 0 <= job.Address(index)
    ensures var n := Counted(job, ip, index) + MINMATCH;
            known <= n && ip + n <= job.MatchLimit() && job.Usable(index, ip, n)
  {
    hide Job.Text, Job.Hist, Agree, Common, Steady;
    UsableMemory(job, index, ip, known);
    var q := job.Address(index);
    var short := InShortBlock(job, ip, index);
    if short { ShortCounted(job, ip, index, known); }
    if short && q != job.source { return; }
    var limit := if CountedAsDict(job, index) && !short then DictLimit(job, ip, index) else job.MatchLimit();
    CommonFrom(job.mem, ip, q, limit, known);
    var n := Common(job.mem, ip + MINMATCH, q + MINMATCH, limit) + MINMATCH;
    MemoryUsable(job, index, ip, n);
    if CountedAsDict(job, index) && !short && ip + n == limit {
      CommonNone(job.mem, limit, job.source, job.MatchLimit());
      var more := Common(job.mem, limit, job.source, job.MatchLimit());
      if more > 0 { RunOn(job, ip, index, n, more); }
    }
  }

  /** The length of the match at `ip`, beyond the first four bytes. */
  method CountMatch(job: Job, ip: nat, index: nat, ghost known: nat) returns (code: nat)
    requires Candidate(job, ip, index, known)
    ensures 0 <= job.Address(index) && code == Counted(job, ip, index)
    ensures job.TellsApart() ==>
              known <= code + MINMATCH && ip + code + MINMATCH <= job.MatchLimit()
                && job.Usable(index, ip, code + MINMATCH)
  {
    hide Job.Text, Job.Hist, Agree, Common, Steady;
    UsableMemory(job, index, ip, known);
    AgreeInside(job.mem, ip, job.Address(index), known);
    if job.TellsApart() { CountedUsable(job, ip, index, known); }
    var match_ := job.Address(index);
    if job.dict.UsingExtDict? && job.LowLimit(index) == job.dictionary {
      var limit := ip + (job.dictionary + job.dictSize - match_);
      if limit > job.MatchLimit() { limit := job.MatchLimit(); }
      code := Count(job.mem, ip + MINMATCH, match_ + MINMATCH, limit);
      if ip + code + MINMATCH == limit {
        var more := Count(job.mem, limit, job.source, job.MatchLimit());
        code := code + more;
      }
    } else {
      code := Count(job.mem, ip + MINMATCH, match_ + MINMATCH, job.MatchLimit());
    }
  }

  lemma AgreeInside(m: seq<Byte>, p: nat, q: nat, n: nat)
    requires Agree(m, p, q, n)
    ensures p + n <= |m| && q + n <= |m|
  {
  }

  /** A match that reaches the end of the external dictionary continues at the start of the block. */
  lemma RunOn(job: Job, ip: nat, index: nat, len: nat, more: nat)
    requires job.Ok() && job.Usable(index, ip, len) && index + len == job.startIndex
    requires ip + len + more <= job.End() && Agree(job.mem, ip + len, job.source, more)
    ensures job.Usable(index, ip, len + more)
  {
    hide Job.Text, Job.Hist, Agree, Steady;
    BlockAgree(job, ip + len, more);
    AgreeJoin(job.Text(), job.Place(job.Index(ip)), job.Place(index), len, more);
  }

  /** The start of the block, matched further on. */
  lemma BlockAgree(job: Job, p: nat, n: nat)
    requires job.Ok() && job.source <= p && p + n <= job.End() && Agree(job.mem, p, job.source, n)
    ensures Agree(job.Text(), job.Place(job.Index(p)), job.Place(job.startIndex), n)
  {
    hide Job.Text, Job.Hist, Steady;
    TextMemory(job, job.startIndex, n);
    TextMemory(job, job.Index(p), n);
  }

  // ----- Table maintenance between matches -----

  method PutPosition(job: Job, table: array<nat>, p: nat, ghost bound: nat)
    requires job.Ok() && job.source <= p && p + 8 <= job.End() && job.Index(p) < bound
    requires job.TableOk(table[..], bound)
    modifies table
    ensures job.TableOk(table[..], bound) && table[..] == Entered(job, old(table[..]), p)
  {
    ghost var t := table[..];
    table[job.Slot(p)] := job.Index(p);
    TableUpdate(job, t, table[..], job.Slot(p), p, bound, bound);
  }

  /** Tests the position right after a match before searching on. */
  method TestNext(job: Job, table: array<nat>, ip: nat) returns (found: bool, index: nat)
    requires job.Ok() && job.source < ip && ip + MFLIMIT <= job.End()
    requires job.TableOk(table[..], job.Index(ip))
    modifies table
    ensures job.TableOk(table[..], job.Index(ip) + 1)
    ensures found ==> job.Usable(index, ip, MINMATCH)
    ensures table[..] == Entered(job, old(table[..]), ip) && index == old(table[..])[job.Slot(ip)]
    ensures found <==> Takes(job, index, ip)
  {
    hide Job.Usable, Job.EntryOk, Job.Slot;
    var h, current := job.Slot(ip), job.Index(ip);
    index := table[h];
    ghost var t := table[..];
    assert index == t[h];
    table[h] := current;
    TableUpdate(job, t, table[..], h, ip, current, current + 1);
    found := job.Hits(index, ip);
    if found { CandidateUsable(job, index, h, ip); }
  }

  /**
   When a match had to be shortened to fit the output, positions at or after its new end must not
   stay in the table. Clearing the slot of each of them is enough, since an entry is in its own slot.
   */
  method ClearPositions(job: Job, table: array<nat>, ip: nat, filledIp: nat)
    requires job.Ok() && job.mode.FillOutput? && job.source <= ip <= filledIp && filledIp + MFLIMIT <= job.End()
    requires job.TableOk(table[..], job.Index(filledIp) + 1) && job.Index(ip) > 0
    modifies table
    ensures job.TableOk(table[..], job.Index(ip))
  {
    var ptr := ip;
    while ptr <= filledIp
      invariant ip <= ptr <= filledIp + 1 && table.Length == job.slots
      invariant forall h :: 0 <= h < table.Length ==>
                  && table[h] <= job.Index(filledIp) && job.EntryOk(table[h], h)
                  && !(job.Index(ip) <= table[h] < job.Index(ptr))
    {
      table[job.Slot(ptr)] := 0;
      ptr := ptr + 1;
    }
  }
}
