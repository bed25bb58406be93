/**
 kafkatools_props_readconf and kafkatools_props_retrieve: the properties of a section, packed as
 null-terminated strings into one buffer in two passes over the file, and found again in it.
 */
module Properties {
  import opened Bytes

  const SUCCESS: int := 0
  const ERROR: int := -1
  const ENOMEM: int := -4
  const EFILE: int := -5
  const EBREAK: int := -6
  const EPROPS: int := -7
  const PROPS_MAX: nat := 256

  /** A line of the file, as the configuration reader hands it out: strings without null bytes. */
  datatype Pair = Pair(section: seq<Byte>, key: seq<Byte>, val: seq<Byte>)
  {
    predicate Ok() { 0 !in key && 0 !in val }
  }

  predicate PairsOk(pairs: seq<Pair>) { forall p <- pairs :: p.Ok() }

  /** Whether a pair is asked for: every one, when no section is given. */
  predicate Wanted(section: Option<seq<Byte>>, p: Pair) {
    section.None? || section.value == p.section
  }

  function Selected(section: Option<seq<Byte>>, pairs: seq<Pair>): (r: seq<Pair>)
    ensures PairsOk(pairs) ==> PairsOk(r)
  {
    if pairs == [] then []
    else
      var last := pairs[|pairs| - 1];
      Selected(section, pairs[..|pairs| - 1]) + if Wanted(section, last) then [last] else []
  }

  /** Without a section, everything; with one, every pair of that section as often as it is there. */
  lemma {:induction false} SelectedIs(section: Option<seq<Byte>>, pairs: seq<Pair>, p: Pair)
    ensures section.None? ==> Selected(section, pairs) == pairs
    ensures section.Some? ==>
              multiset(Selected(section, pairs))[p] == if p.section == section.value then multiset(pairs)[p] else 0
    decreases |pairs|
  {
    if pairs != [] {
      var init, last := pairs[..|pairs| - 1], pairs[|pairs| - 1];
      assert pairs == init + [last];
      SelectedIs(section, init, p);
    }
  }

  /** In the order they are there. */
  lemma {:induction false} SelectedJoins(section: Option<seq<Byte>>, a: seq<Pair>, b: seq<Pair>)
    ensures Selected(section, a + b) == Selected(section, a) + Selected(section, b)
    decreases |b|
  {
    if b == [] {
      assert a + b == a;
    } else {
      var init := b[..|b| - 1];
      assert (a + b)[..|a + b| - 1] == a + init;
      SelectedJoins(section, a, init);
    }
  }

  /** A pair in the buffer: both strings with their terminators. */
  function PairBytes(p: Pair): (s: seq<Byte>)
    ensures |s| >= 2
  {
    p.key + [0] + p.val + [0]
  }

  function Packed(pairs: seq<Pair>): seq<Byte> {
    if pairs == [] then [] else Packed(pairs[..|pairs| - 1]) + PairBytes(pairs[|pairs| - 1])
  }

  lemma SelectedStep(section: Option<seq<Byte>>, pairs: seq<Pair>, i: nat)
    requires i < |pairs|
    ensures var s, t := Selected(section, pairs[..i]), Selected(section, pairs[..i + 1]);
            if Wanted(section, pairs[i]) then t == s + [pairs[i]] else t == s
  {
    assert pairs[..i + 1][..i] == pairs[..i];
    if !Wanted(section, pairs[i]) {
      assert Selected(section, pairs[..i + 1]) == Selected(section, pairs[..i]) + [];
    }
  }

  lemma PackedStep(pairs: seq<Pair>, p: Pair)
    ensures Packed(pairs + [p]) == Packed(pairs) + PairBytes(p)
  {
    assert (pairs + [p])[..|pairs|] == pairs;
  }

  lemma {:induction false} SelectedGrows(section: Option<seq<Byte>>, pairs: seq<Pair>, i: nat)
    requires i <= |pairs|
    ensures |Selected(section, pairs[..i])| <= |Selected(section, pairs)|
    ensures |Packed(Selected(section, pairs[..i]))| <= |Packed(Selected(section, pairs))|
    decreases |pairs| - i
  {
    if i == |pairs| {
      assert pairs[..i] == pairs;
    } else {
      SelectedStep(section, pairs, i);
      if Wanted(section, pairs[i]) { PackedStep(Selected(section, pairs[..i]), pairs[i]); }
      SelectedGrows(section, pairs, i + 1);
    }
  }

  // ----- kafkatools_props_readconf -----

  /** The first pass: how many properties, and how much room for them; none of it past the limit. */
  method Measure(section: Option<seq<Byte>>, pairs: seq<Pair>) returns (props: nat, size: nat, over: bool)
    ensures over <==> |Selected(section, pairs)| >= PROPS_MAX
    ensures !over ==> props == |Selected(section, pairs)| && size == |Packed(Selected(section, pairs))|
  {
    hide Selected, Packed, PairBytes;
    props, size := 0, 0;
    NothingSelected(section, pairs);
    var i := 0;
    while i < |pairs|
      invariant 0 <= i <= |pairs| && props < PROPS_MAX
      invariant props == |Selected(section, pairs[..i])| && size == |Packed(Selected(section, pairs[..i]))|
    {
      SelectedStep(section, pairs, i);
      var p := pairs[i];
      if Wanted(section, p) {
        PackedStep(Selected(section, pairs[..i]), p);
        PairSize(p);
        props, size := props + 1, size + |p.key| + 1 + |p.val| + 1;
      }
      i := i + 1;
      if props >= PROPS_MAX {
        SelectedGrows(section, pairs, i);
        return props, size, true;
      }
    }
    assert pairs[..i] == pairs;
    over := false;
  }

  lemma NothingSelected(section: Option<seq<Byte>>, pairs: seq<Pair>)
    ensures Selected(section, pairs[..0]) == [] && Packed([]) == []
  {
  }

  lemma PairSize(p: Pair)
    ensures |PairBytes(p)| == |p.key| + 1 + |p.val| + 1
  {
  }

  /** Copies a string with its terminator to `offset`. */
  method PutString(buf: array<Byte>, offset: nat, s: seq<Byte>)
    requires offset + |s| + 1 <= buf.Length
    modifies buf
    ensures buf[..offset + |s| + 1] == old(buf[..offset]) + s + [0]
    ensures forall k :: offset + |s| + 1 <= k < buf.Length ==> buf[k] == old(buf[k])
  {
    forall k | 0 <= k <= |s| { buf[offset + k] := if k < |s| then s[k] else 0; }
    assert buf[..offset] == old(buf[..offset]);
    assert buf[..offset + |s| + 1] == buf[..offset] + buf[offset..offset + |s| + 1];
    assert buf[offset..offset + |s| + 1] == s + [0];
  }

  /**
   The second pass. Whatever it finds in the file, nothing is written past the size the first pass
   found; it succeeds exactly when what it finds packs to that size.
   */
  method Fill(section: Option<seq<Byte>>, pairs: seq<Pair>, buf: array<Byte>, size: nat) returns (ok: bool)
    requires size < buf.Length
    modifies buf
    ensures forall k :: size <= k < buf.Length ==> buf[k] == old(buf[k])
    ensures ok <==> |Packed(Selected(section, pairs))| == size
    ensures ok ==> buf[..size] == Packed(Selected(section, pairs))
  {
    hide Selected, Packed, PairBytes;
    var offset: nat := 0;
    NothingSelected(section, pairs);
    var i := 0;
    while i < |pairs|
      invariant 0 <= i <= |pairs| && offset <= size && buf[..offset] == Packed(Selected(section, pairs[..i]))
      invariant forall k :: size <= k < buf.Length ==> buf[k] == old(buf[k])
    {
      SelectedStep(section, pairs, i);
      var p := pairs[i];
      if Wanted(section, p) {
        ghost var before := Selected(section, pairs[..i]);
        PackedStep(before, p);
        PairSize(p);
        SelectedGrows(section, pairs, i + 1);
        if offset + |p.key| + 1 > size { return false; }
        PutString(buf, offset, p.key);
        offset := offset + |p.key| + 1;
        if offset + |p.val| + 1 > size { return false; }
        PutString(buf, offset, p.val);
        offset := offset + |p.val| + 1;
        PairParts(Packed(before), p);
      }
      i := i + 1;
    }
    assert pairs[..i] == pairs;
    ok := offset == size;
  }

  lemma PairParts(before: seq<Byte>, p: Pair)
    ensures before + p.key + [0] + p.val + [0] == before + PairBytes(p)
  {
  }

  /** Both passes over a file: what each of them found, or nothing if it could not be opened. */
  datatype File = Missing | Found(first: seq<Pair>, second: seq<Pair>)

  /** kafkatools_props_readconf. */
  method ReadConf(file: File, section: Option<seq<Byte>>, canAllocate: bool)
    returns (r: int, buf: array<Byte>, size: nat)
    ensures fresh(buf)
    ensures file.Missing? <==> r == EFILE
    ensures file.Found? ==>
              var props := |Selected(section, file.first)|;
              var room, found := Packed(Selected(section, file.first)), Packed(Selected(section, file.second));
              && (r == EPROPS <==> props >= PROPS_MAX)
              && (r == ENOMEM <==> 0 < props < PROPS_MAX && !canAllocate)
              && (r == EBREAK <==> 0 < props < PROPS_MAX && canAllocate && |found| != |room|)
              && (r >= 0 ==> r == props)
              && (r > 0 ==> size == |room| && buf.Length == size + 1 && buf[..size] == found && buf[size] == 0)
    ensures r >= 0 || r in {EFILE, EPROPS, ENOMEM, EBREAK}
  {
    hide Selected, Packed;
    buf, size := new Byte[0], 0;
    if file.Missing? { return EFILE, buf, size; }
    var props, outsz, over := Measure(section, file.first);
    if over { return EPROPS, buf, size; }
    SomeRoom(Selected(section, file.first));
    if outsz == 0 { return 0, buf, size; }
    if !canAllocate { return ENOMEM, buf, size; }
    var outbuf := new Byte[outsz + 1];
    outbuf[outsz] := 0;
    var ok := Fill(section, file.second, outbuf, outsz);
    if !ok { return EBREAK, buf, size; }
    return props, outbuf, outsz;
  }

  lemma SomeRoom(pairs: seq<Pair>)
    ensures |Packed(pairs)| == 0 <==> pairs == []
  {
  }

  // ----- kafkatools_props_retrieve -----

  /** Where the string after the one at `p` starts, one past the end if that one has no terminator. */
  function After(s: seq<Byte>, p: nat): (q: nat)
    ensures q > p || q == |s| + 1
    ensures q <= |s| + 1
    decreases |s| - p
  {
    if p >= |s| then |s| + 1 else if s[p] == 0 then p + 1 else After(s, p + 1)
  }

  /** Where string number `k` starts. */
  function StartOf(s: seq<Byte>, k: nat): (p: nat)
    ensures p <= |s| + 1
  {
    if k == 0 then 0 else After(s, StartOf(s, k - 1))
  }

  /** The string at `p`. */
  function TextAt(s: seq<Byte>, p: nat): seq<Byte>
    requires After(s, p) <= |s|
  {
    s[p..After(s, p) - 1]
  }

  lemma {:induction false} StartMonotone(s: seq<Byte>, j: nat, k: nat)
    requires j <= k
    ensures StartOf(s, j) <= StartOf(s, k)
    decreases k
  {
    if j < k { StartMonotone(s, j, k - 1); }
  }

  /** strlen. */
  method StringLength(buf: array<Byte>, p: nat) returns (n: nat)
    requires After(buf[..], p) <= buf.Length
    ensures p + n + 1 == After(buf[..], p)
  {
    n := 0;
    while buf[p + n] != 0
      invariant p + n < buf.Length && After(buf[..], p + n) == After(buf[..], p)
      decreases buf.Length - (p + n)
    {
      n := n + 1;
      if p + n == buf.Length { assert false; }
    }
  }

  /**
   kafkatools_props_retrieve, pointers as offsets in the buffer and NULL as None. It finds the strings
   in turn, and fails exactly when the last of them ends past the given size.
   */
  method Retrieve(buf: array<Byte>, bufsz: nat, names: array<Option<nat>>, values: array<Option<nat>>, numprops: nat)
    returns (r: int)
    requires StartOf(buf[..], 2 * numprops) <= buf.Length
    requires names.Length > numprops && values.Length > numprops && names != values
    modifies names, values
    ensures r == SUCCESS || r == ERROR
    ensures r == SUCCESS <==> numprops == 0 || StartOf(buf[..], 2 * numprops) <= bufsz
    ensures r == SUCCESS ==> names[numprops] == None && values[numprops] == None
    ensures r == SUCCESS ==> forall k :: 0 <= k < numprops ==>
              names[k] == Some(StartOf(buf[..], 2 * k)) && values[k] == Some(StartOf(buf[..], 2 * k + 1))
  {
    hide After;
    var i, p := 0, 0;
    while i < numprops
      invariant 0 <= i <= numprops && p == StartOf(buf[..], 2 * i) && (i > 0 ==> p <= bufsz)
      invariant forall k :: 0 <= k < i ==>
                  names[k] == Some(StartOf(buf[..], 2 * k)) && values[k] == Some(StartOf(buf[..], 2 * k + 1))
    {
      StartMonotone(buf[..], 2 * i + 1, 2 * numprops);
      StartMonotone(buf[..], 2 * i + 2, 2 * numprops);
      assert StartOf(buf[..], 2 * i + 2) == After(buf[..], StartOf(buf[..], 2 * i + 1));
      names[i] := Some(p);
      var n := StringLength(buf, p);
      p := p + n + 1;
      values[i] := Some(p);
      n := StringLength(buf, p);
      p := p + n + 1;
      if p > bufsz { return ERROR; }
      i := i + 1;
    }
    names[i], values[i] := None, None;
    return SUCCESS;
  }

  // ----- Packing and retrieving -----

  lemma {:induction false} AfterText(s: seq<Byte>, p: nat, text: seq<Byte>)
    requires 0 !in text && p + |text| < |s| && s[p..p + |text|] == text && s[p + |text|] == 0
    ensures After(s, p) == p + |text| + 1 && TextAt(s, p) == text
    decreases |text|
  {
    if text != [] {
      assert s[p] == text[0] && s[p + 1..p + 1 + |text[1..]|] == text[1..];
      AfterText(s, p + 1, text[1..]);
    }
  }

  /** The strings of a packed list are found where they were put. */
  lemma {:induction false} PackedStrings(pairs: seq<Pair>, tail: seq<Byte>, i: nat)
    requires PairsOk(pairs) && i <= |pairs|
    ensures var s := Packed(pairs) + tail;
            && Packed(pairs[..i]) <= s && StartOf(s, 2 * i) == |Packed(pairs[..i])|
            && (i < |pairs| ==>
                  && After(s, StartOf(s, 2 * i)) <= |s| && TextAt(s, StartOf(s, 2 * i)) == pairs[i].key
                  && After(s, StartOf(s, 2 * i + 1)) <= |s| && TextAt(s, StartOf(s, 2 * i + 1)) == pairs[i].val
                  && StartOf(s, 2 * i + 2) == |Packed(pairs[..i + 1])|)
    decreases i
  {
    hide After, TextAt, PairBytes, Packed;
    var s := Packed(pairs) + tail;
    PackedParts(pairs, i);
    if i == 0 {
      NothingSelected(None, pairs);
      assert pairs[..0] == [];
    } else {
      PackedStrings(pairs, tail, i - 1);
    }
    if i < |pairs| {
      PackedParts(pairs, i + 1);
      PairStrings(s, |Packed(pairs[..i])|, pairs[i]);
      assert StartOf(s, 2 * i + 2) == After(s, StartOf(s, 2 * i + 1));
    }
  }

  lemma PairStrings(s: seq<Byte>, p: nat, pair: Pair)
    requires pair.Ok() && p + |PairBytes(pair)| <= |s| && s[p..p + |PairBytes(pair)|] == PairBytes(pair)
    ensures var q := p + |pair.key| + 1;
            && After(s, p) == q && TextAt(s, p) == pair.key
            && After(s, q) == p + |PairBytes(pair)| && TextAt(s, q) == pair.val
  {
    hide After, TextAt, PairBytes;
    var n, q := |pair.key|, p + |pair.key| + 1;
    PairSlices(pair);
    var size := |PairBytes(pair)|;
    SliceOfSlice(s, p, p + size, 0, n);
    SliceOfSlice(s, p, p + size, n + 1, size - 1);
    InSlice(s, p, size, n);
    InSlice(s, p, size, size - 1);
    AfterText(s, p, pair.key);
    AfterText(s, q, pair.val);
  }

  lemma PairSlices(p: Pair)
    ensures var b, n := PairBytes(p), |p.key|;
            && |b| == n + |p.val| + 2 && b[0..n] == p.key && b[n] == 0 && b[n + 1..|b| - 1] == p.val && b[|b| - 1] == 0
  {
  }

  lemma InSlice(s: seq<Byte>, p: nat, size: nat, k: nat)
    requires k < size && p + size <= |s|
    ensures s[p + k] == s[p..p + size][k]
  {
  }

  lemma {:induction false} PackedParts(pairs: seq<Pair>, i: nat)
    requires i <= |pairs|
    ensures Packed(pairs[..i]) <= Packed(pairs)
    ensures i > 0 ==> Packed(pairs[..i]) == Packed(pairs[..i - 1]) + PairBytes(pairs[i - 1])
    decreases |pairs| - i
  {
    if i > 0 { assert pairs[..i][..i - 1] == pairs[..i - 1]; }
    if i == |pairs| {
      assert pairs[..i] == pairs;
    } else {
      PackedParts(pairs, i + 1);
    }
  }

  /** A packed list, with the null byte behind it, has exactly the strings of its pairs to give. */
  lemma Retrievable(pairs: seq<Pair>, n: nat)
    requires PairsOk(pairs)
    ensures var s := Packed(pairs) + [0]; StartOf(s, 2 * n) <= |s| <==> n <= |pairs|
  {
    hide Packed;
    var s := Packed(pairs) + [0];
    if n <= |pairs| {
      PackedStrings(pairs, [0], n);
    } else {
      PackedStrings(pairs, [0], |pairs|);
      assert pairs[..|pairs|] == pairs;
      assert StartOf(s, 2 * |pairs| + 1) == After(s, StartOf(s, 2 * |pairs|)) == |s|;
      assert StartOf(s, 2 * |pairs| + 2) == After(s, |s|) == |s| + 1;
      StartMonotone(s, 2 * |pairs| + 2, 2 * n);
    }
  }

  /** Two passes that find different properties of the same packed size, and more of them the first time. */
  lemma CountTooLarge()
    ensures var first, second := [Pair([], [97], [98]), Pair([], [99], [100])],
            [Pair([], [97, 98, 99], [100, 101, 102])];
            var s := Packed(Selected(None, second)) + [0];
            && |Packed(Selected(None, first))| == |Packed(Selected(None, second))| == 8
            && |Selected(None, first)| == 2 && StartOf(s, 2 * 2) > |s| == 9
  {
    hide Selected, Packed, PairBytes, StartOf;
    var p, q, t := Pair([], [97], [98]), Pair([], [99], [100]), Pair([], [97, 98, 99], [100, 101, 102]);
    AllSelected([p, q]);
    AllSelected([t]);
    TwoPacked(p, q);
    OnePacked(t);
    Retrievable([t], 2);
  }

  lemma {:induction false} AllSelected(pairs: seq<Pair>)
    ensures Selected(None, pairs) == pairs
  {
    if pairs != [] { AllSelected(pairs[..|pairs| - 1]); }
  }

  lemma OnePacked(p: Pair)
    ensures |Packed([p])| == |p.key| + |p.val| + 2
  {
    PackedStep([], p);
    assert [] + [p] == [p];
  }

  lemma TwoPacked(p: Pair, q: Pair)
    ensures |Packed([p, q])| == |p.key| + |p.val| + |q.key| + |q.val| + 4
  {
    hide Packed;
    OnePacked(p);
    PackedStep([p], q);
    assert [p] + [q] == [p, q];
  }

  /** The first `n` entries of `names` and `values` point at the strings of `pairs`, and the next are NULL. */
  ghost predicate PointAt(s: seq<Byte>, names: seq<Option<nat>>, values: seq<Option<nat>>, pairs: seq<Pair>, n: nat) {
    && n < |names| && n < |values| && n <= |pairs| && names[n] == None && values[n] == None
    && forall k :: 0 <= k < n ==>
         && names[k].Some? && After(s, names[k].value) <= |s| && TextAt(s, names[k].value) == pairs[k].key
         && values[k].Some? && After(s, values[k].value) <= |s| && TextAt(s, values[k].value) == pairs[k].val
  }

  /**
   Reading a section and retrieving what was read. The number of properties is that of the first pass,
   so the second pass must have found at least as many for the strings to be there at all (`status` is
   None otherwise: the search for a terminator leaves the buffer); what is retrieved then is the
   beginning of what the second pass found, and all of it exactly when the passes found equally many.
   */
  method RoundTrip(first: seq<Pair>, second: seq<Pair>, section: Option<seq<Byte>>, canAllocate: bool,
                   names: array<Option<nat>>, values: array<Option<nat>>)
    returns (r: int, buf: array<Byte>, status: Option<int>)
    requires PairsOk(second) && names != values
    requires names.Length > |Selected(section, first)| && values.Length > |Selected(section, first)|
    modifies names, values
    ensures first == second && |Selected(section, first)| < PROPS_MAX && canAllocate ==> r == |Selected(section, first)|
    ensures r >= 0 ==> r == |Selected(section, first)|
    ensures r > 0 ==> (status.Some? <==> |Selected(section, first)| <= |Selected(section, second)|)
    ensures r > 0 ==> (status.Some? <==> StartOf(buf[..], 2 * r) <= buf.Length)
    ensures r == 0 ==> status == Some(SUCCESS) && names[0] == None && values[0] == None
    ensures r > 0 && status.Some? ==>
              status == Some(SUCCESS) && PointAt(buf[..], names[..], values[..], Selected(section, second), r)
    ensures r > 0 && status.Some? ==>
              (PointAt(buf[..], names[..], values[..], Selected(section, second), |Selected(section, second)|) <==>
               |Selected(section, first)| == |Selected(section, second)|)
  {
    hide Selected, Packed, After, TextAt, PointAt;
    var size;
    r, buf, size := ReadConf(Found(first, second), section, canAllocate);
    status := None;
    if r < 0 { return; }
    ghost var wanted := Selected(section, second);
    if r > 0 {
      assert buf[..] == Packed(wanted) + [0];
      Retrievable(wanted, r);
      if StartOf(buf[..], 2 * r) > buf.Length { return; }
      PackedStrings(wanted, [0], r);
      PackedParts(wanted, r);
    }
    var code := Retrieve(buf, size, names, values, r);
    status := Some(code);
    if r > 0 { Pointing(buf[..], names[..], values[..], wanted, r); }
  }

  lemma Pointing(s: seq<Byte>, names: seq<Option<nat>>, values: seq<Option<nat>>, pairs: seq<Pair>, n: nat)
    requires PairsOk(pairs) && s == Packed(pairs) + [0] && n <= |pairs| && n < |names| && n < |values|
    requires names[n] == None && values[n] == None
    requires forall k :: 0 <= k < n ==> names[k] == Some(StartOf(s, 2 * k)) && values[k] == Some(StartOf(s, 2 * k + 1))
    ensures PointAt(s, names, values, pairs, n)
    ensures PointAt(s, names, values, pairs, |pairs|) <==> n == |pairs|
  {
    hide Packed, After, TextAt;
    forall k | 0 <= k < n
      ensures After(s, StartOf(s, 2 * k)) <= |s| && TextAt(s, StartOf(s, 2 * k)) == pairs[k].key
      ensures After(s, StartOf(s, 2 * k + 1)) <= |s| && TextAt(s, StartOf(s, 2 * k + 1)) == pairs[k].val
    {
      PackedStrings(pairs, [0], k);
    }
  }
}
