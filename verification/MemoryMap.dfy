/** kernel/memtest.c: normalising the BIOS E820 memory map, with reserved ranges winning. */
module MemoryMap {
  import opened Bytes

  const HEAP_BASE: nat := 8 * 1024 * 1024
  const MAPPED_LIMIT: nat := 1024 * 1024 * 1024
  const MAX_ENTRIES: nat := 64
  const USABLE: nat := 1

  datatype Entry = Entry(base: u64, length: u64, kind: nat, attributes: u32)

  datatype Info = Info(physical: nat, mapped: nat, low: nat, heapLimit: nat)

  // --------------------------------------------------------------------------------------
  // The pointwise definition

  /** entry_is_enabled: short entries carry no attributes. */
  predicate Enabled(e: Entry, entrySize: nat) {
    e.length != 0 && (entrySize < 24 || e.attributes % 2 == 1)
  }

  predicate Covers(e: Entry, entrySize: nat, x: nat) {
    Enabled(e, entrySize) && e.base <= x < e.base + e.length
  }

  /** An address is usable memory if some usable range covers it and no other range does. */
  predicate Usable(es: seq<Entry>, entrySize: nat, x: nat) {
    && (exists i :: 0 <= i < |es| && es[i].kind == USABLE && Covers(es[i], entrySize, x))
    && (forall i :: 0 <= i < |es| && es[i].kind != USABLE ==> !Covers(es[i], entrySize, x))
  }

  /** How many addresses from `lo` up to `hi` are usable. */
  ghost function Count(es: seq<Entry>, entrySize: nat, lo: nat, hi: nat): nat
    decreases hi - lo
  {
    if lo >= hi then 0
    else (if Usable(es, entrySize, lo) then 1 else 0) + Count(es, entrySize, lo + 1, hi)
  }

  lemma {:induction false} CountIsCardinality(es: seq<Entry>, entrySize: nat, lo: nat, hi: nat)
    ensures Count(es, entrySize, lo, hi) == |set x: nat | lo <= x < hi && Usable(es, entrySize, x)|
    decreases hi - lo
  {
    hide Usable;
    var all := set x: nat | lo <= x < hi && Usable(es, entrySize, x);
    if lo < hi {
      CountIsCardinality(es, entrySize, lo + 1, hi);
      var rest := set x: nat | lo + 1 <= x < hi && Usable(es, entrySize, x);
      assert all == if Usable(es, entrySize, lo) then rest + {lo} else rest;
    } else {
      assert all == {};
    }
  }

  lemma {:induction false} CountSplit(es: seq<Entry>, entrySize: nat, lo: nat, mid: nat, hi: nat)
    requires lo <= mid <= hi
    ensures Count(es, entrySize, lo, hi) == Count(es, entrySize, lo, mid) + Count(es, entrySize, mid, hi)
    decreases mid - lo
  {
    hide Usable;
    if lo < mid { CountSplit(es, entrySize, lo + 1, mid, hi); }
  }

  /** A stretch that is all usable or all not. */
  lemma {:induction false} CountUniform(es: seq<Entry>, entrySize: nat, lo: nat, hi: nat, usable: bool)
    requires lo <= hi && forall x: nat :: lo <= x < hi ==> Usable(es, entrySize, x) == usable
    ensures Count(es, entrySize, lo, hi) == if usable then hi - lo else 0
    decreases hi - lo
  {
    hide Usable;
    if lo < hi { CountUniform(es, entrySize, lo + 1, hi, usable); }
  }

  lemma {:induction false} CountBound(es: seq<Entry>, entrySize: nat, lo: nat, hi: nat)
    requires lo <= hi
    ensures Count(es, entrySize, lo, hi) <= hi - lo
    decreases hi - lo
  {
    hide Usable;
    if lo < hi { CountBound(es, entrySize, lo + 1, hi); }
  }

  // --------------------------------------------------------------------------------------
  // Range ends

  /** range_end: saturating, so the last address of the space is never counted. */
  function RangeEnd(e: Entry): u64 {
    if e.length > U64_MAX - e.base then U64_MAX else e.base + e.length
  }

  /** Below the last address saturation changes nothing. */
  lemma SaturationIsHarmless(e: Entry, entrySize: nat, x: nat)
    requires x < U64_MAX
    ensures Covers(e, entrySize, x) <==> Enabled(e, entrySize) && e.base <= x < RangeEnd(e)
  {
  }

  predicate Listed(e: Entry, entrySize: nat) {
    Enabled(e, entrySize) && RangeEnd(e) > e.base
  }

  /** Every border of an enabled range is one of the points. */
  ghost predicate HasBorders(es: seq<Entry>, entrySize: nat, points: seq<u64>) {
    forall i :: 0 <= i < |es| && Listed(es[i], entrySize) ==> es[i].base in points && RangeEnd(es[i]) in points
  }

  ghost predicate Increasing(s: seq<u64>) {
    forall i, j :: 0 <= i < j < |s| ==> s[i] < s[j]
  }

  ghost predicate Sorted(s: seq<u64>) {
    forall i, j :: 0 <= i < j < |s| ==> s[i] <= s[j]
  }

  /** The overlap test of the sweep. */
  predicate Overlaps(e: Entry, entrySize: nat, start: nat, end: nat) {
    Enabled(e, entrySize) && e.base < end && RangeEnd(e) > start
  }

  /** Between two neighbouring points an entry covers all or nothing. */
  lemma CoversWholeGap(es: seq<Entry>, entrySize: nat, points: seq<u64>, k: nat, i: nat, x: nat)
    requires Increasing(points) && HasBorders(es, entrySize, points)
    requires k + 1 < |points| && i < |es| && points[k] <= x < points[k + 1]
    ensures Covers(es[i], entrySize, x) <==> Overlaps(es[i], entrySize, points[k], points[k + 1])
  {
    var e := es[i];
    SaturationIsHarmless(e, entrySize, x);
    if Listed(e, entrySize) {
      var a :| 0 <= a < |points| && points[a] == e.base;
      var b :| 0 <= b < |points| && points[b] == RangeEnd(e);
      assert a <= k || a >= k + 1;
      assert b <= k || b >= k + 1;
    }
  }

  predicate GapUsable(es: seq<Entry>, entrySize: nat, start: nat, end: nat) {
    && (exists i :: 0 <= i < |es| && es[i].kind == USABLE && Overlaps(es[i], entrySize, start, end))
    && (forall i :: 0 <= i < |es| && es[i].kind != USABLE ==> !Overlaps(es[i], entrySize, start, end))
  }

  lemma GapIsUniform(es: seq<Entry>, entrySize: nat, points: seq<u64>, k: nat)
    requires Increasing(points) && HasBorders(es, entrySize, points) && k + 1 < |points|
    ensures forall x: nat :: points[k] <= x < points[k + 1] ==>
              Usable(es, entrySize, x) == GapUsable(es, entrySize, points[k], points[k + 1])
  {
    hide Covers, Overlaps, Increasing, HasBorders;
    forall x: nat | points[k] <= x < points[k + 1]
      ensures Usable(es, entrySize, x) == GapUsable(es, entrySize, points[k], points[k + 1])
    {
      forall i: nat | i < |es|
        ensures Covers(es[i], entrySize, x) <==> Overlaps(es[i], entrySize, points[k], points[k + 1])
      {
        CoversWholeGap(es, entrySize, points, k, i, x);
      }
    }
  }

  /** Outside the points nothing is covered. */
  lemma NothingOutside(es: seq<Entry>, entrySize: nat, points: seq<u64>, x: nat)
    requires Increasing(points) && HasBorders(es, entrySize, points) && x < U64_MAX
    requires |points| == 0 || x < points[0] || points[|points| - 1] <= x
    ensures !Usable(es, entrySize, x)
  {
    hide Covers;
    forall i: nat | i < |es| ensures !Covers(es[i], entrySize, x) {
      SaturationIsHarmless(es[i], entrySize, x);
      if Listed(es[i], entrySize) {
        assert es[i].base in points && RangeEnd(es[i]) in points;
      }
    }
  }

  // --------------------------------------------------------------------------------------
  // Collecting, sorting and deduplicating the points

  ghost predicate AnyListed(es: seq<Entry>, entrySize: nat) {
    exists i :: 0 <= i < |es| && Listed(es[i], entrySize)
  }

  /** The first pass: both borders of every enabled range. */
  method Collect(es: seq<Entry>, entrySize: nat, a: array<u64>) returns (n: nat)
    requires |es| <= MAX_ENTRIES && a.Length == 2 * MAX_ENTRIES
    modifies a
    ensures n <= a.Length && HasBorders(es, entrySize, a[..n])
    ensures n < 2 <==> !AnyListed(es, entrySize)
  {
    hide Listed, RangeEnd, HasBorders, AnyListed;
    n := 0;
    NoBorders(es, entrySize);
    for i := 0 to |es|
      invariant n <= 2 * i && HasBorders(es[..i], entrySize, a[..n])
      invariant n < 2 <==> !AnyListed(es[..i], entrySize)
    {
      assert es[..i + 1] == es[..i] + [es[i]];
      ghost var before := a[..n];
      if Listed(es[i], entrySize) {
        a[n] := es[i].base;
        a[n + 1] := RangeEnd(es[i]);
        n := n + 2;
        assert a[..n] == before + [es[i].base, RangeEnd(es[i])];
      }
      BordersKept(es, entrySize, i, before, a[..n]);
    }
    assert es[..|es|] == es;
  }

  lemma NoBorders(es: seq<Entry>, entrySize: nat)
    ensures HasBorders(es[..0], entrySize, []) && !AnyListed(es[..0], entrySize)
  {
  }

  lemma BordersKept(es: seq<Entry>, entrySize: nat, i: nat, before: seq<u64>, after: seq<u64>)
    requires i < |es| && HasBorders(es[..i], entrySize, before)
    requires after == if Listed(es[i], entrySize) then before + [es[i].base, RangeEnd(es[i])] else before
    ensures HasBorders(es[..i + 1], entrySize, after)
    ensures AnyListed(es[..i + 1], entrySize) <==> AnyListed(es[..i], entrySize) || Listed(es[i], entrySize)
  {
    hide Listed, RangeEnd;
    var more := es[..i + 1];
    assert more[i] == es[i];
    forall k | 0 <= k < |more| && Listed(more[k], entrySize) ensures more[k].base in after && RangeEnd(more[k]) in after {
      if k < i {
        assert more[k] == es[..i][k];
      } else {
        assert after[|before|] == es[i].base && after[|before| + 1] == RangeEnd(es[i]);
      }
    }
    if k :| 0 <= k < |more| && Listed(more[k], entrySize) {
      assert k < i ==> more[k] == es[..i][k];
    }
    if k :| 0 <= k < i && Listed(es[..i][k], entrySize) {
      assert more[k] == es[..i][k];
    }
  }

  /** A value put in its place in a sorted list, after any equal ones. */
  function Inserted(s: seq<u64>, v: u64): (r: seq<u64>)
    ensures |r| == |s| + 1 && multiset(r) == multiset(s) + multiset{v}
  {
    if s == [] || s[|s| - 1] <= v then s + [v]
    else
      assert s == s[..|s| - 1] + [s[|s| - 1]];
      Inserted(s[..|s| - 1], v) + [s[|s| - 1]]
  }

  lemma {:induction false} InsertedSorted(s: seq<u64>, v: u64)
    requires Sorted(s)
    ensures Sorted(Inserted(s, v))
    ensures forall i :: 0 <= i < |s| + 1 ==> Inserted(s, v)[i] <= if s == [] || s[|s| - 1] <= v then v else s[|s| - 1]
  {
    if s != [] && s[|s| - 1] > v {
      InsertedSorted(s[..|s| - 1], v);
    }
  }

  lemma InsertedStep(s: seq<u64>, p: nat, i: nat, v: u64)
    requires 0 < p <= i <= |s|
    ensures s[p - 1] > v ==> Inserted(s[..p], v) + s[p..i] == Inserted(s[..p - 1], v) + s[p - 1..i]
    ensures s[p - 1] <= v ==> Inserted(s[..p], v) + s[p..i] == s[..p] + [v] + s[p..i]
  {
    var t := s[..p];
    assert t[..p - 1] == s[..p - 1];
    assert s[p - 1..i] == [s[p - 1]] + s[p..i];
  }

  /** The first `i` points in order. */
  function InOrder(s: seq<u64>, i: nat): (r: seq<u64>)
    requires i <= |s|
    ensures |r| == i
  {
    if i == 0 then [] else Inserted(InOrder(s, i - 1), s[i - 1])
  }

  lemma {:induction false} InOrderIsSorted(s: seq<u64>, i: nat)
    requires i <= |s|
    ensures Sorted(InOrder(s, i)) && multiset(InOrder(s, i)) == multiset(s[..i])
  {
    hide Inserted;
    if i > 0 {
      InOrderIsSorted(s, i - 1);
      InsertedSorted(InOrder(s, i - 1), s[i - 1]);
      assert s[..i] == s[..i - 1] + [s[i - 1]];
    }
  }

  lemma InOrderNext(s: seq<u64>, i: nat)
    requires i < |s|
    ensures var t := InOrder(s, i) + s[i..];
            && t[..i] == InOrder(s, i) && t[i] == s[i] && t[i + 1..] == s[i + 1..]
            && InOrder(s, i + 1) == Inserted(InOrder(s, i), s[i])
  {
  }

  lemma InOrderOne(s: seq<u64>)
    requires |s| > 0
    ensures InOrder(s, 1) + s[1..] == s
  {
    InsertedEmpty(s[0]);
  }

  /** Insertion sort of the first `n` points. */
  method Sort(a: array<u64>, n: nat)
    requires n <= a.Length
    modifies a
    ensures Sorted(a[..n]) && multiset(a[..n]) == old(multiset(a[..n]))
  {
    hide Inserted, InOrder, Sorted;
    ghost var was := a[..n];
    InOrderIsSorted(was, n);
    assert was[..n] == was;
    assert n == 0 ==> a[..n] == InOrder(was, n);
    if n == 0 { return; }
    InOrderOne(was);
    var i := 1;
    while i < n
      invariant i <= n && a[..n] == InOrder(was, i) + was[i..]
    {
      InOrderNext(was, i);
      assert a[..i] == a[..n][..i] && a[i] == a[..n][i] && a[i + 1..n] == a[..n][i + 1..];
      Insert(a, n, i);
      i := i + 1;
    }
    assert a[..n] == InOrder(was, n);
  }

  /** The points while the value at `i` is lifted out and the hole has moved down to `p`. */
  ghost function Hole(s: seq<u64>, p: nat, i: nat): (r: seq<u64>)
    requires p <= i < |s|
    ensures |r| == |s|
  {
    s[..p + 1] + s[p..i] + s[i + 1..]
  }

  lemma HoleAt(s: seq<u64>, p: nat, i: nat)
    requires p <= i < |s|
    ensures p == i ==> Hole(s, p, i) == s
    ensures p > 0 ==> Hole(s, p, i)[p - 1] == s[p - 1] && Hole(s, p, i)[p := s[p - 1]] == Hole(s, p - 1, i)
  {
  }

  lemma HoleFilled(s: seq<u64>, p: nat, i: nat)
    requires p <= i < |s|
    requires Inserted(s[..i], s[i]) == Inserted(s[..p], s[i]) + s[p..i]
    requires p > 0 ==> s[p - 1] <= s[i]
    ensures Hole(s, p, i)[p := s[i]] == Inserted(s[..i], s[i]) + s[i + 1..]
  {
    if p > 0 {
      InsertedStep(s, p, i, s[i]);
    } else {
      InsertedEmpty(s[i]);
    }
  }

  /** One value moved down to its place among the ones before it. */
  method Insert(a: array<u64>, n: nat, i: nat)
    requires 0 < i < n <= a.Length
    modifies a
    ensures a[..n] == Inserted(old(a[..i]), old(a[i])) + old(a[i + 1..n])
  {
    hide Inserted, Hole;
    ghost var was := a[..n];
    var value := a[i];
    var position := i;
    HoleAt(was, i, i);
    assert was[..i] == a[..i] && was[i + 1..] == a[i + 1..n];
    while position > 0 && a[position - 1] > value
      invariant position <= i && a[..n] == Hole(was, position, i)
      invariant Inserted(was[..i], value) == Inserted(was[..position], value) + was[position..i]
    {
      HoleAt(was, position, i);
      assert a[position - 1] == a[..n][position - 1];
      InsertedStep(was, position, i, value);
      a[position] := a[position - 1];
      assert a[..n] == Hole(was, position, i)[position := was[position - 1]];
      position := position - 1;
    }
    HoleAt(was, position, i);
    assert position > 0 ==> a[position - 1] == a[..n][position - 1];
    HoleFilled(was, position, i);
    a[position] := value;
    assert a[..n] == Hole(was, position, i)[position := value];
  }

  lemma InsertedEmpty(v: u64)
    ensures Inserted([], v) == [v]
  {
  }

  /** A sorted list without its repetitions. */
  function Deduped(s: seq<u64>): (r: seq<u64>)
    ensures |r| <= |s| && (s != [] ==> r != [] && r[|r| - 1] == s[|s| - 1])
  {
    if s == [] then []
    else
      var r := Deduped(s[..|s| - 1]);
      if r != [] && r[|r| - 1] == s[|s| - 1] then r else r + [s[|s| - 1]]
  }

  lemma {:induction false} DedupedElements(s: seq<u64>, v: u64)
    ensures v in Deduped(s) <==> v in s
  {
    if s != [] {
      var t, last := s[..|s| - 1], s[|s| - 1];
      DedupedElements(t, v);
      assert s == t + [last];
      assert v in s <==> v in t || v == last;
      var r := Deduped(t);
      if r != [] && r[|r| - 1] == last { assert last in r; }
    }
  }

  lemma {:induction false} DedupedIncreases(s: seq<u64>)
    requires Sorted(s)
    ensures Increasing(Deduped(s))
  {
    if s != [] {
      var t, last := s[..|s| - 1], s[|s| - 1];
      DedupedIncreases(t);
      var r := Deduped(t);
      if r != [] {
        assert r[|r| - 1] == t[|t| - 1] == s[|s| - 2] <= last;
      }
    }
  }

  lemma DedupedEmpty()
    ensures Deduped([]) == []
  {
  }

  lemma DedupedNext(s: seq<u64>, i: nat)
    requires i < |s|
    ensures var r := Deduped(s[..i]);
            Deduped(s[..i + 1]) == if r != [] && r[|r| - 1] == s[i] then r else r + [s[i]]
  {
    assert s[..i + 1][..i] == s[..i];
  }

  /** Repeated points dropped, in place. */
  method Dedupe(a: array<u64>, n: nat) returns (m: nat)
    requires n <= a.Length
    modifies a
    ensures m <= n && a[..m] == Deduped(old(a[..n]))
  {
    hide Deduped;
    ghost var was := a[..n];
    m := 0;
    assert Deduped(was[..0]) == [] by { DedupedEmpty(); }
    for i := 0 to n
      invariant m <= i && a[..m] == Deduped(was[..i])
      invariant a[i..n] == was[i..]
    {
      ghost var kept := a[..m];
      DedupedNext(was, i);
      assert a[i] == a[i..n][0] == was[i];
      assert a[i + 1..n] == a[i..n][1..] == was[i + 1..];
      assert m > 0 ==> a[m - 1] == kept[m - 1];
      if m == 0 || a[i] != a[m - 1] {
        a[m] := a[i];
        m := m + 1;
        assert a[..m] == kept + [was[i]];
      }
    }
    assert was[..n] == was;
  }

  // --------------------------------------------------------------------------------------
  // The sweep

  function Min(a: nat, b: nat): nat {
    if a < b then a else b
  }

  /** intersection_size with a range that starts at 0. */
  function Clipped(start: nat, end: nat, limit: nat): nat {
    if Min(end, limit) > start then Min(end, limit) - start else 0
  }

  /** saturating_add. */
  function SaturatingAdd(a: u64, b: u64): u64 {
    if b > U64_MAX - a then U64_MAX else a + b
  }

  /** One gap added to a clipped total. */
  lemma CountStep(es: seq<Entry>, entrySize: nat, start: nat, end: nat, limit: nat, usable: bool)
    requires start <= end && limit <= U64_MAX
    requires forall x: nat :: start <= x < end ==> Usable(es, entrySize, x) == usable
    ensures Count(es, entrySize, 0, Min(end, limit))
         == Count(es, entrySize, 0, Min(start, limit)) + if usable then Clipped(start, end, limit) else 0
    ensures Count(es, entrySize, 0, Min(end, limit)) <= U64_MAX
  {
    hide Usable, Count;
    CountSplit(es, entrySize, 0, Min(start, limit), Min(end, limit));
    CountUniform(es, entrySize, Min(start, limit), Min(end, limit), usable);
    CountBound(es, entrySize, 0, Min(end, limit));
  }

  /** Everything from `at` on is unusable, so the totals are complete. */
  lemma CountRest(es: seq<Entry>, entrySize: nat, at: nat, limit: nat)
    requires limit <= U64_MAX
    requires forall x: nat :: at <= x < U64_MAX ==> !Usable(es, entrySize, x)
    ensures Count(es, entrySize, 0, limit) == Count(es, entrySize, 0, Min(at, limit))
  {
    hide Usable, Count;
    CountSplit(es, entrySize, 0, Min(at, limit), limit);
    CountUniform(es, entrySize, Min(at, limit), limit, false);
  }

  lemma CountNone(es: seq<Entry>, entrySize: nat, at: nat, limit: nat)
    requires forall x: nat :: x < at ==> !Usable(es, entrySize, x)
    ensures Count(es, entrySize, 0, Min(at, limit)) == 0
  {
    hide Usable, Count;
    CountUniform(es, entrySize, 0, Min(at, limit), false);
  }

  /** The usable run from the heap base, as far as addresses below `at` are concerned. */
  ghost predicate RunTo(es: seq<Entry>, entrySize: nat, at: nat, found: bool, limit: nat) {
    if at <= HEAP_BASE then !found && limit == HEAP_BASE
    else if !found then limit == HEAP_BASE && !Usable(es, entrySize, HEAP_BASE)
    else
      && HEAP_BASE < limit <= MAPPED_LIMIT
      && (forall x: nat :: HEAP_BASE <= x < limit ==> Usable(es, entrySize, x))
      && (limit == MAPPED_LIMIT || limit == at || (limit < at && !Usable(es, entrySize, limit)))
  }

  lemma RunStep(es: seq<Entry>, entrySize: nat, start: nat, end: nat, usable: bool, found: bool, limit: nat)
    requires RunTo(es, entrySize, start, found, limit) && start < end
    requires forall x: nat :: start <= x < end ==> Usable(es, entrySize, x) == usable
    ensures var first := usable && !found && start <= HEAP_BASE && end > HEAP_BASE;
            var more := usable && found && start <= limit && end > limit && limit < MAPPED_LIMIT;
            RunTo(es, entrySize, end, found || first, if first || more then Min(end, MAPPED_LIMIT) else limit)
  {
    hide Usable;
  }

  /** heap_upper_limit: the end of the usable run from the heap base, or 0 if there is none. */
  ghost predicate HeapLimit(es: seq<Entry>, entrySize: nat, limit: nat) {
    if !Usable(es, entrySize, HEAP_BASE) then limit == 0
    else
      && HEAP_BASE < limit <= MAPPED_LIMIT
      && (forall x: nat :: HEAP_BASE <= x < limit ==> Usable(es, entrySize, x))
      && (limit == MAPPED_LIMIT || !Usable(es, entrySize, limit))
  }

  lemma RunDone(es: seq<Entry>, entrySize: nat, at: nat, found: bool, limit: nat)
    requires RunTo(es, entrySize, at, found, limit)
    requires forall x: nat :: at <= x < U64_MAX ==> !Usable(es, entrySize, x)
    ensures HeapLimit(es, entrySize, if found then limit else 0)
  {
    hide Usable;
  }

  /** What the summary must say about a map. */
  ghost predicate Summary(es: seq<Entry>, entrySize: nat, info: Info) {
    && info.physical == Count(es, entrySize, 0, U64_MAX)
    && info.mapped == Count(es, entrySize, 0, MAPPED_LIMIT)
    && info.low == Count(es, entrySize, 0, HEAP_BASE)
    && HeapLimit(es, entrySize, info.heapLimit)
  }

  /** The coverage flags of one gap. */
  method ClassifyGap(es: seq<Entry>, entrySize: nat, start: nat, end: nat) returns (usable: bool)
    ensures usable == GapUsable(es, entrySize, start, end)
  {
    hide Overlaps;
    var byUsable, byReserved := false, false;
    for i := 0 to |es|
      invariant byUsable <==> exists k :: 0 <= k < i && es[k].kind == USABLE && Overlaps(es[k], entrySize, start, end)
      invariant byReserved <==> exists k :: 0 <= k < i && es[k].kind != USABLE && Overlaps(es[k], entrySize, start, end)
    {
      if Overlaps(es[i], entrySize, start, end) {
        if es[i].kind == USABLE { byUsable := true; } else { byReserved := true; }
      }
    }
    return byUsable && !byReserved;
  }

  /** The sweep over the gaps: no addition saturates, and the totals are exact. */
  method Sweep(es: seq<Entry>, entrySize: nat, points: seq<u64>) returns (info: Info)
    requires Increasing(points) && HasBorders(es, entrySize, points) && |points| > 0
    ensures Summary(es, entrySize, info)
  {
    hide Usable, Count, GapUsable, RunTo, HeapLimit, HasBorders;
    var physical, mapped, low, found := 0, 0, 0, false;
    var limit: nat := HEAP_BASE;
    Before(es, entrySize, points);
    for k := 0 to |points| - 1
      invariant physical == Count(es, entrySize, 0, Min(points[k], U64_MAX)) && physical <= U64_MAX
      invariant mapped == Count(es, entrySize, 0, Min(points[k], MAPPED_LIMIT)) && mapped <= U64_MAX
      invariant low == Count(es, entrySize, 0, Min(points[k], HEAP_BASE)) && low <= U64_MAX
      invariant RunTo(es, entrySize, points[k], found, limit)
    {
      var start, end := points[k], points[k + 1];
      GapIsUniform(es, entrySize, points, k);
      var usable := ClassifyGap(es, entrySize, start, end);
      CountStep(es, entrySize, start, end, U64_MAX, usable);
      CountStep(es, entrySize, start, end, MAPPED_LIMIT, usable);
      CountStep(es, entrySize, start, end, HEAP_BASE, usable);
      RunStep(es, entrySize, start, end, usable, found, limit);
      if usable {
        physical := SaturatingAdd(physical, end - start);
        mapped := SaturatingAdd(mapped, Clipped(start, end, MAPPED_LIMIT));
        low := SaturatingAdd(low, Clipped(start, end, HEAP_BASE));
        if !found && start <= HEAP_BASE && end > HEAP_BASE {
          found, limit := true, Min(end, MAPPED_LIMIT);
        } else if found && start <= limit && end > limit && limit < MAPPED_LIMIT {
          limit := Min(end, MAPPED_LIMIT);
        }
      }
    }
    After(es, entrySize, points);
    var last := points[|points| - 1];
    CountRest(es, entrySize, last, U64_MAX);
    CountRest(es, entrySize, last, MAPPED_LIMIT);
    CountRest(es, entrySize, last, HEAP_BASE);
    RunDone(es, entrySize, last, found, limit);
    info := Info(physical, mapped, low, if found then limit else 0);
  }

  lemma Before(es: seq<Entry>, entrySize: nat, points: seq<u64>)
    requires Increasing(points) && HasBorders(es, entrySize, points) && |points| > 0
    ensures Count(es, entrySize, 0, Min(points[0], U64_MAX)) == 0
    ensures Count(es, entrySize, 0, Min(points[0], MAPPED_LIMIT)) == 0
    ensures Count(es, entrySize, 0, Min(points[0], HEAP_BASE)) == 0
    ensures RunTo(es, entrySize, points[0], false, HEAP_BASE)
  {
    hide Usable, Count, HasBorders, Increasing;
    forall x: nat | x < points[0] ensures !Usable(es, entrySize, x) {
      NothingOutside(es, entrySize, points, x);
    }
    CountNone(es, entrySize, points[0], U64_MAX);
    CountNone(es, entrySize, points[0], MAPPED_LIMIT);
    CountNone(es, entrySize, points[0], HEAP_BASE);
  }

  lemma After(es: seq<Entry>, entrySize: nat, points: seq<u64>)
    requires Increasing(points) && HasBorders(es, entrySize, points) && |points| > 0
    ensures forall x: nat :: points[|points| - 1] <= x < U64_MAX ==> !Usable(es, entrySize, x)
  {
    hide Usable, HasBorders, Increasing;
    forall x: nat | points[|points| - 1] <= x < U64_MAX ensures !Usable(es, entrySize, x) {
      NothingOutside(es, entrySize, points, x);
    }
  }

  /** Where and how the loader left the map. */
  predicate MapOk(address: nat, entrySize: nat, count: nat) {
    && 0 < count <= MAX_ENTRIES && 20 <= entrySize <= 64 && 0x1000 <= address < 0x100000
    && count * entrySize <= 0x100000 - address
  }

  const NO_INFO := Info(0, 0, 0, 0)

  /** memtest_detect_memory: the pointwise totals of any map, however ordered or overlapping. */
  method DetectMemory(address: nat, entrySize: nat, es: seq<Entry>) returns (ok: bool, info: Info)
    ensures MapOk(address, entrySize, |es|) ==> Summary(es, entrySize, info)
    ensures !MapOk(address, entrySize, |es|) ==> info == NO_INFO
    ensures ok <==> MapOk(address, entrySize, |es|) && Count(es, entrySize, 0, U64_MAX) > 0
  {
    hide Usable, Count, HeapLimit, HasBorders, AnyListed, Increasing;
    if !MapOk(address, entrySize, |es|) { return false, NO_INFO; }
    var a := new u64[2 * MAX_ENTRIES];
    var n := Collect(es, entrySize, a);
    if n < 2 {
      NoneListed(es, entrySize);
      return false, NO_INFO;
    }
    ghost var collected := a[..n];
    Sort(a, n);
    SameElements(collected, a[..n]);
    ghost var sorted := a[..n];
    DedupedIncreases(sorted);
    var m := Dedupe(a, n);
    BordersMove(es, entrySize, collected, sorted, a[..m]);
    info := Sweep(es, entrySize, a[..m]);
    ok := info.physical != 0;
  }

  lemma SameElements(a: seq<u64>, b: seq<u64>)
    requires multiset(a) == multiset(b)
    ensures forall v :: v in a <==> v in b
  {
    forall v ensures v in a <==> v in b {
      assert v in a <==> v in multiset(a);
      assert v in b <==> v in multiset(b);
    }
  }

  lemma BordersMove(es: seq<Entry>, entrySize: nat, a: seq<u64>, b: seq<u64>, c: seq<u64>)
    requires HasBorders(es, entrySize, a) && (forall v :: v in a <==> v in b) && c == Deduped(b)
    ensures HasBorders(es, entrySize, c)
  {
    hide Deduped;
    forall v: u64 ensures v in c <==> v in b {
      DedupedElements(b, v);
    }
  }

  lemma NoneListed(es: seq<Entry>, entrySize: nat)
    requires !AnyListed(es, entrySize)
    ensures Count(es, entrySize, 0, U64_MAX) == 0
    ensures Summary(es, entrySize, NO_INFO)
  {
    hide Usable, Count;
    assert HasBorders(es, entrySize, []);
    forall x: nat | x < U64_MAX ensures !Usable(es, entrySize, x) {
      NothingOutside(es, entrySize, [], x);
    }
    CountUniform(es, entrySize, 0, U64_MAX, false);
    CountUniform(es, entrySize, 0, MAPPED_LIMIT, false);
    CountUniform(es, entrySize, 0, HEAP_BASE, false);
  }
}
