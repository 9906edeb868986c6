/** kernel/heap.c: the first-fit kernel heap, a singly linked list of headers inside the region. */
module Heap {
  import opened Bytes

  /** sizeof(struct heap_block): 8 + 1 (+7) + 8 + 15 bytes, rounded up to the 16-byte alignment. */
  const HEADER: nat := 48
  const SIZE_MAX: nat := U64_MAX

  /** A block of the list: its header's address, its payload size, and whether it is free. */
  datatype Block = Block(addr: nat, size: nat, free: bool) {
    function End(): nat { addr + HEADER + size }
    function Payload(): nat { addr + HEADER }
  }

  /** A header as it lies in memory; `next` is 0 at the end of the list. */
  datatype Header = Header(size: nat, free: bool, next: nat)

  // --------------------------------------------------------------------------------------
  // Block lists

  /** The blocks follow one another without gap or overlap from `start` to `end`. */
  ghost predicate Tiled(bs: seq<Block>, start: nat, end: nat) {
    && |bs| > 0 && bs[0].addr == start && bs[|bs| - 1].End() == end
    && (forall i :: 0 <= i < |bs| - 1 ==> bs[i].End() == bs[i + 1].addr)
    && (forall i :: 0 <= i < |bs| ==> bs[i].addr % 16 == 0)
  }

  /** No two neighbours are both free. */
  ghost predicate Coalesced(bs: seq<Block>) {
    forall i :: 0 <= i < |bs| - 1 ==> !(bs[i].free && bs[i + 1].free)
  }

  /** The allocations: the blocks in use. */
  ghost function Live(bs: seq<Block>): set<Block> {
    set i | 0 <= i < |bs| && !bs[i].free :: bs[i]
  }

  function SumUsed(bs: seq<Block>): nat {
    if bs == [] then 0 else (if bs[0].free then 0 else bs[0].size) + SumUsed(bs[1..])
  }

  lemma {:induction false} SumConcat(a: seq<Block>, b: seq<Block>)
    ensures SumUsed(a + b) == SumUsed(a) + SumUsed(b)
  {
    if a == [] {
      assert a + b == b;
    } else {
      assert (a + b)[1..] == a[1..] + b;
      SumConcat(a[1..], b);
    }
  }

  lemma SumAround(bs: seq<Block>, k: nat, n: nat, mid: seq<Block>)
    requires k + n <= |bs|
    ensures SumUsed(bs[..k] + mid + bs[k + n..]) + SumUsed(bs[k..k + n]) == SumUsed(bs) + SumUsed(mid)
  {
    assert bs == bs[..k] + bs[k..k + n] + bs[k + n..];
    SumConcat(bs[..k], bs[k..k + n]);
    SumConcat(bs[..k] + bs[k..k + n], bs[k + n..]);
    SumConcat(bs[..k], mid);
    SumConcat(bs[..k] + mid, bs[k + n..]);
  }

  /** Blocks are in address order, header and payload apart from every other's. */
  lemma {:induction false} Ordered(bs: seq<Block>, start: nat, end: nat, i: nat, j: nat)
    requires Tiled(bs, start, end) && i <= j < |bs|
    ensures i < j ==> bs[i].End() <= bs[j].addr
    ensures start <= bs[i].addr <= bs[j].addr && bs[j].End() <= end
    decreases j - i
  {
    if i < j {
      Ordered(bs, start, end, i, j - 1);
    } else {
      Inside(bs, start, end, i);
    }
    Inside(bs, start, end, j);
  }

  lemma {:induction false} Inside(bs: seq<Block>, start: nat, end: nat, i: nat)
    requires Tiled(bs, start, end) && i < |bs|
    ensures start <= bs[i].addr && bs[i].End() <= end
  {
    AfterStart(bs, start, end, i);
    BeforeEnd(bs, start, end, i);
  }

  lemma {:induction false} AfterStart(bs: seq<Block>, start: nat, end: nat, i: nat)
    requires Tiled(bs, start, end) && i < |bs|
    ensures start <= bs[i].addr
  {
    if i > 0 {
      AfterStart(bs, start, end, i - 1);
      assert bs[i - 1].End() == bs[i - 1 + 1].addr;
    }
  }

  lemma {:induction false} BeforeEnd(bs: seq<Block>, start: nat, end: nat, i: nat)
    requires Tiled(bs, start, end) && i < |bs|
    ensures bs[i].End() <= end
    decreases |bs| - i
  {
    if i + 1 < |bs| {
      BeforeEnd(bs, start, end, i + 1);
    }
  }

  /** Where a block starts determines which block it is. */
  lemma SameAddress(bs: seq<Block>, start: nat, end: nat, i: nat, j: nat)
    requires Tiled(bs, start, end) && i < |bs| && j < |bs| && bs[i].addr == bs[j].addr
    ensures i == j
  {
    if i < j { Ordered(bs, start, end, i, j); }
    if j < i { Ordered(bs, start, end, j, i); }
  }

  lemma DistinctAddresses(bs: seq<Block>, start: nat, end: nat, i: nat, j: nat)
    requires Tiled(bs, start, end) && i < |bs| && j < |bs|
    ensures i != j ==> bs[i].addr != bs[j].addr
  {
    if i != j && bs[i].addr == bs[j].addr { SameAddress(bs, start, end, i, j); }
  }

  /** Live allocations: aligned, inside the heap, and disjoint. */
  lemma LiveAreDisjoint(bs: seq<Block>, start: nat, end: nat, a: Block, b: Block)
    requires Tiled(bs, start, end) && a in Live(bs) && b in Live(bs)
    ensures a.Payload() % 16 == 0 && start + HEADER <= a.Payload() && a.Payload() + a.size <= end
    ensures a != b ==> a.Payload() != b.Payload() && (a.End() <= b.addr || b.End() <= a.addr)
  {
    var i :| 0 <= i < |bs| && bs[i] == a;
    var j :| 0 <= j < |bs| && bs[j] == b;
    Inside(bs, start, end, i);
    if i < j { Ordered(bs, start, end, i, j); }
    if j < i { Ordered(bs, start, end, j, i); }
  }

  // --------------------------------------------------------------------------------------
  // The list is determined by the allocations

  lemma TailIsTiled(bs: seq<Block>, start: nat, end: nat)
    requires Tiled(bs, start, end) && |bs| > 1
    ensures Tiled(bs[1..], bs[0].End(), end)
  {
    var t := bs[1..];
    forall i | 0 <= i < |t| - 1 ensures t[i].End() == t[i + 1].addr {
      assert bs[i + 1].End() == bs[i + 1 + 1].addr;
    }
  }

  lemma TailTiled(bs: seq<Block>, start: nat, end: nat)
    requires Tiled(bs, start, end) && Coalesced(bs) && |bs| > 1
    ensures Tiled(bs[1..], bs[0].End(), end) && Coalesced(bs[1..])
    ensures Live(bs[1..]) == Live(bs) - {bs[0]}
  {
    var t := bs[1..];
    TailIsTiled(bs, start, end);
    forall i | 0 <= i < |t| - 1 ensures !(t[i].free && t[i + 1].free) {
      assert !(bs[i + 1].free && bs[i + 1 + 1].free);
    }
    forall b ensures b in Live(t) <==> b in Live(bs) && b != bs[0] {
      if b in Live(t) {
        var i :| 0 <= i < |t| && t[i] == b;
        assert bs[i + 1] == b;
        Ordered(bs, start, end, 0, i + 1);
      }
      if b in Live(bs) && b != bs[0] {
        var i :| 0 <= i < |bs| && bs[i] == b;
        assert t[i - 1] == b;
      }
    }
  }

  /** A free first block ends no later than the other list's first block. */
  lemma FreeFits(a: seq<Block>, b: seq<Block>, start: nat, end: nat)
    requires Tiled(a, start, end) && Coalesced(a) && Tiled(b, start, end)
    requires Live(a) == Live(b) && a[0].free
    ensures a[0].size >= b[0].size
  {
    if a[0].size < b[0].size {
      Inside(b, start, end, 0);
      assert |a| > 1;
      assert a[0].End() == a[1].addr && !a[1].free;
      assert a[1] in Live(b);
      var j :| 0 <= j < |b| && b[j] == a[1];
      if j > 0 { Ordered(b, start, end, 0, j); }
      assert false;
    }
  }

  lemma FirstAgrees(a: seq<Block>, b: seq<Block>, start: nat, end: nat)
    requires Tiled(a, start, end) && Coalesced(a) && Tiled(b, start, end) && Coalesced(b)
    requires Live(a) == Live(b)
    ensures a[0] == b[0]
  {
    if !a[0].free {
      FirstLive(a, b, start, end);
    } else if !b[0].free {
      FirstLive(b, a, start, end);
    } else {
      FreeFits(a, b, start, end);
      FreeFits(b, a, start, end);
    }
  }

  lemma FirstLive(a: seq<Block>, b: seq<Block>, start: nat, end: nat)
    requires Tiled(a, start, end) && Tiled(b, start, end) && Live(a) == Live(b) && !a[0].free
    ensures a[0] == b[0]
  {
    assert a[0] in Live(b);
    var j :| 0 <= j < |b| && b[j] == a[0];
    SameAddress(b, start, end, 0, j);
  }

  /** Whatever calls led to it, a heap is its allocations: two lists over one region with the
      same blocks in use are the same list. */
  lemma {:induction false} Canonical(a: seq<Block>, b: seq<Block>, start: nat, end: nat)
    requires Tiled(a, start, end) && Coalesced(a) && Tiled(b, start, end) && Coalesced(b)
    requires Live(a) == Live(b)
    ensures a == b
    decreases |a|
  {
    FirstAgrees(a, b, start, end);
    if |a| == 1 {
      if |b| > 1 {
        Ordered(b, start, end, 0, 1);
      }
      assert |b| == 1;
    } else {
      if |b| == 1 {
        Ordered(a, start, end, 0, 1);
      }
      assert |b| > 1;
      TailTiled(a, start, end);
      TailTiled(b, start, end);
      Canonical(a[1..], b[1..], a[0].End(), end);
      assert a == [a[0]] + a[1..] && b == [b[0]] + b[1..];
    }
  }

  function Fresh(start: nat, end: nat): seq<Block>
    requires start + HEADER <= end
  {
    [Block(start, end - start - HEADER, true)]
  }

  /** A heap with nothing allocated is the heap as it was initialised. */
  lemma AllFreedIsFresh(bs: seq<Block>, start: nat, end: nat)
    requires Tiled(bs, start, end) && Coalesced(bs) && Live(bs) == {}
    ensures start + HEADER <= end && bs == Fresh(start, end)
  {
    Inside(bs, start, end, 0);
    Canonical(bs, Fresh(start, end), start, end);
  }

  // --------------------------------------------------------------------------------------
  // Room for an allocation

  /** There is a stretch of the region that no allocation touches and that holds a header and
      `n` bytes. */
  ghost predicate Room(bs: seq<Block>, start: nat, end: nat, n: nat) {
    exists at: nat :: Vacant(bs, start, end, at, n)
  }

  ghost predicate Vacant(bs: seq<Block>, start: nat, end: nat, at: nat, n: nat) {
    start <= at && at + HEADER + n <= end
    && forall b :: b in Live(bs) ==> b.End() <= at || at + HEADER + n <= b.addr
  }

  predicate Fits(b: Block, n: nat) {
    b.free && b.size >= n
  }

  /** The block that covers an address of the region. */
  lemma {:induction false} Covering(bs: seq<Block>, start: nat, end: nat, at: nat, k: nat) returns (i: nat)
    requires Tiled(bs, start, end) && at < end && k < |bs| && bs[k].addr <= at
    ensures i < |bs| && bs[i].addr <= at < bs[i].End()
    decreases |bs| - k
  {
    if at < bs[k].End() { return k; }
    assert k + 1 < |bs|;
    i := Covering(bs, start, end, at, k + 1);
  }

  lemma LiveAt(bs: seq<Block>, i: nat)
    requires i < |bs|
    ensures !bs[i].free ==> bs[i] in Live(bs)
  {
  }

  /** First fit misses nothing: some block fits exactly when there is room at all. */
  lemma FitIffRoom(bs: seq<Block>, start: nat, end: nat, n: nat)
    requires Tiled(bs, start, end) && Coalesced(bs)
    ensures Room(bs, start, end, n) <==> exists i :: 0 <= i < |bs| && Fits(bs[i], n)
  {
    if Room(bs, start, end, n) {
      var at: nat :| Vacant(bs, start, end, at, n);
      var i := Covering(bs, start, end, at, 0);
      LiveAt(bs, i);
      if i + 1 < |bs| {
        assert bs[i + 1] in Live(bs);
      }
      assert Fits(bs[i], n);
    }
    if i :| 0 <= i < |bs| && Fits(bs[i], n) {
      Inside(bs, start, end, i);
      forall b | b in Live(bs) ensures b.End() <= bs[i].addr || bs[i].addr + HEADER + n <= b.addr {
        var j :| 0 <= j < |bs| && bs[j] == b;
        if i < j { Ordered(bs, start, end, i, j); }
        if j < i { Ordered(bs, start, end, j, i); }
      }
      assert Vacant(bs, start, end, bs[i].addr, n);
    }
  }

  // --------------------------------------------------------------------------------------
  // What one step does to the list

  ghost function HeaderOf(bs: seq<Block>, i: nat): Header
    requires i < |bs|
  {
    Header(bs[i].size, bs[i].free, if i + 1 < |bs| then bs[i + 1].addr else 0)
  }

  /** The headers in memory chain exactly these blocks. */
  ghost predicate Chained(mem: map<nat, Header>, bs: seq<Block>) {
    forall i :: 0 <= i < |bs| ==> bs[i].addr in mem && mem[bs[i].addr] == HeaderOf(bs, i)
  }

  /** Block `k` cut after `n` bytes and taken. */
  function Split(bs: seq<Block>, k: nat, n: nat): seq<Block>
    requires k < |bs| && bs[k].size >= n + HEADER
  {
    bs[..k] + [Block(bs[k].addr, n, false), Block(bs[k].addr + HEADER + n, bs[k].size - n - HEADER, true)] + bs[k + 1..]
  }

  function Mark(bs: seq<Block>, k: nat, free: bool): seq<Block>
    requires k < |bs|
  {
    bs[..k] + [bs[k].(free := free)] + bs[k + 1..]
  }

  /** Block `k` swallows its successor. */
  function Merge(bs: seq<Block>, k: nat): seq<Block>
    requires k + 1 < |bs|
  {
    bs[..k] + [Block(bs[k].addr, bs[k].size + HEADER + bs[k + 1].size, bs[k].free)] + bs[k + 2..]
  }

  lemma SplitAt(bs: seq<Block>, k: nat, n: nat, i: nat)
    requires k < |bs| && bs[k].size >= n + HEADER && i <= |bs|
    ensures |Split(bs, k, n)| == |bs| + 1
    ensures Split(bs, k, n)[i] == if i < k then bs[i]
                                  else if i == k then Block(bs[k].addr, n, false)
                                  else if i == k + 1 then Block(bs[k].addr + HEADER + n, bs[k].size - n - HEADER, true)
                                  else bs[i - 1]
  {
  }

  lemma SplitTiled(bs: seq<Block>, k: nat, n: nat, start: nat, end: nat)
    requires Tiled(bs, start, end) && k < |bs| && bs[k].size >= n + HEADER && n % 16 == 0
    ensures Tiled(Split(bs, k, n), start, end)
  {
    hide Split;
    var t := Split(bs, k, n);
    SplitAt(bs, k, n, 0);
    SplitAt(bs, k, n, |bs|);
    forall i | 0 <= i < |t| - 1 ensures t[i].End() == t[i + 1].addr {
      SplitAt(bs, k, n, i);
      SplitAt(bs, k, n, i + 1);
      if i < k { assert bs[i].End() == bs[i + 1].addr; }
      if i > k { assert i - 1 < |bs| - 1 ==> bs[i - 1].End() == bs[i - 1 + 1].addr; }
    }
    forall i | 0 <= i < |t| ensures t[i].addr % 16 == 0 {
      SplitAt(bs, k, n, i);
    }
  }

  lemma SplitCoalesced(bs: seq<Block>, k: nat, n: nat)
    requires Coalesced(bs) && k < |bs| && bs[k].free && bs[k].size >= n + HEADER
    ensures Coalesced(Split(bs, k, n))
  {
    var t := Split(bs, k, n);
    forall i | 0 <= i < |t| - 1 ensures !(t[i].free && t[i + 1].free) {
      if i < k { assert !(bs[i].free && bs[i + 1].free); }
      if i > k { assert !(bs[i - 1].free && bs[i - 1 + 1].free); }
    }
  }

  lemma SplitLive(bs: seq<Block>, k: nat, n: nat)
    requires k < |bs| && bs[k].free && bs[k].size >= n + HEADER
    ensures Live(Split(bs, k, n)) == Live(bs) + {Block(bs[k].addr, n, false)}
  {
    var t, taken := Split(bs, k, n), Block(bs[k].addr, n, false);
    assert t[k] == taken && t[k + 1].free;
    forall b ensures b in Live(t) <==> b in Live(bs) || b == taken {
      if b in Live(t) {
        var i :| 0 <= i < |t| && t[i] == b;
        assert i != k ==> b == bs[if i < k then i else i - 1];
      }
      if b in Live(bs) {
        var i :| 0 <= i < |bs| && bs[i] == b;
        assert t[if i < k then i else i + 1] == b;
      }
    }
  }

  lemma SplitSum(bs: seq<Block>, k: nat, n: nat)
    requires k < |bs| && bs[k].free && bs[k].size >= n + HEADER
    ensures SumUsed(Split(bs, k, n)) == SumUsed(bs) + n
  {
    var taken, rest := Block(bs[k].addr, n, false), Block(bs[k].addr + HEADER + n, bs[k].size - n - HEADER, true);
    SumAround(bs, k, 1, [taken, rest]);
    SumOne(bs, k);
    SumTwo(taken, rest);
  }

  lemma SumTwo(a: Block, b: Block)
    ensures SumUsed([a, b]) == (if a.free then 0 else a.size) + if b.free then 0 else b.size
  {
    assert [a, b][1..] == [b];
    assert SumUsed([b]) == if b.free then 0 else b.size;
  }

  lemma SumOne(bs: seq<Block>, k: nat)
    requires k < |bs|
    ensures SumUsed(bs[k..k + 1]) == if bs[k].free then 0 else bs[k].size
  {
    assert bs[k..k + 1] == [bs[k]];
  }

  lemma SplitChained(mem: map<nat, Header>, bs: seq<Block>, k: nat, n: nat, start: nat, end: nat)
    requires Tiled(bs, start, end) && Chained(mem, bs)
    requires k < |bs| && bs[k].size >= n + HEADER && n % 16 == 0
    ensures var at := bs[k].addr + HEADER + n;
            Chained(mem[at := Header(bs[k].size - n - HEADER, true, mem[bs[k].addr].next)][bs[k].addr := Header(n, false, at)],
                    Split(bs, k, n))
  {
    hide Tiled;
    var t := Split(bs, k, n);
    SplitTiled(bs, k, n, start, end);
    assert t[k].addr == bs[k].addr && t[k + 1].addr == bs[k].addr + HEADER + n;
    forall i | 0 <= i < |t| && i != k && i != k + 1
      ensures t[i].addr != t[k].addr && t[i].addr != t[k + 1].addr
    {
      if t[i].addr == t[k].addr { SameAddress(t, start, end, i, k); }
      if t[i].addr == t[k + 1].addr { SameAddress(t, start, end, i, k + 1); }
    }
    assert t[k].addr != t[k + 1].addr;
    forall i | 0 <= i < |t|
      ensures var at := bs[k].addr + HEADER + n;
              var m := mem[at := Header(bs[k].size - n - HEADER, true, mem[bs[k].addr].next)][bs[k].addr := Header(n, false, at)];
              t[i].addr in m && m[t[i].addr] == HeaderOf(t, i)
    {
      if i < k { assert t[i] == bs[i] && HeaderOf(bs, i) == HeaderOf(t, i); }
      if i > k + 1 { assert t[i] == bs[i - 1] && HeaderOf(bs, i - 1) == HeaderOf(t, i); }
    }
  }

  lemma MarkTiled(bs: seq<Block>, k: nat, free: bool, start: nat, end: nat)
    requires Tiled(bs, start, end) && k < |bs|
    ensures Tiled(Mark(bs, k, free), start, end)
  {
    var t := Mark(bs, k, free);
    forall i | 0 <= i < |t| - 1 ensures t[i].End() == t[i + 1].addr {
      assert bs[i].End() == bs[i + 1].addr;
    }
  }

  lemma MarkCoalesced(bs: seq<Block>, k: nat)
    requires Coalesced(bs) && k < |bs|
    ensures Coalesced(Mark(bs, k, false))
  {
    var t := Mark(bs, k, false);
    forall i | 0 <= i < |t| - 1 ensures !(t[i].free && t[i + 1].free) {
      assert !(bs[i].free && bs[i + 1].free);
    }
  }

  lemma MarkChained(mem: map<nat, Header>, bs: seq<Block>, k: nat, free: bool, start: nat, end: nat)
    requires Tiled(bs, start, end) && Chained(mem, bs) && k < |bs|
    ensures Chained(mem[bs[k].addr := mem[bs[k].addr].(free := free)], Mark(bs, k, free))
  {
    hide Tiled;
    var t := Mark(bs, k, free);
    forall i | 0 <= i < |t| && i != k ensures t[i] == bs[i] && t[i].addr != bs[k].addr && HeaderOf(bs, i) == HeaderOf(t, i) {
      if bs[i].addr == bs[k].addr { SameAddress(bs, start, end, i, k); }
    }
  }

  lemma MarkSum(bs: seq<Block>, k: nat, free: bool)
    requires k < |bs| && bs[k].free != free
    ensures SumUsed(Mark(bs, k, free)) == if free then SumUsed(bs) - bs[k].size else SumUsed(bs) + bs[k].size
  {
    var marked := bs[k].(free := free);
    SumAround(bs, k, 1, [marked]);
    SumOne(bs, k);
    SumOne([marked], 0);
    assert [marked][0..1] == [marked];
  }

  lemma MarkAt(bs: seq<Block>, k: nat, free: bool, i: nat)
    requires k < |bs| && i < |bs|
    ensures |Mark(bs, k, free)| == |bs|
    ensures Mark(bs, k, free)[i] == if i == k then bs[k].(free := free) else bs[i]
  {
  }

  /** Taking a free block whole. */
  lemma TakeLive(bs: seq<Block>, k: nat)
    requires k < |bs| && bs[k].free
    ensures Live(Mark(bs, k, false)) == Live(bs) + {bs[k].(free := false)}
  {
    hide Mark;
    var t, taken := Mark(bs, k, false), bs[k].(free := false);
    MarkAt(bs, k, false, k);
    forall b ensures b in Live(t) <==> b in Live(bs) || b == taken {
      if b in Live(t) {
        var i: nat :| i < |t| && t[i] == b;
        MarkAt(bs, k, false, i);
      }
      if b in Live(bs) {
        var i: nat :| i < |bs| && bs[i] == b;
        MarkAt(bs, k, false, i);
      }
    }
  }

  /** Releasing a block in use. */
  lemma ReleaseLive(bs: seq<Block>, k: nat, start: nat, end: nat)
    requires Tiled(bs, start, end) && k < |bs| && !bs[k].free
    ensures Live(Mark(bs, k, true)) == Live(bs) - {bs[k]}
  {
    hide Mark, Tiled;
    var t := Mark(bs, k, true);
    MarkAt(bs, k, true, k);
    forall b ensures b in Live(t) <==> b in Live(bs) && b != bs[k] {
      if b in Live(t) {
        var i: nat :| i < |t| && t[i] == b;
        MarkAt(bs, k, true, i);
        DistinctAddresses(bs, start, end, i, k);
      }
      if b in Live(bs) {
        var i: nat :| i < |bs| && bs[i] == b;
        MarkAt(bs, k, true, i);
      }
    }
  }

  lemma MergeTiled(bs: seq<Block>, k: nat, start: nat, end: nat)
    requires Tiled(bs, start, end) && k + 1 < |bs|
    ensures Tiled(Merge(bs, k), start, end)
  {
    var t := Merge(bs, k);
    forall i | 0 <= i < |t| - 1 ensures t[i].End() == t[i + 1].addr {
      if i < k { assert bs[i].End() == bs[i + 1].addr; }
      if i >= k { assert bs[i + 1].End() == bs[i + 1 + 1].addr && bs[k].End() == bs[k + 1].addr; }
    }
  }

  lemma MergeLive(bs: seq<Block>, k: nat)
    requires k + 1 < |bs| && bs[k].free && bs[k + 1].free
    ensures Live(Merge(bs, k)) == Live(bs)
  {
    var t := Merge(bs, k);
    assert t[k].free;
    forall b ensures b in Live(t) <==> b in Live(bs) {
      if b in Live(t) {
        var i :| 0 <= i < |t| && t[i] == b;
        assert b == bs[if i < k then i else i + 1];
      }
      if b in Live(bs) {
        var i :| 0 <= i < |bs| && bs[i] == b;
        assert t[if i < k then i else i - 1] == b;
      }
    }
  }

  lemma MergeSum(bs: seq<Block>, k: nat)
    requires k + 1 < |bs| && bs[k].free && bs[k + 1].free
    ensures SumUsed(Merge(bs, k)) == SumUsed(bs)
  {
    var merged := Block(bs[k].addr, bs[k].size + HEADER + bs[k + 1].size, bs[k].free);
    SumAround(bs, k, 2, [merged]);
    assert bs[k..k + 2] == [bs[k], bs[k + 1]];
    SumTwo(bs[k], bs[k + 1]);
  }

  lemma MergeChained(mem: map<nat, Header>, bs: seq<Block>, k: nat, start: nat, end: nat)
    requires Tiled(bs, start, end) && Chained(mem, bs) && k + 1 < |bs|
    ensures Chained(mem[bs[k].addr := Header(bs[k].size + HEADER + bs[k + 1].size, bs[k].free, mem[bs[k + 1].addr].next)],
                    Merge(bs, k))
  {
    hide Tiled;
    var t := Merge(bs, k);
    forall i | 0 <= i < |t| && i != k
      ensures var j := if i < k then i else i + 1;
              t[i] == bs[j] && bs[j].addr != bs[k].addr && HeaderOf(bs, j) == HeaderOf(t, i)
    {
      var j := if i < k then i else i + 1;
      if bs[j].addr == bs[k].addr { SameAddress(bs, start, end, j, k); }
    }
  }

  // --------------------------------------------------------------------------------------
  // The allocator

  /** A list over a region, its headers in memory and its accounting. */
  ghost predicate Sound(mem: map<nat, Header>, bs: seq<Block>, start: nat, end: nat, used: nat) {
    && Tiled(bs, start, end) && Chained(mem, bs)
    && used == SumUsed(bs) && 0 < start && end <= U64_MAX
    && (forall b :: b in Live(bs) ==> b.size > 0)
  }

  lemma SoundSplit(mem: map<nat, Header>, bs: seq<Block>, start: nat, end: nat, used: nat, k: nat, n: nat)
    requires Sound(mem, bs, start, end, used) && Coalesced(bs)
    requires k < |bs| && bs[k].free && bs[k].size >= n + HEADER && n % 16 == 0 && n > 0
    ensures var at := bs[k].addr + HEADER + n;
            Sound(mem[at := Header(bs[k].size - n - HEADER, true, mem[bs[k].addr].next)][bs[k].addr := Header(n, false, at)],
                  Split(bs, k, n), start, end, used + n)
    ensures Coalesced(Split(bs, k, n))
  {
    hide Tiled, Chained, Coalesced, Split, Live;
    SplitTiled(bs, k, n, start, end);
    SplitCoalesced(bs, k, n);
    SplitLive(bs, k, n);
    SplitSum(bs, k, n);
    SplitChained(mem, bs, k, n, start, end);
  }

  lemma SoundTake(mem: map<nat, Header>, bs: seq<Block>, start: nat, end: nat, used: nat, k: nat)
    requires Sound(mem, bs, start, end, used) && Coalesced(bs)
    requires k < |bs| && bs[k].free && bs[k].size > 0
    ensures Sound(mem[bs[k].addr := mem[bs[k].addr].(free := false)], Mark(bs, k, false), start, end, used + bs[k].size)
    ensures Coalesced(Mark(bs, k, false))
  {
    hide Tiled, Coalesced, Mark, Live;
    MarkTiled(bs, k, false, start, end);
    MarkCoalesced(bs, k);
    TakeLive(bs, k);
    MarkSum(bs, k, false);
    MarkChained(mem, bs, k, false, start, end);
  }

  lemma SoundRelease(mem: map<nat, Header>, bs: seq<Block>, start: nat, end: nat, used: nat, k: nat)
    requires Sound(mem, bs, start, end, used) && k < |bs| && !bs[k].free
    ensures bs[k].size <= used
    ensures Sound(mem[bs[k].addr := mem[bs[k].addr].(free := true)], Mark(bs, k, true), start, end, used - bs[k].size)
    ensures Live(Mark(bs, k, true)) == Live(bs) - {bs[k]}
  {
    hide Tiled, Mark, Live;
    MarkTiled(bs, k, true, start, end);
    ReleaseLive(bs, k, start, end);
    MarkSum(bs, k, true);
    MarkChained(mem, bs, k, true, start, end);
  }

  lemma SoundMerge(mem: map<nat, Header>, bs: seq<Block>, start: nat, end: nat, used: nat, k: nat)
    requires Sound(mem, bs, start, end, used) && k + 1 < |bs| && bs[k].free && bs[k + 1].free
    ensures Sound(mem[bs[k].addr := Header(bs[k].size + HEADER + bs[k + 1].size, bs[k].free, mem[bs[k + 1].addr].next)],
                  Merge(bs, k), start, end, used)
    ensures Live(Merge(bs, k)) == Live(bs)
  {
    hide Tiled, Merge, Live;
    MergeTiled(bs, k, start, end);
    MergeLive(bs, k);
    MergeSum(bs, k);
    MergeChained(mem, bs, k, start, end);
  }

  lemma ChainAt(mem: map<nat, Header>, bs: seq<Block>, start: nat, end: nat, used: nat, i: nat)
    requires Sound(mem, bs, start, end, used) && i < |bs|
    ensures bs[i].addr in mem && mem[bs[i].addr] == HeaderOf(bs, i)
    ensures bs[i].addr > 0 && bs[i].End() <= end && start <= bs[i].addr && bs[i].addr % 16 == 0
  {
    Inside(bs, start, end, i);
  }

  function AlignedSize(size: nat): nat {
    (size + 15) / 16 * 16
  }

  class Allocator {
    /** Headers in memory by address, and the globals of the allocator. */
    var mem: map<nat, Header>
    var head: nat
    var used: nat
    var start: nat
    var end: nat
    /** The list the headers spell out. */
    ghost var blocks: seq<Block>

    ghost predicate Valid()
      reads this
    {
      if head == 0 then start == 0 && end == 0 && used == 0 && blocks == []
      else head == start && Sound(mem, blocks, start, end, used) && Coalesced(blocks)
    }

    /** heap_init on a region that does not reach the end of the address space. */
    constructor (region: nat, size: nat)
      requires 0 < region && region + size <= U64_MAX
      ensures Valid() && used == 0
      ensures var skip := (16 - region % 16) % 16;
              if size < skip + HEADER then head == 0
              else start == region + skip && end == region + size && head == start && blocks == Fresh(start, end)
    {
      mem, head, used, start, end, blocks := map[], 0, 0, 0, 0, [];
      new;
      var addr, bytes := region, size;
      if region % 16 != 0 {
        var adjustment := 16 - region % 16;
        if size <= adjustment { return; }
        addr, bytes := region + adjustment, size - adjustment;
      }
      if bytes < HEADER { return; }
      head, mem := addr, map[addr := Header(bytes - HEADER, true, 0)];
      start, end, blocks := addr, addr + bytes, [Block(addr, bytes - HEADER, true)];
    }

    /** kmalloc: a fresh 16-byte aligned payload of at least `size` bytes, or 0 exactly when no
        stretch of the region could hold it. `b` is the block handed out. */
    method Malloc(size: u64) returns (p: nat, ghost b: Block)
      requires Valid()
      modifies this`mem, this`used, this`blocks
      ensures Valid()
      ensures p != 0 <==> size != 0 && size <= SIZE_MAX - 15 && head != 0
                          && Room(old(blocks), start, end, AlignedSize(size))
      ensures p == 0 ==> blocks == old(blocks) && mem == old(mem) && used == old(used)
      ensures p != 0 ==> p == b.Payload() && !b.free && forall l :: l in old(Live(blocks)) ==> l.addr != b.addr
      ensures p != 0 ==> AlignedSize(size) <= b.size < AlignedSize(size) + HEADER + 16
      ensures p != 0 ==> Live(blocks) == old(Live(blocks)) + {b} && used == old(used) + b.size
    {
      hide Sound, Coalesced, Live, Room, Fits;
      p, b := 0, Block(0, 0, true);
      if size == 0 || head == 0 { return; }
      if size > SIZE_MAX - 15 { return; }
      var n := AlignedSize(size);
      SoundTiled(mem, blocks, start, end, used);
      FitIffRoom(blocks, start, end, n);
      var curr, k := FirstFit(n);
      if curr == 0 { return; }
      b := Take(curr, n, k);
      p := curr + HEADER;
    }

    /** The walk of kmalloc: the first block that fits, or 0. */
    method FirstFit(n: nat) returns (curr: nat, ghost k: nat)
      requires Valid() && head != 0
      ensures curr != 0 ==> k < |blocks| && blocks[k].addr == curr && Fits(blocks[k], n)
                            && forall i :: 0 <= i < k ==> !Fits(blocks[i], n)
      ensures curr == 0 ==> forall i :: 0 <= i < |blocks| ==> !Fits(blocks[i], n)
    {
      hide Sound, Coalesced;
      curr, k := head, 0;
      SoundTiled(mem, blocks, start, end, used);
      while curr != 0
        invariant k <= |blocks| && curr == if k < |blocks| then blocks[k].addr else 0
        invariant forall i :: 0 <= i < k ==> !Fits(blocks[i], n)
        decreases |blocks| - k
      {
        ChainAt(mem, blocks, start, end, used, k);
        if mem[curr].free && mem[curr].size >= n { return; }
        curr := mem[curr].next;
        k := k + 1;
      }
      if k < |blocks| { ChainAt(mem, blocks, start, end, used, k); }
    }

    /** The body of kmalloc's loop at a block that fits. */
    method Take(curr: nat, n: nat, ghost k: nat) returns (ghost b: Block)
      requires Valid() && head != 0 && n % 16 == 0 && n > 0
      requires k < |blocks| && blocks[k].addr == curr && Fits(blocks[k], n)
      modifies this`mem, this`used, this`blocks
      ensures Valid()
      ensures b == Block(curr, b.size, false) && n <= b.size < n + HEADER + 16
      ensures forall l :: l in old(Live(blocks)) ==> l.addr != b.addr
      ensures Live(blocks) == old(Live(blocks)) + {b} && used == old(used) + b.size
    {
      hide Sound, Coalesced, Live, Split, Mark;
      ChainAt(mem, blocks, start, end, used, k);
      NotLive(mem, blocks, start, end, used, k);
      if mem[curr].size >= n + HEADER + 16 {
        SoundSplit(mem, blocks, start, end, used, k, n);
        SplitLive(blocks, k, n);
        var at := curr + HEADER + n;
        mem := mem[at := Header(mem[curr].size - n - HEADER, true, mem[curr].next)][curr := Header(n, false, at)];
        blocks := Split(blocks, k, n);
        b := Block(curr, n, false);
        used := used + n;
      } else {
        SoundTake(mem, blocks, start, end, used, k);
        TakeLive(blocks, k);
        b := blocks[k].(free := false);
        used := used + mem[curr].size;
        mem := mem[curr := mem[curr].(free := false)];
        blocks := Mark(blocks, k, false);
      }
    }

    /** kfree: the allocation with this payload goes, if there is one; anything else is refused
        and changes nothing. */
    method Free(p: nat)
      requires Valid()
      modifies this`mem, this`used, this`blocks
      ensures Valid()
      ensures Live(blocks) == set b | b in old(Live(blocks)) && b.Payload() != p
      ensures (forall b :: b in old(Live(blocks)) ==> b.Payload() != p) ==>
                blocks == old(blocks) && mem == old(mem) && used == old(used)
      ensures forall b :: b in old(Live(blocks)) && b.Payload() == p ==> used == old(used) - b.size
    {
      hide Sound, Coalesced, Live;
      PayloadFacts(head, mem, blocks, start, end, used);
      if p == 0 { return; }
      if p < start + HEADER || p >= end || p % 16 != 0 { return; }
      var block, k := FindBlock(p);
      if block == 0 { return; }
      if mem[block].free {
        NotLive(mem, blocks, start, end, used, k);
        return;
      }
      SoundRelease(mem, blocks, start, end, used, k);
      OnlyOne(mem, blocks, start, end, used, k);
      // The recovery branch for a total smaller than the block is never taken.
      assert mem[block].size <= used;
      used := used - mem[block].size;
      mem := mem[block := mem[block].(free := true)];
      blocks := Mark(blocks, k, true);
      MergeNext(block, k);
      MergePass();
    }

    /** The search of kfree: the block with this payload, or 0. */
    method FindBlock(p: nat) returns (block: nat, ghost k: nat)
      requires Valid() && p >= HEADER
      ensures block != 0 ==> k < |blocks| && blocks[k].addr == block && blocks[k].Payload() == p
                             && block in mem && mem[block] == HeaderOf(blocks, k) && head != 0
      ensures block == 0 ==> forall b :: b in Live(blocks) ==> b.Payload() != p
    {
      hide Sound, Coalesced, Live;
      block, k := head, 0;
      if head != 0 { SoundTiled(mem, blocks, start, end, used); }
      while block != 0
        invariant k <= |blocks| && block == if k < |blocks| then blocks[k].addr else 0
        invariant forall i :: 0 <= i < k ==> blocks[i].Payload() != p
        decreases |blocks| - k
      {
        ChainAt(mem, blocks, start, end, used, k);
        if block + HEADER == p { return; }
        block := mem[block].next;
        k := k + 1;
      }
      if k < |blocks| { ChainAt(mem, blocks, start, end, used, k); }
      NoPayload(blocks, p);
    }

    /** heap_free_space: with the used bytes and the headers it makes up the whole region. */
    method FreeSpace() returns (total: nat)
      requires Valid()
      ensures total == SumFree(blocks)
      ensures used + total + HEADER * |blocks| == end - start
    {
      hide Sound, Coalesced;
      total := 0;
      var curr := head;
      ghost var k := 0;
      if head != 0 {
        SoundTiled(mem, blocks, start, end, used);
        Conservation(blocks, start, end);
      }
      assert blocks[0..] == blocks;
      while curr != 0
        invariant k <= |blocks| && curr == if k < |blocks| then blocks[k].addr else 0
        invariant total + SumFree(blocks[k..]) == SumFree(blocks)
        decreases |blocks| - k
      {
        ChainAt(mem, blocks, start, end, used, k);
        assert blocks[k..][1..] == blocks[k + 1..];
        if mem[curr].free { total := total + mem[curr].size; }
        curr := mem[curr].next;
        k := k + 1;
      }
      if k < |blocks| { ChainAt(mem, blocks, start, end, used, k); }
    }

    /** The released block swallows a free successor. */
    method MergeNext(block: nat, ghost k: nat)
      requires head != 0 && Sound(mem, blocks, start, end, used) && head == start
      requires k < |blocks| && blocks[k].addr == block && blocks[k].free
      modifies this`mem, this`blocks
      ensures Sound(mem, blocks, start, end, used) && Live(blocks) == old(Live(blocks))
    {
      hide Sound, Coalesced, Live, Merge;
      ChainAt(mem, blocks, start, end, used, k);
      var next := mem[block].next;
      if k + 1 < |blocks| { ChainAt(mem, blocks, start, end, used, k + 1); }
      if next != 0 && mem[next].free {
        SoundMerge(mem, blocks, start, end, used, k);
        mem := mem[block := Header(mem[block].size + HEADER + mem[next].size, mem[block].free, mem[next].next)];
        blocks := Merge(blocks, k);
      }
    }

    /** The global merge pass: no two neighbours stay free. */
    method MergePass()
      requires head != 0 && Sound(mem, blocks, start, end, used) && head == start
      modifies this`mem, this`blocks
      ensures Valid() && Live(blocks) == old(Live(blocks))
    {
      hide Sound, Live;
      var curr := head;
      ghost var k := 0;
      SoundTiled(mem, blocks, start, end, used);
      ChainAt(mem, blocks, start, end, used, 0);
      while curr != 0 && mem[curr].next != 0
        invariant Sound(mem, blocks, start, end, used) && Live(blocks) == old(Live(blocks))
        invariant k < |blocks| && blocks[k].addr == curr
        invariant curr in mem && mem[curr] == HeaderOf(blocks, k)
        invariant forall i :: 0 <= i < k ==> !(blocks[i].free && blocks[i + 1].free)
        decreases |blocks| - k
      {
        var next := mem[curr].next;
        ChainAt(mem, blocks, start, end, used, k + 1);
        if mem[curr].free && mem[next].free {
          SoundMerge(mem, blocks, start, end, used, k);
          mem := mem[curr := Header(mem[curr].size + HEADER + mem[next].size, mem[curr].free, mem[next].next)];
          blocks := Merge(blocks, k);
          ChainAt(mem, blocks, start, end, used, k);
        } else {
          curr := next;
          k := k + 1;
        }
      }
      ChainAt(mem, blocks, start, end, used, k);
      if k + 1 < |blocks| { ChainAt(mem, blocks, start, end, used, k + 1); }
    }
  }

  lemma NoPayload(bs: seq<Block>, p: nat)
    requires forall i :: 0 <= i < |bs| ==> bs[i].Payload() != p
    ensures forall b :: b in Live(bs) ==> b.Payload() != p
  {
  }

  lemma SoundTiled(mem: map<nat, Header>, bs: seq<Block>, start: nat, end: nat, used: nat)
    requires Sound(mem, bs, start, end, used)
    ensures Tiled(bs, start, end) && used == SumUsed(bs)
  {
  }

  /** No allocation starts where a free block does. */
  lemma NotLive(mem: map<nat, Header>, bs: seq<Block>, start: nat, end: nat, used: nat, k: nat)
    requires Sound(mem, bs, start, end, used) && k < |bs| && bs[k].free
    ensures forall l :: l in Live(bs) ==> l.addr != bs[k].addr
  {
    hide Tiled, Chained;
    forall l | l in Live(bs) ensures l.addr != bs[k].addr {
      var i: nat :| i < |bs| && bs[i] == l;
      DistinctAddresses(bs, start, end, i, k);
    }
  }

  /** Every payload passes kfree's range and alignment checks. */
  lemma PayloadFacts(head: nat, mem: map<nat, Header>, bs: seq<Block>, start: nat, end: nat, used: nat)
    requires if head == 0 then bs == [] else Sound(mem, bs, start, end, used)
    ensures forall b :: b in Live(bs) ==> start + HEADER <= b.Payload() < end && b.Payload() % 16 == 0
  {
    hide Chained;
    forall b | b in Live(bs) ensures start + HEADER <= b.Payload() < end && b.Payload() % 16 == 0 {
      var i: nat :| i < |bs| && bs[i] == b;
      Inside(bs, start, end, i);
    }
  }

  /** Only one allocation has a given payload. */
  lemma OnlyOne(mem: map<nat, Header>, bs: seq<Block>, start: nat, end: nat, used: nat, k: nat)
    requires Sound(mem, bs, start, end, used) && k < |bs| && !bs[k].free
    ensures bs[k] in Live(bs)
    ensures forall b :: b in Live(bs) && b.Payload() == bs[k].Payload() ==> b == bs[k]
  {
    forall b | b in Live(bs) && b.Payload() == bs[k].Payload() ensures b == bs[k] {
      var i :| 0 <= i < |bs| && bs[i] == b;
      SameAddress(bs, start, end, i, k);
    }
  }

  // --------------------------------------------------------------------------------------
  // What callers rely on

  /** heap_free_space: the free payload bytes. Header bytes make up the rest of the region. */
  function SumFree(bs: seq<Block>): nat {
    if bs == [] then 0 else (if bs[0].free then bs[0].size else 0) + SumFree(bs[1..])
  }

  /** Conservation: free, used and header bytes always make up the region. */
  lemma {:induction false} Conservation(bs: seq<Block>, start: nat, end: nat)
    requires Tiled(bs, start, end)
    ensures SumUsed(bs) + SumFree(bs) + HEADER * |bs| == end - start
    decreases |bs|
  {
    if |bs| > 1 {
      TailIsTiled(bs, start, end);
      Conservation(bs[1..], bs[0].End(), end);
    } else {
      assert bs[1..] == [];
    }
  }

  /** The page that allocate_owned_page cuts out of an 8192-byte allocation. */
  function AlignedPage(raw: nat): nat {
    (raw + 4095) / 4096 * 4096
  }

  /** Pages cut out of two allocations are whole, aligned and disjoint: they are distinct frames. */
  lemma PagesAreDisjoint(bs: seq<Block>, start: nat, end: nat, a: Block, b: Block)
    requires Tiled(bs, start, end) && a in Live(bs) && b in Live(bs) && a.size >= 8192 && b.size >= 8192
    ensures AlignedPage(a.Payload()) % 4096 == 0 && AlignedPage(a.Payload()) > 0
    ensures a.Payload() <= AlignedPage(a.Payload()) && AlignedPage(a.Payload()) + 4096 <= a.End()
    ensures a != b ==> AlignedPage(a.Payload()) + 4096 <= AlignedPage(b.Payload())
                       || AlignedPage(b.Payload()) + 4096 <= AlignedPage(a.Payload())
  {
    LiveAreDisjoint(bs, start, end, a, b);
    PageFits(a.Payload());
    PageFits(b.Payload());
  }

  lemma PageFits(raw: nat)
    requires raw > 0
    ensures raw <= AlignedPage(raw) < raw + 4096 && AlignedPage(raw) % 4096 == 0
  {
  }
}
