/** kernel/elf64_loader.c, kernel/app_process.c, kernel/app_runtime.c: three checks of one plan
    for loading an ELF image. */
module Elf {
  import opened Bytes

  const HEADER_SIZE: nat := 64
  const PROGRAM_HEADER_SIZE: nat := 56
  const PAGE: nat := 4096
  const MAX_HEADERS: nat := 32
  const MAX_SEGMENTS: nat := 16
  const MAX_SPAN: nat := 16 * 1024 * 1024
  const MIN_VADDR: nat := 0x100_0000_0000
  const MAX_VADDR: nat := 0x1FF_FFFF_FFFF

  datatype Error =
    | Truncated | BadMagic | UnsupportedFormat | UnsupportedArchitecture | UnsupportedFeature
    | TooManyHeaders | TooManySegments | InvalidSegment | SegmentOutOfRange | SegmentOverlap
    | WritableCode | InvalidEntryPoint | ImageTooLarge | DestinationTooSmall

  datatype Result<+T> = Ok(value: T) | Err(error: Error)

  datatype Segment = Segment(vaddr: u64, memorySize: u64, fileSize: u64, fileOffset: u64, alignment: u64, flags: u32) {
    function End(): nat { vaddr + memorySize }
    predicate Executes() { flags % 2 == 1 }
    predicate Writes() { flags / 2 % 2 == 1 }
  }

  /** `base` is the largest 64-bit value until a segment is added. */
  datatype Plan = Plan(entry: u64, base: u64, end: nat, span: nat, segments: seq<Segment>)

  // --------------------------------------------------------------------------------------
  // elf64_inspect

  function PageDown(a: nat): nat {
    a / PAGE * PAGE
  }

  function PageUp(a: nat): nat {
    (a + PAGE - 1) / PAGE * PAGE
  }

  predicate Overlap(a: nat, aEnd: nat, b: nat, bEnd: nat) {
    a < bEnd && b < aEnd
  }

  predicate PowerOfTwo(v: nat) {
    v > 0 && (v == 1 || (v % 2 == 0 && PowerOfTwo(v / 2)))
  }

  /** The checks of a segment on its own. */
  function CheckAlone(s: Segment, imageSize: nat): Result<()> {
    if s.flags >= 8 || s.memorySize == 0 || s.fileSize > s.memorySize then Err(InvalidSegment)
    else if s.Writes() && s.Executes() then Err(WritableCode)
    else if !(s.fileOffset <= imageSize && s.fileSize <= imageSize - s.fileOffset) then Err(SegmentOutOfRange)
    else if s.vaddr < MIN_VADDR || s.vaddr > MAX_VADDR || s.memorySize - 1 > MAX_VADDR - s.vaddr then Err(SegmentOutOfRange)
    else if s.alignment > 1 && (!PowerOfTwo(s.alignment) || s.vaddr % s.alignment != s.fileOffset % s.alignment) then Err(InvalidSegment)
    else Ok(())
  }

  /** The checks of a segment against one already planned. */
  function CheckPair(s: Segment, t: Segment): Result<()> {
    if Overlap(s.vaddr, s.End(), t.vaddr, t.End()) then Err(SegmentOverlap)
    else if Overlap(PageDown(s.vaddr), PageUp(s.End()), PageDown(t.vaddr), PageUp(t.End()))
         && (s.Writes() || t.Writes()) && (s.Executes() || t.Executes()) then Err(WritableCode)
    else Ok(())
  }

  function CheckPairs(s: Segment, planned: seq<Segment>, i: nat): Result<()>
    requires i <= |planned|
    decreases |planned| - i
  {
    if i == |planned| then Ok(())
    else
      match CheckPair(s, planned[i])
      case Err(e) => Err(e)
      case Ok(_) => CheckPairs(s, planned, i + 1)
  }

  function WithSegment(p: Plan, s: Segment): Plan {
    p.(segments := p.segments + [s],
       base := if p.base == U64_MAX || s.vaddr < p.base then s.vaddr else p.base,
       end := if s.End() > p.end then s.End() else p.end)
  }

  /** inspect_load_segment. */
  function AddSegment(p: Plan, s: Segment, imageSize: nat): Result<Plan> {
    match CheckAlone(s, imageSize)
    case Err(e) => Err(e)
    case Ok(_) =>
      if |p.segments| >= MAX_SEGMENTS then Err(TooManySegments)
      else
        match CheckPairs(s, p.segments, 0)
        case Err(e) => Err(e)
        case Ok(_) => Ok(WithSegment(p, s))
  }

  /** The entry point lies in bytes of the file that will be executable. */
  predicate EntersAt(s: Segment, entry: nat) {
    s.Executes() && s.vaddr <= entry && entry - s.vaddr < s.fileSize
  }

  function SegmentAt(image: seq<byte>, at: nat): Segment
    requires at + PROGRAM_HEADER_SIZE <= |image|
  {
    Segment(ReadU64Le(image, at + 16), ReadU64Le(image, at + 40), ReadU64Le(image, at + 32), ReadU64Le(image, at + 8),
            ReadU64Le(image, at + 48), ReadU32Le(image, at + 4))
  }

  /** The program headers from number `k` on. */
  function AddHeaders(image: seq<byte>, table: nat, k: nat, count: nat, p: Plan): Result<Plan>
    requires k <= count && table + count * PROGRAM_HEADER_SIZE <= |image|
    decreases count - k
  {
    if k == count then Ok(p)
    else
      var at := table + k * PROGRAM_HEADER_SIZE;
      var kind := ReadU32Le(image, at);
      if kind == 2 || kind == 3 || kind == 7 then Err(UnsupportedFeature)
      else if kind != 1 then AddHeaders(image, table, k + 1, count, p)
      else
        match AddSegment(p, SegmentAt(image, at), |image|)
        case Err(e) => Err(e)
        case Ok(q) => AddHeaders(image, table, k + 1, count, q)
  }

  function CheckHeader(image: seq<byte>): Result<()> {
    if |image| < HEADER_SIZE then Err(Truncated)
    else if image[..4] != [0x7f, 69, 76, 70] then Err(BadMagic)
    else if image[4] != 2 || image[5] != 1 || image[6] != 1 || ReadU32Le(image, 20) != 1 || ReadU16Le(image, 16) != 2
         || ReadU16Le(image, 52) != HEADER_SIZE || ReadU16Le(image, 54) != PROGRAM_HEADER_SIZE then Err(UnsupportedFormat)
    else if ReadU16Le(image, 18) != 62 then Err(UnsupportedArchitecture)
    else
      var count := ReadU16Le(image, 56);
      var table := ReadU64Le(image, 32);
      if count == 0 || count > MAX_HEADERS then Err(TooManyHeaders)
      else if table < HEADER_SIZE || table > |image| || count * PROGRAM_HEADER_SIZE > |image| - table then Err(Truncated)
      else Ok(())
  }

  predicate Enters(p: Plan) {
    exists i :: 0 <= i < |p.segments| && EntersAt(p.segments[i], p.entry)
  }

  function Finish(p: Plan): Result<Plan> {
    if p.segments == [] then Err(InvalidSegment)
    else if !Enters(p) then Err(InvalidEntryPoint)
    else if p.end <= p.base || p.end - p.base > MAX_SPAN then Err(ImageTooLarge)
    else Ok(p.(span := p.end - p.base))
  }

  function EmptyPlan(image: seq<byte>): Plan
    requires |image| >= HEADER_SIZE
  {
    Plan(ReadU64Le(image, 24), U64_MAX, 0, 0, [])
  }

  function Inspect(image: seq<byte>): Result<Plan> {
    match CheckHeader(image)
    case Err(e) => Err(e)
    case Ok(_) =>
      match AddHeaders(image, ReadU64Le(image, 32), 0, ReadU16Le(image, 56), EmptyPlan(image))
      case Err(e) => Err(e)
      case Ok(p) => Finish(p)
  }

  // --------------------------------------------------------------------------------------
  // The other two checkers

  /** plan_is_consistent on one segment, given the ones before it. */
  predicate ConsistentSegment(p: Plan, i: nat)
    requires i < |p.segments| && p.base < p.end
  {
    var s := p.segments[i];
    && s.memorySize != 0 && s.fileSize <= s.memorySize && p.base <= s.vaddr < p.end
    && s.memorySize <= p.end - s.vaddr && s.flags < 8 && !(s.Writes() && s.Executes())
    && forall j :: 0 <= j < i ==> !Overlap(s.vaddr, s.End(), p.segments[j].vaddr, p.segments[j].End())
  }

  /** plan_is_consistent. */
  predicate Consistent(p: Plan) {
    && 0 < |p.segments| <= MAX_SEGMENTS
    && MIN_VADDR <= p.base < p.end && p.end - 1 <= MAX_VADDR
    && p.end - p.base == p.span && p.span <= MAX_SPAN
    && p.base <= p.entry < p.end
    && (forall i :: 0 <= i < |p.segments| ==> ConsistentSegment(p, i))
    && Enters(p)
  }

  datatype Rights = Rights(used: bool, writable: bool, executable: bool)

  predicate Touches(s: Segment, page: nat) {
    Overlap(page, page + PAGE, s.vaddr, s.End())
  }

  predicate AnyTouches(p: Plan, page: nat) {
    exists i :: 0 <= i < |p.segments| && Touches(p.segments[i], page)
  }

  predicate AnyWrites(p: Plan, page: nat) {
    exists i :: 0 <= i < |p.segments| && Touches(p.segments[i], page) && p.segments[i].Writes()
  }

  predicate AnyExecutes(p: Plan, page: nat) {
    exists i :: 0 <= i < |p.segments| && Touches(p.segments[i], page) && p.segments[i].Executes()
  }

  // --------------------------------------------------------------------------------------
  // What inspection guarantees

  predicate SegmentOk(s: Segment, imageSize: nat) {
    && 0 < s.memorySize && s.fileSize <= s.memorySize && s.flags < 8 && !(s.Writes() && s.Executes())
    && MIN_VADDR <= s.vaddr && s.End() <= MAX_VADDR + 1
    && s.fileOffset + s.fileSize <= imageSize
  }

  /** Two planned segments: apart as bytes, and no page of both is writable and executable. */
  predicate PairOk(s: Segment, t: Segment) {
    CheckPair(s, t).Ok?
  }

  /** The plan so far: bounds are tight, segments well formed and pairwise apart. */
  ghost predicate Planned(p: Plan, imageSize: nat) {
    && |p.segments| <= MAX_SEGMENTS
    && (forall i :: 0 <= i < |p.segments| ==> SegmentOk(p.segments[i], imageSize))
    && (forall i, j :: 0 <= j < i < |p.segments| ==> PairOk(p.segments[i], p.segments[j]))
    && Bounds(p)
  }

  ghost predicate Bounds(p: Plan) {
    if p.segments == [] then p.base == U64_MAX && p.end == 0
    else
      && (forall i :: 0 <= i < |p.segments| ==> p.base <= p.segments[i].vaddr && p.segments[i].End() <= p.end)
      && (exists i :: 0 <= i < |p.segments| && p.segments[i].vaddr == p.base)
      && (exists i :: 0 <= i < |p.segments| && p.segments[i].End() == p.end)
  }

  lemma BoundsKept(p: Plan, s: Segment)
    requires Bounds(p) && s.vaddr <= MAX_VADDR && s.memorySize > 0
    requires forall i :: 0 <= i < |p.segments| ==> p.segments[i].vaddr <= MAX_VADDR && p.segments[i].memorySize > 0
    ensures Bounds(WithSegment(p, s))
  {
    var q := WithSegment(p, s);
    var n := |p.segments|;
    assert q.segments[n] == s;
    assert forall i :: 0 <= i < n ==> q.segments[i] == p.segments[i];
    if n > 0 {
      var a :| 0 <= a < n && p.segments[a].vaddr == p.base;
      var b :| 0 <= b < n && p.segments[b].End() == p.end;
      assert q.segments[if s.vaddr < p.base then n else a].vaddr == q.base;
      assert q.segments[if s.End() > p.end then n else b].End() == q.end;
    } else {
      assert q.segments[n].vaddr == q.base && q.segments[n].End() == q.end;
    }
  }

  lemma AddKeepsPlanned(p: Plan, s: Segment, imageSize: nat)
    requires Planned(p, imageSize) && AddSegment(p, s, imageSize).Ok?
    ensures Planned(AddSegment(p, s, imageSize).value, imageSize)
  {
    hide CheckAlone, CheckPair, Bounds, PairOk, AlignmentOk;
    AloneIff(s, imageSize);
    PairsIff(s, p.segments, 0);
    var q := WithSegment(p, s);
    assert forall i :: 0 <= i < |p.segments| ==> SegmentOk(p.segments[i], imageSize);
    BoundsKept(p, s);
  }

  lemma {:induction false} HeadersKeepPlanned(image: seq<byte>, table: nat, k: nat, count: nat, p: Plan)
    requires k <= count && table + count * PROGRAM_HEADER_SIZE <= |image|
    requires Planned(p, |image|) && AddHeaders(image, table, k, count, p).Ok?
    ensures var q := AddHeaders(image, table, k, count, p).value;
            Planned(q, |image|) && q.entry == p.entry
    decreases count - k
  {
    hide AddSegment, Planned, SegmentAt;
    if k < count {
      var at := table + k * PROGRAM_HEADER_SIZE;
      if ReadU32Le(image, at) != 1 {
        HeadersKeepPlanned(image, table, k + 1, count, p);
      } else {
        var s := SegmentAt(image, at);
        AddKeepsPlanned(p, s, |image|);
        EntryKept(p, s, |image|);
        HeadersKeepPlanned(image, table, k + 1, count, AddSegment(p, s, |image|).value);
      }
    }
  }

  lemma EntryKept(p: Plan, s: Segment, imageSize: nat)
    requires AddSegment(p, s, imageSize).Ok?
    ensures AddSegment(p, s, imageSize).value.entry == p.entry
  {
    hide CheckAlone, CheckPairs;
  }

  /** What an accepted image's plan satisfies. */
  ghost predicate Accepted(p: Plan, imageSize: nat) {
    Planned(p, imageSize) && p.segments != [] && Enters(p) && p.base < p.end && p.span == p.end - p.base <= MAX_SPAN
  }

  lemma InspectAccepts(image: seq<byte>)
    requires Inspect(image).Ok?
    ensures Accepted(Inspect(image).value, |image|)
  {
    hide AddHeaders, CheckHeader, SegmentOk, PairOk;
    HeaderFacts(image);
    var empty := EmptyPlan(image);
    HeadersKeepPlanned(image, ReadU64Le(image, 32), 0, ReadU16Le(image, 56), empty);
    var p := AddHeaders(image, ReadU64Le(image, 32), 0, ReadU16Le(image, 56), empty).value;
    assert Bounds(p.(span := p.end - p.base)) by { assert Bounds(p); }
  }

  lemma HeaderFacts(image: seq<byte>)
    requires CheckHeader(image).Ok?
    ensures |image| >= HEADER_SIZE
    ensures ReadU64Le(image, 32) + ReadU16Le(image, 56) * PROGRAM_HEADER_SIZE <= |image|
    ensures 0 < ReadU16Le(image, 56) <= MAX_HEADERS
  {
  }

  // --------------------------------------------------------------------------------------
  // Which images are accepted

  /** No interpreter, dynamic linking or thread-local storage from header `k` on. */
  predicate Plain(image: seq<byte>, table: nat, k: nat, count: nat)
    requires k <= count && table + count * PROGRAM_HEADER_SIZE <= |image|
    decreases count - k
  {
    k == count ||
    (ReadU32Le(image, table + k * PROGRAM_HEADER_SIZE) !in {2, 3, 7} && Plain(image, table, k + 1, count))
  }

  /** The segments to be loaded, in the order of their headers. */
  function Loads(image: seq<byte>, table: nat, k: nat, count: nat): seq<Segment>
    requires k <= count && table + count * PROGRAM_HEADER_SIZE <= |image|
    decreases count - k
  {
    if k == count then []
    else
      var at := table + k * PROGRAM_HEADER_SIZE;
      (if ReadU32Le(image, at) == 1 then [SegmentAt(image, at)] else []) + Loads(image, table, k + 1, count)
  }

  predicate AlignmentOk(s: Segment) {
    s.alignment <= 1 || (PowerOfTwo(s.alignment) && s.vaddr % s.alignment == s.fileOffset % s.alignment)
  }

  lemma AloneIff(s: Segment, imageSize: nat)
    ensures CheckAlone(s, imageSize).Ok? <==> SegmentOk(s, imageSize) && AlignmentOk(s)
  {
    hide PowerOfTwo;
  }

  /** At most sixteen segments, each in order on its own and with every other. */
  ghost predicate GoodList(ss: seq<Segment>, imageSize: nat) {
    && |ss| <= MAX_SEGMENTS
    && (forall i :: 0 <= i < |ss| ==> SegmentOk(ss[i], imageSize) && AlignmentOk(ss[i]))
    && (forall i, j :: 0 <= j < i < |ss| ==> PairOk(ss[i], ss[j]))
  }

  lemma {:induction false} PairsIff(s: Segment, planned: seq<Segment>, i: nat)
    requires i <= |planned|
    ensures CheckPairs(s, planned, i).Ok? <==> forall j :: i <= j < |planned| ==> PairOk(s, planned[j])
    decreases |planned| - i
  {
    hide CheckPair;
    if i < |planned| { PairsIff(s, planned, i + 1); }
  }

  lemma AddIff(p: Plan, s: Segment, imageSize: nat)
    requires GoodList(p.segments, imageSize)
    ensures AddSegment(p, s, imageSize).Ok? <==> GoodList(p.segments + [s], imageSize)
    ensures AddSegment(p, s, imageSize).Ok? ==> AddSegment(p, s, imageSize).value.segments == p.segments + [s]
  {
    hide CheckAlone, CheckPairs, PairOk, SegmentOk, AlignmentOk;
    AloneIff(s, imageSize);
    PairsIff(s, p.segments, 0);
    var all := p.segments + [s];
    assert all[|p.segments|] == s;
    assert forall i :: 0 <= i < |p.segments| ==> all[i] == p.segments[i];
  }

  lemma GoodPrefix(ss: seq<Segment>, more: seq<Segment>, imageSize: nat)
    requires GoodList(ss + more, imageSize)
    ensures GoodList(ss, imageSize)
  {
    hide PairOk, SegmentOk, AlignmentOk;
    var all := ss + more;
    assert forall i :: 0 <= i < |ss| ==> all[i] == ss[i];
  }

  lemma HeaderStep(image: seq<byte>, table: nat, k: nat, count: nat, p: Plan)
    requires k < count && table + count * PROGRAM_HEADER_SIZE <= |image|
    ensures var at := table + k * PROGRAM_HEADER_SIZE;
            var kind, s := ReadU32Le(image, at), SegmentAt(image, at);
            && Plain(image, table, k, count) == (kind !in {2, 3, 7} && Plain(image, table, k + 1, count))
            && Loads(image, table, k, count) == (if kind == 1 then [s] else []) + Loads(image, table, k + 1, count)
            && (kind in {2, 3, 7} ==> AddHeaders(image, table, k, count, p).Err?)
            && (kind !in {1, 2, 3, 7} ==> AddHeaders(image, table, k, count, p) == AddHeaders(image, table, k + 1, count, p))
            && (kind == 1 && AddSegment(p, s, |image|).Err? ==> AddHeaders(image, table, k, count, p).Err?)
            && (kind == 1 && AddSegment(p, s, |image|).Ok? ==>
                  AddHeaders(image, table, k, count, p) == AddHeaders(image, table, k + 1, count, AddSegment(p, s, |image|).value))
  {
    hide AddSegment, SegmentAt, ReadU32Le;
  }

  lemma {:induction false} HeadersIff(image: seq<byte>, table: nat, k: nat, count: nat, p: Plan)
    requires k <= count && table + count * PROGRAM_HEADER_SIZE <= |image| && GoodList(p.segments, |image|)
    ensures AddHeaders(image, table, k, count, p).Ok? <==>
              Plain(image, table, k, count) && GoodList(p.segments + Loads(image, table, k, count), |image|)
    ensures AddHeaders(image, table, k, count, p).Ok? ==>
              AddHeaders(image, table, k, count, p).value.segments == p.segments + Loads(image, table, k, count)
    decreases count - k
  {
    hide AddSegment, SegmentAt, GoodList, ReadU32Le, AddHeaders, Plain, Loads;
    if k == count {
      NoHeaders(image, table, count, p);
      assert p.segments + [] == p.segments;
    } else {
      HeaderStep(image, table, k, count, p);
      var at := table + k * PROGRAM_HEADER_SIZE;
      var kind, s, rest := ReadU32Le(image, at), SegmentAt(image, at), Loads(image, table, k + 1, count);
      if kind == 1 {
        AddIff(p, s, |image|);
        assert p.segments + ([s] + rest) == (p.segments + [s]) + rest;
        if AddSegment(p, s, |image|).Ok? {
          HeadersIff(image, table, k + 1, count, AddSegment(p, s, |image|).value);
        } else if GoodList((p.segments + [s]) + rest, |image|) {
          GoodPrefix(p.segments + [s], rest, |image|);
        }
      } else {
        assert [] + rest == rest;
        HeadersIff(image, table, k + 1, count, p);
      }
    }
  }

  lemma NoHeaders(image: seq<byte>, table: nat, count: nat, p: Plan)
    requires table + count * PROGRAM_HEADER_SIZE <= |image|
    ensures AddHeaders(image, table, count, count, p) == Ok(p) && Plain(image, table, count, count) && Loads(image, table, count, count) == []
  {
  }

  /** The entry point lies in bytes of the file that will be executable. */
  ghost predicate EntersList(ss: seq<Segment>, entry: nat) {
    exists i :: 0 <= i < |ss| && EntersAt(ss[i], entry)
  }

  /** No two bytes are further apart than the largest image. */
  ghost predicate Near(ss: seq<Segment>) {
    forall i, j :: 0 <= i < |ss| && 0 <= j < |ss| ==> ss[i].End() <= ss[j].vaddr + MAX_SPAN
  }

  lemma FinishIff(p: Plan, imageSize: nat)
    requires Planned(p, imageSize)
    ensures Finish(p).Ok? <==> p.segments != [] && EntersList(p.segments, p.entry) && Near(p.segments)
    ensures Finish(p).Ok? ==> Finish(p).value.segments == p.segments
  {
    hide Planned, EntersAt;
    if p.segments != [] { SpanIff(p, imageSize); }
  }

  /** An image is accepted exactly when its header is in order, every segment is in order on its
      own and with every other, the entry point lies in executable bytes of the file, and the
      bytes are not too far apart. */
  lemma InspectIff(image: seq<byte>)
    requires CheckHeader(image).Ok?
    ensures HeadersFit(image)
    ensures var ss := LoadsOf(image);
            Inspect(image).Ok? <==>
              PlainImage(image) && ss != [] && GoodList(ss, |image|) && EntersList(ss, ReadU64Le(image, 24)) && Near(ss)
    ensures Inspect(image).Ok? ==> Inspect(image).value.segments == LoadsOf(image)
  {
    hide CheckHeader, AddHeaders, Plain, Loads, GoodList, EntersList, Near, Finish, Planned, ReadU64Le, ReadU16Le;
    HeaderFacts(image);
    var table, count, empty := ReadU64Le(image, 32), ReadU16Le(image, 56), EmptyPlan(image);
    EmptyIsGood(|image|);
    HeadersIff(image, table, 0, count, empty);
    var ss := LoadsOf(image);
    assert [] + ss == ss;
    if AddHeaders(image, table, 0, count, empty).Ok? {
      var p := AddHeaders(image, table, 0, count, empty).value;
      EmptyIsPlanned(empty, |image|);
      HeadersKeepPlanned(image, table, 0, count, empty);
      FinishIff(p, |image|);
    }
  }

  predicate HeadersFit(image: seq<byte>) {
    |image| >= HEADER_SIZE && ReadU64Le(image, 32) + ReadU16Le(image, 56) * PROGRAM_HEADER_SIZE <= |image|
  }

  predicate PlainImage(image: seq<byte>)
    requires HeadersFit(image)
  {
    Plain(image, ReadU64Le(image, 32), 0, ReadU16Le(image, 56))
  }

  function LoadsOf(image: seq<byte>): seq<Segment>
    requires HeadersFit(image)
  {
    Loads(image, ReadU64Le(image, 32), 0, ReadU16Le(image, 56))
  }

  lemma EmptyIsGood(imageSize: nat)
    ensures GoodList([], imageSize)
  {
  }

  lemma EmptyIsPlanned(p: Plan, imageSize: nat)
    requires p.segments == [] && p.base == U64_MAX && p.end == 0
    ensures Planned(p, imageSize)
  {
  }

  lemma SpanIff(p: Plan, imageSize: nat)
    requires Planned(p, imageSize) && p.segments != []
    ensures p.base < p.end
    ensures p.end - p.base <= MAX_SPAN <==> Near(p.segments)
  {
    hide PairOk;
    var a :| 0 <= a < |p.segments| && p.segments[a].vaddr == p.base;
    var b :| 0 <= b < |p.segments| && p.segments[b].End() == p.end;
    assert SegmentOk(p.segments[a], imageSize);
  }

  /** The second checker never refuses what inspection accepts. */
  lemma InspectIsConsistent(image: seq<byte>)
    requires Inspect(image).Ok?
    ensures Consistent(Inspect(image).value)
  {
    hide Inspect;
    InspectAccepts(image);
    AcceptedIsConsistent(Inspect(image).value, |image|);
  }

  lemma AcceptedIsConsistent(p: Plan, imageSize: nat)
    requires Accepted(p, imageSize)
    ensures Consistent(p)
  {
    hide Enters;
    var a :| 0 <= a < |p.segments| && p.segments[a].vaddr == p.base;
    var b :| 0 <= b < |p.segments| && p.segments[b].End() == p.end;
    assert SegmentOk(p.segments[a], imageSize) && SegmentOk(p.segments[b], imageSize);
    EntryInside(p, imageSize);
    forall i | 0 <= i < |p.segments| ensures ConsistentSegment(p, i) {
      assert SegmentOk(p.segments[i], imageSize);
      forall j | 0 <= j < i ensures !Overlap(p.segments[i].vaddr, p.segments[i].End(), p.segments[j].vaddr, p.segments[j].End()) {
        assert PairOk(p.segments[i], p.segments[j]);
      }
    }
  }

  lemma EntryInside(p: Plan, imageSize: nat)
    requires Accepted(p, imageSize)
    ensures p.base <= p.entry < p.end
  {
    var i :| 0 <= i < |p.segments| && EntersAt(p.segments[i], p.entry);
    assert SegmentOk(p.segments[i], imageSize);
  }

  /** Two segments that touch one page have overlapping page ranges. */
  lemma SharedPage(s: Segment, t: Segment, page: nat)
    requires page % PAGE == 0 && Touches(s, page) && Touches(t, page)
    ensures Overlap(PageDown(s.vaddr), PageUp(s.End()), PageDown(t.vaddr), PageUp(t.End()))
  {
    PageCovers(s, page);
    PageCovers(t, page);
  }

  lemma PageCovers(s: Segment, page: nat)
    requires page % PAGE == 0 && Touches(s, page)
    ensures PageDown(s.vaddr) <= page && page + PAGE <= PageUp(s.End())
  {
  }

  /** No page of an accepted plan is both writable and executable: the third checker never
      refuses either. */
  lemma NoWritableCode(p: Plan, imageSize: nat, page: nat)
    requires Accepted(p, imageSize) && page % PAGE == 0
    ensures !(AnyWrites(p, page) && AnyExecutes(p, page))
  {
    hide Touches, Enters, Bounds;
    if AnyWrites(p, page) && AnyExecutes(p, page) {
      var i: nat :| i < |p.segments| && Touches(p.segments[i], page) && p.segments[i].Writes();
      var j: nat :| j < |p.segments| && Touches(p.segments[j], page) && p.segments[j].Executes();
      PairOnPage(p, imageSize, page, i, j);
      assert false;
    }
  }

  lemma PairOnPage(p: Plan, imageSize: nat, page: nat, i: nat, j: nat)
    requires Planned(p, imageSize) && page % PAGE == 0 && i < |p.segments| && j < |p.segments|
    requires Touches(p.segments[i], page) && Touches(p.segments[j], page)
    ensures !(p.segments[i].Writes() && p.segments[j].Executes())
  {
    hide Touches, Bounds, PageUp, PageDown;
    var s, t := p.segments[i], p.segments[j];
    assert SegmentOk(s, imageSize);
    SharedPage(s, t, page);
    SharedPage(t, s, page);
    assert j < i ==> PairOk(s, t);
    assert i < j ==> PairOk(t, s);
  }
}
