/** kernel/elf64_loader.c, kernel/app_process.c, kernel/app_runtime.c: the checkers' loops and the
    contiguous loader. */
module ElfLoader {
  import opened Bytes
  import opened Buffers
  import opened Elf

  // --------------------------------------------------------------------------------------
  // The checkers

  method InspectSegment(p: Plan, s: Segment, imageSize: nat) returns (r: Result<Plan>)
    ensures r == AddSegment(p, s, imageSize)
  {
    hide CheckPair, PowerOfTwo;
    if s.flags >= 8 || s.memorySize == 0 || s.fileSize > s.memorySize { return Err(InvalidSegment); }
    if s.Writes() && s.Executes() { return Err(WritableCode); }
    if !(s.fileOffset <= imageSize && s.fileSize <= imageSize - s.fileOffset) { return Err(SegmentOutOfRange); }
    if s.vaddr < MIN_VADDR || s.vaddr > MAX_VADDR || s.memorySize - 1 > MAX_VADDR - s.vaddr { return Err(SegmentOutOfRange); }
    if s.alignment > 1 && (!PowerOfTwo(s.alignment) || s.vaddr % s.alignment != s.fileOffset % s.alignment) {
      return Err(InvalidSegment);
    }
    if |p.segments| >= MAX_SEGMENTS { return Err(TooManySegments); }
    for i := 0 to |p.segments|
      invariant CheckPairs(s, p.segments, 0) == CheckPairs(s, p.segments, i)
    {
      var pair := CheckPair(s, p.segments[i]);
      if pair.Err? { return Err(pair.error); }
    }
    return Ok(WithSegment(p, s));
  }

  /** elf64_inspect. */
  method InspectImage(image: seq<byte>) returns (r: Result<Plan>)
    ensures r == Inspect(image)
  {
    hide AddSegment, SegmentAt, CheckHeader, Enters;
    var header := CheckHeader(image);
    if header.Err? { return Err(header.error); }
    HeaderFacts(image);
    var table, count := ReadU64Le(image, 32), ReadU16Le(image, 56);
    var p := EmptyPlan(image);
    for k := 0 to count
      invariant AddHeaders(image, table, 0, count, EmptyPlan(image)) == AddHeaders(image, table, k, count, p)
    {
      var at := table + k * PROGRAM_HEADER_SIZE;
      var kind := ReadU32Le(image, at);
      if kind == 2 || kind == 3 || kind == 7 { return Err(UnsupportedFeature); }
      if kind == 1 {
        var added := InspectSegment(p, SegmentAt(image, at), |image|);
        if added.Err? { return added; }
        p := added.value;
      }
    }
    r := Finish(p);
  }

  /** plan_is_consistent. */
  method PlanIsConsistent(p: Plan) returns (ok: bool)
    ensures ok == Consistent(p)
  {
    hide ConsistentSegment, EntersAt;
    if !(0 < |p.segments| <= MAX_SEGMENTS && MIN_VADDR <= p.base < p.end && p.end - 1 <= MAX_VADDR
         && p.end - p.base == p.span && p.span <= MAX_SPAN && p.base <= p.entry < p.end) { return false; }
    var executable := false;
    for i := 0 to |p.segments|
      invariant forall k :: 0 <= k < i ==> ConsistentSegment(p, k)
      invariant executable <==> exists k :: 0 <= k < i && EntersAt(p.segments[k], p.entry)
    {
      var consistent := SegmentIsConsistent(p, i);
      if !consistent { return false; }
      if EntersAt(p.segments[i], p.entry) { executable := true; }
    }
    return executable;
  }

  method SegmentIsConsistent(p: Plan, i: nat) returns (ok: bool)
    requires i < |p.segments| && p.base < p.end
    ensures ok == ConsistentSegment(p, i)
  {
    hide Overlap;
    var s := p.segments[i];
    if s.memorySize == 0 || s.fileSize > s.memorySize || s.vaddr < p.base || s.vaddr >= p.end
       || s.memorySize > p.end - s.vaddr || s.flags >= 8 || (s.Writes() && s.Executes()) { return false; }
    for j := 0 to i
      invariant forall k :: 0 <= k < j ==> !Overlap(s.vaddr, s.End(), p.segments[k].vaddr, p.segments[k].End())
    {
      if Overlap(s.vaddr, s.End(), p.segments[j].vaddr, p.segments[j].End()) { return false; }
    }
    return true;
  }

  /** page_permissions: false for a page that would be writable and executable. */
  method PagePermissions(p: Plan, page: nat) returns (ok: bool, rights: Rights)
    ensures ok <==> !(AnyWrites(p, page) && AnyExecutes(p, page))
    ensures ok ==> rights == Rights(AnyTouches(p, page), AnyWrites(p, page), AnyExecutes(p, page))
  {
    hide Touches;
    var used, writable, executable := false, false, false;
    for i := 0 to |p.segments|
      invariant used <==> exists k :: 0 <= k < i && Touches(p.segments[k], page)
      invariant writable <==> exists k :: 0 <= k < i && Touches(p.segments[k], page) && p.segments[k].Writes()
      invariant executable <==> exists k :: 0 <= k < i && Touches(p.segments[k], page) && p.segments[k].Executes()
    {
      var s := p.segments[i];
      if Touches(s, page) {
        used := true;
        writable := writable || s.Writes();
        executable := executable || s.Executes();
      }
    }
    return !(writable && executable), Rights(used, writable, executable);
  }

  // --------------------------------------------------------------------------------------
  // Loading into one buffer

  /** The segment takes the byte at address `a` from the file. */
  predicate Backs(s: Segment, a: nat) {
    s.vaddr <= a < s.vaddr + s.fileSize
  }

  /** The bytes of the first `k` segments are in place, and everything else is zero. */
  ghost predicate Loaded(p: Plan, image: seq<byte>, out: seq<byte>, k: nat)
    requires k <= |p.segments| && Planned(p, |image|)
  {
    && |out| == p.span
    && (forall x: nat, i: nat :: x < p.span && i < k && Backs(p.segments[i], p.base + x) ==> out[x] == FileByte(p, image, i, x))
    && (forall x: nat :: x < p.span && (forall i: nat :: i < k ==> !Backs(p.segments[i], p.base + x)) ==> out[x] == 0)
  }

  ghost function FileByte(p: Plan, image: seq<byte>, i: nat, x: nat): byte
    requires Planned(p, |image|) && i < |p.segments| && Backs(p.segments[i], p.base + x)
  {
    assert SegmentOk(p.segments[i], |image|);
    image[p.segments[i].fileOffset + (p.base + x - p.segments[i].vaddr)]
  }

  /** An address is backed by at most one segment, so the loaded image is unique. */
  lemma OneBacks(p: Plan, imageSize: nat, i: nat, j: nat, a: nat)
    requires Planned(p, imageSize) && i < |p.segments| && j < |p.segments|
    requires Backs(p.segments[i], a) && Backs(p.segments[j], a)
    ensures i == j
  {
    hide Bounds;
    assert SegmentOk(p.segments[i], imageSize) && SegmentOk(p.segments[j], imageSize);
    assert j < i ==> PairOk(p.segments[i], p.segments[j]);
    assert i < j ==> PairOk(p.segments[j], p.segments[i]);
  }

  lemma LoadedIsUnique(p: Plan, image: seq<byte>, a: seq<byte>, b: seq<byte>)
    requires Planned(p, |image|)
    requires Loaded(p, image, a, |p.segments|) && Loaded(p, image, b, |p.segments|)
    ensures a == b
  {
    hide Planned;
    forall x | 0 <= x < p.span ensures a[x] == b[x] {
      if i: nat :| i < |p.segments| && Backs(p.segments[i], p.base + x) {
        assert a[x] == FileByte(p, image, i, x) == b[x];
      }
    }
  }

  lemma SegmentInside(p: Plan, imageSize: nat, k: nat)
    requires Accepted(p, imageSize) && k < |p.segments|
    ensures var s := p.segments[k];
            p.base <= s.vaddr && s.vaddr - p.base + s.fileSize <= p.span && s.fileOffset + s.fileSize <= imageSize
  {
    hide Enters;
    assert SegmentOk(p.segments[k], imageSize);
  }

  lemma CopyLoads(p: Plan, image: seq<byte>, out: seq<byte>, k: nat)
    requires Accepted(p, |image|) && k < |p.segments| && Loaded(p, image, out, k)
    ensures var s := p.segments[k];
            && p.base <= s.vaddr && s.vaddr - p.base + s.fileSize <= p.span && s.fileOffset + s.fileSize <= |image|
            && Loaded(p, image, Overlay(out, s.vaddr - p.base, image[s.fileOffset..s.fileOffset + s.fileSize]), k + 1)
  {
    hide Planned, Enters, Overlay;
    SegmentInside(p, |image|, k);
    var s := p.segments[k];
    var at := s.vaddr - p.base;
    var data := image[s.fileOffset..s.fileOffset + s.fileSize];
    var now := Overlay(out, at, data);
    forall x: nat, i: nat | x < p.span && i < k + 1 && Backs(p.segments[i], p.base + x)
      ensures now[x] == FileByte(p, image, i, x)
    {
      if Backs(s, p.base + x) { OneBacks(p, |image|, i, k, p.base + x); }
    }
    forall x: nat | x < p.span && (forall i: nat :: i < k + 1 ==> !Backs(p.segments[i], p.base + x)) ensures now[x] == 0 {
      assert !Backs(s, p.base + x);
    }
  }

  /** elf64_load_contiguous: exactly the image the plan describes, or an untouched buffer. */
  method LoadContiguous(image: seq<byte>, destination: array<byte>) returns (r: Result<Plan>)
    modifies destination
    ensures r == match Inspect(image)
                 case Err(e) => Err(e)
                 case Ok(p) => if destination.Length < p.span then Err(DestinationTooSmall) else Ok(p)
    ensures r.Err? ==> destination[..] == old(destination[..])
    ensures r.Ok? ==> Accepted(r.value, |image|)
                      && Loaded(r.value, image, destination[..r.value.span], |r.value.segments|)
                      && destination[r.value.span..] == old(destination[r.value.span..])
  {
    hide Inspect, Accepted, Loaded, Overlay, Zeros;
    r := InspectImage(image);
    if r.Err? { return; }
    InspectAccepts(image);
    var p := r.value;
    if destination.Length < p.span { return Err(DestinationTooSmall); }
    Store(destination, 0, Zeros(p.span));
    assert destination[..p.span] == Zeros(p.span) by { assert destination[0..p.span] == destination[..p.span]; }
    NothingLoaded(p, image, destination[..p.span]);
    LoadSegments(image, destination, p);
  }

  /** The copy of every segment's bytes from the file. */
  method LoadSegments(image: seq<byte>, destination: array<byte>, p: Plan)
    requires Accepted(p, |image|) && Planned(p, |image|) && p.span <= destination.Length
    requires Loaded(p, image, destination[..p.span], 0)
    modifies destination
    ensures Loaded(p, image, destination[..p.span], |p.segments|)
    ensures destination[p.span..] == old(destination[p.span..])
  {
    hide Accepted, Planned, Loaded, Overlay;
    ghost var rest := destination[p.span..];
    for k := 0 to |p.segments|
      invariant Loaded(p, image, destination[..p.span], k)
      invariant destination[p.span..] == rest
    {
      var s := p.segments[k];
      ghost var was := destination[..];
      CopyLoads(p, image, destination[..p.span], k);
      var data := image[s.fileOffset..s.fileOffset + s.fileSize];
      OverlayWithin(was, p.span, s.vaddr - p.base, data);
      assert was[..p.span] == destination[..p.span] && was[p.span..] == destination[p.span..];
      Store(destination, s.vaddr - p.base, data);
      assert destination[..p.span] == destination[..][..p.span] && destination[p.span..] == destination[..][p.span..];
    }
  }

  lemma OverlayWithin(s: seq<byte>, span: nat, at: nat, data: seq<byte>)
    requires at + |data| <= span <= |s|
    ensures Overlay(s, at, data)[..span] == Overlay(s[..span], at, data)
    ensures Overlay(s, at, data)[span..] == s[span..]
  {
  }

  lemma NothingLoaded(p: Plan, image: seq<byte>, out: seq<byte>)
    requires Accepted(p, |image|) && |out| == p.span && forall x :: 0 <= x < |out| ==> out[x] == 0
    ensures Planned(p, |image|) && Loaded(p, image, out, 0)
  {
  }
}
