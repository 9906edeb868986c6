/** kernel/app_runtime.c: laying out an accepted ELF image in a fresh address space. */
module AppImage {
  import opened Bytes
  import opened Options
  import opened PageTree
  import opened Paging
  import opened PagingCopy
  import E = Elf
  import L = ElfLoader

  const STACK_SIZE: nat := 16 * PAGE_SIZE
  const STACK_TOP: nat := USER_LIMIT - PAGE_SIZE
  const STACK_START: nat := STACK_TOP - STACK_SIZE

  // --------------------------------------------------------------------------------------
  // What processes see

  /** All spaces as their processes see them: pages with rights, and bytes. */
  datatype Seen = Seen(view: map<Loc, Leaf>, bytes: map<Frame, seq<byte>>)

  datatype Access = Access(writable: bool, executable: bool)

  ghost function ByteIn(s: Seen, j: nat, a: nat): Option<byte> {
    ByteAt(s.view, s.bytes, j, a)
  }

  ghost function AccessIn(s: Seen, j: nat, a: nat): Option<Access> {
    if PageAt(j, a) in s.view then Some(Access(s.view[PageAt(j, a)].writable, s.view[PageAt(j, a)].executable)) else None
  }

  /** Exactly one run of pages of one space has become zeroed memory with these rights. */
  ghost predicate MapsRun(before: Seen, after: Seen, id: nat, first: nat, count: nat, access: Access) {
    && (forall j: nat, a: nat ::
          ByteIn(after, j, a) == if j == id && first <= a / PAGE_SIZE < first + count then Some(0) else ByteIn(before, j, a))
    && (forall j: nat, a: nat ::
          AccessIn(after, j, a) == if j == id && first <= a / PAGE_SIZE < first + count then Some(access) else AccessIn(before, j, a))
  }

  ghost function SeenIn(s: State): Seen
    requires Tree(s.tables, s.nodes)
  {
    Seen(Flat(s.tables, s.nodes), s.bytes)
  }

  lemma OldPageSeen(kernel: Table, s: State, t: State, id: nat, l: Loc)
    requires Ok(kernel, s) && Ok(kernel, t) && Grown(s, t, id)
    requires Tree(s.tables, s.nodes) && Tree(t.tables, t.nodes)
    requires l in Flat(s.tables, s.nodes) && l in Flat(t.tables, t.nodes) && Flat(t.tables, t.nodes)[l] == Flat(s.tables, s.nodes)[l]
    ensures var f := Flat(s.tables, s.nodes)[l].frame;
            f in s.bytes && f in t.bytes && t.bytes[f] == s.bytes[f]
  {
    hide Ok, Tree, FlatLeaf;
    LeafFrame(s.tables, s.nodes, l);
    LeafFrame(t.tables, t.nodes, l);
    LiveNodes(kernel, s);
    LiveNodes(kernel, t);
  }

  /** paging_user_map_anonymous, as processes see it. */
  lemma MappedSeen(kernel: Table, s: State, t: State, id: nat, first: nat, count: nat, writable: bool, executable: bool, nx: bool)
    requires Ok(kernel, s) && Ok(kernel, t) && Grown(s, t, id) && Mapped(s, t, id, first, count, writable, executable, nx)
    ensures Tree(s.tables, s.nodes) && Tree(t.tables, t.nodes)
    ensures MapsRun(SeenIn(s), SeenIn(t), id, first, count, Access(writable, executable || !nx))
  {
    hide Ok, Tree, Grown, Flat, Mapped, MapsRun;
    MappedTrees(s, t, id, first, count, writable, executable, nx);
    assert MapsRun(SeenIn(s), SeenIn(t), id, first, count, Access(writable, executable || !nx)) by {
      forall j: nat, a: nat
        ensures ByteIn(SeenIn(t), j, a) == (if j == id && first <= a / PAGE_SIZE < first + count then Some(0) else ByteIn(SeenIn(s), j, a))
        ensures AccessIn(SeenIn(t), j, a)
             == (if j == id && first <= a / PAGE_SIZE < first + count then Some(Access(writable, executable || !nx)) else AccessIn(SeenIn(s), j, a))
      {
        PageSeen(kernel, s, t, id, first, count, writable, executable, nx, j, a);
      }
      MapsRunFrom(SeenIn(s), SeenIn(t), id, first, count, Access(writable, executable || !nx));
    }
  }

  lemma MapsRunFrom(before: Seen, after: Seen, id: nat, first: nat, count: nat, access: Access)
    requires forall j: nat, a: nat ::
               ByteIn(after, j, a) == if j == id && first <= a / PAGE_SIZE < first + count then Some(0) else ByteIn(before, j, a)
    requires forall j: nat, a: nat ::
               AccessIn(after, j, a) == if j == id && first <= a / PAGE_SIZE < first + count then Some(access) else AccessIn(before, j, a)
    ensures MapsRun(before, after, id, first, count, access)
  {
  }

  lemma PageSeen(kernel: Table, s: State, t: State, id: nat, first: nat, count: nat, writable: bool, executable: bool, nx: bool,
                 j: nat, a: nat)
    requires Ok(kernel, s) && Ok(kernel, t) && Grown(s, t, id) && Mapped(s, t, id, first, count, writable, executable, nx)
    requires Tree(s.tables, s.nodes) && Tree(t.tables, t.nodes)
    ensures var isNew := j == id && first <= a / PAGE_SIZE < first + count;
            && ByteIn(SeenIn(t), j, a) == (if isNew then Some(0) else ByteIn(SeenIn(s), j, a))
            && AccessIn(SeenIn(t), j, a) == if isNew then Some(Access(writable, executable || !nx)) else AccessIn(SeenIn(s), j, a)
  {
    hide Ok, Tree, Grown, Flat;
    var l := PageAt(j, a);
    assert InRange(l, id, first, count) <==> j == id && first <= a / PAGE_SIZE < first + count;
    if l in Flat(s.tables, s.nodes) {
      OldPageSeen(kernel, s, t, id, l);
    }
  }

  /** Every process but one sees what it saw. */
  ghost predicate OthersSee(before: Seen, now: Seen, id: nat) {
    forall j: nat, a: nat :: j != id ==> ByteIn(now, j, a) == ByteIn(before, j, a) && AccessIn(now, j, a) == AccessIn(before, j, a)
  }

  /** Every process sees what it saw. */
  ghost predicate AllSee(before: Seen, now: Seen) {
    forall j: nat, a: nat :: ByteIn(now, j, a) == ByteIn(before, j, a) && AccessIn(now, j, a) == AccessIn(before, j, a)
  }

  /** Every space but one is what it was, page for page. */
  ghost predicate OthersKeep(s: State, t: State, id: nat) {
    && t.spaces.Keys == s.spaces.Keys
    && (forall j :: j in s.spaces && j != id ==> t.spaces[j] == s.spaces[j])
    && (forall l: Loc :: l.id != id ==> (l in t.nodes <==> l in s.nodes))
    && (forall l: Loc :: l.id != id && l in s.nodes && l in t.nodes ==> t.nodes[l] == s.nodes[l])
  }

  lemma GrownKeeps(s: State, t: State, id: nat)
    requires Grown(s, t, id)
    ensures OthersKeep(s, t, id)
  {
  }

  lemma KeepTransitive(s: State, t: State, u: State, id: nat)
    requires OthersKeep(s, t, id) && OthersKeep(t, u, id)
    ensures OthersKeep(s, u, id)
  {
  }

  /** A refused mapping, as processes see it. */
  lemma RefusedSeen(kernel: Table, s: State, t: State, id: nat)
    requires Ok(kernel, s) && Ok(kernel, t) && Grown(s, t, id) && Tree(s.tables, s.nodes) && Tree(t.tables, t.nodes)
    requires Flat(t.tables, t.nodes) == Flat(s.tables, s.nodes)
    ensures AllSee(SeenIn(s), SeenIn(t))
  {
    hide Ok, Tree, Grown, Flat;
    forall j: nat, a: nat
      ensures ByteIn(SeenIn(t), j, a) == ByteIn(SeenIn(s), j, a) && AccessIn(SeenIn(t), j, a) == AccessIn(SeenIn(s), j, a)
    {
      var l := PageAt(j, a);
      if l in Flat(s.tables, s.nodes) { OldPageSeen(kernel, s, t, id, l); }
    }
  }

  // --------------------------------------------------------------------------------------
  // The pages of a plan

  ghost predicate Touched(p: E.Plan, a: nat) {
    E.AnyTouches(p, E.PageDown(a))
  }

  ghost function ImageAccess(p: E.Plan, nx: bool, a: nat): Access {
    Access(E.AnyWrites(p, E.PageDown(a)), E.AnyExecutes(p, E.PageDown(a)) || !nx)
  }

  /** The pages of the plan below `page` are zeroed memory with their rights. */
  ghost predicate Prepared(before: Seen, now: Seen, id: nat, p: E.Plan, nx: bool, page: nat) {
    && (forall j: nat, a: nat ::
          ByteIn(now, j, a) == if j == id && E.PageDown(a) < page && Touched(p, a) then Some(0) else ByteIn(before, j, a))
    && (forall j: nat, a: nat ::
          AccessIn(now, j, a) == if j == id && E.PageDown(a) < page && Touched(p, a) then Some(ImageAccess(p, nx, a))
                                 else AccessIn(before, j, a))
  }

  lemma InsideBounds(p: E.Plan, imageSize: nat, i: nat)
    requires E.Accepted(p, imageSize) && i < |p.segments|
    ensures p.base <= p.segments[i].vaddr && p.segments[i].End() <= p.end
  {
    hide E.Enters, E.SegmentOk, E.PairOk;
  }

  lemma NothingBefore(p: E.Plan, imageSize: nat, a: nat)
    requires E.Accepted(p, imageSize) && Touched(p, a)
    ensures E.PageDown(p.base) <= E.PageDown(a) < E.PageUp(p.end)
  {
    hide E.Accepted, E.PageDown, E.PageUp, E.Touches;
    var i: nat :| i < |p.segments| && E.Touches(p.segments[i], E.PageDown(a));
    PageIsAligned(a);
    E.PageCovers(p.segments[i], E.PageDown(a));
    InsideBounds(p, imageSize, i);
    Monotone(p.base, p.segments[i].vaddr);
    Monotone(p.segments[i].End(), p.end);
  }

  lemma Monotone(x: nat, y: nat)
    requires x <= y
    ensures E.PageDown(x) <= E.PageDown(y) && E.PageUp(x) <= E.PageUp(y)
  {
  }

  lemma PreparedStart(before: Seen, id: nat, p: E.Plan, imageSize: nat, nx: bool)
    requires E.Accepted(p, imageSize)
    ensures Prepared(before, before, id, p, nx, E.PageDown(p.base))
  {
    hide E.Accepted, Touched, E.PageDown;
    forall a: nat ensures !(E.PageDown(a) < E.PageDown(p.base) && Touched(p, a)) {
      if Touched(p, a) { NothingBefore(p, imageSize, a); }
    }
  }

  lemma PageNumber(a: nat, page: nat)
    requires page % PAGE_SIZE == 0
    ensures E.PageDown(a) == page <==> a / PAGE_SIZE == page / PAGE_SIZE
    ensures E.PageDown(a) < page + PAGE_SIZE <==> E.PageDown(a) < page || E.PageDown(a) == page
  {
  }

  /** One page of the first loop. */
  lemma PreparedNext(before: Seen, mid: Seen, now: Seen, id: nat, p: E.Plan, nx: bool, page: nat)
    requires Prepared(before, mid, id, p, nx, page) && page % PAGE_SIZE == 0
    requires if E.AnyTouches(p, page)
             then MapsRun(mid, now, id, page / PAGE_SIZE, 1, Access(E.AnyWrites(p, page), E.AnyExecutes(p, page) || !nx))
             else now == mid
    ensures Prepared(before, now, id, p, nx, page + PAGE_SIZE)
  {
    hide E.AnyTouches, E.AnyWrites, E.AnyExecutes, E.PageDown, ByteIn, AccessIn;
    forall j: nat, a: nat
      ensures ByteIn(now, j, a)
           == (if j == id && E.PageDown(a) < page + PAGE_SIZE && Touched(p, a) then Some(0) else ByteIn(before, j, a))
      ensures AccessIn(now, j, a)
           == (if j == id && E.PageDown(a) < page + PAGE_SIZE && Touched(p, a) then Some(ImageAccess(p, nx, a)) else AccessIn(before, j, a))
    {
      PageNumber(a, page);
    }
  }

  // --------------------------------------------------------------------------------------
  // The bytes of a plan

  ghost predicate Backed(p: E.Plan, k: nat, a: nat)
    requires k <= |p.segments|
  {
    exists i: nat :: i < k && L.Backs(p.segments[i], a)
  }

  /** The byte of the image at `a`, once the first `k` segments are loaded. */
  ghost function Content(p: E.Plan, image: seq<byte>, k: nat, a: nat): byte
    requires k <= |p.segments| && E.Planned(p, |image|)
  {
    if Backed(p, k, a) then
      var i: nat :| i < k && L.Backs(p.segments[i], a);
      FileByteAt(p, image, i, a)
    else 0
  }

  ghost function FileByteAt(p: E.Plan, image: seq<byte>, i: nat, a: nat): byte
    requires E.Planned(p, |image|) && i < |p.segments| && L.Backs(p.segments[i], a)
  {
    assert E.SegmentOk(p.segments[i], |image|);
    image[p.segments[i].fileOffset + (a - p.segments[i].vaddr)]
  }

  lemma ContentNext(p: E.Plan, image: seq<byte>, k: nat, a: nat)
    requires k < |p.segments| && E.Planned(p, |image|)
    ensures Content(p, image, k + 1, a)
         == if L.Backs(p.segments[k], a) then FileByteAt(p, image, k, a) else Content(p, image, k, a)
  {
    hide E.Planned, L.Backs;
    if L.Backs(p.segments[k], a) {
      assert Backed(p, k + 1, a);
      var i: nat :| i < k + 1 && L.Backs(p.segments[i], a) && Content(p, image, k + 1, a) == FileByteAt(p, image, i, a);
      L.OneBacks(p, |image|, i, k, a);
    } else if Backed(p, k, a) {
      var i: nat :| i < k && L.Backs(p.segments[i], a) && Content(p, image, k, a) == FileByteAt(p, image, i, a);
      assert Backed(p, k + 1, a);
      var j: nat :| j < k + 1 && L.Backs(p.segments[j], a) && Content(p, image, k + 1, a) == FileByteAt(p, image, j, a);
      L.OneBacks(p, |image|, i, j, a);
    }
  }

  /** The plan's pages hold the first `k` segments, and nothing else has changed. */
  ghost predicate Filled(before: Seen, now: Seen, id: nat, p: E.Plan, image: seq<byte>, k: nat)
    requires k <= |p.segments| && E.Planned(p, |image|)
  {
    forall j: nat, a: nat ::
      ByteIn(now, j, a) == if j == id && Touched(p, a) then Some(Content(p, image, k, a)) else ByteIn(before, j, a)
  }

  ghost predicate Protected(before: Seen, now: Seen, id: nat, p: E.Plan, nx: bool) {
    forall j: nat, a: nat ::
      AccessIn(now, j, a) == if j == id && Touched(p, a) then Some(ImageAccess(p, nx, a)) else AccessIn(before, j, a)
  }

  lemma PreparedIsFilled(before: Seen, now: Seen, id: nat, p: E.Plan, image: seq<byte>, nx: bool)
    requires E.Accepted(p, |image|) && Prepared(before, now, id, p, nx, E.PageUp(p.end))
    ensures E.Planned(p, |image|) && Filled(before, now, id, p, image, 0) && Protected(before, now, id, p, nx)
  {
    hide Touched, E.PageDown, ByteIn, AccessIn, ImageAccess, E.Planned;
    forall a: nat ensures Touched(p, a) ==> E.PageDown(a) < E.PageUp(p.end) {
      if Touched(p, a) { NothingBefore(p, |image|, a); }
    }
    assert forall a: nat :: Content(p, image, 0, a) == 0;
  }

  lemma BackedIsTouched(p: E.Plan, imageSize: nat, k: nat, a: nat)
    requires E.Planned(p, imageSize) && k < |p.segments| && p.segments[k].vaddr <= a < p.segments[k].End()
    ensures Touched(p, a)
  {
    hide E.Planned;
    AddressOnPage(a);
    assert E.Touches(p.segments[k], E.PageDown(a));
  }

  lemma AddressOnPage(a: nat)
    ensures E.PageDown(a) <= a < E.PageDown(a) + PAGE_SIZE
  {
  }

  /** One segment of the second loop. */
  lemma FilledNext(before: Seen, mid: Seen, now: Seen, id: nat, p: E.Plan, image: seq<byte>, k: nat)
    requires k < |p.segments| && E.Planned(p, |image|) && Filled(before, mid, id, p, image, k)
    requires var s := p.segments[k];
             && s.fileOffset + s.fileSize <= |image| && now.view == mid.view
             && Wrote(mid.view, mid.bytes, now.bytes, id, s.vaddr, image[s.fileOffset..s.fileOffset + s.fileSize])
    ensures Filled(before, now, id, p, image, k + 1)
  {
    hide E.Planned, Touched, ByteAt;
    var s := p.segments[k];
    var data := image[s.fileOffset..s.fileOffset + s.fileSize];
    forall j: nat, a: nat
      ensures ByteIn(now, j, a) == if j == id && Touched(p, a) then Some(Content(p, image, k + 1, a)) else ByteIn(before, j, a)
    {
      ContentNext(p, image, k, a);
      FileIsInMemory(p, |image|, k);
      assert ByteAt(now.view, now.bytes, j, a)
          == if j == id && L.Backs(s, a) then Some(data[a - s.vaddr]) else ByteAt(mid.view, mid.bytes, j, a);
      if L.Backs(s, a) {
        BackedIsTouched(p, |image|, k, a);
        assert data[a - s.vaddr] == FileByteAt(p, image, k, a);
      }
      assert ByteIn(mid, j, a) == if j == id && Touched(p, a) then Some(Content(p, image, k, a)) else ByteIn(before, j, a);
    }
  }

  lemma FileIsInMemory(p: E.Plan, imageSize: nat, k: nat)
    requires E.Planned(p, imageSize) && k < |p.segments|
    ensures p.segments[k].fileSize <= p.segments[k].memorySize
    ensures p.segments[k].fileOffset + p.segments[k].fileSize <= imageSize
    ensures USER_BASE <= p.segments[k].vaddr && p.segments[k].vaddr + p.segments[k].fileSize <= USER_LIMIT
  {
    assert E.SegmentOk(p.segments[k], imageSize);
  }

  /** A segment with no bytes in the file fills nothing. */
  lemma FilledSkip(before: Seen, now: Seen, id: nat, p: E.Plan, image: seq<byte>, k: nat)
    requires k < |p.segments| && E.Planned(p, |image|) && Filled(before, now, id, p, image, k) && p.segments[k].fileSize == 0
    ensures Filled(before, now, id, p, image, k + 1)
  {
    hide E.Planned, Touched, ByteIn;
    forall a: nat ensures Content(p, image, k + 1, a) == Content(p, image, k, a) {
      ContentNext(p, image, k, a);
    }
  }

  // --------------------------------------------------------------------------------------
  // The finished process

  predicate InStack(a: nat) {
    STACK_START <= a < STACK_TOP
  }

  predicate MeetsStack(p: E.Plan) {
    E.Overlap(E.PageDown(p.base), E.PageUp(p.end), STACK_START, STACK_TOP)
  }

  /** The process sees its image and a zeroed stack and nothing else; every other process sees
      what it saw before. */
  ghost predicate Launched(before: Seen, now: Seen, id: nat, p: E.Plan, image: seq<byte>, nx: bool)
    requires E.Planned(p, |image|)
  {
    && (forall j: nat, a: nat ::
          ByteIn(now, j, a) == if j != id then ByteIn(before, j, a)
                               else if Touched(p, a) then Some(Content(p, image, |p.segments|, a))
                               else if InStack(a) then Some(0) else None)
    && (forall j: nat, a: nat ::
          AccessIn(now, j, a) == if j != id then AccessIn(before, j, a)
                                 else if Touched(p, a) then Some(ImageAccess(p, nx, a))
                                 else if InStack(a) then Some(Access(true, !nx)) else None)
  }

  /** With no-execute support no page of a launched process is writable and executable. */
  lemma LaunchedKeepsCodeReadOnly(before: Seen, now: Seen, id: nat, p: E.Plan, image: seq<byte>, a: nat)
    requires E.Accepted(p, |image|) && Launched(before, now, id, p, image, true)
    ensures AccessIn(now, id, a).Some? ==> !(AccessIn(now, id, a).value.writable && AccessIn(now, id, a).value.executable)
  {
    hide E.Accepted, E.PageDown, E.AnyWrites, E.AnyExecutes, AccessIn, ByteIn;
    PageIsAligned(a);
    E.NoWritableCode(p, |image|, E.PageDown(a));
  }

  lemma PageIsAligned(a: nat)
    ensures E.PageDown(a) % PAGE_SIZE == 0
  {
  }

  lemma StackMapped(before: Seen, mid: Seen, now: Seen, id: nat, p: E.Plan, image: seq<byte>, nx: bool)
    requires E.Accepted(p, |image|) && !MeetsStack(p)
    requires NoPages(before, id)
    requires E.Planned(p, |image|)
    requires Filled(before, mid, id, p, image, |p.segments|) && Protected(before, mid, id, p, nx)
    requires MapsRun(mid, now, id, STACK_START / PAGE_SIZE, STACK_SIZE / PAGE_SIZE, Access(true, !nx))
    ensures Launched(before, now, id, p, image, nx)
  {
    hide E.Accepted, Touched, Content, ImageAccess;
    forall j: nat, a: nat
      ensures ByteIn(now, j, a) == (if j != id then ByteIn(before, j, a)
                                    else if Touched(p, a) then Some(Content(p, image, |p.segments|, a))
                                    else if InStack(a) then Some(0) else None)
      ensures AccessIn(now, j, a) == (if j != id then AccessIn(before, j, a)
                                      else if Touched(p, a) then Some(ImageAccess(p, nx, a))
                                      else if InStack(a) then Some(Access(true, !nx)) else None)
    {
      StackPages(a);
      if Touched(p, a) {
        NothingBefore(p, |image|, a);
        OffStack(p, a);
      }
    }
  }

  lemma StackPages(a: nat)
    ensures InStack(a) <==> STACK_START / PAGE_SIZE <= a / PAGE_SIZE < STACK_START / PAGE_SIZE + STACK_SIZE / PAGE_SIZE
  {
  }

  lemma OffStack(p: E.Plan, a: nat)
    requires !MeetsStack(p) && E.PageDown(p.base) <= E.PageDown(a) < E.PageUp(p.end)
    ensures !InStack(a)
  {
  }

  // --------------------------------------------------------------------------------------
  // map_and_load_image

  /** The space has no pages yet. */
  ghost predicate NoPages(s: Seen, id: nat) {
    forall l :: l in s.view ==> l.id != id
  }

  ghost function SeenBy(m: Machine): Seen
    requires Tree(m.tables, m.nodes)
    reads m
  {
    Seen(m.View(), m.bytes)
  }

  /** One used page of the plan. */
  method MapPlanPage(m: Machine, id: nat, page: nat, rights: E.Rights) returns (ok: bool)
    requires m.Valid() && id in m.spaces && Tree(m.tables, m.nodes)
    requires page % PAGE_SIZE == 0 && USER_BASE <= page < USER_LIMIT
    requires PageAt(id, page) !in m.View()
    modifies m`tables, m`bytes, m`spaces, m`nodes, m`refusals
    ensures m.Valid() && id in m.spaces && Tree(m.tables, m.nodes)
    ensures ok ==> MapsRun(old(SeenBy(m)), SeenBy(m), id, page / PAGE_SIZE, 1, Access(rights.writable, rights.executable || !m.nx))
    ensures !ok ==> m.refusals > old(m.refusals) && AllSee(old(SeenBy(m)), SeenBy(m))
    ensures m.refusals >= old(m.refusals) && OthersKeep(old(m.S()), m.S(), id)
  {
    hide Ok, Tree, Flat, Grown, Mapped, MapsRun, AllSee, OthersKeep;
    ghost var s := m.S();
    ok := m.MapAnonymous(id, page, PAGE_SIZE, rights.writable, rights.executable);
    OkTree(m.kernel, m.S());
    GrownFacts(s, m.S(), id);
    GrownKeeps(s, m.S(), id);
    if !ok {
      RefusedSeen(m.kernel, s, m.S(), id);
    } else {
      MappedSeen(m.kernel, s, m.S(), id, page / PAGE_SIZE, 1, rights.writable, rights.executable, m.nx);
    }
  }

  lemma PlanPages(p: E.Plan, imageSize: nat)
    requires E.Accepted(p, imageSize)
    ensures E.PageDown(p.base) % PAGE_SIZE == 0 && E.PageUp(p.end) % PAGE_SIZE == 0
    ensures USER_BASE <= E.PageDown(p.base) < E.PageUp(p.end) <= USER_LIMIT
  {
    hide E.Enters, E.PairOk;
    var a :| 0 <= a < |p.segments| && p.segments[a].vaddr == p.base;
    var b :| 0 <= b < |p.segments| && p.segments[b].End() == p.end;
    assert E.SegmentOk(p.segments[a], imageSize) && E.SegmentOk(p.segments[b], imageSize);
    RoundedBounds(p.base, p.end);
  }

  lemma RoundedBounds(base: nat, end: nat)
    requires USER_BASE <= base < end <= USER_LIMIT
    ensures E.PageDown(base) % PAGE_SIZE == 0 && E.PageUp(end) % PAGE_SIZE == 0
    ensures USER_BASE <= E.PageDown(base) < E.PageUp(end) <= USER_LIMIT
  {
  }

  lemma NotYetMapped(before: Seen, now: Seen, id: nat, p: E.Plan, nx: bool, page: nat)
    requires Prepared(before, now, id, p, nx, page) && NoPages(before, id) && page % PAGE_SIZE == 0
    ensures PageAt(id, page) !in now.view
  {
    hide Touched, ImageAccess, ByteIn;
    assert E.PageDown(page) == page;
    assert AccessIn(now, id, page) == AccessIn(before, id, page) == None;
  }

  /** The first loop: every used page of the plan, as zeroed memory. No page is refused for its
      rights. */
  method MapPlan(m: Machine, id: nat, p: E.Plan, ghost imageSize: nat) returns (ok: bool)
    requires m.Valid() && id in m.spaces && Tree(m.tables, m.nodes)
    requires E.Accepted(p, imageSize) && NoPages(SeenBy(m), id)
    modifies m`tables, m`bytes, m`spaces, m`nodes, m`refusals
    ensures m.Valid() && id in m.spaces && Tree(m.tables, m.nodes) && m.refusals >= old(m.refusals)
    ensures OthersSee(old(SeenBy(m)), SeenBy(m), id) && OthersKeep(old(m.S()), m.S(), id)
    ensures ok ==> Prepared(old(SeenBy(m)), SeenBy(m), id, p, m.nx, E.PageUp(p.end))
    ensures !ok ==> m.refusals > old(m.refusals)
  {
    hide AllSee, OthersSee, OthersKeep, Ok, Tree, Flat, Prepared, MapsRun, E.Accepted, NoPages, E.PageDown, E.PageUp;
    ghost var before, s := SeenBy(m), m.S();
    KeepReflexive(s, id);
    PlanPages(p, imageSize);
    PreparedStart(before, id, p, imageSize, m.nx);
    var page, final := E.PageDown(p.base), E.PageUp(p.end);
    while page < final
      invariant page <= final && page % PAGE_SIZE == 0 && USER_BASE <= page
      invariant m.Valid() && id in m.spaces && Tree(m.tables, m.nodes) && m.refusals >= old(m.refusals)
      invariant Prepared(before, SeenBy(m), id, p, m.nx, page) && OthersKeep(s, m.S(), id)
    {
      ghost var mid, t := SeenBy(m), m.S();
      NotYetMapped(before, mid, id, p, m.nx, page);
      E.NoWritableCode(p, imageSize, page);
      var allowed, rights := L.PagePermissions(p, page);
      assert allowed;
      if rights.used {
        var mapped := MapPlanPage(m, id, page, rights);
        KeepTransitive(s, t, m.S(), id);
        if !mapped {
          PreparedLeavesOthers(before, mid, SeenBy(m), id, p, m.nx, page);
          return false;
        }
      }
      PreparedNext(before, mid, SeenBy(m), id, p, m.nx, page);
      page := page + PAGE_SIZE;
    }
    SeeReflexive(SeenBy(m));
    PreparedLeavesOthers(before, SeenBy(m), SeenBy(m), id, p, m.nx, page);
    return true;
  }

  lemma KeepReflexive(s: State, id: nat)
    ensures OthersKeep(s, s, id)
  {
  }

  lemma SeeReflexive(s: Seen)
    ensures AllSee(s, s)
  {
  }

  lemma PreparedLeavesOthers(before: Seen, mid: Seen, now: Seen, id: nat, p: E.Plan, nx: bool, page: nat)
    requires Prepared(before, mid, id, p, nx, page) && AllSee(mid, now)
    ensures OthersSee(before, now, id)
  {
    hide ByteIn, AccessIn, Touched, ImageAccess, E.PageDown;
  }

  lemma LoadedLeavesOthers(before: Seen, mid: Seen, now: Seen, id: nat, p: E.Plan, image: seq<byte>, nx: bool)
    requires E.Planned(p, |image|) && Filled(before, mid, id, p, image, |p.segments|) && Protected(before, mid, id, p, nx)
    requires AllSee(mid, now)
    ensures OthersSee(before, now, id)
  {
    hide ByteIn, AccessIn, Touched, ImageAccess, Content, E.Planned;
  }

  lemma LaunchLeavesOthers(before: Seen, now: Seen, id: nat, p: E.Plan, image: seq<byte>, nx: bool)
    requires E.Planned(p, |image|) && Launched(before, now, id, p, image, nx)
    ensures OthersSee(before, now, id)
  {
    hide ByteIn, AccessIn, Touched, ImageAccess, Content, E.Planned;
  }

  lemma SegmentAccessible(before: Seen, now: Seen, id: nat, p: E.Plan, imageSize: nat, nx: bool, k: nat)
    requires E.Planned(p, imageSize) && Protected(before, now, id, p, nx) && k < |p.segments|
    ensures AllAccessible(now.view, id, p.segments[k].vaddr, p.segments[k].fileSize, false)
  {
    hide E.Planned, Touched, ImageAccess;
    var s := p.segments[k];
    FileIsInMemory(p, imageSize, k);
    forall a: nat | s.vaddr <= a < s.vaddr + s.fileSize ensures Accessible(now.view, id, a, false) {
      BackedIsTouched(p, imageSize, k, a);
      assert AccessIn(now, id, a).Some?;
    }
  }

  /** The second loop: every segment's bytes from the file. */
  method LoadPlan(m: Machine, id: nat, p: E.Plan, image: seq<byte>, ghost before: Seen) returns (ok: bool)
    requires m.Valid() && id in m.spaces && Tree(m.tables, m.nodes) && E.Planned(p, |image|)
    requires Filled(before, SeenBy(m), id, p, image, 0) && Protected(before, SeenBy(m), id, p, m.nx)
    modifies m`bytes
    ensures m.Valid() && Tree(m.tables, m.nodes) && m.View() == old(m.View()) && ok
    ensures Filled(before, SeenBy(m), id, p, image, |p.segments|)
  {
    hide Ok, Tree, Flat, Filled, Protected, E.Planned, Wrote, AllAccessible;
    ghost var view := m.View();
    for k := 0 to |p.segments|
      invariant m.Valid() && Tree(m.tables, m.nodes) && m.View() == view
      invariant Filled(before, SeenBy(m), id, p, image, k)
    {
      var s := p.segments[k];
      ghost var mid := SeenBy(m);
      FileIsInMemory(p, |image|, k);
      if s.fileSize == 0 {
        FilledSkip(before, mid, id, p, image, k);
      } else {
        SameAccess(before, Seen(view, old(m.bytes)), mid, id, p, m.nx);
        SegmentAccessible(before, mid, id, p, |image|, m.nx, k);
        var copied := CopyToUser(m, id, s.vaddr, image[s.fileOffset..s.fileOffset + s.fileSize], false);
        assert copied;
        FilledNext(before, mid, SeenBy(m), id, p, image, k);
      }
    }
    return true;
  }

  /** Rights depend on the page map alone. */
  lemma SameAccess(before: Seen, now: Seen, later: Seen, id: nat, p: E.Plan, nx: bool)
    requires Protected(before, now, id, p, nx) && later.view == now.view
    ensures Protected(before, later, id, p, nx)
  {
    hide Touched, ImageAccess;
    forall j: nat, a: nat ensures AccessIn(later, j, a) == AccessIn(now, j, a) {
    }
  }

  lemma StackIsFree(before: Seen, mid: Seen, id: nat, p: E.Plan, imageSize: nat, nx: bool)
    requires E.Accepted(p, imageSize) && !MeetsStack(p) && NoPages(before, id) && Protected(before, mid, id, p, nx)
    ensures forall v: nat :: STACK_START / PAGE_SIZE <= v < STACK_START / PAGE_SIZE + STACK_SIZE / PAGE_SIZE ==> Loc(id, 4, v) !in mid.view
  {
    hide E.Accepted, Touched, ImageAccess, MeetsStack;
    forall v: nat | STACK_START / PAGE_SIZE <= v < STACK_START / PAGE_SIZE + STACK_SIZE / PAGE_SIZE ensures Loc(id, 4, v) !in mid.view {
      var a := v * PAGE_SIZE;
      assert PageAt(id, a) == Loc(id, 4, v);
      StackPages(a);
      if Touched(p, a) {
        NothingBefore(p, imageSize, a);
        OffStack(p, a);
      }
      assert AccessIn(mid, id, a) == None;
    }
  }

  /** map_and_load_image: unless the image meets the stack or memory runs out, the process sees
      exactly its image and its stack. Whatever comes of it, every other process sees what it saw. */
  method MapAndLoad(m: Machine, id: nat, p: E.Plan, image: seq<byte>) returns (ok: bool)
    requires m.Valid() && id in m.spaces && Tree(m.tables, m.nodes)
    requires E.Accepted(p, |image|) && E.Planned(p, |image|) && NoPages(SeenBy(m), id)
    modifies m`tables, m`bytes, m`spaces, m`nodes, m`refusals
    ensures m.Valid() && Tree(m.tables, m.nodes) && m.refusals >= old(m.refusals)
    ensures OthersSee(old(SeenBy(m)), SeenBy(m), id) && OthersKeep(old(m.S()), m.S(), id)
    ensures ok ==> !MeetsStack(p) && Launched(old(SeenBy(m)), SeenBy(m), id, p, image, m.nx)
    ensures !ok ==> MeetsStack(p) || m.refusals > old(m.refusals)
  {
    hide AllSee, OthersSee, OthersKeep, Ok, Tree, Flat, Prepared, Filled, Protected, Launched, MapsRun, E.Accepted, E.Planned, Mapped, Grown, MeetsStack;
    ghost var before, s := SeenBy(m), m.S();
    KeepReflexive(s, id);
    PlanPages(p, |image|);
    if E.PageDown(p.base) < USER_BASE || E.PageUp(p.end) > USER_LIMIT || E.PageDown(p.base) >= E.PageUp(p.end) {
      assert false;
      return false;
    }
    if MeetsStack(p) {
      SeeSelf(before, id);
      return false;
    }
    ok := MapPlan(m, id, p, |image|);
    if !ok { return; }
    PreparedIsFilled(before, SeenBy(m), id, p, image, m.nx);
    ghost var laid, t := SeenBy(m), m.S();
    ok := LoadPlan(m, id, p, image, before);
    SameAccess(before, laid, SeenBy(m), id, p, m.nx);
    KeepBytes(s, t, m.S(), id);
    ok := MapStack(m, id, p, image, before, s);
  }

  lemma SeeSelf(s: Seen, id: nat)
    ensures OthersSee(s, s, id)
  {
  }

  lemma KeepBytes(s: State, t: State, u: State, id: nat)
    requires OthersKeep(s, t, id) && u.spaces == t.spaces && u.nodes == t.nodes
    ensures OthersKeep(s, u, id)
  {
  }

  /** The last step of map_and_load_image. */
  method MapStack(m: Machine, id: nat, p: E.Plan, image: seq<byte>, ghost before: Seen, ghost s: State) returns (ok: bool)
    requires m.Valid() && id in m.spaces && Tree(m.tables, m.nodes)
    requires E.Accepted(p, |image|) && E.Planned(p, |image|) && !MeetsStack(p) && NoPages(before, id)
    requires Filled(before, SeenBy(m), id, p, image, |p.segments|) && Protected(before, SeenBy(m), id, p, m.nx)
    requires OthersKeep(s, m.S(), id)
    modifies m`tables, m`bytes, m`spaces, m`nodes, m`refusals
    ensures m.Valid() && Tree(m.tables, m.nodes) && m.refusals >= old(m.refusals)
    ensures OthersSee(before, SeenBy(m), id) && OthersKeep(s, m.S(), id)
    ensures ok ==> Launched(before, SeenBy(m), id, p, image, m.nx)
    ensures !ok ==> m.refusals > old(m.refusals)
  {
    hide AllSee, OthersSee, OthersKeep, Ok, Tree, Flat, Filled, Protected, Launched, MapsRun, E.Accepted, E.Planned, Mapped, Grown, MeetsStack;
    ghost var t, mid := m.S(), SeenBy(m);
    StackIsFree(before, mid, id, p, |image|, m.nx);
    ok := m.MapAnonymous(id, STACK_START, STACK_SIZE, true, false);
    OkTree(m.kernel, m.S());
    GrownKeeps(t, m.S(), id);
    KeepTransitive(s, t, m.S(), id);
    if ok {
      MappedSeen(m.kernel, t, m.S(), id, STACK_START / PAGE_SIZE, STACK_SIZE / PAGE_SIZE, true, false, m.nx);
      StackMapped(before, mid, SeenBy(m), id, p, image, m.nx);
      LaunchLeavesOthers(before, SeenBy(m), id, p, image, m.nx);
    } else {
      assert RangeOk(STACK_START, STACK_SIZE);
      RefusedSeen(m.kernel, t, m.S(), id);
      LoadedLeavesOthers(before, mid, SeenBy(m), id, p, image, m.nx);
    }
  }

  // --------------------------------------------------------------------------------------
  // app_runtime_spawn_with_argument

  datatype LaunchResult = NxRequired | InvalidImage | OutOfMemory | MappingFailed | ProcessFailed | Running

  /** Nothing is left of a launch: the same spaces with the same pages, what every process sees,
      and the same pages in use. */
  ghost predicate Untouched(before: Seen, s: State, now: Seen, t: State) {
    t.spaces == s.spaces && t.nodes == s.nodes && t.bytes.Keys == s.bytes.Keys && now.view == before.view && AllSee(before, now)
  }

  /** The launch as far as memory goes. `catalog` is the plan from when the image was registered;
      `tracked` is whether process table and scheduler take the process. A launch that fails,
      at whatever step, leaves nothing behind. */
  method Launch(m: Machine, id: nat, image: seq<byte>, catalog: E.Plan, tracked: bool) returns (r: LaunchResult)
    requires m.Valid() && id !in m.spaces && Tree(m.tables, m.nodes)
    modifies m`tables, m`bytes, m`spaces, m`nodes, m`refusals
    ensures m.Valid() && Tree(m.tables, m.nodes)
    ensures r != Running ==> Untouched(old(SeenBy(m)), old(m.S()), SeenBy(m), m.S())
    ensures r == Running ==>
              && E.Inspect(image) == E.Ok(catalog) && E.Planned(catalog, |image|) && m.nx && tracked && !MeetsStack(catalog)
              && Launched(old(SeenBy(m)), SeenBy(m), id, catalog, image, true) && m.spaces.Keys == old(m.spaces.Keys) + {id}
    ensures r == NxRequired <==> !m.nx
    ensures r == InvalidImage <==> m.nx && E.Inspect(image) != E.Ok(catalog)
    ensures r == OutOfMemory ==> m.kernel[2].present || m.kernel[3].present || m.refusals > old(m.refusals)
    ensures r == MappingFailed ==> MeetsStack(catalog) || m.refusals > old(m.refusals)
    ensures r == ProcessFailed ==> !tracked
  {
    hide AllSee, Ok, Tree, Flat, Launched, E.Inspect, E.Accepted, E.Planned, MeetsStack;
    SeeReflexive(SeenBy(m));
    if !m.nx { return NxRequired; }
    var plan := L.InspectImage(image);
    if plan != E.Ok(catalog) { return InvalidImage; }
    InspectGives(image);
    r := LaunchPlan(m, id, image, catalog, tracked);
  }

  method LaunchPlan(m: Machine, id: nat, image: seq<byte>, p: E.Plan, tracked: bool) returns (r: LaunchResult)
    requires m.Valid() && id !in m.spaces && Tree(m.tables, m.nodes) && m.nx && E.Accepted(p, |image|) && E.Planned(p, |image|)
    modifies m`tables, m`bytes, m`spaces, m`nodes, m`refusals
    ensures m.Valid() && Tree(m.tables, m.nodes)
    ensures r != Running ==> Untouched(old(SeenBy(m)), old(m.S()), SeenBy(m), m.S())
    ensures r == Running ==> tracked && !MeetsStack(p) && Launched(old(SeenBy(m)), SeenBy(m), id, p, image, true)
                             && m.spaces.Keys == old(m.spaces.Keys) + {id}
    ensures r != NxRequired && r != InvalidImage
    ensures r == OutOfMemory ==> m.kernel[2].present || m.kernel[3].present || m.refusals > old(m.refusals)
    ensures r == MappingFailed ==> MeetsStack(p) || m.refusals > old(m.refusals)
    ensures r == ProcessFailed ==> !tracked
  {
    hide AllSee, OthersSee, OthersKeep, Ok, Tree, Flat, Launched, E.Accepted, E.Planned, MeetsStack, NodesOf;
    ghost var before, s := SeenBy(m), m.S();
    SeeReflexive(before);
    var created := m.Create(id);
    OkTree(m.kernel, m.S());
    if !created { return OutOfMemory; }
    ghost var made, t := SeenBy(m), m.S();
    CreatedSeen(m.kernel, s, t, id);
    var mapped := MapAndLoad(m, id, p, image);
    ghost var u := m.S();
    KeptKeys(t, u, id);
    if mapped && tracked {
      LaunchedFrom(before, made, SeenBy(m), id, p, image);
      return Running;
    }
    m.Destroy(id);
    OkTree(m.kernel, m.S());
    DestroyedSeen(m.kernel, s, t, u, m.S(), id);
    return if mapped then ProcessFailed else MappingFailed;
  }

  lemma InspectGives(image: seq<byte>)
    requires E.Inspect(image).Ok?
    ensures E.Accepted(E.Inspect(image).value, |image|) && E.Planned(E.Inspect(image).value, |image|)
  {
    hide E.Inspect, E.Planned;
    E.InspectAccepts(image);
  }

  lemma KeptKeys(s: State, t: State, id: nat)
    requires OthersKeep(s, t, id)
    ensures t.spaces.Keys == s.spaces.Keys
  {
  }

  /** A new space is seen by nobody. */
  lemma CreatedSeen(kernel: Table, s: State, t: State, id: nat)
    requires Ok(kernel, s) && Tree(s.tables, s.nodes) && Tree(t.tables, t.nodes) && id !in s.spaces
    requires Flat(t.tables, t.nodes) == Flat(s.tables, s.nodes)
    requires forall f :: f in s.bytes ==> f in t.bytes && t.bytes[f] == s.bytes[f]
    ensures AllSee(SeenIn(s), SeenIn(t)) && NoPages(SeenIn(t), id)
  {
    hide Ok, Tree, FlatLeaf;
    LiveNodes(kernel, s);
    NoNodesYet(kernel, s, id);
    forall j: nat, a: nat
      ensures ByteIn(SeenIn(t), j, a) == ByteIn(SeenIn(s), j, a) && AccessIn(SeenIn(t), j, a) == AccessIn(SeenIn(s), j, a)
    {
      var l := PageAt(j, a);
      if l in Flat(s.tables, s.nodes) { LeafFrame(s.tables, s.nodes, l); }
    }
  }

  lemma LaunchedFrom(before: Seen, mid: Seen, now: Seen, id: nat, p: E.Plan, image: seq<byte>)
    requires E.Planned(p, |image|) && AllSee(before, mid) && Launched(mid, now, id, p, image, true)
    ensures Launched(before, now, id, p, image, true)
  {
    hide ByteIn, AccessIn, Touched, ImageAccess, Content, E.Planned;
  }

  /** Creating a space, working in it and destroying it leaves nothing. */
  lemma DestroyedSeen(kernel: Table, s: State, t: State, u: State, v: State, id: nat)
    requires Ok(kernel, s) && Ok(kernel, v) && id !in s.spaces
    requires Tree(s.tables, s.nodes) && Tree(t.tables, t.nodes) && Tree(u.tables, u.nodes) && Tree(v.tables, v.nodes)
    requires t.spaces.Keys == s.spaces.Keys + {id} && (forall j :: j in s.spaces ==> t.spaces[j] == s.spaces[j])
    requires Loc(id, 0, 0) in t.nodes && t.nodes == s.nodes[Loc(id, 0, 0) := t.nodes[Loc(id, 0, 0)]]
    requires AllSee(SeenIn(s), SeenIn(t)) && OthersSee(SeenIn(t), SeenIn(u), id) && OthersKeep(t, u, id)
    requires v.spaces == u.spaces - {id} && v.nodes == u.nodes - NodesOf(u.nodes, id)
    requires Flat(v.tables, v.nodes) == map l | l in Flat(u.tables, u.nodes) && l.id != id :: Flat(u.tables, u.nodes)[l]
    requires forall f :: f in v.bytes ==> f in u.bytes && v.bytes[f] == u.bytes[f]
    ensures Untouched(SeenIn(s), s, SeenIn(v), v)
  {
    hide Ok, Tree, Flat, AllSee, OthersSee, AllFrames, OthersKeep;
    SpacesRestored(s, t, u, v, id);
    NodesRestored(kernel, s, t, u, v, id);
    OkMemory(kernel, s);
    OkMemory(kernel, v);
    SeenRestored(kernel, s, t, u, v, id);
    ViewRestored(s, v);
  }

  lemma SpacesRestored(s: State, t: State, u: State, v: State, id: nat)
    requires id !in s.spaces
    requires t.spaces.Keys == s.spaces.Keys + {id} && (forall j :: j in s.spaces ==> t.spaces[j] == s.spaces[j])
    requires OthersKeep(t, u, id) && v.spaces == u.spaces - {id}
    ensures v.spaces == s.spaces
  {
    assert v.spaces.Keys == s.spaces.Keys;
  }

  lemma NodesRestored(kernel: Table, s: State, t: State, u: State, v: State, id: nat)
    requires Ok(kernel, s) && id !in s.spaces
    requires Loc(id, 0, 0) in t.nodes && t.nodes == s.nodes[Loc(id, 0, 0) := t.nodes[Loc(id, 0, 0)]]
    requires OthersKeep(t, u, id) && v.nodes == u.nodes - NodesOf(u.nodes, id)
    ensures v.nodes == s.nodes
  {
    hide Ok;
    NoNodesYet(kernel, s, id);
    forall l: Loc ensures l in v.nodes <==> l in s.nodes {
    }
  }

  lemma SeenRestored(kernel: Table, s: State, t: State, u: State, v: State, id: nat)
    requires Ok(kernel, s) && Ok(kernel, v) && id !in s.spaces
    requires Tree(s.tables, s.nodes) && Tree(t.tables, t.nodes) && Tree(u.tables, u.nodes) && Tree(v.tables, v.nodes)
    requires AllSee(SeenIn(s), SeenIn(t)) && OthersSee(SeenIn(t), SeenIn(u), id)
    requires Flat(v.tables, v.nodes) == map l | l in Flat(u.tables, u.nodes) && l.id != id :: Flat(u.tables, u.nodes)[l]
    requires forall f :: f in v.bytes ==> f in u.bytes && v.bytes[f] == u.bytes[f]
    ensures AllSee(SeenIn(s), SeenIn(v))
  {
    hide Ok, Tree, Flat;
    FlatOwners(kernel, s, id);
    forall j: nat, a: nat
      ensures ByteIn(SeenIn(v), j, a) == ByteIn(SeenIn(s), j, a) && AccessIn(SeenIn(v), j, a) == AccessIn(SeenIn(s), j, a)
    {
      var l := PageAt(j, a);
      if l in Flat(v.tables, v.nodes) {
        LeafIsLive(kernel, v, l);
      }
    }
  }

  lemma LeafIsLive(kernel: Table, s: State, l: Loc)
    requires Ok(kernel, s) && Tree(s.tables, s.nodes) && l in Flat(s.tables, s.nodes)
    ensures l in s.nodes && Flat(s.tables, s.nodes)[l].frame == s.nodes[l] && s.nodes[l] in s.bytes
  {
    hide Ok, Tree, FlatLeaf;
    LeafFrame(s.tables, s.nodes, l);
    LiveNodes(kernel, s);
  }

  /** Pages in the same places with the same rights are the same pages. */
  lemma ViewRestored(s: State, v: State)
    requires Tree(s.tables, s.nodes) && Tree(v.tables, v.nodes) && v.nodes == s.nodes && AllSee(SeenIn(s), SeenIn(v))
    ensures Flat(v.tables, v.nodes) == Flat(s.tables, s.nodes)
  {
    hide Tree, FlatLeaf;
    forall l | l in Flat(s.tables, s.nodes) ensures l in Flat(v.tables, v.nodes) && Flat(v.tables, v.nodes)[l] == Flat(s.tables, s.nodes)[l] {
      LeafFrame(s.tables, s.nodes, l);
      LeafFrame(v.tables, v.nodes, l);
      assert PageAt(l.id, l.prefix * PAGE_SIZE) == l;
      assert AccessIn(SeenIn(v), l.id, l.prefix * PAGE_SIZE) == AccessIn(SeenIn(s), l.id, l.prefix * PAGE_SIZE);
    }
    forall l | l in Flat(v.tables, v.nodes) ensures l in Flat(s.tables, s.nodes) {
      assert PageAt(l.id, l.prefix * PAGE_SIZE) == l;
      assert AccessIn(SeenIn(v), l.id, l.prefix * PAGE_SIZE) == AccessIn(SeenIn(s), l.id, l.prefix * PAGE_SIZE);
    }
  }
}
