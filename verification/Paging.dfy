/** kernel/paging.c: per-process address spaces over physical frames taken from a heap that may
    refuse, with page-by-page mapping, rollback and unmapping. */
module Paging {
  import opened Bytes
  import opened Options
  import opened PageTree

  /** One address space: its PML4 and the list of pages it owns, newest first. */
  datatype Space = Space(root: Frame, allocations: seq<Frame>)

  ghost predicate NoRepeats(s: seq<Frame>) {
    forall i, j :: 0 <= i < j < |s| ==> s[i] != s[j]
  }

  ghost predicate Lists(s: seq<Frame>, frames: set<Frame>) {
    NoRepeats(s) && forall f :: f in s <==> f in frames
  }

  ghost function AllFrames(nodes: map<Loc, Frame>): set<Frame> {
    set l | l in nodes :: nodes[l]
  }

  lemma FramesGrow(nodes: map<Loc, Frame>, c: Loc, f: Frame)
    requires c !in nodes
    ensures AllFrames(nodes[c := f]) == AllFrames(nodes) + {f}
    ensures FramesOf(nodes[c := f], c.id) == FramesOf(nodes, c.id) + {f}
    ensures forall j :: j != c.id ==> FramesOf(nodes[c := f], j) == FramesOf(nodes, j)
  {
    var nodes' := nodes[c := f];
    assert nodes'[c] == f;
    forall l | l in nodes ensures nodes'[l] == nodes[l] && l in nodes' {
    }
    forall j | j != c.id ensures FramesOf(nodes', j) == FramesOf(nodes, j) {
      assert forall l :: l in nodes && l.id == j ==> nodes'[l] == nodes[l];
    }
  }

  lemma FramesShrink(nodes: map<Loc, Frame>, c: Loc)
    requires NoSharing(nodes) && c in nodes
    ensures AllFrames(nodes - {c}) == AllFrames(nodes) - {nodes[c]}
    ensures FramesOf(nodes - {c}, c.id) == FramesOf(nodes, c.id) - {nodes[c]}
    ensures forall j :: j != c.id ==> FramesOf(nodes - {c}, j) == FramesOf(nodes, j)
  {
    var nodes' := nodes - {c};
    forall l | l in nodes && l != c ensures l in nodes' && nodes'[l] == nodes[l] && nodes[l] != nodes[c] {
    }
    forall j | j != c.id ensures FramesOf(nodes', j) == FramesOf(nodes, j) {
      assert forall l :: l in nodes && l.id == j ==> l in nodes' && nodes'[l] == nodes[l];
    }
  }

  lemma ListCons(s: seq<Frame>, frames: set<Frame>, f: Frame)
    requires Lists(s, frames) && f !in frames
    ensures Lists([f] + s, frames + {f})
  {
  }

  lemma ListDrop(s: seq<Frame>, frames: set<Frame>, k: nat)
    requires Lists(s, frames) && k < |s|
    ensures Lists(s[..k] + s[k + 1..], frames - {s[k]})
  {
    var t := s[..k] + s[k + 1..];
    forall f ensures f in t <==> f in frames && f != s[k] {
      if f in t {
        var i :| 0 <= i < |t| && t[i] == f;
        assert f == s[if i < k then i else i + 1];
      }
      if f in frames && f != s[k] {
        var i :| 0 <= i < |s| && s[i] == f;
        assert t[if i < k then i else i - 1] == f;
      }
    }
  }

  /** A page-aligned range of whole user pages. */
  predicate RangeOk(address: nat, size: nat) {
    && size != 0 && address % PAGE_SIZE == 0 && size % PAGE_SIZE == 0
    && USER_BASE <= address < USER_LIMIT && size <= USER_LIMIT - address
  }

  ghost predicate InRange(l: Loc, id: nat, first: nat, count: nat) {
    l.id == id && l.level == 4 && first <= l.prefix < first + count
  }

  /** A flat map without one run of pages. */
  ghost function MinusRange(m: map<Loc, Leaf>, id: nat, first: nat, count: nat): map<Loc, Leaf> {
    map l | l in m && !InRange(l, id, first, count) :: m[l]
  }

  lemma MinusNothing(m: map<Loc, Leaf>, id: nat, first: nat)
    ensures MinusRange(m, id, first, 0) == m
  {
  }

  lemma MinusNext(m: map<Loc, Leaf>, id: nat, first: nat, k: nat)
    ensures MinusRange(m, id, first, k + 1) == MinusRange(m, id, first, k) - {Loc(id, 4, first + k)}
  {
  }

  lemma FlatKeys(tables: map<Frame, Table>, nodes: map<Loc, Frame>, id: nat)
    requires Tree(tables, nodes)
    ensures forall v: nat :: Loc(id, 4, v) in Flat(tables, nodes) <==> Loc(id, 4, v) in nodes
  {
  }

  lemma RangeIsUser(address: nat, size: nat)
    requires RangeOk(address, size)
    ensures forall v: nat :: address / PAGE_SIZE <= v < address / PAGE_SIZE + size / PAGE_SIZE ==> UserPage(v)
    ensures 0 < size / PAGE_SIZE
  {
  }

  /** The rights of a new page: execution can only be denied when the CPU supports it. */
  function NewLeaf(f: Frame, writable: bool, executable: bool, nx: bool): Leaf {
    Leaf(f, writable, executable || !nx)
  }

  /** Physical memory and address spaces, with the place of every live page. */
  datatype State = State(tables: map<Frame, Table>, bytes: map<Frame, seq<byte>>,
                         spaces: map<nat, Space>, nodes: map<Loc, Frame>)

  ghost predicate SpaceOk(kernel: Table, s: State, id: nat)
    requires id in s.spaces
  {
    && Loc(id, 0, 0) in s.nodes && s.nodes[Loc(id, 0, 0)] == s.spaces[id].root
    && Lists(s.spaces[id].allocations, FramesOf(s.nodes, id))
    && KernelSlots(kernel, s.tables, s.spaces[id].root)
  }

  /** Outside entries 2 and 3 a PML4 is the kernel's. */
  ghost predicate KernelSlots(kernel: Table, tables: map<Frame, Table>, root: Frame) {
    root in tables && forall i :: 0 <= i < ENTRIES && i != 2 && i != 3 ==> tables[root][i] == kernel[i]
  }

  ghost predicate Memory(s: State) {
    && s.tables.Keys == AllFrames(s.nodes) && s.bytes.Keys == s.tables.Keys
    && (forall f :: f in s.bytes ==> |s.bytes[f]| == PAGE_SIZE)
  }

  ghost predicate Ok(kernel: Table, s: State) {
    && Tree(s.tables, s.nodes)
    && Memory(s)
    && (forall l :: l in s.nodes ==> l.id in s.spaces)
    && (forall id :: id in s.spaces ==> SpaceOk(kernel, s, id))
  }

  /** Everything an operation on `id` must leave alone: other spaces, roots, and the place and
      contents of every page that is still there. */
  ghost predicate Kept(s: State, t: State, id: nat) {
    && t.spaces.Keys == s.spaces.Keys
    && (forall j :: j in s.spaces && j != id ==> t.spaces[j] == s.spaces[j])
    && (forall j :: j in s.spaces ==> t.spaces[j].root == s.spaces[j].root)
    && (forall l :: l in s.nodes && l in t.nodes ==> t.nodes[l] == s.nodes[l])
    && (forall l :: l in s.nodes && l in t.nodes && s.nodes[l] in s.bytes && s.nodes[l] in t.bytes ==>
          t.bytes[s.nodes[l]] == s.bytes[s.nodes[l]])
    && (forall l: Loc :: l.id != id ==> (l in t.nodes <==> l in s.nodes))
  }

  /** ... and no page was taken away. */
  ghost predicate Grown(s: State, t: State, id: nat) {
    Kept(s, t, id) && s.bytes.Keys <= t.bytes.Keys && forall l :: l in s.nodes ==> l in t.nodes
  }

  /** ... and no page was added. */
  ghost predicate Shrunk(s: State, t: State, id: nat) {
    Kept(s, t, id) && forall l :: l in t.nodes ==> l in s.nodes
  }

  lemma ShrunkTransitive(s: State, t: State, u: State, id: nat)
    requires Shrunk(s, t, id) && Shrunk(t, u, id)
    requires forall l :: l in t.nodes ==> t.nodes[l] in t.bytes
    ensures Shrunk(s, u, id)
  {
  }

  /** Taking back exactly what was added leaves a grown state. */
  lemma GrownThenShrunk(s: State, t: State, u: State, id: nat)
    requires Grown(s, t, id) && Shrunk(t, u, id)
    requires forall l :: l in s.nodes ==> s.nodes[l] in s.bytes && l in u.nodes
    requires forall l :: l in u.nodes ==> u.nodes[l] in u.bytes
    requires s.bytes.Keys == AllFrames(s.nodes)
    ensures Grown(s, u, id)
  {
  }

  lemma GrownTransitive(s: State, t: State, u: State, id: nat)
    requires Grown(s, t, id) && Grown(t, u, id)
    requires forall l :: l in s.nodes ==> s.nodes[l] in s.bytes
    ensures Grown(s, u, id)
  {
  }

  // --------------------------------------------------------------------------------------
  // Linking one fresh page

  ghost predicate CanLink(s: State, id: nat, l: Loc, i: nat, f: Frame, e: Entry) {
    && id in s.spaces && l in s.nodes && l.id == id && Indexable(l, i) && Child(l, i) !in s.nodes
    && f !in s.tables && f != 0 && s.nodes[l] in s.tables
    && if l.level == 3 then LeafEntry(e, f) else TableEntry(e, f)
  }

  ghost function LinkState(s: State, id: nat, l: Loc, i: nat, f: Frame, e: Entry): State
    requires CanLink(s, id, l, i, f, e)
  {
    State(Linking(s.tables, s.nodes[l], i, f, EmptyTable(), e),
          s.bytes[f := Zeros(PAGE_SIZE)],
          s.spaces[id := Space(s.spaces[id].root, [f] + s.spaces[id].allocations)],
          s.nodes[Child(l, i) := f])
  }

  lemma LiveNodes(kernel: Table, s: State)
    requires Ok(kernel, s)
    ensures forall l :: l in s.nodes ==> s.nodes[l] in s.tables && s.nodes[l] in s.bytes
  {
    forall l | l in s.nodes ensures s.nodes[l] in s.tables {
      assert Placed(s.tables, s.nodes, l);
    }
  }

  lemma LinkSpace(kernel: Table, s: State, id: nat, l: Loc, i: nat, f: Frame, e: Entry, j: nat)
    requires Ok(kernel, s) && CanLink(s, id, l, i, f, e) && j in s.spaces
    ensures SpaceOk(kernel, LinkState(s, id, l, i, f, e), j)
  {
    hide Tree, FramesOf, Lists, Memory;
    assert SpaceOk(kernel, s, j);
    LiveNodes(kernel, s);
    NotOwned(kernel, s, f);
    FramesGrow(s.nodes, Child(l, i), f);
    if j == id {
      ListCons(s.spaces[id].allocations, FramesOf(s.nodes, id), f);
    }
    OwnFrames(s.tables, s.nodes, l, Loc(j, 0, 0));
  }

  lemma OwnFrames(tables: map<Frame, Table>, nodes: map<Loc, Frame>, a: Loc, b: Loc)
    requires Tree(tables, nodes) && a in nodes && b in nodes
    ensures nodes[a] == nodes[b] <==> a == b
  {
  }

  lemma NotOwned(kernel: Table, s: State, f: Frame)
    requires Ok(kernel, s) && f !in s.tables
    ensures forall id :: f !in FramesOf(s.nodes, id)
  {
    LiveNodes(kernel, s);
  }

  lemma LinkMemory(kernel: Table, s: State, id: nat, l: Loc, i: nat, f: Frame, e: Entry)
    requires Ok(kernel, s) && CanLink(s, id, l, i, f, e)
    ensures Memory(LinkState(s, id, l, i, f, e))
  {
    hide Tree, SpaceOk, FramesOf, AllFrames;
    FramesGrow(s.nodes, Child(l, i), f);
    assert Memory(s);
  }

  lemma LinkGrows(kernel: Table, s: State, id: nat, l: Loc, i: nat, f: Frame, e: Entry)
    requires Ok(kernel, s) && CanLink(s, id, l, i, f, e)
    ensures Grown(s, LinkState(s, id, l, i, f, e), id)
  {
    hide Ok;
    LiveNodes(kernel, s);
  }

  lemma LinkFlat(s: State, id: nat, l: Loc, i: nat, f: Frame, e: Entry)
    requires Tree(s.tables, s.nodes) && CanLink(s, id, l, i, f, e)
    ensures var t := LinkState(s, id, l, i, f, e);
            && Tree(t.tables, t.nodes)
            && Flat(t.tables, t.nodes) == if l.level == 3 then Flat(s.tables, s.nodes)[Child(l, i) := LeafOf(e)]
                                          else Flat(s.tables, s.nodes)
  {
    hide Tree, Flat;
    AddNode(s.tables, s.nodes, l, i, f, EmptyTable(), e);
    if l.level == 3 {
      AddLeafExtendsFlat(s.tables, s.nodes, l, i, f, EmptyTable(), e);
    } else {
      AddTableKeepsFlat(s.tables, s.nodes, l, i, f, e);
    }
  }

  /** Linking keeps the machine consistent. */
  lemma LinkOk(kernel: Table, s: State, id: nat, l: Loc, i: nat, f: Frame, e: Entry)
    requires Ok(kernel, s) && CanLink(s, id, l, i, f, e)
    ensures Ok(kernel, LinkState(s, id, l, i, f, e))
  {
    hide Tree, SpaceOk, Memory;
    LinkFlat(s, id, l, i, f, e);
    LinkMemory(kernel, s, id, l, i, f, e);
    var t := LinkState(s, id, l, i, f, e);
    forall j | j in t.spaces ensures SpaceOk(kernel, t, j) {
      LinkSpace(kernel, s, id, l, i, f, e, j);
    }
  }

  // --------------------------------------------------------------------------------------
  // Unlinking one page

  ghost predicate CanUnlink(s: State, c: Loc) {
    && c in s.nodes && c.level == 4 && c.id in s.spaces
    && Parent(c) in s.nodes && s.nodes[Parent(c)] in s.tables
    && s.nodes[c] in s.spaces[c.id].allocations
  }

  /** The ownership list without one of its pages. */
  ghost function Without(s: seq<Frame>, f: Frame): seq<Frame>
    requires f in s
  {
    if s[0] == f then s[1..] else [s[0]] + Without(s[1..], f)
  }

  lemma {:induction false} WithoutAt(s: seq<Frame>, f: Frame, k: nat)
    requires k < |s| && s[k] == f && f !in s[..k]
    ensures Without(s, f) == s[..k] + s[k + 1..]
  {
    if k > 0 {
      assert s[..k] == [s[0]] + s[1..][..k - 1];
      WithoutAt(s[1..], f, k - 1);
      assert s[1..][k..] == s[k + 1..];
    }
  }

  lemma WithoutLists(s: seq<Frame>, frames: set<Frame>, f: Frame)
    requires Lists(s, frames) && f in s
    ensures Lists(Without(s, f), frames - {f})
  {
    var k :| 0 <= k < |s| && s[k] == f;
    assert f !in s[..k];
    WithoutAt(s, f, k);
    ListDrop(s, frames, k);
  }

  ghost function UnlinkState(s: State, c: Loc): State
    requires CanUnlink(s, c)
  {
    State(Unlinking(s.tables, s.nodes[Parent(c)], Slot(c), s.nodes[c]),
          s.bytes - {s.nodes[c]},
          s.spaces[c.id := Space(s.spaces[c.id].root, Without(s.spaces[c.id].allocations, s.nodes[c]))],
          s.nodes - {c})
  }

  lemma UnlinkFlat(s: State, c: Loc)
    requires Tree(s.tables, s.nodes) && CanUnlink(s, c)
    ensures var t := UnlinkState(s, c);
            Tree(t.tables, t.nodes) && Flat(t.tables, t.nodes) == Flat(s.tables, s.nodes) - {c}
  {
    hide Tree, Flat;
    RemoveLeaf(s.tables, s.nodes, c);
    RemoveLeafShrinksFlat(s.tables, s.nodes, c);
  }

  lemma Unshared(tables: map<Frame, Table>, nodes: map<Loc, Frame>)
    requires Tree(tables, nodes)
    ensures NoSharing(nodes)
  {
  }

  lemma UnlinkSpace(kernel: Table, s: State, c: Loc, j: nat)
    requires Ok(kernel, s) && CanUnlink(s, c) && j in s.spaces
    ensures SpaceOk(kernel, UnlinkState(s, c), j)
  {
    hide Tree, FramesOf, Lists, Memory, Without, NoSharing;
    assert SpaceOk(kernel, s, j);
    Unshared(s.tables, s.nodes);
    FramesShrink(s.nodes, c);
    if j == c.id {
      WithoutLists(s.spaces[j].allocations, FramesOf(s.nodes, j), s.nodes[c]);
    }
    OwnFrames(s.tables, s.nodes, c, Loc(j, 0, 0));
    OwnFrames(s.tables, s.nodes, Parent(c), Loc(j, 0, 0));
  }

  lemma UnlinkMemory(kernel: Table, s: State, c: Loc)
    requires Ok(kernel, s) && CanUnlink(s, c)
    ensures Memory(UnlinkState(s, c))
  {
    hide SpaceOk, FramesOf, AllFrames;
    FramesShrink(s.nodes, c);
    assert Memory(s);
  }

  lemma UnlinkOk(kernel: Table, s: State, c: Loc)
    requires Ok(kernel, s) && CanUnlink(s, c)
    ensures Ok(kernel, UnlinkState(s, c)) && Kept(s, UnlinkState(s, c), c.id)
  {
    hide Tree, SpaceOk, Memory;
    UnlinkFlat(s, c);
    UnlinkMemory(kernel, s, c);
    var t := UnlinkState(s, c);
    forall j | j in t.spaces ensures SpaceOk(kernel, t, j) {
      UnlinkSpace(kernel, s, c, j);
    }
  }

  class Machine {
    /** The kernel's PML4 and whether it uses the no-execute bit. */
    const kernel: Table
    const nx: bool
    /** Live physical pages, read as page tables and as bytes. */
    var tables: map<Frame, Table>
    var bytes: map<Frame, seq<byte>>
    var spaces: map<nat, Space>
    /** Where in which tree each live page sits. */
    ghost var nodes: map<Loc, Frame>
    /** How often the heap had no page to give. */
    ghost var refusals: nat

    ghost function S(): State
      reads this
    {
      State(tables, bytes, spaces, nodes)
    }

    ghost predicate Valid()
      reads this
    {
      Ok(kernel, S())
    }

    /** The flat map of every space, page by page. */
    ghost function View(): map<Loc, Leaf>
      requires Tree(tables, nodes)
      reads this
    {
      Flat(tables, nodes)
    }

    constructor (kernelTable: Table, hasNx: bool)
      ensures Valid() && kernel == kernelTable && nx == hasNx && spaces == map[] && View() == map[]
    {
      kernel, nx := kernelTable, hasNx;
      tables, bytes, spaces := map[], map[], map[];
      nodes, refusals := map[], 0;
    }

    /** The heap's answer to a page request: a page nobody uses, or none. */
    method FreshPage() returns (f: Frame)
      modifies this`refusals
      ensures f == 0 ==> refusals == old(refusals) + 1
      ensures f != 0 ==> f !in tables && refusals == old(refusals)
    {
      f := *;
      if f == 0 || f in tables {
        refusals := refusals + 1;
        return 0;
      }
    }

    /** allocate_owned_page and the store that links the page: zeroed, owned, present. */
    method Link(id: nat, ghost l: Loc, at: Frame, i: nat, f: Frame, e: Entry)
      requires Valid() && CanLink(S(), id, l, i, f, e) && nodes[l] == at
      modifies this`tables, this`bytes, this`spaces, this`nodes
      ensures Valid() && S() == LinkState(old(S()), id, l, i, f, e) && Grown(old(S()), S(), id)
      ensures View() == if l.level == 3 then old(View())[Child(l, i) := LeafOf(e)] else old(View())
    {
      hide Ok, Grown, Flat, Tree, Zeros, EmptyTable;
      LinkOk(kernel, S(), id, l, i, f, e);
      LinkGrows(kernel, S(), id, l, i, f, e);
      OkTree(kernel, S());
      LinkFlat(S(), id, l, i, f, e);
      ghost var t := LinkState(S(), id, l, i, f, e);
      tables, bytes := tables[f := EmptyTable()][at := tables[at][i := e]], bytes[f := Zeros(PAGE_SIZE)];
      spaces := spaces[id := Space(spaces[id].root, [f] + spaces[id].allocations)];
      nodes := nodes[Child(l, i) := f];
      assert S() == t;
    }

    /** ensure_owned_table: the next level's table, allocated if missing. */
    method EnsureTable(id: nat, at: Frame, i: nat, ghost l: Loc) returns (t: Frame)
      requires Valid() && id in spaces && l in nodes && l.id == id && nodes[l] == at && Indexable(l, i) && l.level < 3
      modifies this`tables, this`bytes, this`spaces, this`nodes, this`refusals
      ensures Valid() && Grown(old(S()), S(), id) && View() == old(View())
      ensures t != 0 ==> Child(l, i) in nodes && nodes[Child(l, i)] == t
      ensures refusals == old(refusals) + if t == 0 then 1 else 0
    {
      hide Ok, Grown, Flat;
      OkTree(kernel, S());
      TableLinked(tables, nodes, l, i);
      var e := tables[at][i];
      if e.present {
        // A present user entry is always an owned table with these rights already.
        assert !e.huge && e.owned;
        var table := tables[at];
        assert table[i := e.(writable := true, user := true)] == table;
        assert tables[at := table] == tables;
        tables := tables[at := table[i := e.(writable := true, user := true)]];
        GrownReflexive(S(), id);
        return e.frame;
      }
      var f := FreshPage();
      if f == 0 {
        GrownReflexive(S(), id);
        return 0;
      }
      Link(id, l, at, i, f, Entry(true, true, true, false, true, false, f));
      return f;
    }

    /** map_fresh_user_page: one zeroed page, unless it is mapped or memory runs out. */
    method MapPage(id: nat, v: nat, writable: bool, executable: bool) returns (ok: bool)
      requires Valid() && id in spaces && UserPage(v)
      modifies this`tables, this`bytes, this`spaces, this`nodes, this`refusals
      ensures Valid() && Grown(old(S()), S(), id) && refusals >= old(refusals)
      ensures ok ==> Loc(id, 4, v) !in old(View())
      ensures ok ==> Loc(id, 4, v) in nodes && nodes[Loc(id, 4, v)] !in old(tables)
                     && nodes[Loc(id, 4, v)] in bytes && bytes[nodes[Loc(id, 4, v)]] == Zeros(PAGE_SIZE)
      ensures ok ==> View() == old(View())[Loc(id, 4, v) :=
                                 NewLeaf(nodes[Loc(id, 4, v)], writable, executable, nx)]
      ensures !ok ==> View() == old(View())
      ensures !ok ==> Loc(id, 4, v) in old(View()) || refusals > old(refusals)
    {
      hide Ok, Grown, Flat, Tree;
      ghost var s0 := S();
      var pt := EnsurePath(id, v);
      if pt == 0 { return false; }
      GrownFacts(s0, S(), id);
      ok := FillSlot(id, v, pt, writable, executable, s0);
    }

    /** The three table levels above page `v`, allocated as needed. */
    method EnsurePath(id: nat, v: nat) returns (pt: Frame)
      requires Valid() && id in spaces && UserPage(v)
      modifies this`tables, this`bytes, this`spaces, this`nodes, this`refusals
      ensures Valid() && Grown(old(S()), S(), id) && View() == old(View())
      ensures pt != 0 ==> LocOf(id, v, 3) in nodes && nodes[LocOf(id, v, 3)] == pt
      ensures refusals == old(refusals) + if pt == 0 then 1 else 0
    {
      hide Ok, Grown, Flat, Tree;
      ghost var s0 := S();
      OkTree(kernel, s0);
      LiveNodes(kernel, s0);
      LocStep(id, v, 0);
      LocStep(id, v, 1);
      LocStep(id, v, 2);
      var pdpt := EnsureTable(id, spaces[id].root, v / 512 / 512 / 512 % 512, LocOf(id, v, 0));
      if pdpt == 0 { return 0; }
      ghost var s1 := S();
      GrownFacts(s0, s1, id);
      var pd := EnsureTable(id, pdpt, v / 512 / 512 % 512, LocOf(id, v, 1));
      ghost var s2 := S();
      GrownTransitive(s0, s1, s2, id);
      if pd == 0 { return 0; }
      GrownFacts(s0, s2, id);
      pt := EnsureTable(id, pd, v / 512 % 512, LocOf(id, v, 2));
      GrownTransitive(s0, s2, S(), id);
    }

    /** The last step of map_fresh_user_page, at the page table. */
    method FillSlot(id: nat, v: nat, pt: Frame, writable: bool, executable: bool, ghost s0: State) returns (ok: bool)
      requires Valid() && id in spaces && UserPage(v)
      requires LocOf(id, v, 3) in nodes && nodes[LocOf(id, v, 3)] == pt
      requires Ok(kernel, s0) && Grown(s0, S(), id)
      modifies this`tables, this`bytes, this`spaces, this`nodes, this`refusals
      ensures Valid() && Grown(s0, S(), id) && refusals >= old(refusals)
      ensures ok ==> Loc(id, 4, v) !in old(View())
      ensures ok ==> Loc(id, 4, v) in nodes && nodes[Loc(id, 4, v)] !in s0.tables
                     && nodes[Loc(id, 4, v)] in bytes && bytes[nodes[Loc(id, 4, v)]] == Zeros(PAGE_SIZE)
      ensures ok ==> View() == old(View())[Loc(id, 4, v) :=
                                 NewLeaf(nodes[Loc(id, 4, v)], writable, executable, nx)]
      ensures !ok ==> View() == old(View())
      ensures !ok ==> Loc(id, 4, v) in old(View()) || refusals > old(refusals)
    {
      hide Ok, Grown, Tree;
      ghost var s1 := S();
      LocStep(id, v, 3);
      OkTree(kernel, s1);
      TableLinked(tables, nodes, LocOf(id, v, 3), Slot(LocOf(id, v, 4)));
      if tables[pt][v % 512].present { return false; }
      var f := FreshPage();
      if f == 0 { return false; }
      LiveNodes(kernel, s0);
      LiveNodes(kernel, s1);
      GrownFrames(kernel, s0, s1, id);
      Link(id, LocOf(id, v, 3), pt, v % 512, f,
           Entry(true, writable, true, false, true, !executable && nx, f));
      GrownTransitive(s0, s1, S(), id);
      return true;
    }

    // ------------------------------------------------------------------------------------

    /** The checks of paging_user_unmap_anonymous on one page. */
    method PageOwned(id: nat, v: nat) returns (ok: bool)
      requires Valid() && id in spaces && UserPage(v)
      ensures ok <==> Loc(id, 4, v) in nodes
    {
      hide Ok, Tree;
      OkTree(kernel, S());
      LeafSlotIsNode(tables, nodes, id, v, true);
      LocStep(id, v, 3);
      HasParent(tables, nodes, Loc(id, 4, v));
      var slot := LeafSlot(tables, spaces[id].root, v, true);
      if slot == None { return false; }
      TableLinked(tables, nodes, LocOf(id, v, 3), Slot(LocOf(id, v, 4)));
      var e := tables[slot.value][v % 512];
      MappedIsListed(kernel, S(), Loc(id, 4, v));
      ok := e.present && e.user && e.owned && e.frame in spaces[id].allocations;
    }

    /** The validation pass of paging_user_unmap_anonymous. */
    method RangeOwned(id: nat, first: nat, count: nat) returns (ok: bool)
      requires Valid() && id in spaces
      requires forall v: nat :: first <= v < first + count ==> UserPage(v)
      ensures ok <==> forall v: nat :: first <= v < first + count ==> Loc(id, 4, v) in nodes
    {
      hide Ok;
      for k := 0 to count
        invariant forall v: nat :: first <= v < first + k ==> Loc(id, 4, v) in nodes
      {
        var owned := PageOwned(id, first + k);
        if !owned { return false; }
      }
      return true;
    }

    /** Clear one leaf, take its page off the ownership list and release it. */
    method UnmapPage(id: nat, v: nat)
      requires Valid() && id in spaces && UserPage(v) && Loc(id, 4, v) in nodes
      modifies this`tables, this`bytes, this`spaces, this`nodes
      ensures Valid() && Shrunk(old(S()), S(), id)
      ensures nodes == old(nodes) - {Loc(id, 4, v)} && View() == old(View()) - {Loc(id, 4, v)}
    {
      hide Ok, Tree, Flat, Without, Kept;
      ghost var c := Loc(id, 4, v);
      OkTree(kernel, S());
      LeafSlotIsNode(tables, nodes, id, v, true);
      LocStep(id, v, 3);
      HasParent(tables, nodes, c);
      TableLinked(tables, nodes, LocOf(id, v, 3), Slot(c));
      MappedIsListed(kernel, S(), c);
      var pt := LeafSlot(tables, spaces[id].root, v, true).value;
      var frame := tables[pt][v % 512].frame;
      var k := FindAllocation(spaces[id].allocations, frame);
      WithoutAt(spaces[id].allocations, frame, k);
      UnlinkOk(kernel, S(), c);
      UnlinkFlat(S(), c);
      ghost var t := UnlinkState(S(), c);
      var list := spaces[id].allocations;
      tables, bytes := tables[pt := tables[pt][v % 512 := EMPTY]] - {frame}, bytes - {frame};
      spaces := spaces[id := Space(spaces[id].root, list[..k] + list[k + 1..])];
      nodes := nodes - {c};
      assert S() == t;
    }

    /** paging_user_unmap_anonymous: all of the range or nothing. */
    method UnmapAnonymous(id: nat, address: nat, size: nat) returns (ok: bool)
      requires Valid() && id in spaces
      modifies this`tables, this`bytes, this`spaces, this`nodes
      ensures Valid() && Shrunk(old(S()), S(), id)
      ensures ok <==> RangeOk(address, size) && forall v: nat ::
                address / PAGE_SIZE <= v < address / PAGE_SIZE + size / PAGE_SIZE ==> Loc(id, 4, v) in old(View())
      ensures !ok ==> S() == old(S())
      ensures ok ==> View() == MinusRange(old(View()), id, address / PAGE_SIZE, size / PAGE_SIZE)
      ensures ok ==> forall l :: l in nodes <==>
                l in old(nodes) && !InRange(l, id, address / PAGE_SIZE, size / PAGE_SIZE)
    {
      hide Ok, Tree, Kept, Flat, MinusRange, InRange;
      ghost var s0 := S();
      KeptReflexive(s0, id);
      if !RangeOk(address, size) { return false; }
      RangeIsUser(address, size);
      OkTree(kernel, s0);
      FlatKeys(tables, nodes, id);
      var owned := RangeOwned(id, address / PAGE_SIZE, size / PAGE_SIZE);
      if !owned { return false; }
      UnmapRange(id, address / PAGE_SIZE, size / PAGE_SIZE);
      return true;
    }

    /** The second pass of paging_user_unmap_anonymous. */
    method UnmapRange(id: nat, first: nat, count: nat)
      requires Valid() && id in spaces
      requires forall v: nat :: first <= v < first + count ==> UserPage(v) && Loc(id, 4, v) in nodes
      modifies this`tables, this`bytes, this`spaces, this`nodes
      ensures Valid() && Unmapped(old(S()), S(), id, first, count)
    {
      hide Ok, Unmapped, Tree, Kept, Flat, MinusRange, InRange, Shrunk;
      ghost var s0 := S();
      OkTree(kernel, s0);
      UnmappedNone(s0, id, first);
      for k := 0 to count
        invariant Valid() && id in spaces && Unmapped(s0, S(), id, first, k)
      {
        ghost var s1 := S();
        StillMapped(s0, s1, id, first, k);
        OkTree(kernel, s1);
        LiveNodes(kernel, s1);
        UnmapPage(id, first + k);
        OkTree(kernel, S());
        ShrunkFacts(s1, S(), id);
        UnmappedNext(s0, s1, S(), id, first, k);
      }
    }

    /** paging_user_map_anonymous: all of the range as fresh zeroed pages, or the flat map is
        what it was. The rollback cannot fail. */
    method MapAnonymous(id: nat, address: nat, size: nat, writable: bool, executable: bool) returns (ok: bool)
      requires Valid() && id in spaces
      modifies this`tables, this`bytes, this`spaces, this`nodes, this`refusals
      ensures Valid() && Grown(old(S()), S(), id) && refusals >= old(refusals)
      ensures ok ==> RangeOk(address, size)
      ensures ok ==> Mapped(old(S()), S(), id, address / PAGE_SIZE, size / PAGE_SIZE, writable, executable, nx)
      ensures !ok ==> View() == old(View())
      ensures !ok ==> !RangeOk(address, size) || refusals > old(refusals) || exists v: nat ::
                address / PAGE_SIZE <= v < address / PAGE_SIZE + size / PAGE_SIZE && Loc(id, 4, v) in old(View())
    {
      hide Ok, Tree, Kept, Mapped, Grown, Flat;
      ghost var s0 := S();
      GrownReflexive(s0, id);
      OkTree(kernel, s0);
      if !RangeOk(address, size) { return false; }
      var first, count := address / PAGE_SIZE, size / PAGE_SIZE;
      RangeIsUser(address, size);
      MappedNone(s0, id, first, writable, executable, nx);
      for k := 0 to count
        invariant Valid() && id in spaces && Grown(s0, S(), id) && refusals >= old(refusals)
        invariant Tree(tables, nodes) && Mapped(s0, S(), id, first, k, writable, executable, nx)
      {
        ghost var s1 := S();
        LiveNodes(kernel, s0);
        var mapped := MapPage(id, first + k, writable, executable);
        ghost var s2 := S();
        OkTree(kernel, s2);
        GrownFacts(s1, s2, id);
        GrownTransitive(s0, s1, s2, id);
        if mapped {
          LiveNodes(kernel, s1);
          LiveNodes(kernel, s2);
          GrownFrames(kernel, s0, s1, id);
          MappedNext(s0, s1, s2, id, first, k, writable, executable, nx);
        } else {
          LiveNodes(kernel, s1);
          LiveNodes(kernel, s2);
          MappedSame(s0, s1, s2, id, first, k, writable, executable, nx);
          MappedOld(s0, s1, id, first, k, writable, executable, nx);
          if k != 0 {
            Undo(id, address, size, k, s0, writable, executable);
          }
          return false;
        }
      }
      return true;
    }

    /** The rollback of paging_user_map_anonymous: it cannot fail, and it restores the flat map. */
    method Undo(id: nat, address: nat, size: nat, k: nat, ghost s0: State, ghost writable: bool, ghost executable: bool)
      requires Valid() && id in spaces && RangeOk(address, size) && 0 < k < size / PAGE_SIZE
      requires Ok(kernel, s0) && Grown(s0, S(), id)
      requires Mapped(s0, S(), id, address / PAGE_SIZE, k, writable, executable, nx)
      modifies this`tables, this`bytes, this`spaces, this`nodes
      ensures Valid() && Grown(s0, S(), id) && View() == Flat(s0.tables, s0.nodes)
    {
      hide Ok, Tree, Kept, Grown, Mapped, Shrunk, MinusRange, Flat;
      ghost var s2 := S();
      OkTree(kernel, s2);
      OkTree(kernel, s0);
      RollbackRange(address, k, size);
      MappedPages(s0, s2, id, address / PAGE_SIZE, k, writable, executable, nx);
      var undone := UnmapAnonymous(id, address, k * PAGE_SIZE);
      assert undone;
      LiveNodes(kernel, s0);
      LiveNodes(kernel, S());
      OkTree(kernel, S());
      OkMemory(kernel, s0);
      RollbackDone(s0, s2, S(), id, address / PAGE_SIZE, k, writable, executable, nx);
    }

    /** paging_address_space_create: a PML4 that shares the kernel's entries and maps no user page. */
    method Create(id: nat) returns (ok: bool)
      requires Valid() && id !in spaces
      modifies this`tables, this`bytes, this`spaces, this`nodes, this`refusals
      ensures Valid() && View() == old(View())
      ensures ok ==> spaces.Keys == old(spaces.Keys) + {id} && forall j :: j in old(spaces) ==> spaces[j] == old(spaces[j])
      ensures ok ==> forall l :: l in View() ==> l.id != id
      ensures refusals >= old(refusals)
      ensures ok ==> nodes == old(nodes)[Loc(id, 0, 0) := spaces[id].root] && Loc(id, 0, 0) !in old(nodes)
      ensures ok ==> forall f :: f in old(bytes) ==> f in bytes && bytes[f] == old(bytes[f])
      ensures !ok ==> S() == old(S())
      ensures !ok ==> kernel[2].present || kernel[3].present || refusals > old(refusals)
    {
      hide Ok, Tree, Flat, RootState, Zeros, AllFrames;
      OkTree(kernel, S());
      OkMemory(kernel, S());
      NoNodesYet(kernel, S(), id);
      FlatOwners(kernel, S(), id);
      var f := FreshPage();
      if f == 0 { return false; }
      // A kernel that used the reserved entries would make this page be freed again.
      if kernel[2].present || kernel[3].present { return false; }
      RootOk(kernel, S(), id, f);
      ghost var t := RootState(kernel, S(), id, f);
      SameRootState(kernel, S(), id, f);
      tables, bytes := tables[f := kernel], bytes[f := Zeros(PAGE_SIZE)];
      spaces := spaces[id := Space(f, [f])];
      nodes := nodes[Loc(id, 0, 0) := f];
      assert S() == t;
      return true;
    }

    /** paging_address_space_destroy: every page of the space is released, and nothing else. */
    method Destroy(id: nat)
      requires Valid() && id in spaces
      modifies this`tables, this`bytes, this`spaces, this`nodes
      ensures Valid()
      ensures spaces == old(spaces) - {id} && nodes == old(nodes) - NodesOf(old(nodes), id)
      ensures View() == map l | l in old(View()) && l.id != id :: old(View())[l]
      ensures forall f :: f in bytes ==> f in old(bytes) && bytes[f] == old(bytes[f])
    {
      hide Ok, Tree, Flat, SpaceOk;
      ghost var s0 := S();
      OkTree(kernel, s0);
      DestroyOk(kernel, s0, id);
      var list := spaces[id].allocations;
      for k := 0 to |list|
        invariant spaces == s0.spaces && nodes == s0.nodes
        invariant tables == s0.tables - Members(list[..k]) && bytes == s0.bytes - Members(list[..k])
      {
        MembersNext(list, k);
        tables, bytes := tables - {list[k]}, bytes - {list[k]};
      }
      assert list[..|list|] == list;
      spaces := spaces - {id};
      nodes := nodes - NodesOf(nodes, id);
      assert S() == DestroyState(s0, id);
    }

    /** find_owned_allocation. */
    method FindAllocation(list: seq<Frame>, f: Frame) returns (k: nat)
      requires f in list
      ensures k < |list| && list[k] == f && f !in list[..k]
    {
      k := 0;
      while list[k] != f
        invariant k < |list| && f !in list[..k] && f in list[k..]
        decreases |list| - k
      {
        assert list[k..] == [list[k]] + list[k + 1..];
        k := k + 1;
      }
    }
  }

  /** A run of pages of one space is gone, and nothing else. */
  ghost predicate Unmapped(s: State, t: State, id: nat, first: nat, count: nat) {
    && Tree(s.tables, s.nodes) && Tree(t.tables, t.nodes) && Shrunk(s, t, id)
    && (forall l :: l in t.nodes <==> l in s.nodes && !InRange(l, id, first, count))
    && Flat(t.tables, t.nodes) == MinusRange(Flat(s.tables, s.nodes), id, first, count)
  }

  lemma UnmappedNone(s: State, id: nat, first: nat)
    requires Tree(s.tables, s.nodes)
    ensures Unmapped(s, s, id, first, 0)
  {
    hide Tree, Flat;
    KeptReflexive(s, id);
    MinusNothing(Flat(s.tables, s.nodes), id, first);
  }

  lemma StillMapped(s: State, t: State, id: nat, first: nat, k: nat)
    requires Unmapped(s, t, id, first, k) && Loc(id, 4, first + k) in s.nodes
    ensures Loc(id, 4, first + k) in t.nodes
  {
    hide Tree, Flat, Kept, MinusRange;
  }

  lemma UnmappedNext(s: State, t: State, u: State, id: nat, first: nat, k: nat)
    requires Unmapped(s, t, id, first, k) && Shrunk(t, u, id)
    requires forall l :: l in t.nodes ==> t.nodes[l] in t.bytes
    requires u.nodes == t.nodes - {Loc(id, 4, first + k)} && Tree(u.tables, u.nodes)
    requires Flat(u.tables, u.nodes) == Flat(t.tables, t.nodes) - {Loc(id, 4, first + k)}
    ensures Unmapped(s, u, id, first, k + 1)
  {
    hide Tree, Flat, Kept, MinusRange;
    ShrunkTransitive(s, t, u, id);
    MinusNext(Flat(s.tables, s.nodes), id, first, k);
  }

  lemma OkTree(kernel: Table, s: State)
    requires Ok(kernel, s)
    ensures Tree(s.tables, s.nodes)
    ensures forall l :: l in s.nodes ==> s.nodes[l] in s.tables && s.nodes[l] != 0
    ensures forall id :: id in s.spaces ==>
      Loc(id, 0, 0) in s.nodes && s.nodes[Loc(id, 0, 0)] == s.spaces[id].root
  {
    forall l | l in s.nodes ensures s.nodes[l] in s.tables && s.nodes[l] != 0 {
      assert Placed(s.tables, s.nodes, l);
    }
    forall id | id in s.spaces ensures Loc(id, 0, 0) in s.nodes && s.nodes[Loc(id, 0, 0)] == s.spaces[id].root {
      assert SpaceOk(kernel, s, id);
    }
  }

  lemma TableLinked(tables: map<Frame, Table>, nodes: map<Loc, Frame>, l: Loc, i: nat)
    requires Tree(tables, nodes) && l in nodes && Indexable(l, i)
    ensures nodes[l] in tables && Linked(tables, nodes, l, i)
  {
    assert Placed(tables, nodes, l);
  }

  lemma GrownReflexive(s: State, id: nat)
    ensures Grown(s, s, id)
  {
  }

  lemma GrownFacts(s: State, t: State, id: nat)
    requires Grown(s, t, id)
    ensures t.spaces.Keys == s.spaces.Keys
    ensures forall j :: j in s.spaces ==> t.spaces[j].root == s.spaces[j].root
    ensures forall l :: l in s.nodes ==> l in t.nodes && t.nodes[l] == s.nodes[l]
  {
  }

  lemma GrownFrames(kernel: Table, s: State, t: State, id: nat)
    requires Ok(kernel, s) && Ok(kernel, t) && Grown(s, t, id)
    ensures s.tables.Keys <= t.tables.Keys
  {
  }

  /** Every mapped page is on its space's ownership list. */
  lemma MappedIsListed(kernel: Table, s: State, c: Loc)
    requires Ok(kernel, s)
    ensures c in s.nodes ==> c.id in s.spaces && s.nodes[c] in s.spaces[c.id].allocations
  {
    if c in s.nodes {
      assert SpaceOk(kernel, s, c.id);
      assert s.nodes[c] in FramesOf(s.nodes, c.id);
    }
  }

  lemma KeptReflexive(s: State, id: nat)
    ensures Kept(s, s, id)
  {
  }

  lemma ShrunkFacts(s: State, t: State, id: nat)
    requires Shrunk(s, t, id)
    ensures t.spaces.Keys == s.spaces.Keys
  {
  }

  /** `t` has the pages of `s` and, new, writable and executable as asked and zeroed, the pages
      first .. first + count. */
  ghost predicate Mapped(s: State, t: State, id: nat, first: nat, count: nat, writable: bool, executable: bool, nx: bool) {
    && Tree(s.tables, s.nodes) && Tree(t.tables, t.nodes)
    && var before, after := Flat(s.tables, s.nodes), Flat(t.tables, t.nodes);
    && (forall l :: l in after <==> l in before || InRange(l, id, first, count))
    && (forall l :: l in before ==> l in after && after[l] == before[l])
    && forall v: nat :: first <= v < first + count ==>
         && Loc(id, 4, v) !in before && Loc(id, 4, v) in after
         && var leaf := after[Loc(id, 4, v)];
            && leaf == NewLeaf(leaf.frame, writable, executable, nx)
            && leaf.frame !in s.tables && leaf.frame in t.bytes && t.bytes[leaf.frame] == Zeros(PAGE_SIZE)
  }

  lemma MappedNone(s: State, id: nat, first: nat, writable: bool, executable: bool, nx: bool)
    requires Tree(s.tables, s.nodes)
    ensures Mapped(s, s, id, first, 0, writable, executable, nx)
  {
  }

  lemma RollbackRange(address: nat, k: nat, size: nat)
    requires RangeOk(address, size) && 0 < k < size / PAGE_SIZE
    ensures RangeOk(address, k * PAGE_SIZE) && k * PAGE_SIZE / PAGE_SIZE == k
  {
  }

  lemma OkMemory(kernel: Table, s: State)
    requires Ok(kernel, s)
    ensures s.bytes.Keys == AllFrames(s.nodes) == s.tables.Keys
  {
  }

  /** The contents of a page survive growth. */
  lemma GrownLeaf(s: State, t: State, id: nat, l: Loc)
    requires Tree(s.tables, s.nodes) && Grown(s, t, id)
    requires l in Flat(s.tables, s.nodes) && s.nodes[l] in s.bytes
    ensures var f := Flat(s.tables, s.nodes)[l].frame;
            f in s.bytes && f in t.bytes && t.bytes[f] == s.bytes[f]
  {
    LeafFrame(s.tables, s.nodes, l);
  }

  lemma MappedSame(s: State, t: State, u: State, id: nat, first: nat, k: nat, writable: bool, executable: bool, nx: bool)
    requires Mapped(s, t, id, first, k, writable, executable, nx)
    requires Tree(u.tables, u.nodes) && Flat(u.tables, u.nodes) == Flat(t.tables, t.nodes) && Grown(t, u, id)
    requires forall l :: l in t.nodes ==> t.nodes[l] in t.bytes
    ensures Mapped(s, u, id, first, k, writable, executable, nx)
  {
    hide Tree, Grown;
    forall v: nat | first <= v < first + k
      ensures var leaf := Flat(u.tables, u.nodes)[Loc(id, 4, v)];
              leaf.frame in u.bytes && u.bytes[leaf.frame] == Zeros(PAGE_SIZE)
    {
      GrownLeaf(t, u, id, Loc(id, 4, v));
    }
  }

  lemma MappedNext(s: State, t: State, u: State, id: nat, first: nat, k: nat, writable: bool, executable: bool, nx: bool)
    requires Mapped(s, t, id, first, k, writable, executable, nx)
    requires Tree(u.tables, u.nodes) && Grown(t, u, id) && s.tables.Keys <= t.tables.Keys
    requires forall l :: l in t.nodes ==> t.nodes[l] in t.bytes
    requires var c := Loc(id, 4, first + k);
             && c !in Flat(t.tables, t.nodes) && c in u.nodes
             && u.nodes[c] !in t.tables && u.nodes[c] in u.bytes && u.bytes[u.nodes[c]] == Zeros(PAGE_SIZE)
             && Flat(u.tables, u.nodes) == Flat(t.tables, t.nodes)[c := NewLeaf(u.nodes[c], writable, executable, nx)]
    ensures Mapped(s, u, id, first, k + 1, writable, executable, nx)
  {
    hide Tree, Grown;
    var c := Loc(id, 4, first + k);
    var before, mid, after := Flat(s.tables, s.nodes), Flat(t.tables, t.nodes), Flat(u.tables, u.nodes);
    forall v: nat | first <= v < first + k + 1
      ensures Loc(id, 4, v) !in before && Loc(id, 4, v) in after
      ensures var leaf := after[Loc(id, 4, v)];
              && leaf == NewLeaf(leaf.frame, writable, executable, nx)
              && leaf.frame !in s.tables && leaf.frame in u.bytes && u.bytes[leaf.frame] == Zeros(PAGE_SIZE)
    {
      if v < first + k {
        GrownLeaf(t, u, id, Loc(id, 4, v));
        assert after[Loc(id, 4, v)] == mid[Loc(id, 4, v)];
      } else {
        assert Loc(id, 4, v) == c;
      }
    }
    forall l ensures l in after <==> l in before || InRange(l, id, first, k + 1) {
      assert l in after <==> l in mid || l == c;
      assert InRange(l, id, first, k + 1) <==> InRange(l, id, first, k) || l == c;
    }
  }

  lemma RollbackDone(s: State, t: State, u: State, id: nat, first: nat, k: nat, writable: bool, executable: bool, nx: bool)
    requires Mapped(s, t, id, first, k, writable, executable, nx)
    requires Grown(s, t, id) && Shrunk(t, u, id) && Tree(u.tables, u.nodes)
    requires Flat(u.tables, u.nodes) == MinusRange(Flat(t.tables, t.nodes), id, first, k)
    requires forall l :: l in u.nodes <==> l in t.nodes && !InRange(l, id, first, k)
    requires forall l :: l in s.nodes ==> s.nodes[l] in s.bytes
    requires forall l :: l in u.nodes ==> u.nodes[l] in u.bytes
    requires s.bytes.Keys == AllFrames(s.nodes)
    ensures Grown(s, u, id) && Flat(u.tables, u.nodes) == Flat(s.tables, s.nodes)
  {
    hide Tree, Kept, Grown, Shrunk;
    RollbackNodes(s, t, u, id, first, k, writable, executable, nx);
    GrownThenShrunk(s, t, u, id);
    var before, mid, after := Flat(s.tables, s.nodes), Flat(t.tables, t.nodes), Flat(u.tables, u.nodes);
    forall l | l in before ensures !InRange(l, id, first, k) {
      OldPageOutside(s, t, id, first, k, writable, executable, nx, l);
    }
  }

  lemma OldPageOutside(s: State, t: State, id: nat, first: nat, k: nat, writable: bool, executable: bool, nx: bool, l: Loc)
    requires Mapped(s, t, id, first, k, writable, executable, nx)
    requires l in Flat(s.tables, s.nodes)
    ensures !InRange(l, id, first, k)
  {
    hide Tree;
    assert l == Loc(l.id, 4, l.prefix);
  }

  lemma RollbackNodes(s: State, t: State, u: State, id: nat, first: nat, k: nat, writable: bool, executable: bool, nx: bool)
    requires Mapped(s, t, id, first, k, writable, executable, nx) && Grown(s, t, id)
    requires forall l :: l in u.nodes <==> l in t.nodes && !InRange(l, id, first, k)
    ensures forall l :: l in s.nodes ==> l in u.nodes
  {
    hide Tree, Kept, Mapped;
    forall l | l in s.nodes ensures l in u.nodes {
      if l.level == 4 {
        MappedTrees(s, t, id, first, k, writable, executable, nx);
        OldPageOutside(s, t, id, first, k, writable, executable, nx, l);
      }
    }
  }

  lemma MappedTrees(s: State, t: State, id: nat, first: nat, k: nat, writable: bool, executable: bool, nx: bool)
    requires Mapped(s, t, id, first, k, writable, executable, nx)
    ensures Tree(s.tables, s.nodes) && Tree(t.tables, t.nodes)
  {
  }

  lemma MappedPages(s: State, t: State, id: nat, first: nat, k: nat, writable: bool, executable: bool, nx: bool)
    requires Mapped(s, t, id, first, k, writable, executable, nx)
    ensures forall v: nat :: first <= v < first + k ==> Loc(id, 4, v) in Flat(t.tables, t.nodes)
  {
  }

  lemma MappedOld(s: State, t: State, id: nat, first: nat, k: nat, writable: bool, executable: bool, nx: bool)
    requires Mapped(s, t, id, first, k, writable, executable, nx)
    ensures Loc(id, 4, first + k) in Flat(t.tables, t.nodes) ==> Loc(id, 4, first + k) in Flat(s.tables, s.nodes)
    ensures k == 0 ==> Flat(t.tables, t.nodes) == Flat(s.tables, s.nodes)
  {
    hide Tree;
  }

  // --------------------------------------------------------------------------------------
  // Whole spaces

  ghost function RootState(kernel: Table, s: State, id: nat, f: Frame): State {
    State(s.tables[f := kernel], s.bytes[f := Zeros(PAGE_SIZE)], s.spaces[id := Space(f, [f])],
          s.nodes[Loc(id, 0, 0) := f])
  }

  lemma SameRootState(kernel: Table, s: State, id: nat, f: Frame)
    ensures RootState(kernel, s, id, f)
         == State(s.tables[f := kernel], s.bytes[f := Zeros(PAGE_SIZE)], s.spaces[id := Space(f, [f])],
                  s.nodes[Loc(id, 0, 0) := f])
  {
  }

  lemma NoNodesYet(kernel: Table, s: State, id: nat)
    requires Ok(kernel, s) && id !in s.spaces
    ensures forall l :: l in s.nodes ==> l.id != id
  {
  }

  lemma FlatOwners(kernel: Table, s: State, id: nat)
    requires Ok(kernel, s) && id !in s.spaces
    ensures forall l :: l in Flat(s.tables, s.nodes) ==> l.id != id
  {
    NoNodesYet(kernel, s, id);
  }

  lemma RootSpace(kernel: Table, s: State, id: nat, f: Frame, j: nat)
    requires Ok(kernel, s) && id !in s.spaces && f !in s.tables && f != 0
    requires j == id || j in s.spaces
    ensures SpaceOk(kernel, RootState(kernel, s, id, f), j)
  {
    hide Tree, Memory;
    LiveNodes(kernel, s);
    NoNodesYet(kernel, s, id);
    FramesGrow(s.nodes, Loc(id, 0, 0), f);
    if j != id {
      assert SpaceOk(kernel, s, j);
    } else {
      assert FramesOf(s.nodes, id) == {};
    }
  }

  lemma RootOk(kernel: Table, s: State, id: nat, f: Frame)
    requires Ok(kernel, s) && id !in s.spaces && f !in s.tables && f != 0
    requires !kernel[2].present && !kernel[3].present
    ensures var t := RootState(kernel, s, id, f);
            Ok(kernel, t) && Flat(t.tables, t.nodes) == Flat(s.tables, s.nodes)
  {
    hide Tree, SpaceOk, Flat;
    var t := RootState(kernel, s, id, f);
    NoNodesYet(kernel, s, id);
    AddRoot(s.tables, s.nodes, id, f, kernel);
    AddRootKeepsFlat(s.tables, s.nodes, id, f, kernel);
    FramesGrow(s.nodes, Loc(id, 0, 0), f);
    assert Memory(s);
    forall j | j in t.spaces ensures SpaceOk(kernel, t, j) {
      RootSpace(kernel, s, id, f, j);
    }
  }

  ghost function DestroyState(s: State, id: nat): State {
    State(s.tables - FramesOf(s.nodes, id), s.bytes - FramesOf(s.nodes, id), s.spaces - {id},
          s.nodes - NodesOf(s.nodes, id))
  }

  ghost function Members(s: seq<Frame>): set<Frame> {
    set i | 0 <= i < |s| :: s[i]
  }

  lemma MembersNext(s: seq<Frame>, k: nat)
    requires k < |s|
    ensures Members(s[..k + 1]) == Members(s[..k]) + {s[k]}
  {
    assert s[..k + 1] == s[..k] + [s[k]];
    assert (s[..k] + [s[k]])[k] == s[k];
    forall f | f in Members(s[..k]) ensures f in Members(s[..k + 1]) {
      var i :| 0 <= i < k && s[..k][i] == f;
      assert s[..k + 1][i] == f;
    }
  }

  lemma DestroySpace(kernel: Table, s: State, id: nat, j: nat)
    requires Ok(kernel, s) && j in s.spaces && j != id
    ensures SpaceOk(kernel, DestroyState(s, id), j)
  {
    assert SpaceOk(kernel, s, j);
    var nodes' := s.nodes - NodesOf(s.nodes, id);
    assert FramesOf(nodes', j) == FramesOf(s.nodes, j) by {
      assert forall l :: l in s.nodes && l.id == j ==> l in nodes' && nodes'[l] == s.nodes[l];
    }
    assert s.spaces[j].root !in FramesOf(s.nodes, id);
  }

  lemma FramesLeft(nodes: map<Loc, Frame>, id: nat)
    requires NoSharing(nodes)
    ensures AllFrames(nodes - NodesOf(nodes, id)) == AllFrames(nodes) - FramesOf(nodes, id)
  {
    var rest := nodes - NodesOf(nodes, id);
    forall f ensures f in AllFrames(rest) <==> f in AllFrames(nodes) && f !in FramesOf(nodes, id) {
      if f in AllFrames(rest) {
        var l :| l in rest && rest[l] == f;
        assert l in nodes && l.id != id;
      }
      if f in AllFrames(nodes) && f !in FramesOf(nodes, id) {
        var l :| l in nodes && nodes[l] == f;
        assert l in rest;
      }
    }
  }

  lemma DestroyMemory(kernel: Table, s: State, id: nat)
    requires Ok(kernel, s)
    ensures Memory(DestroyState(s, id))
  {
    hide Tree, SpaceOk, AllFrames, FramesOf;
    Unshared(s.tables, s.nodes);
    FramesLeft(s.nodes, id);
    assert Memory(s);
  }

  lemma DestroyOk(kernel: Table, s: State, id: nat)
    requires Ok(kernel, s) && id in s.spaces
    ensures var t := DestroyState(s, id);
            && Ok(kernel, t)
            && Flat(t.tables, t.nodes)
               == map l | l in Flat(s.tables, s.nodes) && l.id != id :: Flat(s.tables, s.nodes)[l]
    ensures Members(s.spaces[id].allocations) == FramesOf(s.nodes, id)
  {
    hide Tree, Flat, Memory, FramesOf;
    var t := DestroyState(s, id);
    RemoveSpace(s.tables, s.nodes, id);
    RemoveSpaceKeepsOthers(s.tables, s.nodes, id);
    DestroyMemory(kernel, s, id);
    forall j | j in t.spaces ensures SpaceOk(kernel, t, j) {
      DestroySpace(kernel, s, id, j);
    }
    assert SpaceOk(kernel, s, id);
    ListMembers(s.spaces[id].allocations, FramesOf(s.nodes, id));
  }

  lemma ListMembers(s: seq<Frame>, frames: set<Frame>)
    requires Lists(s, frames)
    ensures Members(s) == frames
  {
    forall f | f in frames ensures f in Members(s) {
      var i :| 0 <= i < |s| && s[i] == f;
    }
  }
}
