/** Four-level page tables as a tree of frames, and the flat map they stand for. */
module PageTree {
  import opened Bytes
  import opened Options

  const ENTRIES: nat := 512
  const PAGE_SIZE: nat := 4096
  const USER_BASE: nat := 0x100_0000_0000
  const USER_LIMIT: nat := 0x200_0000_0000
  const FIRST_USER_PAGE: nat := 0x1000_0000
  const LAST_USER_PAGE: nat := 0x1FFF_FFFF

  type Frame = nat

  /** The fields of a 64-bit page-table entry that the kernel reads or writes. */
  datatype Entry = Entry(present: bool, writable: bool, user: bool, huge: bool, owned: bool,
                         noExecute: bool, frame: Frame)

  const EMPTY := Entry(false, false, false, false, false, false, 0)

  type Table = t: seq<Entry> | |t| == ENTRIES witness seq(ENTRIES, i => EMPTY)

  function EmptyTable(): (t: Table)
    ensures forall i :: 0 <= i < ENTRIES ==> t[i] == EMPTY
  {
    seq(ENTRIES, i => EMPTY)
  }

  predicate UserPage(v: nat) {
    FIRST_USER_PAGE <= v <= LAST_USER_PAGE
  }

  // --------------------------------------------------------------------------------------
  // The hardware walk

  /** The entry that leads to the next level, if the walk may follow it. */
  function Follow(tables: map<Frame, Table>, f: Frame, i: nat, owned: bool): Option<Entry> {
    if f in tables && i < ENTRIES
       && tables[f][i].present && tables[f][i].user && !tables[f][i].huge
       && (owned ==> tables[f][i].owned)
    then Some(tables[f][i]) else None
  }

  /** The leaf slot of page `v`: the page table and index reached through three levels. */
  function LeafSlot(tables: map<Frame, Table>, root: Frame, v: nat, owned: bool): Option<Frame> {
    match Follow(tables, root, v / 512 / 512 / 512 % 512, owned)
    case None => None
    case Some(e1) =>
      match Follow(tables, e1.frame, v / 512 / 512 % 512, owned)
      case None => None
      case Some(e2) =>
        match Follow(tables, e2.frame, v / 512 % 512, owned)
        case None => None
        case Some(e3) => Some(e3.frame)
  }

  /** translate_user_page, on whole pages: the leaf entry of `v` if it is mapped for users. */
  function Walk(tables: map<Frame, Table>, root: Frame, v: nat): Option<Entry> {
    match LeafSlot(tables, root, v, false)
    case None => None
    case Some(pt) =>
      if pt in tables && tables[pt][v % 512].present && tables[pt][v % 512].user
      then Some(tables[pt][v % 512]) else None
  }

  // --------------------------------------------------------------------------------------
  // The tree

  /** A place in the page tables of address space `id`: level 0 is the PML4, level 4 a user
      page; `prefix` is the page number of the place, cut to its level. */
  datatype Loc = Loc(id: nat, level: nat, prefix: nat)

  function Child(l: Loc, i: nat): Loc {
    Loc(l.id, l.level + 1, l.prefix * 512 + i)
  }

  function Parent(l: Loc): Loc
    requires l.level > 0
  {
    Loc(l.id, l.level - 1, l.prefix / 512)
  }

  function Slot(l: Loc): nat {
    l.prefix % 512
  }

  /** The table slots that belong to user space: in the PML4 only entries 2 and 3. */
  predicate Indexable(l: Loc, i: nat) {
    l.level < 4 && i < ENTRIES && (l.level == 0 ==> i == 2 || i == 3)
  }

  predicate TableEntry(e: Entry, f: Frame) {
    e == Entry(true, true, true, false, true, false, f)
  }

  predicate LeafEntry(e: Entry, f: Frame) {
    e.present && e.user && e.owned && !e.huge && e.frame == f
  }

  /** One slot of one table agrees with the tree: it is present exactly when the child exists,
      and then it is an owned entry pointing at the child. */
  ghost predicate Linked(tables: map<Frame, Table>, nodes: map<Loc, Frame>, l: Loc, i: nat)
    requires l in nodes && nodes[l] in tables && Indexable(l, i)
  {
    var e := tables[nodes[l]][i];
    && (e.present <==> Child(l, i) in nodes)
    && (Child(l, i) in nodes ==>
          if l.level == 3 then LeafEntry(e, nodes[Child(l, i)]) else TableEntry(e, nodes[Child(l, i)]))
  }

  ghost predicate Placed(tables: map<Frame, Table>, nodes: map<Loc, Frame>, l: Loc)
    requires l in nodes
  {
    && nodes[l] in tables && nodes[l] != 0 && l.level <= 4
    && (l.level == 0 ==> l.prefix == 0)
    && (l.level > 0 ==> Parent(l) in nodes && Indexable(Parent(l), Slot(l)))
  }

  ghost predicate NoSharing(nodes: map<Loc, Frame>) {
    forall a, b :: a in nodes && b in nodes && nodes[a] == nodes[b] ==> a == b
  }

  /** The tree invariant: every live frame has exactly one place, and every slot agrees. */
  ghost predicate Tree(tables: map<Frame, Table>, nodes: map<Loc, Frame>) {
    && NoSharing(nodes)
    && (forall l :: l in nodes ==> Placed(tables, nodes, l))
    && (forall l, i :: l in nodes && Indexable(l, i) ==> Linked(tables, nodes, l, i))
  }

  datatype Leaf = Leaf(frame: Frame, writable: bool, executable: bool)

  function LeafOf(e: Entry): Leaf {
    Leaf(e.frame, e.writable, !e.noExecute)
  }

  /** The flat map of all address spaces at once: (space, page) to frame and rights. */
  ghost function Flat(tables: map<Frame, Table>, nodes: map<Loc, Frame>): map<Loc, Leaf>
    requires Tree(tables, nodes)
  {
    map l | l in nodes && l.level == 4 :: FlatLeaf(tables, nodes, l)
  }

  ghost function FlatLeaf(tables: map<Frame, Table>, nodes: map<Loc, Frame>, l: Loc): Leaf
    requires Tree(tables, nodes) && l in nodes && l.level == 4
  {
    assert Placed(tables, nodes, l);
    assert Placed(tables, nodes, Parent(l));
    LeafOf(tables[nodes[Parent(l)]][Slot(l)])
  }

  lemma ChildParent(l: Loc, i: nat)
    requires i < 512
    ensures Parent(Child(l, i)) == l && Slot(Child(l, i)) == i
  {
  }

  lemma ParentChild(l: Loc)
    requires l.level > 0
    ensures Child(Parent(l), Slot(l)) == l
  {
  }

  // --------------------------------------------------------------------------------------
  // The walk refines the flat map

  ghost function LocOf(id: nat, v: nat, level: nat): Loc {
    Loc(id, level,
        if level == 4 then v else if level == 3 then v / 512
        else if level == 2 then v / 512 / 512 else if level == 1 then v / 512 / 512 / 512 else 0)
  }

  lemma LocStep(id: nat, v: nat, level: nat)
    requires UserPage(v) && level < 4
    ensures var l := LocOf(id, v, level + 1);
            Parent(l) == LocOf(id, v, level) && Indexable(LocOf(id, v, level), Slot(l))
            && Child(LocOf(id, v, level), Slot(l)) == l
  {
  }

  lemma FollowStep(tables: map<Frame, Table>, nodes: map<Loc, Frame>, l: Loc, i: nat, owned: bool)
    requires Tree(tables, nodes) && l in nodes && Indexable(l, i) && l.level < 3
    ensures Follow(tables, nodes[l], i, owned).Some? <==> Child(l, i) in nodes
    ensures Child(l, i) in nodes ==> Follow(tables, nodes[l], i, owned).value.frame == nodes[Child(l, i)]
  {
    assert Placed(tables, nodes, l);
    assert Linked(tables, nodes, l, i);
  }

  /** The three table levels lead to the page table of `v` exactly when the tree has one. */
  lemma LeafSlotIsNode(tables: map<Frame, Table>, nodes: map<Loc, Frame>, id: nat, v: nat, owned: bool)
    requires Tree(tables, nodes) && UserPage(v)
    requires LocOf(id, v, 0) in nodes
    ensures LeafSlot(tables, nodes[LocOf(id, v, 0)], v, owned)
         == if LocOf(id, v, 3) in nodes then Some(nodes[LocOf(id, v, 3)]) else None
  {
    hide Tree;
    LocStep(id, v, 0);
    LocStep(id, v, 1);
    LocStep(id, v, 2);
    var l0, l1, l2 := LocOf(id, v, 0), LocOf(id, v, 1), LocOf(id, v, 2);
    FollowStep(tables, nodes, l0, Slot(l1), owned);
    if l1 in nodes {
      FollowStep(tables, nodes, l1, Slot(l2), owned);
      if l2 in nodes {
        FollowStep(tables, nodes, l2, Slot(LocOf(id, v, 3)), owned);
      } else {
        HasParent(tables, nodes, LocOf(id, v, 3));
      }
    } else {
      HasParent(tables, nodes, l2);
      HasParent(tables, nodes, LocOf(id, v, 3));
    }
  }

  lemma HasParent(tables: map<Frame, Table>, nodes: map<Loc, Frame>, l: Loc)
    requires Tree(tables, nodes) && l.level > 0
    ensures l in nodes ==> Parent(l) in nodes
  {
    if l in nodes {
      assert Placed(tables, nodes, l);
    }
  }

  /** The hardware walk and the flat map agree on every user page. */
  lemma WalkRefinesFlat(tables: map<Frame, Table>, nodes: map<Loc, Frame>, id: nat, v: nat)
    requires Tree(tables, nodes) && UserPage(v)
    requires LocOf(id, v, 0) in nodes
    ensures var found := Walk(tables, nodes[LocOf(id, v, 0)], v);
            var l := Loc(id, 4, v);
            if l in Flat(tables, nodes) then found.Some? && LeafOf(found.value) == Flat(tables, nodes)[l]
            else found == None
  {
    LeafSlotIsNode(tables, nodes, id, v, false);
    LocStep(id, v, 3);
    var l3, l4 := LocOf(id, v, 3), LocOf(id, v, 4);
    if l3 in nodes {
      assert Placed(tables, nodes, l3);
      assert Linked(tables, nodes, l3, Slot(l4));
    } else {
      HasParent(tables, nodes, l4);
    }
  }

  /** No two user pages, in one space or in two, share a frame. */
  lemma FramesAreDistinct(tables: map<Frame, Table>, nodes: map<Loc, Frame>, a: Loc, b: Loc)
    requires Tree(tables, nodes)
    requires a in Flat(tables, nodes) && b in Flat(tables, nodes) && a != b
    ensures Flat(tables, nodes)[a].frame != Flat(tables, nodes)[b].frame
  {
    LeafFrame(tables, nodes, a);
    LeafFrame(tables, nodes, b);
  }

  lemma LeafFrame(tables: map<Frame, Table>, nodes: map<Loc, Frame>, l: Loc)
    requires Tree(tables, nodes) && l in nodes && l.level == 4
    ensures Flat(tables, nodes)[l].frame == nodes[l]
  {
    assert Placed(tables, nodes, l);
    ParentChild(l);
    assert Placed(tables, nodes, Parent(l));
    assert Linked(tables, nodes, Parent(l), Slot(l));
  }

  // --------------------------------------------------------------------------------------
  // What each table update does

  /** The tables after a fresh frame is linked at slot `i` of the table at `l`. */
  ghost function Linking(tables: map<Frame, Table>, at: Frame, i: nat, f: Frame, page: Table, e: Entry): map<Frame, Table>
    requires at in tables && i < ENTRIES
  {
    tables[f := page][at := tables[at][i := e]]
  }

  lemma AddNode(tables: map<Frame, Table>, nodes: map<Loc, Frame>, l: Loc, i: nat, f: Frame, page: Table, e: Entry)
    requires Tree(tables, nodes)
    requires l in nodes && Indexable(l, i) && Child(l, i) !in nodes
    requires f !in tables && f != 0 && (l.level < 3 ==> page == EmptyTable())
    requires if l.level == 3 then LeafEntry(e, f) else TableEntry(e, f)
    ensures nodes[l] in tables
    ensures Tree(Linking(tables, nodes[l], i, f, page, e), nodes[Child(l, i) := f])
  {
    assert Placed(tables, nodes, l);
    var c := Child(l, i);
    var tables' := Linking(tables, nodes[l], i, f, page, e);
    var nodes' := nodes[c := f];
    ChildParent(l, i);
    forall a | a in nodes ensures nodes[a] in tables && nodes[a] != f {
      assert Placed(tables, nodes, a);
    }
    forall k | k in nodes' ensures Placed(tables', nodes', k) {
      if k != c { assert Placed(tables, nodes, k); }
    }
    forall k, j | k in nodes' && Indexable(k, j) ensures Linked(tables', nodes', k, j) {
      AddNodeLinked(tables, nodes, l, i, f, page, e, k, j);
    }
  }

  lemma AddNodeLinked(tables: map<Frame, Table>, nodes: map<Loc, Frame>, l: Loc, i: nat, f: Frame, page: Table, e: Entry,
                      k: Loc, j: nat)
    requires Tree(tables, nodes)
    requires l in nodes && Indexable(l, i) && Child(l, i) !in nodes && nodes[l] in tables
    requires f !in tables && f != 0 && (l.level < 3 ==> page == EmptyTable())
    requires if l.level == 3 then LeafEntry(e, f) else TableEntry(e, f)
    requires k in nodes[Child(l, i) := f] && Indexable(k, j)
    requires nodes[Child(l, i) := f][k] in Linking(tables, nodes[l], i, f, page, e)
    ensures Linked(Linking(tables, nodes[l], i, f, page, e), nodes[Child(l, i) := f], k, j)
  {
    var c := Child(l, i);
    ChildParent(k, j);
    ChildParent(l, i);
    if k == c {
      HasParent(tables, nodes, Child(k, j));
      assert Child(c, j) !in nodes;
      assert Child(c, j) != c;
    } else {
      assert Placed(tables, nodes, k);
      assert Linked(tables, nodes, k, j);
      if nodes[k] == nodes[l] {
        assert k == l;
      }
      if Child(k, j) == c {
        assert k == l && j == i;
      }
    }
  }

  lemma LeafPlace(tables: map<Frame, Table>, nodes: map<Loc, Frame>, k: Loc)
    requires Tree(tables, nodes) && k in nodes && k.level == 4
    ensures Parent(k) in nodes && nodes[Parent(k)] in tables && nodes[k] in tables
    ensures Child(Parent(k), Slot(k)) == k
    ensures FlatLeaf(tables, nodes, k) == LeafOf(tables[nodes[Parent(k)]][Slot(k)])
    ensures forall b :: b in nodes && nodes[b] == nodes[Parent(k)] ==> b == Parent(k)
  {
    assert Placed(tables, nodes, k);
    assert Placed(tables, nodes, Parent(k));
    ParentChild(k);
  }

  /** Linking a table changes no page. */
  lemma AddTableKeepsFlat(tables: map<Frame, Table>, nodes: map<Loc, Frame>, l: Loc, i: nat, f: Frame, e: Entry)
    requires Tree(tables, nodes)
    requires l in nodes && Indexable(l, i) && l.level < 3 && Child(l, i) !in nodes
    requires f !in tables && f != 0 && TableEntry(e, f)
    requires nodes[l] in tables
    requires Tree(Linking(tables, nodes[l], i, f, EmptyTable(), e), nodes[Child(l, i) := f])
    ensures Flat(Linking(tables, nodes[l], i, f, EmptyTable(), e), nodes[Child(l, i) := f]) == Flat(tables, nodes)
  {
    hide Tree, FlatLeaf;
    var tables' := Linking(tables, nodes[l], i, f, EmptyTable(), e);
    var nodes' := nodes[Child(l, i) := f];
    forall k | k in nodes && k.level == 4
      ensures FlatLeaf(tables', nodes', k) == FlatLeaf(tables, nodes, k)
    {
      LeafPlace(tables, nodes, k);
      LeafPlace(tables', nodes', k);
    }
  }

  /** Linking a page adds exactly that page. */
  lemma AddLeafExtendsFlat(tables: map<Frame, Table>, nodes: map<Loc, Frame>, l: Loc, i: nat, f: Frame, page: Table, e: Entry)
    requires Tree(tables, nodes)
    requires l in nodes && Indexable(l, i) && l.level == 3 && Child(l, i) !in nodes
    requires f !in tables && f != 0 && LeafEntry(e, f)
    requires nodes[l] in tables
    requires Tree(Linking(tables, nodes[l], i, f, page, e), nodes[Child(l, i) := f])
    ensures Flat(Linking(tables, nodes[l], i, f, page, e), nodes[Child(l, i) := f])
         == Flat(tables, nodes)[Child(l, i) := LeafOf(e)]
  {
    hide Tree, FlatLeaf;
    var c := Child(l, i);
    var tables' := Linking(tables, nodes[l], i, f, page, e);
    var nodes' := nodes[c := f];
    ChildParent(l, i);
    LeafPlace(tables', nodes', c);
    forall k | k in nodes && k.level == 4
      ensures FlatLeaf(tables', nodes', k) == FlatLeaf(tables, nodes, k)
    {
      LeafPlace(tables, nodes, k);
      LeafPlace(tables', nodes', k);
    }
  }

  /** The tables after the leaf at `c` is cleared and its frame released. */
  ghost function Unlinking(tables: map<Frame, Table>, at: Frame, i: nat, f: Frame): map<Frame, Table>
    requires at in tables && i < ENTRIES
  {
    tables[at := tables[at][i := EMPTY]] - {f}
  }

  lemma RemoveLeaf(tables: map<Frame, Table>, nodes: map<Loc, Frame>, c: Loc)
    requires Tree(tables, nodes)
    requires c in nodes && c.level == 4
    ensures Parent(c) in nodes && nodes[Parent(c)] in tables && nodes[c] in tables
    ensures Tree(Unlinking(tables, nodes[Parent(c)], Slot(c), nodes[c]), nodes - {c})
  {
    var l, i := Parent(c), Slot(c);
    assert Placed(tables, nodes, c);
    assert Placed(tables, nodes, l);
    ParentChild(c);
    var f := nodes[c];
    var tables' := Unlinking(tables, nodes[l], i, f);
    var nodes' := nodes - {c};
    forall k | k in nodes' ensures Placed(tables', nodes', k) {
      assert Placed(tables, nodes, k);
      assert nodes[k] != f;
      if k.level > 0 { assert Parent(k) != c; }
    }
    forall k, j | k in nodes' && Indexable(k, j) ensures Linked(tables', nodes', k, j) {
      RemoveLeafLinked(tables, nodes, c, k, j);
    }
  }

  lemma RemoveLeafLinked(tables: map<Frame, Table>, nodes: map<Loc, Frame>, c: Loc, k: Loc, j: nat)
    requires Tree(tables, nodes)
    requires c in nodes && c.level == 4 && Parent(c) in nodes && nodes[Parent(c)] in tables
    requires k in nodes && k != c && Indexable(k, j)
    requires nodes[k] in Unlinking(tables, nodes[Parent(c)], Slot(c), nodes[c])
    ensures Linked(Unlinking(tables, nodes[Parent(c)], Slot(c), nodes[c]), nodes - {c}, k, j)
  {
    assert Placed(tables, nodes, k);
    assert Linked(tables, nodes, k, j);
    assert nodes[k] != nodes[c];
    ChildParent(k, j);
    ParentChild(c);
    if nodes[k] == nodes[Parent(c)] {
      assert k == Parent(c);
    }
  }

  lemma RemoveLeafShrinksFlat(tables: map<Frame, Table>, nodes: map<Loc, Frame>, c: Loc)
    requires Tree(tables, nodes)
    requires c in nodes && c.level == 4
    requires Parent(c) in nodes && nodes[Parent(c)] in tables
    requires Tree(Unlinking(tables, nodes[Parent(c)], Slot(c), nodes[c]), nodes - {c})
    ensures Flat(Unlinking(tables, nodes[Parent(c)], Slot(c), nodes[c]), nodes - {c}) == Flat(tables, nodes) - {c}
  {
    hide Tree, FlatLeaf;
    var tables' := Unlinking(tables, nodes[Parent(c)], Slot(c), nodes[c]);
    var nodes' := nodes - {c};
    LeafPlace(tables, nodes, c);
    forall k | k in nodes' && k.level == 4
      ensures FlatLeaf(tables', nodes', k) == FlatLeaf(tables, nodes, k)
    {
      LeafPlace(tables, nodes, k);
      LeafPlace(tables', nodes', k);
    }
  }

  /** A new address space starts with an empty user half. */
  lemma AddRoot(tables: map<Frame, Table>, nodes: map<Loc, Frame>, id: nat, f: Frame, page: Table)
    requires Tree(tables, nodes)
    requires forall l :: l in nodes ==> l.id != id
    requires f !in tables && f != 0 && !page[2].present && !page[3].present
    ensures Tree(tables[f := page], nodes[Loc(id, 0, 0) := f])
  {
    var root := Loc(id, 0, 0);
    var tables', nodes' := tables[f := page], nodes[root := f];
    forall a | a in nodes ensures nodes[a] in tables && nodes[a] != f {
      assert Placed(tables, nodes, a);
    }
    forall k | k in nodes' ensures Placed(tables', nodes', k) {
      if k != root { assert Placed(tables, nodes, k); }
    }
    forall k, j | k in nodes' && Indexable(k, j) ensures Linked(tables', nodes', k, j) {
      if k != root {
        assert Linked(tables, nodes, k, j);
      } else {
        assert Child(root, j) !in nodes;
      }
    }
  }

  lemma AddRootKeepsFlat(tables: map<Frame, Table>, nodes: map<Loc, Frame>, id: nat, f: Frame, page: Table)
    requires Tree(tables, nodes) && Tree(tables[f := page], nodes[Loc(id, 0, 0) := f])
    requires f !in tables
    ensures Flat(tables[f := page], nodes[Loc(id, 0, 0) := f]) == Flat(tables, nodes)
  {
    hide Tree, FlatLeaf;
    var tables', nodes' := tables[f := page], nodes[Loc(id, 0, 0) := f];
    forall k | k in nodes && k.level == 4
      ensures FlatLeaf(tables', nodes', k) == FlatLeaf(tables, nodes, k)
    {
      LeafPlace(tables, nodes, k);
      LeafPlace(tables', nodes', k);
    }
  }

  /** Every node of one address space. */
  ghost function NodesOf(nodes: map<Loc, Frame>, id: nat): set<Loc> {
    set l | l in nodes && l.id == id
  }

  ghost function FramesOf(nodes: map<Loc, Frame>, id: nat): set<Frame> {
    set l | l in nodes && l.id == id :: nodes[l]
  }

  lemma RemoveSpace(tables: map<Frame, Table>, nodes: map<Loc, Frame>, id: nat)
    requires Tree(tables, nodes)
    ensures Tree(tables - FramesOf(nodes, id), nodes - NodesOf(nodes, id))
  {
    var tables', nodes' := tables - FramesOf(nodes, id), nodes - NodesOf(nodes, id);
    forall k | k in nodes' ensures k in nodes && k.id != id && nodes[k] !in FramesOf(nodes, id) {
    }
    forall k | k in nodes' ensures Placed(tables', nodes', k) {
      assert Placed(tables, nodes, k);
    }
    forall k, j | k in nodes' && Indexable(k, j) ensures Linked(tables', nodes', k, j) {
      assert Placed(tables, nodes, k);
      assert Linked(tables, nodes, k, j);
      assert Child(k, j) in nodes' <==> Child(k, j) in nodes;
    }
  }

  /** Destroying one space leaves the others as they were. */
  lemma RemoveSpaceKeepsOthers(tables: map<Frame, Table>, nodes: map<Loc, Frame>, id: nat)
    requires Tree(tables, nodes) && Tree(tables - FramesOf(nodes, id), nodes - NodesOf(nodes, id))
    ensures Flat(tables - FramesOf(nodes, id), nodes - NodesOf(nodes, id))
         == map l | l in Flat(tables, nodes) && l.id != id :: Flat(tables, nodes)[l]
  {
    hide Tree, FlatLeaf;
    var tables', nodes' := tables - FramesOf(nodes, id), nodes - NodesOf(nodes, id);
    forall k | k in nodes' && k.level == 4
      ensures FlatLeaf(tables', nodes', k) == FlatLeaf(tables, nodes, k)
    {
      LeafPlace(tables, nodes, k);
      LeafPlace(tables', nodes', k);
    }
  }
}
