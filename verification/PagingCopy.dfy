/** kernel/paging.c: copying between kernel buffers and user memory, page by page. */
module PagingCopy {
  import opened Bytes
  import opened Options
  import opened Buffers
  import opened PageTree
  import opened Paging

  predicate UserAddress(a: nat) {
    USER_BASE <= a < USER_LIMIT
  }

  ghost function PageAt(id: nat, a: nat): Loc {
    Loc(id, 4, a / PAGE_SIZE)
  }

  /** The address belongs to a page of the space and, if asked for, may be written. */
  ghost predicate Accessible(view: map<Loc, Leaf>, id: nat, a: nat, writing: bool) {
    UserAddress(a) && PageAt(id, a) in view && (writing ==> view[PageAt(id, a)].writable)
  }

  ghost predicate AllAccessible(view: map<Loc, Leaf>, id: nat, a: nat, count: nat, writing: bool) {
    forall x: nat :: a <= x < a + count ==> Accessible(view, id, x, writing)
  }

  /** What a process reads at an address. */
  ghost function ByteAt(view: map<Loc, Leaf>, bytes: map<Frame, seq<byte>>, id: nat, a: nat): Option<byte> {
    if PageAt(id, a) in view && view[PageAt(id, a)].frame in bytes
       && |bytes[view[PageAt(id, a)].frame]| == PAGE_SIZE
    then Some(bytes[view[PageAt(id, a)].frame][a % PAGE_SIZE]) else None
  }

  /** No two pages share a frame, and every page has its bytes. */
  ghost predicate Clean(view: map<Loc, Leaf>, bytes: map<Frame, seq<byte>>) {
    && (forall k, l :: k in view && l in view && view[k].frame == view[l].frame ==> k == l)
    && (forall l :: l in view ==> view[l].frame in bytes && |bytes[view[l].frame]| == PAGE_SIZE)
  }

  lemma ViewIsClean(kernel: Table, s: State)
    requires Ok(kernel, s)
    ensures Tree(s.tables, s.nodes) && Clean(Flat(s.tables, s.nodes), s.bytes)
  {
    hide Tree, SpaceOk, FlatLeaf;
    LiveNodes(kernel, s);
    forall l | l in s.nodes && l.level == 4 ensures Flat(s.tables, s.nodes)[l].frame == s.nodes[l] {
      LeafFrame(s.tables, s.nodes, l);
    }
    Unshared(s.tables, s.nodes);
  }

  lemma NewBytesOk(kernel: Table, s: State, t: State)
    requires Ok(kernel, s)
    requires t == s.(bytes := t.bytes) && t.bytes.Keys == s.bytes.Keys
    requires forall f :: f in t.bytes ==> |t.bytes[f]| == PAGE_SIZE
    ensures Ok(kernel, t)
  {
    forall id | id in t.spaces ensures SpaceOk(kernel, t, id) {
      assert SpaceOk(kernel, s, id);
    }
  }

  // --------------------------------------------------------------------------------------

  /** translate_user_page: the frame behind an address. */
  method Translate(m: Machine, id: nat, a: nat, writing: bool) returns (r: Option<Frame>)
    requires m.Valid() && id in m.spaces
    ensures Tree(m.tables, m.nodes)
    ensures r.Some? <==> Accessible(m.View(), id, a, writing)
    ensures r.Some? ==> r.value == m.View()[PageAt(id, a)].frame
  {
    hide Ok, Tree, Flat, Walk;
    OkTree(m.kernel, m.S());
    if !UserAddress(a) { return None; }
    WalkRefinesFlat(m.tables, m.nodes, id, a / PAGE_SIZE);
    var leaf := Walk(m.tables, m.spaces[id].root, a / PAGE_SIZE);
    if leaf.None? || (writing && !leaf.value.writable) { return None; }
    return Some(leaf.value.frame);
  }

  /** The bytes from `a` to the end of its page, or to the end of the range. */
  function Chunk(a: nat, left: nat): (n: nat)
    requires left > 0
    ensures 0 < n <= left && a % PAGE_SIZE + n <= PAGE_SIZE
    ensures forall x: nat :: a <= x < a + n ==> x / PAGE_SIZE == a / PAGE_SIZE && x % PAGE_SIZE == a % PAGE_SIZE + (x - a)
  {
    var room := PAGE_SIZE - a % PAGE_SIZE;
    if room > left then left else room
  }

  /** paging_user_range_mapped. */
  method RangeMapped(m: Machine, id: nat, a: nat, count: nat, writing: bool) returns (ok: bool)
    requires m.Valid() && id in m.spaces
    ensures Tree(m.tables, m.nodes)
    ensures ok <==> AllAccessible(m.View(), id, a, count, writing)
  {
    hide Ok, Tree, Flat;
    OkTree(m.kernel, m.S());
    if count == 0 { return true; }
    if !UserAddress(a) || count > USER_LIMIT - a {
      assert !Accessible(m.View(), id, a, writing) || !Accessible(m.View(), id, a + count - 1, writing);
      return false;
    }
    var checked := 0;
    while checked < count
      invariant checked <= count
      invariant AllAccessible(m.View(), id, a, checked, writing)
    {
      var r := Translate(m, id, a + checked, writing);
      if r.None? { return false; }
      checked := checked + Chunk(a + checked, count - checked);
    }
    return true;
  }

  /** Exactly the bytes of one range of one space have changed, to `data`. */
  ghost predicate Wrote(view: map<Loc, Leaf>, before: map<Frame, seq<byte>>, after: map<Frame, seq<byte>>,
                        id: nat, a: nat, data: seq<byte>) {
    forall j: nat, x: nat ::
      ByteAt(view, after, j, x) == if j == id && a <= x < a + |data| then Some(data[x - a])
                                   else ByteAt(view, before, j, x)
  }

  /** One chunk of the copy. */
  lemma WriteChunk(view: map<Loc, Leaf>, before: map<Frame, seq<byte>>, mid: map<Frame, seq<byte>>,
                   id: nat, a: nat, data: seq<byte>, done: nat, n: nat)
    requires Clean(view, mid) && done < |data| && done + n <= |data|
    requires Wrote(view, before, mid, id, a, data[..done])
    requires n == Chunk(a + done, |data| - done)
    requires PageAt(id, a + done) in view
    ensures var f := view[PageAt(id, a + done)].frame;
            Wrote(view, before, mid[f := Overlay(mid[f], (a + done) % PAGE_SIZE, data[done..done + n])], id, a, data[..done + n])
  {
    var p := PageAt(id, a + done);
    var f := view[p].frame;
    var after := mid[f := Overlay(mid[f], (a + done) % PAGE_SIZE, data[done..done + n])];
    forall j: nat, x: nat
      ensures ByteAt(view, after, j, x) == if j == id && a <= x < a + (done + n) then Some(data[x - a])
                                           else ByteAt(view, before, j, x)
    {
      var was := ByteAt(view, mid, j, x);
      assert was == if j == id && a <= x < a + done then Some(data[x - a]) else ByteAt(view, before, j, x);
      if PageAt(j, x) == p {
        SamePage(a + done, x, n);
      }
    }
  }

  lemma SamePage(a: nat, x: nat, n: nat)
    requires x / PAGE_SIZE == a / PAGE_SIZE && a % PAGE_SIZE + n <= PAGE_SIZE
    ensures a <= x < a + n <==> a % PAGE_SIZE <= x % PAGE_SIZE < a % PAGE_SIZE + n
    ensures x - a == x % PAGE_SIZE - a % PAGE_SIZE
  {
  }

  /** copy_to_user_internal: every byte or none; and no byte of any space outside the range. */
  method CopyToUser(m: Machine, id: nat, a: nat, data: seq<byte>, writing: bool) returns (ok: bool)
    requires m.Valid() && id in m.spaces
    modifies m`bytes
    ensures m.Valid() && m.View() == old(m.View())
    ensures ok <==> AllAccessible(m.View(), id, a, |data|, writing)
    ensures ok ==> Wrote(m.View(), old(m.bytes), m.bytes, id, a, data)
    ensures !ok ==> m.bytes == old(m.bytes)
  {
    hide Ok, Tree, Flat, Wrote, ByteAt;
    var mapped := RangeMapped(m, id, a, |data|, writing);
    if !mapped { return false; }
    var copied := 0;
    WroteNothing(m.View(), m.bytes, id, a, data);
    while copied < |data|
      invariant copied <= |data| && m.Valid() && Tree(m.tables, m.nodes)
      invariant Wrote(m.View(), old(m.bytes), m.bytes, id, a, data[..copied])
    {
      ghost var s := m.S();
      ViewIsClean(m.kernel, s);
      var r := Translate(m, id, a + copied, writing);
      // The check above covers this page, so the translation does not fail.
      assert Accessible(m.View(), id, a + copied, writing);
      var n := Chunk(a + copied, |data| - copied);
      WriteChunk(m.View(), old(m.bytes), m.bytes, id, a, data, copied, n);
      m.bytes := m.bytes[r.value := Overlay(m.bytes[r.value], (a + copied) % PAGE_SIZE, data[copied..copied + n])];
      BytesKept(m.kernel, s, m.S(), r.value);
      copied := copied + n;
    }
    assert data[..copied] == data;
    return true;
  }

  lemma WroteNothing(view: map<Loc, Leaf>, bytes: map<Frame, seq<byte>>, id: nat, a: nat, data: seq<byte>)
    ensures Wrote(view, bytes, bytes, id, a, data[..0])
  {
  }

  lemma BytesKept(kernel: Table, s: State, t: State, f: Frame)
    requires Ok(kernel, s) && f in s.bytes && f in t.bytes
    requires t == s.(bytes := s.bytes[f := t.bytes[f]]) && |t.bytes[f]| == PAGE_SIZE
    ensures Ok(kernel, t)
  {
    hide Tree, SpaceOk;
    NewBytesOk(kernel, s, t);
  }

  /** paging_copy_from_user. */
  method CopyFromUser(m: Machine, id: nat, a: nat, count: nat) returns (r: Option<seq<byte>>)
    requires m.Valid() && id in m.spaces
    ensures Tree(m.tables, m.nodes)
    ensures r.Some? <==> AllAccessible(m.View(), id, a, count, false)
    ensures r.Some? ==> |r.value| == count
                        && forall i :: 0 <= i < count ==> ByteAt(m.View(), m.bytes, id, a + i) == Some(r.value[i])
  {
    hide Ok, Tree, Flat;
    var mapped := RangeMapped(m, id, a, count, false);
    if !mapped { return None; }
    ViewIsClean(m.kernel, m.S());
    var data: seq<byte> := [];
    while |data| < count
      invariant |data| <= count
      invariant forall i :: 0 <= i < |data| ==> ByteAt(m.View(), m.bytes, id, a + i) == Some(data[i])
    {
      var at := a + |data|;
      var f := Translate(m, id, at, false);
      assert Accessible(m.View(), id, at, false);
      var n := Chunk(at, count - |data|);
      var piece := m.bytes[f.value][at % PAGE_SIZE..at % PAGE_SIZE + n];
      forall i | 0 <= i < n ensures ByteAt(m.View(), m.bytes, id, at + i) == Some(piece[i]) {
        SamePage(at, at + i, n);
      }
      data := data + piece;
    }
    return Some(data);
  }

  /** What was copied in is what is copied out, whatever the two ranges' pages are. */
  lemma CopyRoundTrip(view: map<Loc, Leaf>, before: map<Frame, seq<byte>>, after: map<Frame, seq<byte>>,
                      id: nat, a: nat, data: seq<byte>, out: seq<byte>)
    requires Wrote(view, before, after, id, a, data) && |out| == |data|
    requires forall i :: 0 <= i < |out| ==> ByteAt(view, after, id, a + i) == Some(out[i])
    ensures out == data
  {
    forall i | 0 <= i < |out| ensures out[i] == data[i] {
      assert ByteAt(view, after, id, a + i) == Some(data[a + i - a]);
    }
  }
}
