/** The logical name-to-bytes map of the mounted view, and what one slot edit does to it. */
module FsContents {
  import opened Bytes
  import opened FsTable
  import opened FsLegacy
  import opened FsCodec

  /** No two used slots carry the same name. */
  ghost predicate DistinctSlots(slots: seq<Slot>) {
    forall i, j :: 0 <= i < j < |slots| && slots[i].Used? && slots[j].Used? ==>
      slots[i].file.name != slots[j].file.name
  }

  predicate IsNamed(s: Slot, name: seq<byte>) {
    s.Used? && s.file.name == name
  }

  /** The first slot of that name, or |slots|. */
  function Find(slots: seq<Slot>, name: seq<byte>): (i: nat)
    ensures i <= |slots|
    ensures i < |slots| ==> IsNamed(slots[i], name)
    ensures forall k :: 0 <= k < i ==> !IsNamed(slots[k], name)
  {
    if slots == [] then 0
    else if IsNamed(slots[0], name) then 0
    else 1 + Find(slots[1..], name)
  }

  ghost function NameSet(slots: seq<Slot>): set<seq<byte>> {
    set i | 0 <= i < |slots| && slots[i].Used? :: slots[i].file.name
  }

  /** What the filesystem's users see: every name with its bytes. */
  ghost function Contents(slots: seq<Slot>): map<seq<byte>, seq<byte>> {
    map name | name in NameSet(slots) :: DataOf(slots, name)
  }

  ghost function DataOf(slots: seq<Slot>, name: seq<byte>): seq<byte>
    requires name in NameSet(slots)
  {
    slots[Find(slots, name)].file.data
  }

  lemma InNameSet(slots: seq<Slot>, i: nat)
    requires DistinctSlots(slots) && i < |slots| && slots[i].Used?
    ensures slots[i].file.name in NameSet(slots)
    ensures Find(slots, slots[i].file.name) == i
    ensures Contents(slots)[slots[i].file.name] == slots[i].file.data
  {
    assert IsNamed(slots[i], slots[i].file.name);
    assert IsNamed(slots[Find(slots, slots[i].file.name)], slots[i].file.name);
  }

  /** Contents is exactly the set of (name, bytes) pairs of the used slots. */
  lemma ContentsChar(slots: seq<Slot>, name: seq<byte>, data: seq<byte>)
    requires DistinctSlots(slots)
    ensures (name in Contents(slots) && Contents(slots)[name] == data)
            <==> exists i :: 0 <= i < |slots| && slots[i] == Used(File(name, data))
  {
    if name in Contents(slots) && Contents(slots)[name] == data {
      var i := Find(slots, name);
      assert slots[i] == Used(File(name, data));
    }
    if exists i :: 0 <= i < |slots| && slots[i] == Used(File(name, data)) {
      var i :| 0 <= i < |slots| && slots[i] == Used(File(name, data));
      InNameSet(slots, i);
    }
  }

  lemma SetSlotDistinct(slots: seq<Slot>, at: nat, f: File)
    requires DistinctSlots(slots) && at < |slots|
    requires slots[at].Free? ==> f.name !in NameSet(slots)
    requires slots[at].Used? ==> slots[at].file.name == f.name
    ensures DistinctSlots(slots[at := Used(f)])
  {
    forall i | 0 <= i < |slots| && slots[i].Used? ensures slots[i].file.name in NameSet(slots) {
    }
  }

  lemma SetSlotNames(slots: seq<Slot>, at: nat, f: File)
    requires at < |slots|
    requires slots[at].Used? ==> slots[at].file.name == f.name
    ensures NameSet(slots[at := Used(f)]) == NameSet(slots) + {f.name}
  {
    var after := slots[at := Used(f)];
    assert after[at].Used?;
    forall n | n in NameSet(slots) ensures n in NameSet(after) {
      var i :| 0 <= i < |slots| && slots[i].Used? && slots[i].file.name == n;
      assert after[i].Used? && after[i].file.name == n;
    }
    forall n | n in NameSet(after) ensures n in NameSet(slots) + {f.name} {
      var i :| 0 <= i < |after| && after[i].Used? && after[i].file.name == n;
      if i != at { assert slots[i] == after[i]; }
    }
  }

  /** Rewriting one used slot, or filling one free slot, changes one entry of the map. */
  lemma SetSlot(slots: seq<Slot>, at: nat, f: File)
    requires DistinctSlots(slots) && at < |slots|
    requires slots[at].Free? ==> f.name !in NameSet(slots)
    requires slots[at].Used? ==> slots[at].file.name == f.name
    ensures DistinctSlots(slots[at := Used(f)])
    ensures Contents(slots[at := Used(f)]) == Contents(slots)[f.name := f.data]
  {
    hide DistinctSlots, NameSet;
    var after := slots[at := Used(f)];
    SetSlotDistinct(slots, at, f);
    SetSlotNames(slots, at, f);
    InNameSet(after, at);
    forall n | n in NameSet(slots) && n != f.name ensures DataOf(after, n) == DataOf(slots, n) {
      NotFound(slots, n);
      var i := Find(slots, n);
      assert after[i] == slots[i] && IsNamed(after[i], n);
      InNameSet(after, i);
    }
  }

  lemma ClearSlot(slots: seq<Slot>, at: nat)
    requires DistinctSlots(slots) && at < |slots| && slots[at].Used?
    ensures DistinctSlots(slots[at := Free])
    ensures Contents(slots[at := Free]) == Contents(slots) - {slots[at].file.name}
  {
    var after := slots[at := Free];
    var name := slots[at].file.name;
    assert NameSet(after) == NameSet(slots) - {name} by {
      forall n | n in NameSet(slots) && n != name ensures n in NameSet(after) {
        var i :| 0 <= i < |slots| && slots[i].Used? && slots[i].file.name == n;
        assert after[i].Used? && after[i].file.name == n;
      }
    }
    forall n | n in NameSet(after) ensures DataOf(after, n) == DataOf(slots, n) {
      var i := Find(after, n);
      assert after[i] == slots[i];
      InNameSet(slots, i);
    }
  }

  /** Renaming a used slot moves its bytes to the new name. */
  lemma RenameSlot(slots: seq<Slot>, at: nat, name: seq<byte>)
    requires DistinctSlots(slots) && at < |slots| && slots[at].Used?
    requires name !in NameSet(slots)
    ensures var f := slots[at].file;
            var after := slots[at := Used(File(name, f.data))];
            DistinctSlots(after) && Contents(after) == (Contents(slots) - {f.name})[name := f.data]
  {
    var f := slots[at].file;
    ClearSlot(slots, at);
    var cleared := slots[at := Free];
    assert name !in Contents(cleared);
    SetSlot(cleared, at, File(name, f.data));
    assert cleared[at := Used(File(name, f.data))] == slots[at := Used(File(name, f.data))];
  }

  lemma NotFound(slots: seq<Slot>, name: seq<byte>)
    ensures Find(slots, name) == |slots| <==> name !in NameSet(slots)
  {
    if name in NameSet(slots) {
      var i :| 0 <= i < |slots| && slots[i].Used? && slots[i].file.name == name;
      assert IsNamed(slots[i], name);
    }
    if Find(slots, name) < |slots| {
      assert IsNamed(slots[Find(slots, name)], name);
    }
  }

  lemma {:induction false} LiveIsFromSlots(slots: seq<Slot>, k: nat) returns (i: nat)
    requires k < |Live(slots)|
    ensures i < |slots| && slots[i] == Used(Live(slots)[k])
  {
    if slots[0].Used? {
      if k == 0 {
        i := 0;
      } else {
        i := LiveIsFromSlots(slots[1..], k - 1);
        i := i + 1;
      }
    } else {
      i := LiveIsFromSlots(slots[1..], k);
      i := i + 1;
    }
  }

  /** Distinct used slots give a list of distinct names, and conversely. */
  lemma {:induction false} DistinctLive(slots: seq<Slot>)
    ensures DistinctSlots(slots) <==> DistinctNames(Live(slots))
  {
    if slots != [] {
      var rest := slots[1..];
      DistinctLive(rest);
      assert DistinctSlots(slots) <==> DistinctSlots(rest) && HeadIsNew(slots) by { SplitDistinct(slots); }
      if slots[0].Free? {
        assert Live(slots) == Live(rest);
      } else {
        assert Live(slots) == [slots[0].file] + Live(rest);
        HeadNewInLive(slots);
        ConsDistinct(slots[0].file, Live(rest));
      }
    }
  }

  ghost predicate HeadIsNew(slots: seq<Slot>)
    requires slots != []
  {
    slots[0].Used? ==> forall j :: 0 < j < |slots| ==> !IsNamed(slots[j], slots[0].file.name)
  }

  lemma SplitDistinct(slots: seq<Slot>)
    requires slots != []
    ensures DistinctSlots(slots) <==> DistinctSlots(slots[1..]) && HeadIsNew(slots)
  {
    var rest := slots[1..];
    if DistinctSlots(rest) && HeadIsNew(slots) {
      forall i, j | 0 <= i < j < |slots| && slots[i].Used? && slots[j].Used?
        ensures slots[i].file.name != slots[j].file.name
      {
        if i == 0 {
          assert !IsNamed(slots[j], slots[0].file.name);
        } else {
          assert rest[i - 1] == slots[i] && rest[j - 1] == slots[j];
        }
      }
    }
  }

  lemma ConsDistinct(f: File, rest: seq<File>)
    ensures DistinctNames([f] + rest)
            <==> DistinctNames(rest) && forall k :: 0 <= k < |rest| ==> rest[k].name != f.name
  {
    var all := [f] + rest;
    if DistinctNames(all) {
      forall i, j | 0 <= i < j < |rest| ensures rest[i].name != rest[j].name {
        assert all[i + 1] == rest[i] && all[j + 1] == rest[j];
      }
      forall k | 0 <= k < |rest| ensures rest[k].name != f.name {
        assert all[0] == f && all[k + 1] == rest[k];
      }
    }
  }

  lemma HeadNewInLive(slots: seq<Slot>)
    requires slots != [] && slots[0].Used?
    ensures HeadIsNew(slots)
            <==> forall k :: 0 <= k < |Live(slots[1..])| ==> Live(slots[1..])[k].name != slots[0].file.name
  {
    var rest := slots[1..];
    var name := slots[0].file.name;
    if HeadIsNew(slots) {
      forall k | 0 <= k < |Live(rest)| ensures Live(rest)[k].name != name {
        var i := LiveIsFromSlots(rest, k);
        assert !IsNamed(slots[i + 1], name);
      }
    } else {
      var j :| 0 < j < |slots| && IsNamed(slots[j], name);
      var k := SlotIsInLive(rest, j - 1);
    }
  }

  lemma {:induction false} SlotIsInLive(slots: seq<Slot>, i: nat) returns (k: nat)
    requires i < |slots| && slots[i].Used?
    ensures k < |Live(slots)| && Live(slots)[k] == slots[i].file
  {
    if i == 0 {
      k := 0;
    } else {
      k := SlotIsInLive(slots[1..], i - 1);
      if slots[0].Used? { k := k + 1; }
    }
  }

  /** The slot invariants give a list the table functions accept. */
  lemma SlotsGiveValidFiles(slots: seq<Slot>)
    requires SlotsValid(slots) && DistinctSlots(slots)
    ensures ValidFiles(Live(slots))
  {
    LiveFilesValid(slots);
    DistinctLive(slots);
  }

  lemma ValidFilesGiveSlots(slots: seq<Slot>)
    requires ValidFiles(Live(slots))
    ensures SlotsValid(slots) && DistinctSlots(slots)
  {
    DistinctLive(slots);
    forall i | 0 <= i < |slots| && slots[i].Used? ensures ValidFile(slots[i].file) {
      var k := SlotIsInLive(slots, i);
    }
  }

  // --------------------------------------------------------------------------------------
  // The extent budget, slot by slot

  function CostOf(s: Slot): nat {
    if s.Used? then RecordsNeeded(|s.file.data|) else 0
  }

  /** The extents the used slots take. */
  function Cost(slots: seq<Slot>): nat {
    if slots == [] then 0 else CostOf(slots[0]) + Cost(slots[1..])
  }

  lemma {:induction false} CostIsPack(slots: seq<Slot>)
    requires SlotsValid(slots)
    ensures forall k :: 0 <= k < |Live(slots)| ==> ValidFile(Live(slots)[k])
    ensures |Pack(Live(slots))| == Cost(slots)
  {
    LiveFilesValid(slots);
    if slots != [] {
      CostIsPack(slots[1..]);
      if slots[0].Used? {
        ExtentsLength(slots[0].file);
        assert Live(slots)[1..] == Live(slots[1..]);
      } else {
        assert Live(slots) == Live(slots[1..]);
      }
    }
  }

  lemma {:induction false} CostUpdate(slots: seq<Slot>, i: nat, s: Slot)
    requires i < |slots|
    ensures Cost(slots[i := s]) + CostOf(slots[i]) == Cost(slots) + CostOf(s)
  {
    if i == 0 {
      assert slots[0 := s][1..] == slots[1..];
    } else {
      CostUpdate(slots[1..], i - 1, s);
      assert slots[i := s][1..] == slots[1..][i - 1 := s];
    }
  }

  lemma {:induction false} SmallCost(slots: seq<Slot>)
    requires forall i :: 0 <= i < |slots| && slots[i].Used? ==> |slots[i].file.data| <= DATA_BYTES
    ensures Cost(slots) <= |slots|
  {
    if slots != [] { SmallCost(slots[1..]); }
  }

  // --------------------------------------------------------------------------------------
  // Views with the same files

  lemma SameLiveNames(a: seq<Slot>, b: seq<Slot>)
    requires Live(a) == Live(b)
    ensures NameSet(a) <= NameSet(b)
  {
    forall n | n in NameSet(a) ensures n in NameSet(b) {
      var i :| 0 <= i < |a| && a[i].Used? && a[i].file.name == n;
      var k := SlotIsInLive(a, i);
      var j := LiveIsFromSlots(b, k);
      assert b[j].Used? && b[j].file.name == n;
    }
  }

  /** The order of the slots does not matter to what their users see. */
  lemma SameLive(a: seq<Slot>, b: seq<Slot>)
    requires Live(a) == Live(b) && DistinctSlots(a)
    ensures DistinctSlots(b) && Contents(a) == Contents(b)
  {
    DistinctLive(a);
    DistinctLive(b);
    SameLiveNames(a, b);
    SameLiveNames(b, a);
    forall n | n in NameSet(a) ensures DataOf(a, n) == DataOf(b, n) {
      NotFound(a, n);
      var i := Find(a, n);
      var k := SlotIsInLive(a, i);
      var j := LiveIsFromSlots(b, k);
      InNameSet(b, j);
    }
  }

  lemma {:induction false} FewFilesLeaveRoom(slots: seq<Slot>)
    requires |Live(slots)| < |slots|
    ensures exists i :: 0 <= i < |slots| && slots[i].Free?
  {
    if slots[0].Free? {
    } else {
      FewFilesLeaveRoom(slots[1..]);
      var i :| 0 <= i < |slots[1..]| && slots[1..][i].Free?;
      assert slots[i + 1].Free?;
    }
  }
}
