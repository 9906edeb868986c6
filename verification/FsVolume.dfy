/** The mounted volume of kernel/fs.c: loading, the two-phase commit with read-back of uncertain
    writes, and mutations with rollback. */
module FsVolume {
  import opened Bytes
  import opened Options
  import opened FsTable
  import opened FsLegacy
  import opened FsImage
  import opened FsCodec
  import opened FsContents
  import opened FsDisk
  import opened FsCrash
  import opened FsDrive
  import opened FsNames
  import opened FsRecovery
  import opened FsUpgrade
  import opened FsSelfTest

  datatype Backend = Uninitialized | Persistent | VolatileNoDrive | VolatileCorrupt | VolatileIoError

  datatype Upgrade = UpgradeUnavailable | UpgradeAvailable | UpgradeOutcomeUncertain

  datatype UpgradeResult = UpgradeSucceeded | UpgradeNotAvailable | ConfirmationRequired
                         | UpgradeFailed | UpgradeUncertain

  datatype SyncResult = Committed | SyncFailed | SyncUncertain

  /** The slot change a mutation decided on. */
  datatype Edit = Refuse | Keep | Put(at: nat, slot: Slot)

  datatype SlotLoad = SlotSkipped | SlotLoaded | SlotCorrupt | SlotIoError

  datatype Reconcile = Match | Mismatch | ReadError

  /** The disk's next boot trusts exactly these files, from this slot and generation. */
  ghost predicate OnDisk(h: Checksum, m: Media, slot: int, g: u32, files: seq<File>) {
    && Mount(h, m).Loaded? && Mount(h, m).trust == Trusted
    && Mount(h, m).view.slot == slot && Mount(h, m).view.generation == g
    && Live(Mount(h, m).view.slots) == files
  }

  ghost predicate WithinBudget(slots: seq<Slot>) {
    && (forall k :: 0 <= k < |Live(slots)| ==> ValidFile(Live(slots)[k]))
    && FitsTable(Live(slots))
  }

  /** A view that could be committed but for its extents. */
  ghost predicate SoundView(slots: seq<Slot>) {
    |slots| == MAX_FILES && SlotsValid(slots) && DistinctSlots(slots)
  }

  ghost predicate HasFree(slots: seq<Slot>) {
    exists i :: 0 <= i < |slots| && slots[i].Free?
  }

  function TargetOf(active: nat): SlotIndex {
    if active < 2 then 1 - active else 0
  }

  lemma SliceOfSlice(m: seq<byte>, lo: nat, hi: nat, at: nat, n: nat)
    requires lo <= hi <= |m| && at + n <= hi - lo
    ensures m[lo..hi][at..at + n] == m[lo + at..lo + at + n]
  {
    var whole := m[lo..hi];
    var a, b := whole[at..at + n], m[lo + at..lo + at + n];
    forall i | 0 <= i < n ensures a[i] == b[i] {
      assert a[i] == whole[at + i] == m[lo + at + i];
    }
    assert a == b;
  }

  lemma SectorBytes(slot: SlotIndex)
    ensures SECTOR * (SLOT_SECTORS * slot) == HeaderByte(slot)
    ensures SECTOR * (SLOT_SECTORS * slot + 1) == TableByte(slot)
    ensures TableByte(slot) + IMAGE_BYTES <= 69632
  {
  }

  class Volume {
    const h: Checksum
    const drive: Drive
    var files: seq<Slot>
    const table: array<Record>
    var activeSlot: nat
    var generation: u32
    var loadedVersion: u32
    var backend: Backend
    var upgrade: Upgrade
    var selfTestActive: bool

    ghost predicate Shape()
      reads this
    {
      |files| == MAX_FILES && table.Length == MAX_FILES && activeSlot <= 2
    }

    /** Name uniqueness and the extent budget of the mounted view. */
    ghost predicate FilesOk()
      requires |files| == MAX_FILES
      reads this
    {
      && SlotsValid(files) && DistinctSlots(files)
      && ValidFiles(Live(files)) && WithinBudget(files)
    }

    /** While the backend is persistent, the next boot shows the mounted files. */
    ghost predicate DiskOk(list: seq<File>)
      reads this, drive
    {
      backend == Persistent ==> OnDisk(h, drive.media, activeSlot, generation, list)
    }

    /** An offered legacy upgrade would replace the slot the view was not loaded from. */
    ghost predicate UpgradeOk()
      reads this, drive
    {
      upgrade == UpgradeAvailable && backend == VolatileCorrupt ==>
        && activeSlot < 2
        && Recovered(h, drive.media, activeSlot)
        && Generation(HeaderAt(drive.media, activeSlot)) == generation
    }

    ghost predicate Valid()
      reads this, drive
    {
      Shape() && FilesOk() && DiskOk(Live(files)) && UpgradeOk()
    }

    constructor (checksum: Checksum, d: Drive)
      ensures Valid() && drive == d && h == checksum && backend == Uninitialized
      ensures fresh(table) && Live(files) == []
      ensures upgrade == UpgradeUnavailable && !selfTestActive
    {
      h, drive := checksum, d;
      files := seq(MAX_FILES, i => Free);
      table := new Record[MAX_FILES](i => BLANK);
      activeSlot, generation, loadedVersion := 2, 0, 0;
      backend, upgrade, selfTestActive := Uninitialized, UpgradeUnavailable, false;
      new;
      LiveOfMounted(files, []);
    }

    // ------------------------------------------------------------------------------------
    // Commit

    method ReadTableSector(slot: SlotIndex, s: nat) returns (ok: bool, data: seq<byte>)
      requires s < TABLE_SECTORS
      modifies drive`faults
      ensures drive.faults == old(drive.faults) + if ok then 0 else 1
      ensures ok ==> data == TableImage(drive.media, slot)[SECTOR * s..SECTOR * s + SECTOR]
    {
      SectorBytes(slot);
      assert SECTOR * (SLOT_SECTORS * slot + 1 + s) == TableByte(slot) + SECTOR * s;
      ok, data := drive.Read(SLOT_SECTORS * slot + 1 + s, 1);
      if ok {
        ghost var at := TableByte(slot) + SECTOR * s;
        assert at + SECTOR <= |drive.media| && data == drive.media[at..at + SECTOR];
        SliceOfSlice(drive.media, TableByte(slot), TableByte(slot) + IMAGE_BYTES, SECTOR * s, SECTOR);
      }
    }

    /** fs_reconcile_table: compare every table sector of a slot with the expected image. */
    method ReconcileTable(slot: SlotIndex, image: seq<byte>) returns (r: Reconcile)
      requires |image| == IMAGE_BYTES
      modifies drive`faults
      ensures drive.faults == old(drive.faults) + if r == ReadError then 1 else 0
      ensures r == Match ==> TableImage(drive.media, slot) == image
      ensures r == Mismatch ==> TableImage(drive.media, slot) != image
    {
      for s := 0 to TABLE_SECTORS
        invariant drive.faults == old(drive.faults)
        invariant forall i :: 0 <= i < SECTOR * s ==> TableImage(drive.media, slot)[i] == image[i]
      {
        var ok, observed := ReadTableSector(slot, s);
        if !ok { return ReadError; }
        if observed != image[SECTOR * s..SECTOR * s + SECTOR] { return Mismatch; }
        forall i | SECTOR * s <= i < SECTOR * s + SECTOR
          ensures TableImage(drive.media, slot)[i] == image[i]
        {
          assert observed[i - SECTOR * s] == image[SECTOR * s..SECTOR * s + SECTOR][i - SECTOR * s];
        }
      }
      return Match;
    }

    /** fs_reconcile_slot: the header sector first, then the table. */
    method ReconcileSlot(slot: SlotIndex, header: seq<byte>, image: seq<byte>) returns (r: Reconcile)
      requires |image| == IMAGE_BYTES && |header| == SECTOR
      modifies drive`faults
      ensures drive.faults == old(drive.faults) + if r == ReadError then 1 else 0
      ensures r == Match ==> HeaderSector(drive.media, slot) == header && TableImage(drive.media, slot) == image
      ensures r == Mismatch ==> HeaderSector(drive.media, slot) != header || TableImage(drive.media, slot) != image
    {
      SectorBytes(slot);
      var ok, observed := drive.Read(SLOT_SECTORS * slot, 1);
      if !ok { return ReadError; }
      if observed != header { return Mismatch; }
      r := ReconcileTable(slot, image);
    }

    /** The first phase: the table of the target slot is on disk, or the commit is over. */
    method WriteTable(slot: SlotIndex, image: seq<byte>, verified: bool) returns (r: SyncResult)
      requires |image| == IMAGE_BYTES
      modifies drive
      ensures r == Committed ==> drive.media == WithTable(old(drive.media), slot, image)
      ensures drive.faults >= old(drive.faults) + if r == Committed then 0 else 1
      ensures Torn(old(drive.media), TableByte(slot), image, drive.media)
      ensures forall m: Media :: m in drive.crashable ==>
                m in old(drive.crashable) || Torn(old(drive.media), TableByte(slot), image, m)
    {
      SectorBytes(slot);
      ghost var before := drive.media;
      var written := drive.Write(SLOT_SECTORS * slot + 1, image);
      SpliceIsTorn(before, TableByte(slot), image);
      TornSelf(before, TableByte(slot), image);
      SpliceReads(before, TableByte(slot), image);
      assert written == Complete ==> TableImage(drive.media, slot) == image;
      if written == Failed { return SyncFailed; }
      TornTableTouchesOneSlot(before, slot, image, drive.media);
      if written == Uncertain || verified {
        var check := ReconcileTable(slot, image);
        if check == ReadError { return SyncUncertain; }
        if check == Mismatch { return SyncFailed; }
        TableReplaced(before, drive.media, slot, image);
      }
      return Committed;
    }

    /** The second phase: one header sector makes the table visible. */
    method WriteHeader(slot: SlotIndex, image: seq<byte>, next: u32, verified: bool) returns (r: SyncResult)
      requires |image| == IMAGE_BYTES && TableImage(drive.media, slot) == image
      modifies drive
      ensures var after := Splice(old(drive.media), HeaderByte(slot), NewHeader(h, image, next));
              && (r == Committed ==> drive.media == after)
              && (r == SyncFailed ==> drive.media == old(drive.media))
              && (r == SyncUncertain ==> drive.media == old(drive.media) || drive.media == after)
      ensures drive.faults >= old(drive.faults) + if r == Committed then 0 else 1
      ensures forall m: Media :: m in drive.crashable ==>
                m in old(drive.crashable)
                || Torn(old(drive.media), HeaderByte(slot), NewHeader(h, image, next), m)
    {
      SectorBytes(slot);
      ghost var before := drive.media;
      var header := NewHeader(h, image, next);
      var written := drive.Write(SLOT_SECTORS * slot, header);
      if written == Failed { return SyncFailed; }
      if written == Uncertain {
        TornSector(before, HeaderByte(slot), header, drive.media);
      }
      ghost var after := Splice(before, HeaderByte(slot), header);
      SpliceReads(before, HeaderByte(slot), header);
      assert HeaderSector(after, slot) == header && TableImage(after, slot) == image;
      if written == Uncertain || verified {
        var check := ReconcileSlot(slot, header, image);
        if check == ReadError { return SyncUncertain; }
        if check == Mismatch { return SyncFailed; }
        HeaderAlreadyThere(drive.media, slot, header);
      }
      return Committed;
    }

    /** fs_sync_to_disk_verified. */
    method Sync(verified: bool) returns (r: SyncResult)
      requires Shape() && SlotsValid(files)
      modifies this`activeSlot, this`generation, this`loadedVersion, drive, table
      ensures Shape()
      ensures forall i :: 0 <= i < |Live(files)| ==> ValidFile(Live(files)[i])
      ensures !FitsTable(Live(files)) ==>
                r == SyncFailed && drive.media == old(drive.media) && drive.crashable == old(drive.crashable)
      ensures drive.faults >= old(drive.faults)
      ensures r != Committed && FitsTable(Live(files)) ==> drive.faults > old(drive.faults)
      ensures r != Committed ==> activeSlot == old(activeSlot) && generation == old(generation)
                                 && loadedVersion == old(loadedVersion)
      ensures r == Committed ==> activeSlot == TargetOf(old(activeSlot))
                                 && generation == NextGeneration(old(generation)) && loadedVersion == DISK_VERSION
      ensures FitsTable(Live(files)) ==>
                SyncRelation(h, old(drive.media), old(drive.crashable), TargetOf(old(activeSlot)),
                             NextGeneration(old(generation)), Live(files), r, drive.media, drive.crashable)
    {
      LiveFilesValid(files);
      var ready := drive.Init();
      var target := TargetOf(activeSlot);
      if FitsTable(Live(files)) { TornSelf(drive.media, TableByte(target), Image(Table(Live(files)))); }
      if ready != Ready { return SyncFailed; }
      var next := NextGeneration(generation);
      var ok := Serialize(files, table);
      if !ok { return SyncFailed; }
      var image := Image(table[..]);
      ghost var before := drive.media;
      r := WriteTable(target, image, verified);
      if r != Committed { return; }
      SpliceReads(before, TableByte(target), image);
      SpliceIsTorn(before, TableByte(target), image);
      r := WriteHeader(target, image, next, verified);
      if r == Committed {
        activeSlot, generation, loadedVersion := target, next, DISK_VERSION;
      }
    }

    /** fs_commit_changes on a persistent volume. `before` is what the disk shows. */
    method CommitToDisk(ghost before: seq<File>) returns (ok: bool)
      requires Shape() && FilesOk()
      requires backend == Persistent && DiskOk(before)
      modifies this`activeSlot, this`generation, this`loadedVersion, this`backend, drive, table
      ensures Shape()
      ensures ok ==> DiskOk(Live(files))
      ensures !ok ==> DiskOk(before)
      ensures backend == Persistent || backend == VolatileIoError
      ensures AtomicSince(old(drive.crashable), before, Live(files))
      ensures !ok ==> Mounts(h, drive.media, before)
      ensures ok && backend == Persistent ==> Mounts(h, drive.media, Live(files))
      ensures ok ==> Mounts(h, drive.media, Live(files)) || Mounts(h, drive.media, before)
      ensures !ok ==> backend == VolatileIoError
      ensures drive.faults >= old(drive.faults) + if backend == VolatileIoError then 1 else 0
    {
      hide SyncRelation, Mount, FitsTable, ValidFiles, SlotsValid, DistinctSlots;
      ghost var m0, c0, g0, slot0 := drive.media, drive.crashable, generation, activeSlot;
      var result := Sync(false);
      SyncMeans(h, m0, c0, slot0, g0, before, Live(files), result, drive.media, drive.crashable);
      if result == Committed { return true; }
      backend := VolatileIoError;
      return result == SyncUncertain;
    }

    /** fs_commit_changes: check the extent budget, then write if the volume is persistent. */
    method Commit(ghost before: seq<File>) returns (ok: bool)
      requires Shape() && SlotsValid(files) && DistinctSlots(files)
      requires DiskOk(before)
      modifies this`activeSlot, this`generation, this`loadedVersion, this`backend, drive, table
      ensures Shape()
      ensures ok ==> FilesOk() && DiskOk(Live(files))
      ensures !ok ==> DiskOk(before)
      ensures old(backend) != Persistent ==>
                backend == old(backend) && drive.media == old(drive.media) && drive.crashable == old(drive.crashable)
                && activeSlot == old(activeSlot) && generation == old(generation)
      ensures old(backend) == Persistent ==> backend == Persistent || backend == VolatileIoError
      ensures old(backend) == Persistent ==> AtomicSince(old(drive.crashable), before, Live(files))
      ensures old(backend) == Persistent && !ok ==> Mounts(h, drive.media, before)
      ensures old(backend) == Persistent && ok ==>
                Mounts(h, drive.media, Live(files)) || Mounts(h, drive.media, before)
      ensures !ok && WithinBudget(files) ==> old(backend) == Persistent && backend == VolatileIoError
      ensures drive.faults >= old(drive.faults) + if old(backend) == Persistent && backend != Persistent then 1 else 0
    {
      hide Mount;
      SlotsGiveValidFiles(files);
      ok := Serialize(files, table);
      if ok && backend == Persistent {
        ok := CommitToDisk(before);
      }
    }

    /** Every crash state added since then shows one of the two file lists. */
    ghost predicate AtomicSince(earlier: iset<Media>, before: seq<File>, after: seq<File>)
      reads drive
    {
      forall m: Media :: m in drive.crashable ==>
        m in earlier || Mounts(h, m, before) || Mounts(h, m, after)
    }

    // ------------------------------------------------------------------------------------
    // Mutations

    /** What a mutation may do to the disk: nothing on a volatile volume; otherwise every crash
        state, and the final state, shows the old files or the attempted ones. */
    twostate predicate Durable(attempt: seq<Slot>)
      reads this, drive
    {
      && drive.faults >= old(drive.faults)
      && (old(backend) != Persistent ==>
            backend == old(backend) && drive.media == old(drive.media) && drive.crashable == old(drive.crashable))
      && (old(backend) == Persistent ==>
            && (backend == Persistent || DiskFailed())
            && AtomicSince(old(drive.crashable), old(Live(files)), Live(attempt))
            && (Mounts(h, drive.media, old(Live(files))) || Mounts(h, drive.media, Live(files))))
    }

    /** The drive misbehaved, and the volume gave up writing to it. */
    twostate predicate DiskFailed()
      reads this, drive
    {
      old(backend) == Persistent && backend == VolatileIoError && drive.faults > old(drive.faults)
    }

    /** A mutation the arguments and the slots allow makes exactly this attempt, and is refused
        only for want of extents or by the disk. */
    twostate predicate RefusedOnlyBy(ok: bool, attempt: seq<Slot>)
      reads this, drive
    {
      ok || DiskFailed() || !WithinBudget(attempt)
    }

    /** fs_find_mutable. */
    method FindSlot(name: seq<byte>) returns (i: nat)
      requires |files| == MAX_FILES
      ensures i == Find(files, name)
      ensures i <= MAX_FILES && (i < MAX_FILES ==> IsNamed(files[i], name))
    {
      i := 0;
      while i < MAX_FILES
        invariant i <= MAX_FILES
        invariant forall k :: 0 <= k < i ==> !IsNamed(files[k], name)
      {
        if IsNamed(files[i], name) { break; }
        i := i + 1;
      }
      assert i < MAX_FILES ==> IsNamed(files[i], name);
      assert Find(files, name) < MAX_FILES ==> IsNamed(files[Find(files, name)], name);
    }

    /** fs_allocate_slot. */
    method AllocateSlot() returns (i: nat)
      requires |files| == MAX_FILES
      ensures i <= MAX_FILES
      ensures forall k :: 0 <= k < i ==> files[k].Used?
      ensures i < MAX_FILES ==> files[i].Free?
    {
      i := 0;
      while i < MAX_FILES && files[i].Used?
        invariant i <= MAX_FILES
        invariant forall k :: 0 <= k < i ==> files[k].Used?
      {
        i := i + 1;
      }
    }

    /** Put `slot` at `i`, commit, and restore the previous slot if the commit fails. */
    method Replace(i: nat, slot: Slot) returns (ok: bool)
      requires Valid() && i < MAX_FILES
      requires SlotsValid(files[i := slot]) && DistinctSlots(files[i := slot])
      modifies this`activeSlot, this`generation, this`loadedVersion, this`backend, drive, table, this`files
      ensures Valid()
      ensures files == if ok then old(files)[i := slot] else old(files)
      ensures Durable(old(files)[i := slot])
      ensures ok ==> WithinBudget(old(files)[i := slot])
      ensures !ok ==> DiskFailed() || !WithinBudget(old(files)[i := slot])
    {
      hide SlotsValid, DistinctSlots, ValidFiles, WithinBudget, Mounts, AtomicSince, OnDisk;
      ghost var before := files;
      var backup := files[i];
      files := files[i := slot];
      ok := Commit(Live(before));
      if !ok {
        files := files[i := backup];
        assert files == before;
      }
    }

    /** Carry out a planned edit. */
    method Apply(edit: Edit) returns (ok: bool, ghost attempt: seq<Slot>)
      requires Valid()
      requires edit.Put? ==>
                 && edit.at < MAX_FILES
                 && SlotsValid(files[edit.at := edit.slot]) && DistinctSlots(files[edit.at := edit.slot])
      modifies this`activeSlot, this`generation, this`loadedVersion, this`backend, drive, table, this`files
      ensures Valid() && Durable(attempt)
      ensures attempt == if edit.Put? then old(files)[edit.at := edit.slot] else old(files)
      ensures SoundView(attempt)
      ensures files == if ok then attempt else old(files)
      ensures edit.Refuse? ==> !ok
      ensures !edit.Put? ==> drive.media == old(drive.media)
      ensures edit.Keep? ==> ok
      ensures edit.Put? ==> RefusedOnlyBy(ok, attempt)
      ensures edit.Put? && ok ==> WithinBudget(attempt)
    {
      attempt := files;
      match edit
      case Refuse => ok := false;
      case Keep => ok := true;
      case Put(at, slot) =>
        attempt := files[at := slot];
        ok := Replace(at, slot);
    }

    /** The names a caller may create or write. */
    predicate Writable(name: seq<byte>, allowSystem: bool)
      reads this
    {
      && ValidName(name)
      && !SystemLog(name)
      && (allowSystem || !SystemManaged(name))
      && (SelfTestName(name) ==> selfTestActive)
    }

    /** Where a file of that name goes: its own slot, or the first free one. */
    method Locate(name: seq<byte>) returns (i: nat)
      requires Shape() && FilesOk()
      ensures i <= MAX_FILES
      ensures i < MAX_FILES <==> name in Contents(files) || HasFree(files)
      ensures i < MAX_FILES && name in Contents(files) ==>
                files[i].Used? && files[i].file.name == name && files[i].file.data == Contents(files)[name]
      ensures i < MAX_FILES && name !in Contents(files) ==> files[i].Free?
    {
      i := FindSlot(name);
      NotFound(files, name);
      if i < MAX_FILES {
        InNameSet(files, i);
      } else {
        i := AllocateSlot();
        assert i < MAX_FILES ==> files[i].Free?;
      }
    }

    /** Putting `data` under `name` at the located slot edits exactly that entry. */
    lemma PutIsEdit(i: nat, name: seq<byte>, data: seq<byte>)
      requires Shape() && FilesOk() && i < MAX_FILES
      requires ValidName(name) && |data| < MAX_FILE_SIZE
      requires name in Contents(files) ==> files[i].Used? && files[i].file.name == name
      requires name !in Contents(files) ==> files[i].Free?
      ensures var after := files[i := Used(File(name, data))];
              SlotsValid(after) && DistinctSlots(after) && Contents(after) == Contents(files)[name := data]
    {
      SetSlot(files, i, File(name, data));
    }

    /** fs_touch: create an empty file unless it exists. */
    method Touch(name: seq<byte>) returns (ok: bool, ghost attempt: seq<Slot>)
      requires Valid()
      modifies this`activeSlot, this`generation, this`loadedVersion, this`backend, drive, table, this`files
      ensures Valid() && Durable(attempt) && SoundView(attempt)
      ensures files == if ok then attempt else old(files)
      ensures !old(Writable(name, false) && (name in Contents(files) || HasFree(files))) ==>
                !ok && attempt == old(files) && drive.media == old(drive.media)
      ensures old(Writable(name, false) && (name in Contents(files) || HasFree(files))) ==>
                && RefusedOnlyBy(ok, attempt)
                && Contents(attempt) == if name in old(Contents(files)) then old(Contents(files))
                                        else old(Contents(files))[name := []]
    {
      hide SystemManaged, SelfTestName, SystemLog, ValidName, Mounts, AtomicSince, WithinBudget, OnDisk;
      var edit := Refuse;
      if Writable(name, false) {
        var i := Locate(name);
        if i < MAX_FILES {
          if files[i].Used? {
            edit := Keep;
          } else {
            PutIsEdit(i, name, []);
            edit := Put(i, Used(File(name, [])));
          }
        }
      }
      ok, attempt := Apply(edit);
    }

    /** fs_write_bytes_internal: create or replace a file. */
    method WriteBytes(name: seq<byte>, data: seq<byte>, allowSystem: bool) returns (ok: bool, ghost attempt: seq<Slot>)
      requires Valid()
      modifies this`activeSlot, this`generation, this`loadedVersion, this`backend, drive, table, this`files
      ensures Valid() && Durable(attempt) && SoundView(attempt)
      ensures files == if ok then attempt else old(files)
      ensures !(|data| < MAX_FILE_SIZE && old(Writable(name, allowSystem)
                && (name in Contents(files) || HasFree(files)))) ==>
                !ok && attempt == old(files) && drive.media == old(drive.media)
      ensures |data| < MAX_FILE_SIZE && old(Writable(name, allowSystem)
                && (name in Contents(files) || HasFree(files))) ==>
                && RefusedOnlyBy(ok, attempt)
                && Contents(attempt) == old(Contents(files))[name := data]
    {
      hide SystemManaged, SelfTestName, SystemLog, ValidName, Mounts, AtomicSince, WithinBudget, OnDisk;
      var edit := Refuse;
      if Writable(name, allowSystem) && |data| < MAX_FILE_SIZE {
        var i := Locate(name);
        if i < MAX_FILES {
          PutIsEdit(i, name, data);
          edit := Put(i, Used(File(name, data)));
        }
      }
      ok, attempt := Apply(edit);
    }

    /** The bytes an append extends. */
    ghost function Existing(name: seq<byte>): seq<byte>
      requires |files| == MAX_FILES
      reads this
    {
      if name in Contents(files) then Contents(files)[name] else []
    }

    /** fs_append: extend a file, creating it if needed. */
    method Append(name: seq<byte>, data: seq<byte>) returns (ok: bool, ghost attempt: seq<Slot>)
      requires Valid()
      modifies this`activeSlot, this`generation, this`loadedVersion, this`backend, drive, table, this`files
      ensures Valid() && Durable(attempt) && SoundView(attempt)
      ensures files == if ok then attempt else old(files)
      ensures !old(Writable(name, false) && (name in Contents(files) || HasFree(files))
                   && |Existing(name)| + |data| < MAX_FILE_SIZE) ==>
                !ok && attempt == old(files) && drive.media == old(drive.media)
      ensures old(Writable(name, false) && (name in Contents(files) || HasFree(files))
                  && |Existing(name)| + |data| < MAX_FILE_SIZE) ==>
                && RefusedOnlyBy(ok, attempt)
                && Contents(attempt) == old(Contents(files))[name := old(Existing(name)) + data]
    {
      hide SystemManaged, SelfTestName, SystemLog, ValidName, Mounts, AtomicSince, WithinBudget, OnDisk;
      var edit := Refuse;
      if Writable(name, false) && |data| < MAX_FILE_SIZE {
        var i := Locate(name);
        if i < MAX_FILES {
          var existing := if files[i].Used? then files[i].file.data else [];
          if |data| <= MAX_FILE_SIZE - 1 - |existing| {
            PutIsEdit(i, name, existing + data);
            edit := Put(i, Used(File(name, existing + data)));
          }
        }
      }
      ok, attempt := Apply(edit);
    }

    /** A rename no rule of the namespace forbids. */
    ghost predicate Renamable(name: seq<byte>, newName: seq<byte>, allowSystem: bool)
      requires |files| == MAX_FILES
      reads this
    {
      && ValidName(name) && ValidName(newName) && !SystemLog(name) && !SystemLog(newName)
      && (allowSystem || (!SystemManaged(name) && !SystemManaged(newName)))
      && (SelfTestName(newName) ==> selfTestActive)
      && name in Contents(files)
      && (SelfTestArtifact(File(name, Contents(files)[name])) ==> selfTestActive)
      && (name == newName || newName !in Contents(files))
    }

    /** The checks of fs_rename_internal, in order, and the slot to change. */
    method PlanRename(name: seq<byte>, newName: seq<byte>, allowSystem: bool) returns (edit: Edit)
      requires Shape() && FilesOk()
      ensures edit.Refuse? <==> !Renamable(name, newName, allowSystem)
      ensures edit.Keep? ==> name == newName
      ensures edit.Put? ==>
                && name != newName && edit.at < MAX_FILES
                && var after := files[edit.at := edit.slot];
                   SlotsValid(after) && DistinctSlots(after)
                   && Contents(after) == (Contents(files) - {name})[newName := Contents(files)[name]]
    {
      hide SystemManaged, SelfTestName, SystemLog;
      if !ValidName(name) || !ValidName(newName) || SystemLog(name) || SystemLog(newName)
         || (!allowSystem && (SystemManaged(name) || SystemManaged(newName)))
         || (SelfTestName(newName) && !selfTestActive)
      {
        return Refuse;
      }
      var i := FindSlot(name);
      NotFound(files, name);
      if i == MAX_FILES { return Refuse; }
      InNameSet(files, i);
      if SelfTestName(name) && !selfTestActive && SelfTestArtifact(files[i].file) { return Refuse; }
      if name == newName { return Keep; }
      var j := FindSlot(newName);
      NotFound(files, newName);
      if j < MAX_FILES { return Refuse; }
      RenameSlot(files, i, newName);
      return Put(i, Used(File(newName, files[i].file.data)));
    }

    /** fs_rename_internal. */
    method Rename(name: seq<byte>, newName: seq<byte>, allowSystem: bool) returns (ok: bool, ghost attempt: seq<Slot>)
      requires Valid()
      modifies this`activeSlot, this`generation, this`loadedVersion, this`backend, drive, table, this`files
      ensures Valid() && Durable(attempt) && SoundView(attempt)
      ensures files == if ok then attempt else old(files)
      ensures !old(Renamable(name, newName, allowSystem)) ==> !ok && attempt == old(files) && drive.media == old(drive.media)
      ensures old(Renamable(name, newName, allowSystem)) ==>
                && RefusedOnlyBy(ok, attempt)
                && Contents(attempt) == if newName == name then old(Contents(files))
                     else (old(Contents(files)) - {name})[newName := old(Contents(files))[name]]
    {
      hide ValidName, Mounts, AtomicSince, WithinBudget, OnDisk, SystemManaged, SelfTestName, SystemLog;
      var edit := PlanRename(name, newName, allowSystem);
      ok, attempt := Apply(edit);
    }

    ghost predicate Removable(name: seq<byte>, allowSystem: bool)
      requires |files| == MAX_FILES
      reads this
    {
      && !SystemLog(name) && (allowSystem || !SystemManaged(name))
      && name in Contents(files)
      && (SelfTestArtifact(File(name, Contents(files)[name])) ==> selfTestActive)
    }

    /** fs_remove_internal. */
    method Remove(name: seq<byte>, allowSystem: bool) returns (ok: bool, ghost attempt: seq<Slot>)
      requires Valid()
      modifies this`activeSlot, this`generation, this`loadedVersion, this`backend, drive, table, this`files
      ensures Valid() && Durable(attempt) && SoundView(attempt)
      ensures files == if ok then attempt else old(files)
      ensures !old(Removable(name, allowSystem)) ==> !ok && attempt == old(files) && drive.media == old(drive.media)
      ensures old(Removable(name, allowSystem)) ==>
                RefusedOnlyBy(ok, attempt) && Contents(attempt) == old(Contents(files)) - {name}
    {
      hide SystemManaged, SelfTestName, SystemLog, Mounts, AtomicSince, WithinBudget, OnDisk;
      var edit := Refuse;
      if !SystemLog(name) && (allowSystem || !SystemManaged(name)) {
        var i := FindSlot(name);
        NotFound(files, name);
        if i < MAX_FILES {
          InNameSet(files, i);
          if !(SelfTestName(name) && !selfTestActive && SelfTestArtifact(files[i].file)) {
            ClearSlot(files, i);
            edit := Put(i, Free);
          }
        }
      }
      ok, attempt := Apply(edit);
    }

    // ------------------------------------------------------------------------------------
    // Loading

    /** fs_load_slot: mount one slot, or leave the view alone. */
    method LoadSlotInto(slot: SlotIndex, header: Header) returns (r: SlotLoad)
      requires Shape()
      modifies this`activeSlot, this`generation, this`loadedVersion, drive`faults, this`files, table
      ensures Shape() && r != SlotSkipped
      ensures drive.faults == old(drive.faults) + if r == SlotIoError then 1 else 0
      ensures r == SlotLoaded ==>
                && LoadImage(h, header, TableImage(drive.media, slot)) == Some(files)
                && activeSlot == slot && generation == Generation(header) && loadedVersion == header.version
      ensures r == SlotCorrupt ==> LoadImage(h, header, TableImage(drive.media, slot)) == None
      ensures r != SlotLoaded ==>
                files == old(files) && activeSlot == old(activeSlot)
                && generation == old(generation) && loadedVersion == old(loadedVersion)
    {
      SectorBytes(slot);
      var ok, image := drive.Read(SLOT_SECTORS * slot + 1, TABLE_SECTORS);
      if !ok { return SlotIoError; }
      assert image == TableImage(drive.media, slot);
      var records := Records(image);
      for i := 0 to MAX_FILES
        invariant forall k :: 0 <= k < i ==> table[k] == records[k]
        modifies table
      {
        table[i] := records[i];
      }
      assert table[..] == records;
      if header.checksum != h(image) { return SlotCorrupt; }
      if header.version >= DISK_VERSION {
        ok, files := DeserializeCurrent(table, files);
      } else {
        ok, files := DeserializeLegacy(table, files);
      }
      if !ok { return SlotCorrupt; }
      activeSlot, generation, loadedVersion := slot, Generation(header), header.version;
      return SlotLoaded;
    }

    /** One header read of the load: what is known of the slot afterwards. */
    method ReadHeader(slot: SlotIndex) returns (ok: bool, header: Header, valid: bool, stray: bool)
      modifies drive`faults
      ensures drive.faults == old(drive.faults) + if ok then 0 else 1
      ensures ok ==> header == HeaderAt(drive.media, slot)
      ensures valid == (ok && ValidAt(h, drive.media, slot))
      ensures stray == (ok && StrayHeader(h, drive.media, slot))
    {
      SectorBytes(slot);
      var sector;
      ok, sector := drive.Read(SLOT_SECTORS * slot, 1);
      if !ok { return false, Header(0, 0, 0, 0, 0, 0), false, false; }
      assert sector == HeaderSector(drive.media, slot);
      header := HeaderOf(sector);
      valid := HeaderValid(h, sector);
      stray := !valid && !AllZero(sector);
    }

    /** fs_compare_slot_tables. */
    method CompareTables() returns (r: Reconcile)
      modifies drive`faults
      ensures drive.faults == old(drive.faults) + if r == ReadError then 1 else 0
      ensures r == Match ==> TableImage(drive.media, 0) == TableImage(drive.media, 1)
      ensures r == Mismatch ==> TableImage(drive.media, 0) != TableImage(drive.media, 1)
    {
      for s := 0 to TABLE_SECTORS
        invariant drive.faults == old(drive.faults)
        invariant forall i :: 0 <= i < SECTOR * s ==> TableImage(drive.media, 0)[i] == TableImage(drive.media, 1)[i]
      {
        var ok, a := ReadTableSector(0, s);
        if !ok { return ReadError; }
        var b;
        ok, b := ReadTableSector(1, s);
        if !ok { return ReadError; }
        if a != b { return Mismatch; }
        forall i | SECTOR * s <= i < SECTOR * s + SECTOR
          ensures TableImage(drive.media, 0)[i] == TableImage(drive.media, 1)[i]
        {
          assert a[i - SECTOR * s] == b[i - SECTOR * s];
        }
      }
      return Match;
    }

    method TablesBlank(slot: SlotIndex) returns (ok: bool, blank: bool)
      modifies drive`faults
      ensures drive.faults == old(drive.faults) + if ok then 0 else 1
      ensures ok ==> blank == AllZero(TableImage(drive.media, slot))
    {
      SectorBytes(slot);
      var image;
      ok, image := drive.Read(SLOT_SECTORS * slot + 1, TABLE_SECTORS);
      if !ok { return false, true; }
      assert image == TableImage(drive.media, slot);
      blank := AllZero(image);
    }

    /** The header pass of fs_load_from_disk. */
    method ScanSlots() returns (scan: Scan)
      modifies drive`faults
      ensures drive.faults >= old(drive.faults)
      ensures scan.ioError <==> drive.faults > old(drive.faults)
      ensures scan.valid0 ==> ValidAt(h, drive.media, 0) && scan.header0 == HeaderAt(drive.media, 0)
      ensures scan.valid1 ==> ValidAt(h, drive.media, 1) && scan.header1 == HeaderAt(drive.media, 1)
      ensures !scan.ioError ==> Accurate(h, drive.media, scan)
    {
      hide HeaderOf, HeaderValid, AllZero;
      var ok0, header0, valid0, stray0 := ReadHeader(0);
      var ok1, header1, valid1, stray1 := ReadHeader(1);
      var ioError := !ok0 || !ok1;
      var protected0, protected1 := ProtectedBy(valid0, header0), ProtectedBy(valid1, header1);
      var bothLegacy := valid0 && valid1 && !protected0 && !protected1;
      var bothProtected := protected0 && protected1;
      var legacyAmbiguous, protectedAmbiguous := false, false;
      if bothLegacy || (bothProtected && Generation(header0) == Generation(header1)) {
        var comparison := CompareTables();
        if comparison == ReadError {
          ioError := true;
        } else if comparison == Mismatch {
          if bothLegacy { legacyAmbiguous := true; } else { protectedAmbiguous := true; }
        }
      }
      if bothProtected && (Generation(header0) - Generation(header1)) % U32_MODULUS == HALF_RANGE {
        protectedAmbiguous := true;
      }
      scan := Scan(ioError, header0, valid0, header1, valid1, stray0 || stray1, legacyAmbiguous, protectedAmbiguous);
    }

    /** fs_load_from_disk. Whatever fails to read, a result without an I/O error is the
        fault-free mount, and no disk sector is written. */
    method Load() returns (r: MountResult)
      requires Shape()
      modifies this`activeSlot, this`generation, this`loadedVersion, this`upgrade, drive`faults, this`files, table
      ensures Shape() && drive.faults >= old(drive.faults)
      ensures drive.faults == old(drive.faults) ==> r == Mount(h, drive.media)
      ensures r == Blank || r == Corrupt || (r.Loaded? && r.trust != AfterIoError) ==> r == Mount(h, drive.media)
      ensures r.Loaded? ==>
                && Loads(h, drive.media, r.view.slot)
                && LoadSlot(h, drive.media, r.view.slot) == Some(files)
                && r.view == ViewOf(drive.media, r.view.slot, files)
                && activeSlot == r.view.slot && generation == r.view.generation && loadedVersion == r.view.version
      ensures !r.Loaded? ==> files == old(files)
      ensures r == Blank ==> activeSlot == 2 && generation == 0
      ensures upgrade == UpgradeAvailable <==> r.Loaded? && r.legacyAmbiguous
    {
      hide HeaderOf, HeaderValid, LoadImage, Mount, Preferred, FirstOf, StrayHeader, LegacyAmbiguous, Ambiguous, LoadSlot;
      upgrade := UpgradeUnavailable;
      var ready := drive.Init();
      if ready == NoDevice { return NoDrive; }
      if ready != Ready { return IoError; }
      activeSlot, generation, loadedVersion := 2, 0, 0;
      var scan := ScanSlots();
      ghost var m := drive.media;
      var first := FirstOf(scan.valid0, scan.header0, scan.valid1, scan.header1);
      var tried0 := TrySlot(first, scan);
      if tried0 == SlotLoaded {
        r := Finish(scan, false);
        if !scan.ioError { MountFirst(h, m, scan, files); }
        return;
      }
      var ioError := scan.ioError || tried0 == SlotIoError;
      var corrupt := tried0 == SlotCorrupt;
      var tried1 := TrySlot(Other(first), scan);
      if tried1 == SlotLoaded {
        r := Finish(scan.(ioError := ioError), corrupt);
        if !ioError { MountSecond(h, m, scan, files); }
        return;
      }
      if ioError || tried1 == SlotIoError { return IoError; }
      if corrupt || tried1 == SlotCorrupt || scan.stray {
        MountNothing(h, m, scan);
        return Corrupt;
      }
      var ok, blank0 := TablesBlank(0);
      var okay, blank1 := TablesBlank(1);
      if !ok || !okay { return IoError; }
      MountNothing(h, m, scan);
      if !blank0 || !blank1 { return Corrupt; }
      return Blank;
    }

    /** Try one slot if its header was valid. */
    method TrySlot(slot: SlotIndex, scan: Scan) returns (r: SlotLoad)
      requires Shape()
      requires scan.valid0 ==> ValidAt(h, drive.media, 0) && scan.header0 == HeaderAt(drive.media, 0)
      requires scan.valid1 ==> ValidAt(h, drive.media, 1) && scan.header1 == HeaderAt(drive.media, 1)
      modifies this`activeSlot, this`generation, this`loadedVersion, drive`faults, this`files, table
      ensures Shape()
      ensures drive.faults == old(drive.faults) + if r == SlotIoError then 1 else 0
      ensures r == SlotSkipped <==> !(if slot == 0 then scan.valid0 else scan.valid1)
      ensures r == SlotLoaded ==>
                && Loads(h, drive.media, slot) && LoadSlot(h, drive.media, slot) == Some(files)
                && activeSlot == slot && generation == Generation(HeaderAt(drive.media, slot))
                && loadedVersion == HeaderAt(drive.media, slot).version
      ensures r == SlotCorrupt ==> ValidAt(h, drive.media, slot) && !Loads(h, drive.media, slot)
      ensures r != SlotLoaded ==>
                files == old(files) && activeSlot == old(activeSlot)
                && generation == old(generation) && loadedVersion == old(loadedVersion)
    {
      hide HeaderOf, HeaderValid, LoadImage;
      if !(if slot == 0 then scan.valid0 else scan.valid1) { return SlotSkipped; }
      var loaded := LoadSlotInto(slot, if slot == 0 then scan.header0 else scan.header1);
      return loaded;
    }

    /** fs_loaded_result, and the offer to upgrade an ambiguous legacy pair. */
    method Finish(scan: Scan, corrupt: bool) returns (r: MountResult)
      requires Shape() && activeSlot < 2
      modifies this`upgrade
      ensures r.Loaded? && r.view == View(activeSlot, generation, loadedVersion, files)
      ensures r.trust == if scan.ioError then AfterIoError
                         else TrustOf(corrupt || scan.stray || scan.legacyAmbiguous || scan.protectedAmbiguous)
      ensures r.legacyAmbiguous == scan.legacyAmbiguous
      ensures upgrade == if scan.legacyAmbiguous then UpgradeAvailable else old(upgrade)
    {
      if scan.legacyAmbiguous { upgrade := UpgradeAvailable; }
      var trust := if scan.ioError then AfterIoError
                   else TrustOf(corrupt || scan.stray || scan.legacyAmbiguous || scan.protectedAmbiguous);
      return Loaded(View(activeSlot, generation, loadedVersion, files), trust, scan.legacyAmbiguous);
    }

    // ------------------------------------------------------------------------------------
    // Boot and explicit upgrade

    /** The first recovery name that is free. */
    method FreshName(f: Family) returns (name: seq<byte>)
      requires |files| == MAX_FILES && FamilyOk(f)
      ensures name == Candidate(f, FirstFree(f, files, 0))
    {
      hide Candidate, FamilyOk, FirstFree;
      FirstFreeIsFound(f, files);
      var attempt := 0;
      while true
        invariant attempt <= FirstFree(f, files, 0) == FirstFree(f, files, attempt) <= MAX_FILES
        decreases MAX_FILES - attempt
      {
        FirstFreeStep(f, files, attempt);
        name := Candidate(f, attempt);
        var i := FindSlot(name);
        if i == MAX_FILES { return; }
        attempt := attempt + 1;
      }
    }

    /** fs_quarantine_self_test_artifacts: a name is always found. */
    method Quarantine() returns (changed: bool)
      requires |files| == MAX_FILES
      modifies this`files
      ensures |files| == MAX_FILES && files == Quarantined(old(files), 0)
      ensures changed <==> !NoArtifacts(old(files), 0, MAX_FILES)
    {
      hide Candidate, FirstFree, SelfTestArtifact, FamilyOk;
      FamiliesOk();
      changed := false;
      for i := 0 to MAX_FILES
        invariant |files| == MAX_FILES && Quarantined(files, i) == Quarantined(old(files), 0)
        invariant forall k :: i <= k < MAX_FILES ==> files[k] == old(files)[k]
        invariant changed <==> !NoArtifacts(old(files), 0, i)
      {
        if files[i].Used? && SelfTestArtifact(files[i].file) {
          var name := FreshName(TEST_NAMES);
          files := files[i := Used(File(name, files[i].file.data))];
          changed := true;
        }
      }
    }

    /** fs_quarantine_physical_system_log: a name is always found. */
    method QuarantineLog() returns (moved: bool)
      requires |files| == MAX_FILES
      modifies this`files
      ensures |files| == MAX_FILES && files == WithoutLog(old(files))
      ensures moved <==> Find(old(files), Text("system.log")) < MAX_FILES
    {
      hide Candidate, FirstFree, Text, FamilyOk;
      FamiliesOk();
      var i := FindSlot(Text("system.log"));
      if i == MAX_FILES { return false; }
      var name := FreshName(LOG_NAMES);
      files := files[i := Used(File(name, files[i].file.data))];
      return true;
    }

    /** fs_seed_bytes: a file is written over or put in the first free slot, in memory only. */
    method SeedFile(name: seq<byte>, data: seq<byte>) returns (ok: bool)
      requires |files| == MAX_FILES
      modifies this`files
      ensures |files| == MAX_FILES
      ensures ok <==> ValidName(name) && |data| < MAX_FILE_SIZE
                      && (Find(old(files), name) < MAX_FILES || FreeSlot(old(files)) < MAX_FILES)
      ensures ok ==> var i := Find(old(files), name);
                     files == old(files)[(if i < MAX_FILES then i else FreeSlot(old(files))) := Used(File(name, data))]
      ensures !ok ==> files == old(files)
    {
      if !ValidName(name) || |data| >= MAX_FILE_SIZE { return false; }
      var i := FindSlot(name);
      if i == MAX_FILES {
        i := AllocateSlot();
        if i == MAX_FILES { return false; }
      }
      files := files[i := Used(File(name, data))];
      return true;
    }

    /** fs_seed_default_bmp on a loaded view, when no file has its name. */
    method AddPicture(picture: seq<byte>) returns (added: bool)
      requires |files| == MAX_FILES && |picture| <= DATA_BYTES
      modifies this`files
      ensures |files| == MAX_FILES && files == WithPicture(old(files), picture)
      ensures if added then PictureAt(old(files), files, picture) else files == old(files)
    {
      hide PictureName, ValidName, FreeSlot;
      PictureNameIsValid();
      var i := FindSlot(PictureName());
      if i < MAX_FILES { return false; }
      added := SeedFile(PictureName(), picture);
    }

    /** fs_init on a loaded view: leftovers move to recovery names, and a trusted old volume gets
        the picture. */
    method Tidy(trusted: bool, picture: seq<byte>) returns (changed: bool, added: bool)
      requires Shape() && FilesOk() && |picture| <= DATA_BYTES
      requires loadedVersion < DISK_VERSION ==> Small(files)
      modifies this`files
      ensures Shape() && FilesOk()
      ensures files == Tidied(old(files), loadedVersion, trusted, picture)
      ensures !changed ==> files == old(files)
      ensures NoLeftovers(old(files)) && !(trusted && loadedVersion < CONTENT_VERSION) ==> !changed
      ensures if added then PictureAt(Renamed(old(files)), files, picture) else files == Renamed(old(files))
    {
      hide SlotsValid, DistinctSlots, ValidFiles, WithinBudget, Quarantined, WithoutLog, Cost, Kept, SelfTestArtifact, WithPicture, NoArtifacts, NoLeftovers, Small, PictureAt, Text;
      ghost var before := files;
      RenamedKeeps(before);
      UnchangedView(before);
      BudgetIffCost(before);
      BudgetIffCost(Renamed(before));
      var tested := Quarantine();
      var logged := QuarantineLog();
      assert files == Renamed(before);
      added := false;
      if trusted && loadedVersion < CONTENT_VERSION {
        KeptIsSmall(before, files);
        PictureFits(files, picture);
        added := AddPicture(picture);
      }
      changed := tested || logged || added;
    }

    /** The picture goes again when its commit failed. */
    method DropPicture(ghost renamed: seq<Slot>, ghost picture: seq<byte>)
      requires |files| == MAX_FILES && PictureAt(renamed, files, picture)
      modifies this`files
      ensures files == renamed
    {
      hide PictureName, Find, FreeSlot;
      PictureIsThere(renamed, files, picture);
      var i := FindSlot(PictureName());
      files := files[i := Free];
    }

    /** fs_init on a loaded volume: the backend status, the tidied view, and the commit of what
        changed or of a trusted older version. */
    method Adopt(r: MountResult, picture: seq<byte>)
      requires Shape() && FilesOk() && |picture| <= DATA_BYTES
      requires activeSlot < 2 && r.Loaded? && r.view == View(activeSlot, generation, loadedVersion, files)
      requires r.trust != AfterIoError ==> r == Mount(h, drive.media)
      requires upgrade == UpgradeAvailable && r.trust == AfterCorruption ==> Recovered(h, drive.media, activeSlot)
      requires Generation(HeaderAt(drive.media, activeSlot)) == generation
      requires loadedVersion < DISK_VERSION ==> Small(files)
      modifies this`activeSlot, this`generation, this`loadedVersion, this`backend, drive, table, this`files
      ensures Valid() && drive.faults >= old(drive.faults)
      ensures !(r.trust == Trusted && (r.view.version < DISK_VERSION || !NoLeftovers(r.view.slots))) ==>
                drive.media == old(drive.media) && drive.crashable == old(drive.crashable)
      ensures AtomicSince(old(drive.crashable), Live(r.view.slots), Live(TidiedView(r, picture)))
      ensures backend != Uninitialized && (backend == Persistent ==> r.trust == Trusted)
      ensures backend == Persistent || drive.faults == old(drive.faults) ==> files == TidiedView(r, picture)
      ensures files == TidiedView(r, picture) || files == Renamed(r.view.slots)
      ensures r.trust == Trusted && drive.faults == old(drive.faults) ==> backend == Persistent
    {
      hide Mount, ValidFiles, WithinBudget, SlotsValid, DistinctSlots, HeaderAt, Mounts, Renamed, Tidied, PictureAt, NoLeftovers, Small, Recovered;
      ghost var before := files;
      backend := match r.trust
        case Trusted => Persistent
        case AfterCorruption => VolatileCorrupt
        case AfterIoError => VolatileIoError;
      var changed, added := Tidy(r.trust == Trusted, picture);
      if r.trust == Trusted && (changed || loadedVersion < DISK_VERSION) {
        RenamedFilesOk(before);
        var ok := Commit(Live(before));
        if !ok && added { DropPicture(Renamed(before), picture); }
      }
    }

    /** The mount decision of fs_init: adopt what loads, format a blank disk and try it out,
        otherwise run volatile. */
    method Boot(d: Defaults)
      requires Shape() && d.Ok() && !selfTestActive
      modifies this`activeSlot, this`generation, this`loadedVersion, this`backend, this`upgrade, drive, table, this`files,
               this`selfTestActive
      ensures Valid() && backend != Uninitialized && !selfTestActive
      ensures MayWriteAtBoot(h, old(drive.media))
              || (drive.media == old(drive.media) && drive.crashable == old(drive.crashable))
      ensures var before := Mount(h, old(drive.media));
              before.Loaded? ==>
                && AtomicSince(old(drive.crashable), Live(before.view.slots), Live(TidiedView(before, d.picture)))
                && (backend == Persistent ==> files == TidiedView(before, d.picture))
                && (drive.faults == old(drive.faults) ==>
                      files == TidiedView(before, d.picture) && (backend == Persistent <==> before.trust == Trusted))
      ensures Mount(h, old(drive.media)) == Blank ==>
                && (forall m: Media :: m in drive.crashable ==>
                      m in old(drive.crashable) || Mount(h, m) == Blank || Mount(h, m) == Corrupt || ShowsDefaults(h, m, d))
                && (drive.faults == old(drive.faults) ==> backend == Persistent && Contents(files) == Base(d))
    {
      hide Mount, ValidFiles, FitsTable, WithinBudget, SlotsValid, DistinctSlots, ValidAt, HeaderAt, Mounts, LoadImage, ShowsDefaults, Base, Contents, TidiedView, Recovered, Small, NoLeftovers, FormatLeaves, Defaults.Files;
      ghost var m0 := drive.media;
      backend := Uninitialized;
      var r := Load();
      if r.Loaded? {
        LoadedFilesOk(h, HeaderAt(m0, r.view.slot), TableImage(m0, r.view.slot));
        LoadedFacts(h, m0, r);
        Adopt(r, d.picture);
        return;
      }
      Seed(d);
      if r == Blank {
        SeededFilesOk(d);
        var formatted := Format();
        FormatShows(h, d);
        if formatted { SelfTest(d); }
        return;
      }
      SeededFilesOk(d);
      backend := match r
        case NoDrive => VolatileNoDrive
        case Corrupt => VolatileCorrupt
        case _ => VolatileIoError;
    }

    /** The clean view of fs_init: nothing but the default files. */
    method Seed(d: Defaults)
      requires |files| == MAX_FILES && d.Ok()
      modifies this`files
      ensures |files| == MAX_FILES && files == Mounted(d.Files())
    {
      hide ValidName, Find, FreeSlot, Defaults.Files;
      DefaultFilesOk(d);
      files := seq(MAX_FILES, i => Free);
      var list := d.Files();
      assert files == Mounted(list[..0]);
      for k := 0 to 4
        invariant |files| == MAX_FILES && files == Mounted(list[..k])
      {
        SeedStep(list, k);
        var ok := SeedFile(list[k].name, list[k].data);
      }
      assert list[..4] == list;
    }

    /** Formatting a blank disk: the first commit goes to slot 0 as generation 1. Cut short, it
        leaves a blank disk, a corrupt one, or the new files; a corrupt one only if there are
        files. */
    method Format() returns (ok: bool)
      requires Shape() && FilesOk() && activeSlot == 2 && generation == 0
      requires Mount(h, drive.media) == Blank
      modifies this`activeSlot, this`generation, this`loadedVersion, this`backend, drive, table
      ensures Shape() && DiskOk(Live(files))
      ensures backend == if ok then Persistent else VolatileIoError
      ensures !ok ==> drive.faults > old(drive.faults)
      ensures drive.faults >= old(drive.faults)
      ensures forall m: Media :: m in drive.crashable ==> m in old(drive.crashable) || FormatLeaves(h, m, Live(files))
      ensures FormatLeaves(h, drive.media, Live(files))
    {
      hide SyncRelation, OnDisk, ValidFiles, FitsTable, SlotsValid, DistinctSlots, Mount, Live, ValidFile, FormatLeaves;
      ghost var m0, c0 := drive.media, drive.crashable;
      var r := Sync(false);
      ok := r == Committed;
      backend := if ok then Persistent else VolatileIoError;
      FormatMeans(h, m0, c0, Live(files), r, drive.media, drive.crashable);
    }

    // ------------------------------------------------------------------------------------
    // The self test of a new volume

    /** fs_clear_self_test_artifacts. */
    method ClearArtifacts()
      requires Shape() && FilesOk()
      modifies this`files
      ensures Shape() && FilesOk() && Cleared(old(files), files)
    {
      hide SlotsValid, DistinctSlots, ValidFiles, WithinBudget, SelfTestArtifact, Cost;
      ghost var before := files;
      for i := 0 to MAX_FILES
        invariant |files| == MAX_FILES
        invariant forall k :: 0 <= k < i ==>
                    files[k] == if before[k].Used? && SelfTestArtifact(before[k].file) then Free else before[k]
        invariant forall k :: i <= k < MAX_FILES ==> files[k] == before[k]
      {
        if files[i].Used? && SelfTestArtifact(files[i].file) { files := files[i := Free]; }
      }
      ClearedIsSound(before, files);
      BudgetIffCost(before);
      BudgetIffCost(files);
    }

    /** fs_self_test_fail. */
    method TestFailed()
      requires Shape() && FilesOk()
      modifies this`files, this`backend, this`selfTestActive
      ensures Valid() && !selfTestActive && backend == VolatileIoError
    {
      backend := VolatileIoError;
      ClearArtifacts();
      selfTestActive := false;
    }

    /** fs_self_test_reload: only a trusted mount goes on. */
    method Reload() returns (ok: bool)
      requires Shape() && FilesOk() && selfTestActive
      modifies this`activeSlot, this`generation, this`loadedVersion, this`backend, this`upgrade, drive`faults, this`files, table,
               this`selfTestActive
      ensures Valid() && drive.faults >= old(drive.faults) && backend != Uninitialized
      ensures ok ==> selfTestActive && backend == Persistent && Mount(h, drive.media).Loaded? && files == Mount(h, drive.media).view.slots
      ensures !ok ==> !selfTestActive
      ensures drive.faults == old(drive.faults) && OnDisk(h, drive.media, old(activeSlot), old(generation), old(Live(files))) ==>
                ok && Live(files) == old(Live(files))
    {
      hide Mount, ValidFiles, WithinBudget, SlotsValid, DistinctSlots, HeaderAt, LoadImage, Recovered, Small, SelfTestArtifact;
      ghost var m := drive.media;
      var r := Load();
      if r.Loaded? {
        LoadedFilesOk(h, HeaderAt(m, r.view.slot), TableImage(m, r.view.slot));
        LoadedFacts(h, m, r);
        if r.trust == Trusted {
          backend := Persistent;
          return true;
        }
      }
      backend := if r == NoDrive then VolatileNoDrive
                 else if r == Corrupt || (r.Loaded? && r.trust == AfterCorruption) then VolatileCorrupt
                 else VolatileIoError;
      ClearArtifacts();
      selfTestActive := false;
      return false;
    }

    /** What holds between the steps of the self test: the default files are safe, on disk and in
        every state a power cut can have left since. */
    ghost predicate Testing(d: Defaults, earlier: iset<Media>)
      reads this, drive
    {
      && Valid() && selfTestActive && d.Ok()
      && Beside(Base(d), Contents(files)) && Safe(d, earlier)
    }

    /** The default files are safe on disk and in every state a power cut can have left since. */
    ghost predicate Safe(d: Defaults, earlier: iset<Media>)
      reads this, drive
    {
      SafeDisk(h, d, earlier, drive.media, drive.crashable)
    }

    /** A reload between two steps: the view is what it was, or the test is over. */
    method ReloadTested(ghost d: Defaults, ghost earlier: iset<Media>) returns (ok: bool)
      requires Testing(d, earlier)
      modifies this`activeSlot, this`generation, this`loadedVersion, this`backend, this`upgrade, drive, table, this`files,
               this`selfTestActive
      ensures Valid() && Safe(d, earlier) && backend != Uninitialized && drive.faults >= old(drive.faults)
      ensures ok ==> Testing(d, earlier) && backend == Persistent
      ensures !ok ==> !selfTestActive
      ensures drive.faults == old(drive.faults) && old(backend) == Persistent ==> ok && Contents(files) == old(Contents(files))
    {
      hide Mount, Contents, Base, SlotsValid, DistinctSlots, Live, ValidFiles, WithinBudget, Beside, SafeDisk;
      ghost var view := files;
      ok := Reload();
      ReloadedSame(view, files);
      if ok { ReloadedIsBeside(h, d, earlier, drive.media, drive.crashable, files); }
    }

    /** The file of the self test is written. */
    method TryWrite(ghost d: Defaults, ghost earlier: iset<Media>) returns (ok: bool)
      requires Testing(d, earlier) && backend == Persistent && HasFree(files)
      modifies this`activeSlot, this`generation, this`loadedVersion, this`backend, drive, table, this`files
      ensures Testing(d, earlier) && drive.faults >= old(drive.faults) && backend != Uninitialized
      ensures ok ==> Contents(files) == old(Contents(files))[Scratch() := PAYLOAD]
      ensures drive.faults == old(drive.faults) ==> backend == Persistent
      ensures drive.faults == old(drive.faults) ==> ok
    {
      hide Mount, Mounts, ShowsDefaults, Contents, Base, SlotsValid, DistinctSlots, Live, OnDisk, ValidFiles, WithinBudget, Scratch, Second, SelfTestName, SystemManaged, SystemLog, ValidName, HasFree, Beside, SafeDisk, SelfTestArtifact;
      ghost var c, before, m0, c0 := Contents(files), files, drive.media, drive.crashable;
      TestNames();
      BesideSteps(d, c);
      ghost var attempt: seq<Slot>;
      ok, attempt := WriteBytes(Scratch(), PAYLOAD, false);
      StaysSafe(h, d, earlier, before, attempt, m0, c0, drive.media, drive.crashable);
      SmallFits(d, attempt);
    }

    /** The file of the self test is renamed. */
    method TryRename(ghost d: Defaults, ghost earlier: iset<Media>) returns (ok: bool)
      requires Testing(d, earlier) && backend == Persistent && Scratch() in Contents(files)
      modifies this`activeSlot, this`generation, this`loadedVersion, this`backend, drive, table, this`files
      ensures Testing(d, earlier) && drive.faults >= old(drive.faults) && backend != Uninitialized
      ensures ok ==> Contents(files) == (old(Contents(files)) - {Scratch()})[Second() := old(Contents(files))[Scratch()]]
      ensures drive.faults == old(drive.faults) ==> backend == Persistent
      ensures drive.faults == old(drive.faults) && Second() !in old(Contents(files)) ==> ok
    {
      hide Mount, Mounts, ShowsDefaults, Contents, Base, SlotsValid, DistinctSlots, Live, OnDisk, ValidFiles, WithinBudget, Scratch, Second, SelfTestName, SystemManaged, SystemLog, ValidName, HasFree, Beside, SafeDisk, SelfTestArtifact;
      ghost var c, before, m0, c0 := Contents(files), files, drive.media, drive.crashable;
      TestNames();
      BesideSteps(d, c);
      ghost var attempt: seq<Slot>;
      ok, attempt := Rename(Scratch(), Second(), false);
      StaysSafe(h, d, earlier, before, attempt, m0, c0, drive.media, drive.crashable);
      SmallFits(d, attempt);
    }

    /** The file of the self test is removed. */
    method TryRemove(ghost d: Defaults, ghost earlier: iset<Media>) returns (ok: bool)
      requires Testing(d, earlier) && backend == Persistent && Second() in Contents(files)
      modifies this`activeSlot, this`generation, this`loadedVersion, this`backend, drive, table, this`files
      ensures Testing(d, earlier) && drive.faults >= old(drive.faults) && backend != Uninitialized
      ensures ok ==> Contents(files) == old(Contents(files)) - {Second()}
      ensures drive.faults == old(drive.faults) ==> backend == Persistent
      ensures drive.faults == old(drive.faults) ==> ok
    {
      hide Mount, Mounts, ShowsDefaults, Contents, Base, SlotsValid, DistinctSlots, Live, OnDisk, ValidFiles, WithinBudget, Scratch, Second, SelfTestName, SystemManaged, SystemLog, ValidName, HasFree, Beside, SafeDisk, SelfTestArtifact;
      ghost var c, before, m0, c0 := Contents(files), files, drive.media, drive.crashable;
      TestNames();
      BesideSteps(d, c);
      ghost var attempt: seq<Slot>;
      ok, attempt := Remove(Second(), false);
      StaysSafe(h, d, earlier, before, attempt, m0, c0, drive.media, drive.crashable);
      SmallFits(d, attempt);
    }

    /** A step of the self test has failed. */
    method StopTest(ghost d: Defaults, ghost earlier: iset<Media>)
      requires Testing(d, earlier)
      modifies this`files, this`backend, this`selfTestActive
      ensures Valid() && Safe(d, earlier) && !selfTestActive && backend == VolatileIoError
    {
      hide SafeDisk, Beside, OnDisk, ValidFiles, WithinBudget, SlotsValid, DistinctSlots, Recovered;
      TestFailed();
    }

    /** The first step of fs_self_test: a file is written, and is there after a reload. */
    method TestWrite(ghost d: Defaults, ghost earlier: iset<Media>) returns (ok: bool)
      requires Testing(d, earlier) && backend == Persistent && HasFree(files)
      modifies this`activeSlot, this`generation, this`loadedVersion, this`backend, this`upgrade, drive, table, this`files,
               this`selfTestActive
      ensures Valid() && Safe(d, earlier) && backend != Uninitialized && drive.faults >= old(drive.faults)
      ensures ok ==> Testing(d, earlier) && backend == Persistent && Scratch() in Contents(files)
      ensures !ok ==> !selfTestActive
      ensures drive.faults == old(drive.faults) ==> ok && Contents(files) == old(Contents(files))[Scratch() := PAYLOAD]
    {
      hide Contents, Base, SlotsValid, DistinctSlots, Live, OnDisk, ValidFiles, WithinBudget, Scratch, SelfTestName, HasFree, Beside, SafeDisk, Recovered;
      TestNames();
      var written := TryWrite(d, earlier);
      if !written { StopTest(d, earlier); return false; }
      ok := ReloadTested(d, earlier);
      if !ok { return; }
      var i := FindSlot(Scratch());
      FoundIn(files, Scratch());
      if i == MAX_FILES || !SelfTestArtifact(files[i].file) { StopTest(d, earlier); return false; }
    }

    /** The second step: the file is renamed. */
    method TestRename(ghost d: Defaults, ghost earlier: iset<Media>) returns (ok: bool)
      requires Testing(d, earlier) && backend == Persistent && Scratch() in Contents(files)
      modifies this`activeSlot, this`generation, this`loadedVersion, this`backend, this`upgrade, drive, table, this`files,
               this`selfTestActive
      ensures Valid() && Safe(d, earlier) && backend != Uninitialized && drive.faults >= old(drive.faults)
      ensures ok ==> Testing(d, earlier) && backend == Persistent && Second() in Contents(files)
      ensures !ok ==> !selfTestActive
      ensures drive.faults == old(drive.faults) && Second() !in old(Contents(files)) ==>
                ok && Contents(files) == (old(Contents(files)) - {Scratch()})[Second() := old(Contents(files))[Scratch()]]
    {
      hide Contents, Base, SlotsValid, DistinctSlots, Live, OnDisk, ValidFiles, WithinBudget, Scratch, Second, SelfTestName, Beside, SafeDisk, Recovered, SelfTestArtifact;
      TestNames();
      var renamed := TryRename(d, earlier);
      var gone := FindSlot(Scratch());
      FoundIn(files, Scratch());
      if !renamed || gone < MAX_FILES { StopTest(d, earlier); return false; }
      ok := ReloadTested(d, earlier);
      if !ok { return; }
      var i := FindSlot(Scratch());
      FoundIn(files, Scratch());
      var j := FindSlot(Second());
      FoundIn(files, Second());
      ArtifactIn(d, files);
      if i < MAX_FILES || j == MAX_FILES || !SelfTestArtifact(files[j].file) { StopTest(d, earlier); return false; }
    }

    /** The third step: the file is removed. */
    method TestRemove(ghost d: Defaults, ghost earlier: iset<Media>) returns (ok: bool)
      requires Testing(d, earlier) && backend == Persistent && Second() in Contents(files)
      modifies this`activeSlot, this`generation, this`loadedVersion, this`backend, this`upgrade, drive, table, this`files,
               this`selfTestActive
      ensures Valid() && Safe(d, earlier) && backend != Uninitialized && drive.faults >= old(drive.faults)
      ensures ok ==> Testing(d, earlier) && backend == Persistent
      ensures !ok ==> !selfTestActive
      ensures drive.faults == old(drive.faults) && Scratch() !in old(Contents(files)) ==>
                ok && Contents(files) == old(Contents(files)) - {Second()}
    {
      hide Contents, Base, SlotsValid, DistinctSlots, Live, OnDisk, ValidFiles, WithinBudget, Scratch, Second, SelfTestName, Beside, SafeDisk, Recovered, SelfTestArtifact;
      var removed := TryRemove(d, earlier);
      if !removed { StopTest(d, earlier); return false; }
      ok := ReloadTested(d, earlier);
      if !ok { return; }
      var i := FindSlot(Scratch());
      FoundIn(files, Scratch());
      var j := FindSlot(Second());
      FoundIn(files, Second());
      if i < MAX_FILES || j < MAX_FILES { StopTest(d, earlier); return false; }
    }

    /** fs_self_test on a new volume. Whatever fails and whenever the power goes, the default files
        are on the disk, with nothing beside them but a file of the test. */
    method SelfTest(d: Defaults)
      requires Valid() && backend == Persistent && !selfTestActive && d.Ok() && files == Mounted(d.Files())
      modifies this`activeSlot, this`generation, this`loadedVersion, this`backend, this`upgrade, drive, table, this`files,
               this`selfTestActive
      ensures Valid() && !selfTestActive && backend != Uninitialized
      ensures Safe(d, old(drive.crashable)) && drive.faults >= old(drive.faults)
      ensures drive.faults == old(drive.faults) ==> backend == Persistent && Contents(files) == Base(d)
    {
      hide Mount, ShowsDefaults, Contents, Base, SlotsValid, DistinctSlots, Live, ValidFiles, WithinBudget, Scratch, Second, HasFree, Beside, SelfTestArtifact, Defaults.Files, Recovered;
      ghost var earlier := drive.crashable;
      TestLeavesNothing(d);
      NewIsTesting(h, drive.media, d);
      selfTestActive := true;
      ClearArtifacts();
      NothingToClear(d, files);
      var ok := TestWrite(d, earlier);
      if !ok { return; }
      ok := TestRename(d, earlier);
      if !ok { return; }
      ok := TestRemove(d, earlier);
      if !ok { return; }
      selfTestActive := false;
    }

    predicate Upgradable()
      reads this
    {
      upgrade == UpgradeAvailable && backend == VolatileCorrupt && activeSlot < 2 && loadedVersion < DISK_VERSION
    }

    /** fs_upgrade_legacy_snapshot: only a confirmed, available upgrade writes; success leaves a
        volume the next boot trusts, with exactly the mounted files. */
    method UpgradeLegacy(confirmation: seq<byte>) returns (r: UpgradeResult)
      requires Valid()
      modifies this`activeSlot, this`generation, this`loadedVersion, this`backend, this`upgrade, drive, table
      ensures Valid()
      ensures r == UpgradeNotAvailable || r == ConfirmationRequired ==>
                drive.media == old(drive.media) && drive.crashable == old(drive.crashable)
      ensures r == UpgradeNotAvailable <==> !old(Upgradable())
      ensures r != UpgradeNotAvailable ==> (r == ConfirmationRequired <==> !Confirmation(confirmation))
      ensures r == UpgradeSucceeded ==> backend == Persistent && upgrade == UpgradeUnavailable
      ensures r != UpgradeSucceeded ==> backend == old(backend)
      ensures r == UpgradeFailed || r == UpgradeUncertain ==> drive.faults > old(drive.faults)
      ensures old(Upgradable()) ==> Recovered(h, old(drive.media), old(activeSlot)) && UpgradeLeaves()
    {
      hide Confirmation, Recovered, UpgradeSafe, Mounts, Shown;
      if !Upgradable() { return UpgradeNotAvailable; }
      if !Confirmation(confirmation) {
        UpgradeSafeNow(h, drive.media, activeSlot, Live(files));
        return ConfirmationRequired;
      }
      r := PerformUpgrade();
    }

    /** What an upgrade may leave, on disk and at a power cut: the recovered snapshot or the new
        files, if the call is one of the safe ones. */
    twostate predicate UpgradeLeaves()
      requires old(activeSlot) < 2 && Recovered(h, old(drive.media), old(activeSlot))
      reads this, drive
    {
      UpgradeSafe(h, old(drive.media), old(activeSlot), Live(files)) ==>
        && AtomicSince(old(drive.crashable), Shown(h, old(drive.media), old(activeSlot)), Live(files))
        && (Mounts(h, drive.media, Shown(h, old(drive.media), old(activeSlot))) || Mounts(h, drive.media, Live(files)))
    }

    /** The verified commit of an upgrade, and what it does to the volume's status. */
    method PerformUpgrade() returns (r: UpgradeResult)
      requires Valid() && Upgradable()
      modifies this`activeSlot, this`generation, this`loadedVersion, this`backend, this`upgrade, drive, table
      ensures Valid()
      ensures r != UpgradeNotAvailable && r != ConfirmationRequired
      ensures r == UpgradeSucceeded ==> backend == Persistent && upgrade == UpgradeUnavailable
      ensures r != UpgradeSucceeded ==> backend == old(backend) && drive.faults > old(drive.faults)
      ensures Recovered(h, old(drive.media), old(activeSlot)) && UpgradeLeaves()
    {
      hide SyncRelation, OnDisk, ValidFiles, FitsTable, SlotsValid, DistinctSlots, HeaderAt, Live, ValidFile, Recovered, Mounts, UpgradeSafe, Shown;
      ghost var m0, c0, slot0 := drive.media, drive.crashable, activeSlot;
      var sync := Sync(true);
      UpgradeMeans(h, m0, c0, slot0, Live(files), sync, drive.media, drive.crashable);
      match sync
      case Committed =>
        backend, upgrade := Persistent, UpgradeUnavailable;
        return UpgradeSucceeded;
      case SyncUncertain =>
        upgrade := UpgradeOutcomeUncertain;
        return UpgradeUncertain;
      case SyncFailed =>
        return UpgradeFailed;
    }
  }

  datatype Scan = Scan(ioError: bool, header0: Header, valid0: bool, header1: Header, valid1: bool,
                       stray: bool, legacyAmbiguous: bool, protectedAmbiguous: bool)

  ghost predicate Accurate(h: Checksum, m: Media, scan: Scan) {
    && scan.header0 == HeaderAt(m, 0) && scan.valid0 == ValidAt(h, m, 0)
    && scan.header1 == HeaderAt(m, 1) && scan.valid1 == ValidAt(h, m, 1)
    && scan.stray == (StrayHeader(h, m, 0) || StrayHeader(h, m, 1))
    && scan.legacyAmbiguous == LegacyAmbiguous(h, m)
    && (scan.legacyAmbiguous || scan.protectedAmbiguous) == Ambiguous(h, m)
  }

  lemma MountFirst(h: Checksum, m: Media, scan: Scan, slots: seq<Slot>)
    requires Accurate(h, m, scan)
    requires var first := FirstOf(scan.valid0, scan.header0, scan.valid1, scan.header1);
             Loads(h, m, first) && LoadSlot(h, m, first) == Some(slots)
    ensures var first := FirstOf(scan.valid0, scan.header0, scan.valid1, scan.header1);
            Mount(h, m) == Loaded(ViewOf(m, first, slots),
              TrustOf(scan.stray || scan.legacyAmbiguous || scan.protectedAmbiguous), scan.legacyAmbiguous)
  {
    hide HeaderOf, HeaderValid, LoadImage, AllZero, Newer, Ambiguous, LegacyAmbiguous, FirstOf;
  }

  lemma MountSecond(h: Checksum, m: Media, scan: Scan, slots: seq<Slot>)
    requires Accurate(h, m, scan)
    requires var first := FirstOf(scan.valid0, scan.header0, scan.valid1, scan.header1);
             !Loads(h, m, first) && Loads(h, m, Other(first)) && LoadSlot(h, m, Other(first)) == Some(slots)
    ensures var first := FirstOf(scan.valid0, scan.header0, scan.valid1, scan.header1);
            Mount(h, m) == Loaded(ViewOf(m, Other(first), slots),
              TrustOf(ValidAt(h, m, first) || scan.stray || scan.legacyAmbiguous || scan.protectedAmbiguous),
              scan.legacyAmbiguous)
  {
    hide HeaderOf, HeaderValid, LoadImage, AllZero, Newer, Ambiguous, LegacyAmbiguous, FirstOf;
  }

  lemma MountNothing(h: Checksum, m: Media, scan: Scan)
    requires Accurate(h, m, scan)
    requires !Loads(h, m, 0) && !Loads(h, m, 1)
    ensures Mount(h, m) == if scan.valid0 || scan.valid1 || scan.stray || !BlankTables(m) then Corrupt else Blank
  {
    hide HeaderOf, HeaderValid, LoadImage, AllZero, Newer, Ambiguous, LegacyAmbiguous, FirstOf;
  }

  lemma TableReplaced(m: Media, m': Media, slot: SlotIndex, image: seq<byte>)
    requires |image| == IMAGE_BYTES
    requires OnlyTableOf(m, m', slot) && TableImage(m', slot) == image
    ensures m' == WithTable(m, slot, image)
  {
    var w := WithTable(m, slot, image);
    WithTableTouchesOneSlot(m, slot, image);
    SpliceReads(m, TableByte(slot), image);
    assert TableImage(w, slot) == image;
    SlotsDetermineMedia(m', w);
  }

  lemma HeaderAlreadyThere(m: Media, slot: SlotIndex, header: seq<byte>)
    requires |header| == SECTOR && HeaderSector(m, slot) == header
    ensures Splice(m, HeaderByte(slot), header) == m
  {
  }

  /** How the disk and its crash states relate before and after a commit attempt of `list`. */
  ghost predicate SyncRelation(h: Checksum, m0: Media, c0: iset<Media>, target: SlotIndex, next: u32,
                               list: seq<File>, r: SyncResult, m1: Media, c1: iset<Media>)
    requires forall i :: 0 <= i < |list| ==> ValidFile(list[i])
    requires FitsTable(list)
  {
    var image := Image(Table(list));
    var after := Published(h, m0, target, image, next);
    && (r == Committed ==> m1 == after)
    && (r == SyncFailed ==> Torn(m0, TableByte(target), image, m1))
    && (r == SyncUncertain ==> m1 == after || Torn(m0, TableByte(target), image, m1))
    && forall m: Media :: m in c1 ==> m in c0 || CommitCrash(h, m0, target, image, next, m)
  }

  /** What each way a commit can end, or be cut short, leaves for the next boot. */
  lemma SyncMeans(h: Checksum, m0: Media, c0: iset<Media>, slot: int, g: u32, before: seq<File>,
                  list: seq<File>, r: SyncResult, m1: Media, c1: iset<Media>)
    requires OnDisk(h, m0, slot, g, before)
    requires ValidFiles(list) && FitsTable(list)
    requires SyncRelation(h, m0, c0, TargetOf(slot), NextGeneration(g), list, r, m1, c1)
    ensures r == Committed ==> OnDisk(h, m1, TargetOf(slot), NextGeneration(g), list) && Mounts(h, m1, list)
    ensures r == SyncFailed ==> Mounts(h, m1, before)
    ensures r == SyncUncertain ==> Mounts(h, m1, before) || Mounts(h, m1, list)
    ensures forall m: Media :: m in c1 ==> m in c0 || Mounts(h, m, before) || Mounts(h, m, list)
  {
    hide Mount, CommitCrash, Published, Preferred, Loads, Table, Image, OnlyTableOf, StrayHeader, FitsTable, Torn;
    var target := TargetOf(slot);
    var image := Image(Table(list));
    TrustedMount(h, m0);
    CommitOnTrusted(h, m0, slot, g, list);
    LiveOfMounted(Mounted(list), list);
    if Torn(m0, TableByte(target), image, m1) {
      TornTableTouchesOneSlot(m0, target, image, m1);
      InactiveTableIsIrrelevant(h, m0, m1, target);
    }
    forall m: Media | m in c1 && m !in c0 ensures Mounts(h, m, before) || Mounts(h, m, list) {
      CommitIsCrashAtomic(h, m0, list, m);
    }
  }

  /** A completed commit next to a slot of generation `g`, or to a blank one, is trusted. */
  lemma SyncPublishes(h: Checksum, m0: Media, c0: iset<Media>, target: SlotIndex, g: u32,
                      list: seq<File>, m1: Media, c1: iset<Media>)
    requires ValidFiles(list) && FitsTable(list)
    requires SyncRelation(h, m0, c0, target, NextGeneration(g), list, Committed, m1, c1)
    requires ValidAt(h, m0, Other(target)) ==> Generation(HeaderAt(m0, Other(target))) == g
    requires !StrayHeader(h, m0, Other(target))
    ensures OnDisk(h, m1, target, NextGeneration(g), list)
  {
    hide Mount, Published, CommitCrash;
    PublishedMounts(h, m0, target, list, g);
    LiveOfMounted(Mounted(list), list);
  }

  // --------------------------------------------------------------------------------------
  // Formatting and upgrading

  /** What a format may leave behind. */
  ghost predicate FormatLeaves(h: Checksum, m: Media, list: seq<File>) {
    Mount(h, m) == Blank || Mounts(h, m, list) || (Mount(h, m) == Corrupt && list != [])
  }

  lemma FormatMeans(h: Checksum, m0: Media, c0: iset<Media>, list: seq<File>, r: SyncResult, m1: Media, c1: iset<Media>)
    requires Mount(h, m0) == Blank && ValidFiles(list) && FitsTable(list)
    requires SyncRelation(h, m0, c0, 0, 1, list, r, m1, c1)
    ensures r == Committed ==> OnDisk(h, m1, 0, 1, list)
    ensures FormatLeaves(h, m1, list)
    ensures forall m: Media :: m in c1 ==> m in c0 || FormatLeaves(h, m, list)
  {
    hide Mount, Published, Torn, NewHeader, StrayHeader, ValidAt, AllZero, Table, Image;
    BlankDisk(h, m0);
    PublishedMounts(h, m0, 0, list, 0);
    LiveOfMounted(Mounted(list), list);
    if Torn(m0, TableByte(0), Image(Table(list)), m1) { FormatCrashCases(h, m0, list, m1); }
    forall m: Media | m in c1 && m !in c0 ensures FormatLeaves(h, m, list) {
      FormatCrashCases(h, m0, list, m);
    }
  }

  /** The upgrades a power cut cannot spoil. */
  ghost predicate UpgradeSafe(h: Checksum, m: Media, slot: SlotIndex, list: seq<File>)
    requires Recovered(h, m, slot)
  {
    ValidFiles(list) && FitsTable(list) && (Preferred(h, m) == slot || NoMixtureShows(h, m, slot, list))
  }

  lemma UpgradeSafeCut(h: Checksum, m: Media, slot: SlotIndex, list: seq<File>, m': Media)
    requires Recovered(h, m, slot) && UpgradeSafe(h, m, slot, list) && UpgradeCrash(h, m, slot, list, m')
    ensures Mounts(h, m', Shown(h, m, slot)) || Mounts(h, m', list)
  {
    hide Recovered, Mounts, UpgradeCrash, Preferred, NoMixtureShows, Shown;
    UpgradeIsAtomicIff(h, m, slot, list);
  }

  lemma UpgradeSafeNow(h: Checksum, m: Media, slot: SlotIndex, list: seq<File>)
    requires Recovered(h, m, slot)
    ensures UpgradeSafe(h, m, slot, list) ==> Mounts(h, m, Shown(h, m, slot)) || Mounts(h, m, list)
  {
    hide Recovered, Mounts, Preferred, NoMixtureShows, Shown, Torn, NewHeader, Table, Image;
    if UpgradeSafe(h, m, slot, list) {
      TornSelf(m, TableByte(Other(slot)), ImageOf(list));
      UpgradeSafeCut(h, m, slot, list, m);
    }
  }

  lemma UpgradeMeans(h: Checksum, m0: Media, c0: iset<Media>, slot: SlotIndex, list: seq<File>, r: SyncResult, m1: Media, c1: iset<Media>)
    requires Recovered(h, m0, slot) && ValidFiles(list) && FitsTable(list)
    requires SyncRelation(h, m0, c0, Other(slot), NextGeneration(Generation(HeaderAt(m0, slot))), list, r, m1, c1)
    ensures r == Committed ==> OnDisk(h, m1, Other(slot), NextGeneration(Generation(HeaderAt(m0, slot))), list)
    ensures r == SyncFailed ==> Recovered(h, m1, slot) && HeaderAt(m1, slot) == HeaderAt(m0, slot)
    ensures UpgradeSafe(h, m0, slot, list) ==>
              && (Mounts(h, m1, Shown(h, m0, slot)) || Mounts(h, m1, list))
              && forall m: Media :: m in c1 ==> m in c0 || Mounts(h, m, Shown(h, m0, slot)) || Mounts(h, m, list)
  {
    hide Recovered, Mount, Published, Torn, NewHeader, Preferred, NoMixtureShows, Shown, HeaderAt, Table, Image, UpgradeSafe, OnlyTableOf;
    var g := Generation(HeaderAt(m0, slot));
    FinishedMount(h, m0, slot, list);
    RecoveredHeader(h, m0, slot);
    PublishedMounts(h, m0, Other(slot), list, g);
    LiveOfMounted(Mounted(list), list);
    if Torn(m0, TableByte(Other(slot)), Image(Table(list)), m1) {
      TornTableTouchesOneSlot(m0, Other(slot), Image(Table(list)), m1);
      DamagedMount(h, m0, slot, m1);
      if UpgradeSafe(h, m0, slot, list) { UpgradeSafeCut(h, m0, slot, list, m1); }
    }
    if UpgradeSafe(h, m0, slot, list) {
      forall m: Media | m in c1 && m !in c0 ensures Mounts(h, m, Shown(h, m0, slot)) || Mounts(h, m, list) {
        UpgradeSafeCut(h, m0, slot, list, m);
      }
    }
  }

  lemma RecoveredHeader(h: Checksum, m: Media, slot: SlotIndex)
    requires Recovered(h, m, slot)
    ensures !StrayHeader(h, m, Other(Other(slot))) && Other(Other(slot)) == slot
  {
    hide HeaderValid, HeaderOf, LoadImage, AllZero;
  }

  // --------------------------------------------------------------------------------------
  // Views

  lemma BudgetIffCost(slots: seq<Slot>)
    requires SlotsValid(slots) && DistinctSlots(slots)
    ensures ValidFiles(Live(slots)) && (WithinBudget(slots) <==> Cost(slots) <= MAX_FILES)
  {
    CostIsPack(slots);
    SlotsGiveValidFiles(slots);
  }

  lemma PictureFits(slots: seq<Slot>, picture: seq<byte>)
    requires |slots| == MAX_FILES && SlotsValid(slots) && DistinctSlots(slots) && NoLeftovers(slots) && Small(slots)
    requires |picture| <= DATA_BYTES
    ensures var after := WithPicture(slots, picture);
            SlotsValid(after) && DistinctSlots(after) && ValidFiles(Live(after)) && WithinBudget(after)
  {
    hide WithPicture, SlotsValid, DistinctSlots, ValidFiles, WithinBudget, Cost, NoLeftovers, Contents;
    PictureAdds(slots, picture);
    BudgetIffCost(WithPicture(slots, picture));
  }

  lemma RenamedFilesOk(slots: seq<Slot>)
    requires SoundView(slots) && WithinBudget(slots)
    ensures var after := Renamed(slots);
            SlotsValid(after) && DistinctSlots(after) && ValidFiles(Live(after)) && WithinBudget(after)
  {
    hide Renamed, SlotsValid, DistinctSlots, ValidFiles, WithinBudget, Cost, NoLeftovers, Kept;
    RenamedKeeps(slots);
    BudgetIffCost(slots);
    BudgetIffCost(Renamed(slots));
  }

  lemma SmallFits(d: Defaults, slots: seq<Slot>)
    requires d.Ok() && SoundView(slots) && Beside(Base(d), Contents(slots))
    ensures WithinBudget(slots)
  {
    hide SlotsValid, DistinctSlots, WithinBudget, Cost, Beside, Base, Contents;
    BaseFacts(d);
    BesideIsSmall(Base(d), slots);
    SmallCost(slots);
    BudgetIffCost(slots);
  }

  lemma FoundIn(slots: seq<Slot>, name: seq<byte>)
    requires DistinctSlots(slots)
    ensures Find(slots, name) < |slots| <==> name in Contents(slots)
    ensures var i := Find(slots, name);
            i < |slots| ==> slots[i].Used? && slots[i].file.name == name && slots[i].file.data == Contents(slots)[name]
  {
    NotFound(slots, name);
  }

  lemma ReloadedSame(view: seq<Slot>, slots: seq<Slot>)
    requires DistinctSlots(view)
    ensures Live(slots) == Live(view) ==> Contents(slots) == Contents(view)
  {
    if Live(slots) == Live(view) { SameLive(view, slots); }
  }

  lemma ArtifactIn(d: Defaults, slots: seq<Slot>)
    requires d.Ok() && DistinctSlots(slots) && Beside(Base(d), Contents(slots))
    ensures forall i :: 0 <= i < |slots| && slots[i].Used? && SelfTestName(slots[i].file.name) ==> SelfTestArtifact(slots[i].file)
  {
    hide Base, SelfTestName, Contents;
    BaseFacts(d);
    forall i | 0 <= i < |slots| && slots[i].Used? && SelfTestName(slots[i].file.name) ensures SelfTestArtifact(slots[i].file) {
      InNameSet(slots, i);
      ContentsHas(slots, slots[i].file.name);
    }
  }

  lemma ContentsHas(slots: seq<Slot>, name: seq<byte>)
    ensures name in NameSet(slots) <==> name in Contents(slots)
  {
  }

  /** No step of the self test touches a default file. */
  lemma BesideSteps(d: Defaults, c: Map)
    requires d.Ok() && Beside(Base(d), c)
    ensures Beside(Base(d), c[Scratch() := PAYLOAD]) && Beside(Base(d), c - {Second()})
    ensures Scratch() in c ==> Beside(Base(d), (c - {Scratch()})[Second() := c[Scratch()]])
  {
    hide Base, Beside, Scratch, Second;
    BaseFacts(d);
    BesideWrite(Base(d), c);
    BesideRemove(Base(d), c);
    if Scratch() in c { BesideRename(Base(d), c); }
  }

  lemma ReloadedIsBeside(h: Checksum, d: Defaults, earlier: iset<Media>, m: Media, c: iset<Media>, slots: seq<Slot>)
    requires SafeDisk(h, d, earlier, m, c) && Mount(h, m).Loaded? && slots == Mount(h, m).view.slots
    ensures Beside(Base(d), Contents(slots))
  {
    hide Mount, Base, Contents, Beside;
  }

  /** The default files are safe on `m` and in all of `c` but the earlier states. */
  ghost predicate SafeDisk(h: Checksum, d: Defaults, earlier: iset<Media>, m: Media, c: iset<Media>) {
    ShowsDefaults(h, m, d) && forall m': Media :: m' in c ==> m' in earlier || ShowsDefaults(h, m', d)
  }

  /** A mutation whose attempt keeps the default files leaves them safe. */
  lemma StaysSafe(h: Checksum, d: Defaults, earlier: iset<Media>, before: seq<Slot>, attempt: seq<Slot>,
                  m0: Media, c0: iset<Media>, m1: Media, c1: iset<Media>)
    requires SafeDisk(h, d, earlier, m0, c0) && DistinctSlots(before) && DistinctSlots(attempt)
    requires Beside(Base(d), Contents(before)) && Beside(Base(d), Contents(attempt))
    requires || (m1 == m0 && c1 == c0)
             || (&& (Mounts(h, m1, Live(before)) || Mounts(h, m1, Live(attempt)))
                 && forall m: Media :: m in c1 ==> m in c0 || Mounts(h, m, Live(before)) || Mounts(h, m, Live(attempt)))
    ensures SafeDisk(h, d, earlier, m1, c1)
  {
    hide Mounts, ShowsDefaults, Contents, Beside, Base, DistinctSlots, Live;
    forall m: Media | Mounts(h, m, Live(before)) || Mounts(h, m, Live(attempt)) ensures ShowsDefaults(h, m, d) {
      if Mounts(h, m, Live(before)) { ShowsFrom(h, m, before, d); } else { ShowsFrom(h, m, attempt, d); }
    }
  }

  lemma NewIsTesting(h: Checksum, m: Media, d: Defaults)
    requires d.Ok()
    ensures var slots := Mounted(d.Files());
            && Contents(slots) == Base(d) && Beside(Base(d), Contents(slots)) && HasFree(slots)
            && (Mounts(h, m, Live(slots)) ==> ShowsDefaults(h, m, d))
  {
    hide Mounts, ShowsDefaults, Contents, Defaults.Files;
    BaseFacts(d);
    var slots := Mounted(d.Files());
    assert slots[4].Free?;
    BesideSelf(Base(d));
    if Mounts(h, m, Live(slots)) { ShowsFrom(h, m, slots, d); }
  }

  lemma NothingToClear(d: Defaults, slots: seq<Slot>)
    requires d.Ok() && Cleared(Mounted(d.Files()), slots)
    ensures slots == Mounted(d.Files())
  {
    hide Defaults.Files, SelfTestName;
    DefaultFilesOk(d);
    var before := Mounted(d.Files());
    forall i | 0 <= i < |before| ensures slots[i] == before[i] {
      if i < 4 { assert before[i].file == d.Files()[i]; }
    }
  }

  /** Written, renamed and removed, the file of the self test is gone. */
  lemma TestLeavesNothing(d: Defaults)
    requires d.Ok()
    ensures var c1 := Base(d)[Scratch() := PAYLOAD];
            var c2 := (c1 - {Scratch()})[Second() := PAYLOAD];
            && Second() !in c1 && Scratch() !in c2 && c1[Scratch()] == PAYLOAD && c2 - {Second()} == Base(d)
  {
    hide Base, Scratch, Second, SelfTestName;
    BaseFacts(d);
    TestNames();
  }

  lemma SeededFilesOk(d: Defaults)
    requires d.Ok()
    ensures var slots := Mounted(d.Files());
            && SoundView(slots) && ValidFiles(Live(slots)) && WithinBudget(slots) && Live(slots) == d.Files()
  {
    hide Defaults.Files, WithinBudget, Cost, ValidFiles;
    var slots := Mounted(d.Files());
    DefaultFilesOk(d);
    BaseFacts(d);
    ValidFilesGiveSlots(slots);
    SmallCost(slots);
    BudgetIffCost(slots);
  }

  lemma FormatShows(h: Checksum, d: Defaults)
    requires d.Ok()
    ensures forall m: Media :: FormatLeaves(h, m, d.Files()) ==> Mount(h, m) == Blank || Mount(h, m) == Corrupt || ShowsDefaults(h, m, d)
  {
    hide Mounts, Mount, ShowsDefaults, Base, Contents, Defaults.Files;
    BaseFacts(d);
    forall m: Media | FormatLeaves(h, m, d.Files()) ensures Mount(h, m) == Blank || Mount(h, m) == Corrupt || ShowsDefaults(h, m, d) {
      NewIsTesting(h, m, d);
    }
  }

  /** The next default file goes to the next slot. */
  lemma SeedStep(list: seq<File>, k: nat)
    requires ValidFiles(list) && k < |list| <= MAX_FILES
    ensures var slots := Mounted(list[..k]);
            && Find(slots, list[k].name) == MAX_FILES && FreeSlot(slots) == k
            && slots[k := Used(list[k])] == Mounted(list[..k + 1])
            && ValidName(list[k].name) && |list[k].data| < MAX_FILE_SIZE
  {
    hide ValidName;
    var slots := Mounted(list[..k]);
    assert ValidFile(list[k]) && slots[k].Free?;
    forall i | 0 <= i < MAX_FILES ensures !IsNamed(slots[i], list[k].name) {
      if i < k { assert slots[i] == Used(list[i]); }
    }
  }

  /** What is known of a loaded view beside its files. */
  lemma LoadedFacts(h: Checksum, m: Media, r: MountResult)
    requires r.Loaded? && Loads(h, m, r.view.slot) && LoadSlot(h, m, r.view.slot) == Some(r.view.slots)
    requires r.view == ViewOf(m, r.view.slot, r.view.slots)
    requires r.trust != AfterIoError ==> r == Mount(h, m)
    ensures r.trust == AfterCorruption && r.legacyAmbiguous ==> Recovered(h, m, r.view.slot)
    ensures r.view.version < DISK_VERSION ==> Small(r.view.slots)
    ensures Generation(HeaderAt(m, r.view.slot)) == r.view.generation
  {
    hide HeaderValid, HeaderOf, AllZero, Newer, ProtectedAmbiguous;
    if r.view.version < DISK_VERSION { LegacyIsSmall(Records(TableImage(m, r.view.slot)), 0); }
  }

  /** The view fs_init makes of a loaded one. */
  ghost function TidiedView(r: MountResult, picture: seq<byte>): seq<Slot>
    requires r.Loaded?
  {
    Tidied(r.view.slots, r.view.version, r.trust == Trusted, picture)
  }

  /** The disks fs_init may write to: blank ones, and trusted ones that are of an older version or
      hold leftovers. */
  ghost predicate MayWriteAtBoot(h: Checksum, m: Media) {
    var r := Mount(h, m);
    r == Blank || (r.Loaded? && r.trust == Trusted && (r.view.version < DISK_VERSION || !NoLeftovers(r.view.slots)))
  }

  lemma LoadedFilesOk(h: Checksum, header: Header, image: seq<byte>)
    requires |image| == IMAGE_BYTES
    requires LoadImage(h, header, image).Some?
    ensures var slots := LoadImage(h, header, image).value;
            && |slots| == MAX_FILES && ValidFiles(Live(slots)) && WithinBudget(slots)
            && SlotsValid(slots) && DistinctSlots(slots)
  {
    var rs := Records(image);
    if header.version >= DISK_VERSION {
      AcceptedTableReserializes(rs);
      var files := Parse(rs).value;
      LiveOfMounted(Mounted(files), files);
      ValidFilesGiveSlots(Mounted(files));
    } else {
      LegacyFilesAreValid(rs, 0);
      LegacyTableMigrates(rs);
      ValidFilesGiveSlots(LegacyParse(rs).value);
    }
  }
}
