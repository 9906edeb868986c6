/** When the explicit upgrade of an ambiguous legacy pair survives a power cut. */
module FsUpgrade {
  import opened Bytes
  import opened Options
  import opened FsTable
  import opened FsLegacy
  import opened FsImage
  import opened FsCodec
  import opened FsDisk
  import opened FsCrash

  /** Two legacy snapshots, of which `slot` is the one that was mounted. */
  ghost predicate Recovered(h: Checksum, m: Media, slot: SlotIndex) {
    BothLegacy(h, m) && Loads(h, m, slot)
  }

  ghost function Shown(h: Checksum, m: Media, slot: SlotIndex): seq<File>
    requires Recovered(h, m, slot)
  {
    Live(LoadSlot(h, m, slot).value)
  }

  /** The states a power cut can leave during the upgrade to `files`. */
  ghost predicate UpgradeCrash(h: Checksum, m: Media, slot: SlotIndex, files: FileList, m': Media) {
    CommitCrash(h, m, Other(slot), ImageOf(files), NextGeneration(Generation(HeaderAt(m, slot))), m')
  }

  /** What a table would mount under the stale header of the slot that is being replaced. */
  ghost function Stale(h: Checksum, m: Media, slot: SlotIndex, t: seq<byte>): Option<seq<Slot>>
    requires |t| == IMAGE_BYTES
  {
    LoadImage(h, HeaderAt(m, Other(slot)), t)
  }

  /** Damage to the other table shows only when that slot is tried first and its table passes. */
  lemma DamagedMount(h: Checksum, m: Media, slot: SlotIndex, m': Media)
    requires Recovered(h, m, slot) && OnlyTableOf(m, m', Other(slot))
    ensures Recovered(h, m', slot) && Preferred(h, m') == Preferred(h, m)
    ensures HeaderAt(m', slot) == HeaderAt(m, slot) && LoadSlot(h, m', slot) == LoadSlot(h, m, slot)
    ensures var t := Stale(h, m, slot, TableImage(m', Other(slot)));
            Mounts(h, m', if Preferred(h, m) == slot || t == None then Shown(h, m, slot) else Live(t.value))
  {
    hide HeaderValid, HeaderOf, LoadImage, AllZero, Newer, LegacyAmbiguous, ProtectedAmbiguous;
    assert Other(0) == 1 && Other(1) == 0;
  }

  lemma FinishedMount(h: Checksum, m: Media, slot: SlotIndex, files: FileList)
    requires Recovered(h, m, slot)
    ensures var g := Generation(HeaderAt(m, slot));
            Mounts(h, Published(h, m, Other(slot), ImageOf(files), NextGeneration(g)), files)
  {
    hide Mount, Published, HeaderValid, HeaderOf, LoadSlot, Table, Image;
    PublishedMounts(h, m, Other(slot), files, Generation(HeaderAt(m, slot)));
    LiveOfMounted(Mounted(files), files);
  }

  /** If the mounted snapshot is the one tried first, a power cut leaves it or the new files. */
  lemma PreferredUpgradeIsAtomic(h: Checksum, m: Media, slot: SlotIndex, files: FileList, m': Media)
    requires Recovered(h, m, slot) && UpgradeCrash(h, m, slot, files, m')
    ensures Preferred(h, m) == slot ==> Mounts(h, m', Shown(h, m, slot)) || Mounts(h, m', files)
  {
    hide Recovered, Mounts, CommitCrash, Published, Preferred, LoadImage, OnlyTableOf;
    CrashCases(h, m, Other(slot), ImageOf(files), NextGeneration(Generation(HeaderAt(m, slot))), m');
    FinishedMount(h, m, slot, files);
    if OnlyTableOf(m, m', Other(slot)) {
      DamagedMount(h, m, slot, m');
    }
  }

  /** No mixture of the old table and the new one passes under the stale header with files of its
      own. */
  ghost predicate NoMixtureShows(h: Checksum, m: Media, slot: SlotIndex, files: FileList)
    requires Recovered(h, m, slot)
  {
    forall t :: |t| == IMAGE_BYTES && Mixture(TableImage(m, Other(slot)), ImageOf(files), t) ==>
      var r := Stale(h, m, slot, t); r == None || Live(r.value) == Shown(h, m, slot) || Live(r.value) == files
  }

  ghost predicate UpgradeIsAtomic(h: Checksum, m: Media, slot: SlotIndex, files: FileList)
    requires Recovered(h, m, slot)
  {
    forall m': Media :: UpgradeCrash(h, m, slot, files, m') ==> Mounts(h, m', Shown(h, m, slot)) || Mounts(h, m', files)
  }

  lemma SafeUpgrade(h: Checksum, m: Media, slot: SlotIndex, files: FileList, m': Media)
    requires Recovered(h, m, slot) && UpgradeCrash(h, m, slot, files, m') && NoMixtureShows(h, m, slot, files)
    ensures Mounts(h, m', Shown(h, m, slot)) || Mounts(h, m', files)
  {
    hide Recovered, Mounts, Published, Preferred, LoadImage, OnlyTableOf, Torn, Mixture, ImageOf, TableImage, NewHeader;
    var target, g := Other(slot), NextGeneration(Generation(HeaderAt(m, slot)));
    FinishedMount(h, m, slot, files);
    if Torn(m, TableByte(target), ImageOf(files), m') {
      TornTableTouchesOneSlot(m, target, ImageOf(files), m');
      TornIsMixture(m, target, ImageOf(files), m');
      DamagedMount(h, m, slot, m');
    } else {
      UnsealedUpgrade(h, m, slot, files, m');
    }
  }

  /** Between the two writes the whole new table lies under the stale header. */
  lemma UnsealedUpgrade(h: Checksum, m: Media, slot: SlotIndex, files: FileList, m': Media)
    requires Recovered(h, m, slot) && NoMixtureShows(h, m, slot, files)
    requires Torn(WithTable(m, Other(slot), ImageOf(files)), HeaderByte(Other(slot)),
                  NewHeader(h, ImageOf(files), NextGeneration(Generation(HeaderAt(m, slot)))), m')
    ensures Mounts(h, m', Shown(h, m, slot)) || Mounts(h, m', files)
  {
    hide Recovered, Mounts, Preferred, LoadImage, OnlyTableOf, Torn, ImageOf, TableImage, NewHeader, Splice;
    var target, g := Other(slot), NextGeneration(Generation(HeaderAt(m, slot)));
    FinishedMount(h, m, slot, files);
    TornSector(WithTable(m, target, ImageOf(files)), HeaderByte(target), NewHeader(h, ImageOf(files), g), m');
    WholeIsMixture(TableImage(m, target), ImageOf(files));
    MixtureIsTorn(m, target, ImageOf(files), ImageOf(files));
    DamagedMount(h, m, slot, WithTable(m, target, ImageOf(files)));
  }

  lemma WholeIsMixture(a: seq<byte>, b: seq<byte>)
    requires |a| == IMAGE_BYTES && |b| == IMAGE_BYTES
    ensures Mixture(a, b, b)
  {
  }

  /** The upgrade is crash-atomic exactly when the mounted snapshot is the one tried first, or no
      mixture of the two tables passes for something else. */
  lemma UpgradeIsAtomicIff(h: Checksum, m: Media, slot: SlotIndex, files: FileList)
    requires Recovered(h, m, slot)
    ensures UpgradeIsAtomic(h, m, slot, files) <==> Preferred(h, m) == slot || NoMixtureShows(h, m, slot, files)
  {
    hide Recovered, Mount, CommitCrash, Preferred, Stale, Mixture, ImageOf, Shown;
    if Preferred(h, m) == slot || NoMixtureShows(h, m, slot, files) {
      forall m': Media | UpgradeCrash(h, m, slot, files, m')
        ensures Mounts(h, m', Shown(h, m, slot)) || Mounts(h, m', files)
      {
        if Preferred(h, m) == slot {
          PreferredUpgradeIsAtomic(h, m, slot, files, m');
        } else {
          SafeUpgrade(h, m, slot, files, m');
        }
      }
    } else {
      var t :| |t| == IMAGE_BYTES && Mixture(TableImage(m, Other(slot)), ImageOf(files), t)
               && Stale(h, m, slot, t) != None
               && Live(Stale(h, m, slot, t).value) != Shown(h, m, slot) && Live(Stale(h, m, slot, t).value) != files;
      var m' := BadUpgrade(h, m, slot, files, t);
    }
  }

  /** A mixture that passes is a disk a power cut can leave, and shows its own files. */
  lemma BadUpgrade(h: Checksum, m: Media, slot: SlotIndex, files: FileList, t: seq<byte>) returns (m': Media)
    requires Recovered(h, m, slot) && Preferred(h, m) != slot
    requires |t| == IMAGE_BYTES && Mixture(TableImage(m, Other(slot)), ImageOf(files), t) && Stale(h, m, slot, t).Some?
    ensures UpgradeCrash(h, m, slot, files, m') && Mounts(h, m', Live(Stale(h, m, slot, t).value))
  {
    hide Recovered, Mount, Preferred, LoadImage, Mixture, ImageOf, NewHeader, Torn, TableImage;
    m' := WithTable(m, Other(slot), t);
    MixtureIsTorn(m, Other(slot), ImageOf(files), t);
    DamagedMount(h, m, slot, m');
  }

  // --------------------------------------------------------------------------------------
  // A disk on which it is not

  const BAD := Record(5, Zeros(MAX_FILENAME), 0, Zeros(DATA_BYTES))

  function FileA(): File { File([97], []) }
  function FileB(): File { File([98], []) }

  function LegacyHeader(generation: u32, checksum: u32): Header {
    Header(MAGIC, 3, TABLE_BYTES, checksum, generation, 0)
  }

  function OneRecord(r: Record): (rs: seq<Record>)
    ensures |rs| == MAX_FILES && rs[0] == r
  {
    [r] + Blanks(MAX_FILES - 1)
  }

  /** A table of one file. */
  function Whole(): (t: seq<byte>)
    ensures |t| == IMAGE_BYTES
  {
    assert ValidFile(FileA());
    Image(OneRecord(HeadRecord(FileA())))
  }

  /** An empty older snapshot that is mounted, and the header of a newer one of one file over a
      table whose first sector was lost. */
  function FragileDisk(h: Checksum): (m: Media) {
    HeaderBytes(LegacyHeader(1, h(Image(Blanks(MAX_FILES))))) + Image(Blanks(MAX_FILES))
    + HeaderBytes(LegacyHeader(2, h(Whole()))) + Image(OneRecord(BAD))
  }

  lemma FragileSlots(h: Checksum)
    ensures var m := FragileDisk(h);
            && HeaderSector(m, 0) == HeaderBytes(LegacyHeader(1, h(Image(Blanks(MAX_FILES))))) && TableImage(m, 0) == Image(Blanks(MAX_FILES))
            && HeaderSector(m, 1) == HeaderBytes(LegacyHeader(2, h(Whole()))) && TableImage(m, 1) == Image(OneRecord(BAD))
  {
    hide HeaderBytes, Image, Blanks, OneRecord, Whole;
  }

  lemma {:induction false} LegacyBlanks(rs: seq<Record>, at: nat)
    requires at <= |rs| && forall k :: at <= k < |rs| ==> rs[k] == BLANK
    ensures LegacyFrom(rs, at).Some? && Live(LegacyFrom(rs, at).value) == []
    decreases |rs| - at
  {
    if at < |rs| {
      LegacyBlanks(rs, at + 1);
      var rest := LegacyFrom(rs, at + 1).value;
      assert ([Free] + rest)[1..] == rest;
    }
  }

  lemma OneFileParses(f: File)
    requires f == FileA()
    ensures ValidFile(f) && LegacyParse(OneRecord(HeadRecord(f))).Some?
    ensures Live(LegacyParse(OneRecord(HeadRecord(f))).value) == [f]
  {
    var rs := OneRecord(HeadRecord(f));
    LegacyBlanks(rs, 1);
    NameFieldRoundTrip(f.name);
    assert rs[..0] == [];
    assert LegacyHeadValid(rs[0]) && LegacyFile(rs[0]) == f;
    var rest := LegacyFrom(rs, 1).value;
    assert ([Used(f)] + rest)[1..] == rest;
  }

  lemma BadDoesNotParse()
    ensures LegacyParse(OneRecord(BAD)) == None
  {
    assert OneRecord(BAD)[0] == BAD;
  }

  lemma FragileMount(h: Checksum)
    ensures var m := FragileDisk(h);
            && Recovered(h, m, 0) && Preferred(h, m) == 1 && Shown(h, m, 0) == []
            && Mount(h, m).Loaded? && Mount(h, m).view.slot == 0 && Mount(h, m).legacyAmbiguous
  {
    hide FragileDisk, HeaderBytes, Image, Records, LegacyParse, HeaderOf, AllZero, OneRecord, Blanks, Whole;
    FragileSlots(h);
    HeaderRoundTrip(LegacyHeader(1, h(Image(Blanks(MAX_FILES)))));
    HeaderRoundTrip(LegacyHeader(2, h(Whole())));
    ImageRoundTrip(Blanks(MAX_FILES));
    ImageRoundTrip(OneRecord(BAD));
    BlankParses();
    BadDoesNotParse();
  }

  lemma BlankParses()
    ensures LegacyParse(Blanks(MAX_FILES)).Some? && Live(LegacyParse(Blanks(MAX_FILES)).value) == []
  {
    LegacyBlanks(Blanks(MAX_FILES), 0);
  }

  lemma TwoFiles()
    ensures var files := [FileA(), FileB()];
            ValidFiles(files) && FitsTable(files) && Table(files)[0] == HeadRecord(FileA())
  {
    var files := [FileA(), FileB()];
    assert files[0].name != files[1].name;
    assert files[1..] == [FileB()] && files[1..][1..] == [];
    ExtentsLength(FileA());
    ExtentsLength(FileB());
    assert Pack(files) == Extents(FileA()) + (Extents(FileB()) + []);
  }

  /** A byte of the image before the padding belongs to one record. */
  lemma ImageByte(rs: seq<Record>, i: nat, k: nat)
    requires |rs| == MAX_FILES && i < MAX_FILES && k < RECORD_BYTES
    ensures Image(rs)[RECORD_BYTES * i + k] == RecordBytes(rs[i])[k]
  {
    FlattenSlice(rs, i);
    var at := RECORD_BYTES * i;
    var piece := Flatten(rs)[at..at + RECORD_BYTES];
    assert piece[k] == Flatten(rs)[at + k];
  }

  predicate ZeroFrom(s: seq<byte>, n: nat) {
    forall i :: n <= i < |s| ==> s[i] == 0
  }

  lemma OneRecordTail(r: Record)
    requires ZeroFrom(RecordBytes(r), SECTOR)
    ensures ZeroFrom(Image(OneRecord(r)), SECTOR)
  {
    var rs := OneRecord(r);
    var image := Image(rs);
    forall j | SECTOR <= j < |image| ensures image[j] == 0 {
      if j < TABLE_BYTES {
        var i, k := j / RECORD_BYTES, j % RECORD_BYTES;
        ImageByte(rs, i, k);
        if i > 0 { BlankBytes(k); }
      }
    }
  }

  lemma BlankBytes(k: nat)
    requires k < RECORD_BYTES
    ensures RecordBytes(BLANK)[k] == 0
  {
  }

  lemma SmallRecords()
    ensures ZeroFrom(RecordBytes(BAD), SECTOR)
    ensures ValidFile(FileA()) && ZeroFrom(RecordBytes(HeadRecord(FileA())), SECTOR)
  {
    assert FileA().data[..0] == [];
  }

  /** One sector of the new table landed in the damaged one: a table of one file. */
  lemma FragileMixture()
    ensures ValidFile(FileA())
    ensures var files := [FileA(), FileB()];
            && ValidFiles(files) && FitsTable(files)
            && Mixture(Image(OneRecord(BAD)), ImageOf(files), Whole())
  {
    hide HeadRecord, Table, FitsTable, OneRecord, Image, ImageSector, Mixture, ZeroFrom, ValidFiles;
    TwoFiles();
    SmallRecords();
    var files: FileList := [FileA(), FileB()];
    OneRecordTail(BAD);
    OneRecordTail(HeadRecord(FileA()));
    SameStart(OneRecord(HeadRecord(FileA())), Table(files));
    FirstSectorMixes(Image(OneRecord(BAD)), ImageOf(files), Image(OneRecord(HeadRecord(FileA()))));
  }

  lemma FirstSectorMixes(a: seq<byte>, b: seq<byte>, t: seq<byte>)
    requires |a| == IMAGE_BYTES && |b| == IMAGE_BYTES && |t| == IMAGE_BYTES
    requires ImageSector(t, 0) == ImageSector(b, 0) && ZeroFrom(t, SECTOR) && ZeroFrom(a, SECTOR)
    ensures Mixture(a, b, t)
  {
    hide ImageSector, ZeroFrom;
    forall s: nat | s < TABLE_SECTORS ensures ImageSector(t, s) == ImageSector(a, s) || ImageSector(t, s) == ImageSector(b, s) {
      if s > 0 { SameSector(t, a, s); }
    }
  }

  lemma SameSector(t: seq<byte>, a: seq<byte>, s: nat)
    requires |t| == IMAGE_BYTES && |a| == IMAGE_BYTES && ZeroFrom(t, SECTOR) && ZeroFrom(a, SECTOR) && 0 < s < TABLE_SECTORS
    ensures ImageSector(t, s) == ImageSector(a, s)
  {
    var x, y := ImageSector(t, s), ImageSector(a, s);
    forall i | 0 <= i < SECTOR ensures x[i] == y[i] {
      assert x[i] == t[SECTOR * s + i] && y[i] == a[SECTOR * s + i];
    }
  }

  lemma SameStart(x: seq<Record>, y: seq<Record>)
    requires |x| == MAX_FILES && |y| == MAX_FILES && x[0] == y[0]
    ensures ImageSector(Image(x), 0) == ImageSector(Image(y), 0)
  {
    var a, b := ImageSector(Image(x), 0), ImageSector(Image(y), 0);
    forall i | 0 <= i < SECTOR ensures a[i] == b[i] {
      ImageByte(x, 0, i);
      ImageByte(y, 0, i);
    }
  }

  /** Under every checksum, a power cut during an upgrade can show files that are neither the old
      ones nor the new. */
  lemma UpgradeCanFail(h: Checksum) returns (m: Media, files: FileList, m': Media)
    ensures Mount(h, m).Loaded? && Mount(h, m).view.slot == 0 && Mount(h, m).legacyAmbiguous && Recovered(h, m, 0)
    ensures UpgradeCrash(h, m, 0, files, m') && !Mounts(h, m', Shown(h, m, 0)) && !Mounts(h, m', files)
  {
    hide *;
    FragileMount(h);
    FragileMixture();
    FragileStale(h);
    FragileSlots(h);
    OneFileParses(FileA());
    m, files := FragileDisk(h), [FileA(), FileB()];
    assert Other(0) == 1 by { OtherOfZero(); }
    m' := BadUpgrade(h, m, 0, files, Whole());
    OneShown(h, m', [FileA()], []);
    OneShown(h, m', [FileA()], files);
  }

  lemma OtherOfZero()
    ensures Other(0) == 1
  {
  }

  lemma OneShown(h: Checksum, m: Media, a: seq<File>, b: seq<File>)
    requires Mounts(h, m, a)
    ensures a != b ==> !Mounts(h, m, b)
  {
  }

  lemma FragileStale(h: Checksum)
    ensures ValidFile(FileA()) && Stale(h, FragileDisk(h), 0, Whole()) == LegacyParse(OneRecord(HeadRecord(FileA())))
  {
    hide FragileDisk, HeaderBytes, Image, Records, LegacyParse, HeaderOf, OneRecord, Blanks, HeadRecord;
    SmallRecords();
    FragileSlots(h);
    HeaderRoundTrip(LegacyHeader(2, h(Whole())));
    ImageRoundTrip(OneRecord(HeadRecord(FileA())));
  }
}
