/** Crash atomicity of a commit, over single commits and over whole runs of them. */
module FsCrash {
  import opened Bytes
  import opened Options
  import opened FsTable
  import opened FsLegacy
  import opened FsImage
  import opened FsCodec
  import opened FsDisk

  /** The states a power cut can leave during a commit of `image` into `slot`: anywhere in the
      table write, between the two writes, or at the one header sector. */
  ghost predicate CommitCrash(h: Checksum, m: Media, slot: SlotIndex, image: seq<byte>, generation: u32, m': Media)
    requires |image| == IMAGE_BYTES
  {
    || Torn(m, TableByte(slot), image, m')
    || Torn(WithTable(m, slot, image), HeaderByte(slot), NewHeader(h, image, generation), m')
  }

  lemma TornSector(m: Media, at: nat, sector: seq<byte>, m': Media)
    requires |sector| == SECTOR && at + SECTOR <= |m|
    requires Torn(m, at, sector, m')
    ensures m' == m || m' == Splice(m, at, sector)
  {
    assert SectorAt(m', at, 0) == m'[at..at + SECTOR];
    assert sector[0..SECTOR] == sector;
    assert SECTOR * 0 + SECTOR <= |sector|;
    if SectorAt(m', at, 0) == SectorAt(m, at, 0) {
      assert m'[at..at + SECTOR] == m[at..at + SECTOR];
      forall i | 0 <= i < |m| ensures m'[i] == m[i] {
        if at <= i < at + SECTOR {
          assert m'[i] == m'[at..at + SECTOR][i - at];
        }
      }
      assert m' == m;
    } else {
      forall i | 0 <= i < |m| ensures m'[i] == Splice(m, at, sector)[i] {
        if at <= i < at + SECTOR {
          assert m'[i] == m'[at..at + SECTOR][i - at];
        }
      }
      assert m' == Splice(m, at, sector);
    }
  }

  lemma WithTableTouchesOneSlot(m: Media, slot: SlotIndex, image: seq<byte>)
    requires |image| == IMAGE_BYTES
    ensures OnlyTableOf(m, WithTable(m, slot, image), slot)
  {
    SpliceReads(m, TableByte(slot), image);
  }

  /** Every crash state is either pre-header, differing at most in the target's table,
      or the completed commit. */
  lemma CrashCases(h: Checksum, m: Media, slot: SlotIndex, image: seq<byte>, generation: u32, m': Media)
    requires |image| == IMAGE_BYTES
    requires CommitCrash(h, m, slot, image, generation, m')
    ensures OnlyTableOf(m, m', slot) || m' == Published(h, m, slot, image, generation)
  {
    hide NewHeader;
    if Torn(m, TableByte(slot), image, m') {
      TornTableTouchesOneSlot(m, slot, image, m');
    } else {
      TornSector(WithTable(m, slot, image), HeaderByte(slot), NewHeader(h, image, generation), m');
      WithTableTouchesOneSlot(m, slot, image);
    }
  }

  /** What a trusted mount says about the two slots. */
  lemma TrustedMount(h: Checksum, m: Media)
    requires Mount(h, m).Loaded? && Mount(h, m).trust == Trusted
    ensures var v := Mount(h, m).view;
            && Preferred(h, m) == v.slot && Loads(h, m, v.slot)
            && v.generation == Generation(HeaderAt(m, v.slot))
            && !StrayHeader(h, m, 0) && !StrayHeader(h, m, 1)
  {
    hide HeaderValid, HeaderOf, LoadSlot, AllZero, Newer, Ambiguous;
  }

  /** Crash atomicity: from a trusted mount, a power cut at any point of a commit makes the next
      boot mount exactly the old view or exactly the new files; the old active slot is not written. */
  lemma CommitIsCrashAtomic(h: Checksum, m: Media, files: seq<File>, m': Media)
    requires Mount(h, m).Loaded? && Mount(h, m).trust == Trusted
    requires ValidFiles(files) && FitsTable(files)
    requires var v := Mount(h, m).view;
             CommitCrash(h, m, Other(v.slot), Image(Table(files)), NextGeneration(v.generation), m')
    ensures |files| <= MAX_FILES
    ensures var v := Mount(h, m).view;
            && Mount(h, m').Loaded?
            && (|| Mount(h, m').view == v
                || Mount(h, m') == Loaded(View(Other(v.slot), NextGeneration(v.generation), DISK_VERSION,
                                               Mounted(files)), Trusted, false))
            && HeaderSector(m', v.slot) == HeaderSector(m, v.slot)
            && TableImage(m', v.slot) == TableImage(m, v.slot)
  {
    hide Mount, CommitCrash, Preferred, LoadSlot, HeaderValid, Published, StrayHeader;
    var v := Mount(h, m).view;
    var slot := Other(v.slot);
    var image := Image(Table(files));
    var next := NextGeneration(v.generation);
    TrustedMount(h, m);
    CrashCases(h, m, slot, image, next, m');
    PublishedMounts(h, m, slot, files, v.generation);
    if OnlyTableOf(m, m', slot) {
      InactiveTableIsIrrelevant(h, m, m', slot);
    } else {
      PublishedSlots(h, m, slot, image, next);
    }
  }

  // --------------------------------------------------------------------------------------
  // Runs

  /** A file list the volume may commit. */
  type FileList = files: seq<File> | ValidFiles(files) && FitsTable(files) witness []

  function ImageOf(files: FileList): (s: seq<byte>)
    ensures |s| == IMAGE_BYTES
  {
    Image(Table(files))
  }

  /** The disk after committing each of `lists` in turn, alternating slots and counting
      generations modulo 2^32. */
  ghost function AfterCommits(h: Checksum, m: Media, slot: SlotIndex, g: u32, lists: seq<FileList>): Media
    decreases |lists|
  {
    if lists == [] then m
    else
      var last := |lists| - 1;
      Published(h, AfterCommits(h, m, slot, g, lists[..last]),
                SlotAfter(slot, |lists|), ImageOf(lists[last]), GenerationAfter(g, |lists|))
  }

  function SlotAfter(slot: SlotIndex, commits: nat): SlotIndex {
    if commits % 2 == 0 then slot else Other(slot)
  }

  function GenerationAfter(g: u32, commits: nat): u32 {
    (g + commits) % U32_MODULUS
  }

  lemma NextInRun(slot: SlotIndex, g: u32, commits: nat)
    ensures SlotAfter(slot, commits + 1) == Other(SlotAfter(slot, commits))
    ensures GenerationAfter(g, commits + 1) == NextGeneration(GenerationAfter(g, commits))
  {
  }

  /** The outcome of a boot that trusts `files`, committed as generation `g` of `slot`. */
  ghost predicate TrustsCommit(h: Checksum, m: Media, slot: SlotIndex, g: u32, files: seq<File>) {
    && |files| <= MAX_FILES
    && Mount(h, m) == Loaded(View(slot, g, DISK_VERSION, Mounted(files)), Trusted, false)
  }

  lemma CommitOnTrusted(h: Checksum, m: Media, slot: SlotIndex, g: u32, files: FileList)
    requires Mount(h, m).Loaded? && Mount(h, m).trust == Trusted
    requires Mount(h, m).view.slot == slot && Mount(h, m).view.generation == g
    ensures TrustsCommit(h, Published(h, m, Other(slot), ImageOf(files), NextGeneration(g)),
                         Other(slot), NextGeneration(g), files)
  {
    hide Mount, Published, Preferred, HeaderValid, AllZero, LoadSlot;
    TrustedMount(h, m);
    PublishedMounts(h, m, Other(slot), files, g);
  }

  /** After any number of commits from a trusted mount the next boot trusts the last list. */
  lemma {:induction false} RunMountsLastCommit(h: Checksum, m: Media, lists: seq<FileList>)
    requires Mount(h, m).Loaded? && Mount(h, m).trust == Trusted
    requires lists != []
    ensures var v := Mount(h, m).view;
            TrustsCommit(h, AfterCommits(h, m, v.slot, v.generation, lists), SlotAfter(v.slot, |lists|),
                         GenerationAfter(v.generation, |lists|), lists[|lists| - 1])
    decreases |lists|
  {
    hide Mount, Published, Mounted, Other, NextGeneration, ImageOf;
    var v := Mount(h, m).view;
    var last := |lists| - 1;
    var before := AfterCommits(h, m, v.slot, v.generation, lists[..last]);
    if last > 0 {
      RunMountsLastCommit(h, m, lists[..last]);
    }
    NextInRun(v.slot, v.generation, last);
    CommitOnTrusted(h, before, SlotAfter(v.slot, last), GenerationAfter(v.generation, last), lists[last]);
  }

  /** Whole runs: after any commits from a trusted mount, a power cut during one more commit
      leaves the last committed list or the one being committed. */
  lemma RunIsCrashAtomic(h: Checksum, m: Media, lists: seq<FileList>, files: FileList, m': Media)
    requires Mount(h, m).Loaded? && Mount(h, m).trust == Trusted
    requires lists != []
    requires var v := Mount(h, m).view;
             CommitCrash(h, AfterCommits(h, m, v.slot, v.generation, lists), SlotAfter(v.slot, |lists| + 1),
                         ImageOf(files), GenerationAfter(v.generation, |lists| + 1), m')
    ensures Mounts(h, m', lists[|lists| - 1]) || Mounts(h, m', files)
  {
    hide Mount, CommitCrash, AfterCommits, Mounted, Other, NextGeneration, Table, Image;
    var v := Mount(h, m).view;
    RunMountsLastCommit(h, m, lists);
    NextInRun(v.slot, v.generation, |lists|);
    CommitIsCrashAtomic(h, AfterCommits(h, m, v.slot, v.generation, lists), files, m');
    LiveOfMounted(Mounted(lists[|lists| - 1]), lists[|lists| - 1]);
    LiveOfMounted(Mounted(files), files);
  }

  // --------------------------------------------------------------------------------------
  // Runs of commits, power cuts and reboots

  ghost predicate Trusts(h: Checksum, m: Media) {
    Mount(h, m).Loaded? && Mount(h, m).trust == Trusted
  }

  /** Two slots that no rule puts in order: trusted only while their tables agree. */
  ghost predicate Twin(h: Checksum, m: Media) {
    BothLegacy(h, m) || (BothProtected(h, m) && SameGeneration(m))
  }

  /** A commit of `files` on a mounted disk, cut short at any point or not at all. */
  ghost predicate CutCommit(h: Checksum, m: Media, files: FileList, m': Media)
    requires Trusts(h, m)
  {
    var v := Mount(h, m).view;
    CommitCrash(h, m, Other(v.slot), ImageOf(files), NextGeneration(v.generation), m')
  }

  lemma TornTrust(h: Checksum, m: Media, m': Media)
    requires Trusts(h, m) && OnlyTableOf(m, m', Other(Mount(h, m).view.slot))
    ensures Mount(h, m').Loaded? && Mount(h, m').view == Mount(h, m).view && Twin(h, m') == Twin(h, m)
    ensures var target := Other(Mount(h, m).view.slot);
            Trusts(h, m') <==> !Twin(h, m) || TableImage(m', target) == TableImage(m, target)
  {
    hide HeaderValid, HeaderOf, LoadImage, AllZero, Newer;
    assert Other(0) == 1 && Other(1) == 0;
  }

  lemma PublishedIsNoTwin(h: Checksum, m: Media, slot: SlotIndex, image: seq<byte>, g: u32)
    requires |image| == IMAGE_BYTES && (ValidAt(h, m, Other(slot)) ==> Generation(HeaderAt(m, Other(slot))) == g)
    ensures !Twin(h, Published(h, m, slot, image, NextGeneration(g)))
  {
    hide HeaderValid, HeaderOf, Published, NewHeader;
    PublishedSlots(h, m, slot, image, NextGeneration(g));
    NewHeaderReads(h, image, NextGeneration(g));
    NextIsNewer(g);
    assert Other(0) == 1 && Other(1) == 0;
  }

  /** After a power cut the disk is still trusted, unless the slots were twins and their tables now
      differ. */
  lemma TrustAfterCut(h: Checksum, m: Media, files: FileList, m': Media)
    requires Trusts(h, m) && CutCommit(h, m, files, m')
    ensures var v := Mount(h, m).view;
            var after := Published(h, m, Other(v.slot), ImageOf(files), NextGeneration(v.generation));
            && (Trusts(h, m') <==> m' == after || !Twin(h, m) || TableImage(m', Other(v.slot)) == TableImage(m, Other(v.slot)))
            && (m' == after ==> !Twin(h, m')) && (m' != after ==> Twin(h, m') == Twin(h, m))
            && (Mounts(h, m', Live(v.slots)) || Mounts(h, m', files))
  {
    hide Mount, CommitCrash, Published, Twin, TableImage, ImageOf, OnlyTableOf;
    var v := Mount(h, m).view;
    TrustedMount(h, m);
    CrashCases(h, m, Other(v.slot), ImageOf(files), NextGeneration(v.generation), m');
    CommitOnTrusted(h, m, v.slot, v.generation, files);
    LiveOfMounted(Mounted(files), files);
    PublishedIsNoTwin(h, m, Other(v.slot), ImageOf(files), v.generation);
    if OnlyTableOf(m, m', Other(v.slot)) {
      TornTrust(h, m, m');
    }
  }

  /** Each disk follows from the one before by a commit that may have been cut short; whoever
      commits next has booted from what was left. */
  ghost predicate CrashRun(h: Checksum, ms: seq<Media>, lists: seq<FileList>) {
    && |ms| == |lists| + 1
    && forall i :: 0 <= i < |lists| ==> Trusts(h, ms[i]) ==> CutCommit(h, ms[i], lists[i], ms[i + 1])
  }

  /** Over any run of commits, power cuts and reboots, in any order, every boot trusts the disk and
      shows what the boot before showed or what was being committed then. */
  lemma {:induction false} RunWithCuts(h: Checksum, ms: seq<Media>, lists: seq<FileList>, i: nat)
    requires CrashRun(h, ms, lists) && Trusts(h, ms[0]) && !Twin(h, ms[0]) && i < |ms|
    ensures Trusts(h, ms[i]) && !Twin(h, ms[i])
    ensures i > 0 ==> Trusts(h, ms[i - 1]) && (Mounts(h, ms[i], Live(Mount(h, ms[i - 1]).view.slots)) || Mounts(h, ms[i], lists[i - 1]))
    decreases i
  {
    hide Mount, Twin, CutCommit;
    if i > 0 {
      RunWithCuts(h, ms, lists, i - 1);
      TrustAfterCut(h, ms[i - 1], lists[i - 1], ms[i]);
    }
  }

  // --------------------------------------------------------------------------------------
  // The first format

  lemma SlotsDetermineMedia(m: Media, m': Media)
    requires HeaderSector(m, 0) == HeaderSector(m', 0) && HeaderSector(m, 1) == HeaderSector(m', 1)
    requires TableImage(m, 0) == TableImage(m', 0) && TableImage(m, 1) == TableImage(m', 1)
    ensures m == m'
  {
    assert m == HeaderSector(m, 0) + TableImage(m, 0) + HeaderSector(m, 1) + TableImage(m, 1);
    assert m' == HeaderSector(m', 0) + TableImage(m', 0) + HeaderSector(m', 1) + TableImage(m', 1);
  }

  /** A write that is cut short at its very end has landed. */
  lemma SpliceIsTorn(m: Media, at: nat, data: seq<byte>)
    requires at + |data| <= |m|
    ensures Torn(m, at, data, Splice(m, at, data))
  {
    var m' := Splice(m, at, data);
    forall s: nat | SECTOR * s + SECTOR <= |data| ensures SectorAt(m', at, s) == data[SECTOR * s..SECTOR * s + SECTOR] {
    }
  }

  lemma TornSelf(m: Media, at: nat, data: seq<byte>)
    requires at + |data| <= |m|
    ensures Torn(m, at, data, m)
  {
  }

  lemma {:induction false} BlanksAreZero(n: nat)
    ensures AllZero(Flatten(Blanks(n)))
  {
    if n > 0 {
      BlanksAreZero(n - 1);
      assert Blanks(n)[1..] == Blanks(n - 1);
      assert AllZero(RecordBytes(BLANK));
    }
  }

  /** The table of an empty volume is all zero, and no other is. */
  lemma ImageIsZeroIff(files: seq<File>)
    requires ValidFiles(files) && FitsTable(files)
    ensures AllZero(Image(Table(files))) <==> files == []
  {
    var image := Image(Table(files));
    if files == [] {
      assert Table(files) == Blanks(MAX_FILES);
      BlanksAreZero(MAX_FILES);
    } else {
      assert Table(files)[0] == HeadRecord(files[0]);
      assert image[0] == Flatten(Table(files))[0] == RecordBytes(Table(files)[0])[0] == HEAD;
    }
  }

  /** A table under a blank header. */
  lemma TableWithoutHeader(h: Checksum, m: Media, m': Media)
    requires Mount(h, m) == Blank && OnlyTableOf(m, m', 0)
    ensures Mount(h, m') == if AllZero(TableImage(m', 0)) then Blank else Corrupt
  {
    hide HeaderValid, HeaderOf, LoadImage, AllZero, Newer, LegacyAmbiguous, ProtectedAmbiguous;
  }

  /** What a power cut during a format leaves: a blank disk, the new files, or a disk that is
      refused as corrupt from then on. */
  lemma FormatCrashCases(h: Checksum, m: Media, files: FileList, m': Media)
    requires Mount(h, m) == Blank && CommitCrash(h, m, 0, ImageOf(files), 1, m')
    ensures Mount(h, m') == Blank || Mount(h, m') == Corrupt || Mounts(h, m', files)
    ensures files == [] ==> Mount(h, m') == Blank || Mounts(h, m', files)
  {
    hide Mount, CommitCrash, Published, NewHeader, StrayHeader, ValidAt, AllZero, Torn, Table, Image, Mounted;
    BlankDisk(h, m);
    CrashCases(h, m, 0, ImageOf(files), 1, m');
    PublishedMounts(h, m, 0, files, 0);
    LiveOfMounted(Mounted(files), files);
    if OnlyTableOf(m, m', 0) {
      TableWithoutHeader(h, m, m');
      if files == [] {
        ImageIsZeroIff(files);
        TornOfZero(h, m, ImageOf(files), m');
      }
    }
  }

  lemma BlankDisk(h: Checksum, m: Media)
    requires Mount(h, m) == Blank
    ensures !ValidAt(h, m, 0) && !ValidAt(h, m, 1) && !StrayHeader(h, m, 0) && !StrayHeader(h, m, 1)
    ensures AllZero(TableImage(m, 0)) && AllZero(TableImage(m, 1))
  {
    hide HeaderValid, HeaderOf, LoadImage, AllZero, Ambiguous, FirstOf;
  }

  /** Writing zeros over zeros leaves zeros, however it is cut. */
  lemma TornOfZero(h: Checksum, m: Media, image: seq<byte>, m': Media)
    requires |image| == IMAGE_BYTES && AllZero(image) && AllZero(TableImage(m, 0))
    requires CommitCrash(h, m, 0, image, 1, m') && OnlyTableOf(m, m', 0)
    ensures AllZero(TableImage(m', 0)) || m' == Published(h, m, 0, image, 1)
  {
    hide NewHeader;
    if Torn(m, TableByte(0), image, m') {
      TornIsMixture(m, 0, image, m');
      MixtureOfZeros(TableImage(m, 0), image, TableImage(m', 0));
    } else {
      TornSector(WithTable(m, 0, image), HeaderByte(0), NewHeader(h, image, 1), m');
      SpliceReads(m, TableByte(0), image);
      assert TableImage(WithTable(m, 0, image), 0) == image;
    }
  }

  /** The table of a new volume under the old blank header: nothing mounts. */
  lemma TornFormat(h: Checksum, m: Media, files: FileList) returns (m': Media)
    requires Mount(h, m) == Blank && files != []
    ensures CommitCrash(h, m, 0, ImageOf(files), 1, m') && Mount(h, m') == Corrupt
  {
    hide Mount, NewHeader, Table, Image, AllZero;
    m' := WithTable(m, 0, ImageOf(files));
    SpliceIsTorn(m, TableByte(0), ImageOf(files));
    WithTableTouchesOneSlot(m, 0, ImageOf(files));
    SpliceReads(m, TableByte(0), ImageOf(files));
    assert TableImage(m', 0) == ImageOf(files);
    ImageIsZeroIff(files);
    TableWithoutHeader(h, m, m');
  }

  /** A format is crash-atomic exactly when there is nothing to put on the disk. */
  lemma FormatIsAtomicIff(h: Checksum, m: Media, files: FileList)
    requires Mount(h, m) == Blank
    ensures (forall m': Media :: CommitCrash(h, m, 0, ImageOf(files), 1, m') ==> Mount(h, m') == Blank || Mounts(h, m', files))
       <==> files == []
  {
    hide Mount, CommitCrash, ImageOf;
    if files == [] {
      forall m': Media | CommitCrash(h, m, 0, ImageOf(files), 1, m') ensures Mount(h, m') == Blank || Mounts(h, m', files) {
        FormatCrashCases(h, m, files, m');
      }
    } else {
      var m' := TornFormat(h, m, files);
    }
  }

  // --------------------------------------------------------------------------------------
  // Tables torn between an old and a new image

  ghost function ImageSector(t: seq<byte>, s: nat): seq<byte>
    requires |t| == IMAGE_BYTES
  {
    if s < TABLE_SECTORS then t[SECTOR * s..SECTOR * s + SECTOR] else []
  }

  /** Every sector is one of the two. */
  ghost predicate Mixture(a: seq<byte>, b: seq<byte>, t: seq<byte>)
    requires |a| == IMAGE_BYTES && |b| == IMAGE_BYTES
  {
    && |t| == IMAGE_BYTES
    && forall s: nat :: s < TABLE_SECTORS ==> ImageSector(t, s) == ImageSector(a, s) || ImageSector(t, s) == ImageSector(b, s)
  }

  lemma SectorOfTable(m: Media, slot: SlotIndex, s: nat)
    requires s < TABLE_SECTORS
    ensures SectorAt(m, TableByte(slot), s) == ImageSector(TableImage(m, slot), s)
  {
    var a, b := SectorAt(m, TableByte(slot), s), ImageSector(TableImage(m, slot), s);
    assert |a| == |b| == SECTOR;
    var t := TableImage(m, slot);
    forall i | 0 <= i < SECTOR ensures a[i] == b[i] {
      assert b[i] == t[SECTOR * s + i] == m[TableByte(slot) + SECTOR * s + i];
    }
  }

  lemma TornIsMixture(m: Media, slot: SlotIndex, image: seq<byte>, m': Media)
    requires |image| == IMAGE_BYTES && Torn(m, TableByte(slot), image, m')
    ensures Mixture(TableImage(m, slot), image, TableImage(m', slot))
  {
    hide TableImage, ImageSector, SectorAt;
    forall s: nat | s < TABLE_SECTORS
      ensures || ImageSector(TableImage(m', slot), s) == ImageSector(TableImage(m, slot), s)
              || ImageSector(TableImage(m', slot), s) == ImageSector(image, s)
    {
      SectorOfTable(m, slot, s);
      SectorOfTable(m', slot, s);
      SectorOfImage(image, s);
      assert SECTOR * s + SECTOR <= |image|;
    }
  }

  lemma SectorOfImage(image: seq<byte>, s: nat)
    requires |image| == IMAGE_BYTES && s < TABLE_SECTORS
    ensures ImageSector(image, s) == image[SECTOR * s..SECTOR * s + SECTOR]
  {
  }

  lemma MixtureIsTorn(m: Media, slot: SlotIndex, image: seq<byte>, t: seq<byte>)
    requires |image| == IMAGE_BYTES && Mixture(TableImage(m, slot), image, t)
    ensures Torn(m, TableByte(slot), image, WithTable(m, slot, t))
    ensures OnlyTableOf(m, WithTable(m, slot, t), slot) && TableImage(WithTable(m, slot, t), slot) == t
  {
    var m' := WithTable(m, slot, t);
    WithTableTouchesOneSlot(m, slot, t);
    SpliceReads(m, TableByte(slot), t);
    assert TableImage(m', slot) == t;
    MixtureSectors(m, slot, image, m');
  }

  lemma MixtureSectors(m: Media, slot: SlotIndex, image: seq<byte>, m': Media)
    requires |image| == IMAGE_BYTES && Mixture(TableImage(m, slot), image, TableImage(m', slot))
    requires forall i :: 0 <= i < TableByte(slot) || TableByte(slot) + IMAGE_BYTES <= i < |m| ==> m'[i] == m[i]
    ensures Torn(m, TableByte(slot), image, m')
  {
    hide TableImage, ImageSector, SectorAt, TableByte;
    forall s: nat | SECTOR * s + SECTOR <= |image|
      ensures || SectorAt(m', TableByte(slot), s) == SectorAt(m, TableByte(slot), s)
              || SectorAt(m', TableByte(slot), s) == image[SECTOR * s..SECTOR * s + SECTOR]
    {
      assert s < TABLE_SECTORS;
      SectorOfTable(m, slot, s);
      SectorOfTable(m', slot, s);
      SectorOfImage(image, s);
    }
  }

  lemma MixtureOfZeros(a: seq<byte>, b: seq<byte>, t: seq<byte>)
    requires |a| == IMAGE_BYTES && |b| == IMAGE_BYTES && Mixture(a, b, t) && AllZero(a) && AllZero(b)
    ensures AllZero(t)
  {
    forall i | 0 <= i < |t| ensures t[i] == 0 {
      var s := i / SECTOR;
      assert t[i] == ImageSector(t, s)[i - SECTOR * s];
      assert a[i] == ImageSector(a, s)[i - SECTOR * s] && b[i] == ImageSector(b, s)[i - SECTOR * s];
    }
  }
}
