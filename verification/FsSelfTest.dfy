/** The default files of a new volume, and what the self test after a format may leave beside
    them. */
module FsSelfTest {
  import opened Bytes
  import opened FsTable
  import opened FsLegacy
  import opened FsCodec
  import opened FsContents
  import opened FsNames
  import opened FsRecovery
  import opened FsDisk

  /** The bytes of the files fs_init puts on a new volume: one extent each. */
  datatype Defaults = Defaults(readme: seq<byte>, motd: seq<byte>, colors: seq<byte>, picture: seq<byte>) {
    predicate Ok() {
      |readme| <= DATA_BYTES && |motd| <= DATA_BYTES && |colors| <= DATA_BYTES && |picture| <= DATA_BYTES
    }

    function Files(): (files: seq<File>)
      ensures |files| == 4
    {
      [File(Text("readme.txt"), readme), File(Text("motd.txt"), motd), File(Text("colors.map"), colors), File(PictureName(), picture)]
    }
  }

  lemma DefaultNames()
    ensures ValidName(Text("readme.txt")) && ValidName(Text("motd.txt")) && ValidName(Text("colors.map")) && ValidName(PictureName())
    ensures Text("readme.txt")[0] == 114 && Text("motd.txt")[0] == 109 && Text("colors.map")[0] == 99 && PictureName()[0] == 110
  {
    assert NameText("readme.txt") && NameText("motd.txt") && NameText("colors.map");
    NameTextBytes("readme.txt");
    NameTextBytes("motd.txt");
    NameTextBytes("colors.map");
    PictureNameIsValid();
  }

  lemma DefaultFilesOk(d: Defaults)
    requires d.Ok()
    ensures ValidFiles(d.Files())
    ensures forall i :: 0 <= i < 4 ==> |d.Files()[i].data| <= DATA_BYTES && !SelfTestName(d.Files()[i].name)
  {
    hide Text, ValidName, PictureName;
    DefaultNames();
    TestNames();
  }

  const PAYLOAD: seq<byte> := [0x42, 0x00, 0x4D, 0xFF]

  function Scratch(): seq<byte> { Text("__fs_self_test__") }

  function Second(): seq<byte> { Text("__fs_self_renamed__") }

  lemma TestNames()
    ensures Scratch() != Second() && SelfTestName(Scratch()) && SelfTestName(Second())
    ensures forall name :: SelfTestName(name) ==> name != [] && name[0] == 95
    ensures !SystemLog(Scratch()) && !SystemLog(Second()) && !SystemManaged(Scratch()) && !SystemManaged(Second())
    ensures ValidName(Scratch()) && ValidName(Second())
  {
    assert Scratch()[0] == 95 && Second()[0] == 95 && Text("system.log")[0] == 115;
    TestNameBytes();
    ManagedNames();
  }

  lemma ManagedNames()
    ensures forall name :: SystemManaged(name) ==> name != [] && name[0] != 95
  {
    assert Text("hello.elf")[0] == 104 && Text("fault-probe.elf")[0] == 102 && Text("hang-probe.elf")[0] == 104;
    assert Text("rflags-probe.elf")[0] == 114 && Text("stack-probe.elf")[0] == 115 && Text("calculator.elf")[0] == 99;
    assert Text("notepad.elf")[0] == 110 && Text("image-viewer.elf")[0] == 105 && Text("ai-assistant.elf")[0] == 97;
    assert Text("browser.elf")[0] == 98 && Text("system-apps.db")[0] == 115;
  }

  predicate TestText(s: string) {
    forall c :: c in s ==> 'a' <= c <= 'z' || c == '_'
  }

  lemma TestNameBytes()
    ensures ValidName(Scratch()) && ValidName(Second())
  {
    assert TestText("__fs_self_test__") && TestText("__fs_self_renamed__");
    TestTextBytes("__fs_self_test__");
    TestTextBytes("__fs_self_renamed__");
  }

  lemma TestTextBytes(s: string)
    requires TestText(s)
    ensures forall i :: 0 <= i < |s| ==> NameByte(Text(s)[i])
  {
    forall i | 0 <= i < |s| ensures NameByte(Text(s)[i]) {
      assert s[i] in s;
    }
  }

  // --------------------------------------------------------------------------------------
  // The files a user sees, whatever the self test has left

  type Map = map<seq<byte>, seq<byte>>

  /** `base`, and nothing more than files of the self test. */
  ghost predicate Beside(base: Map, c: Map) {
    && (forall n :: n in base ==> n in c && c[n] == base[n])
    && forall n :: n in c && n !in base ==> SelfTestArtifact(File(n, c[n]))
  }

  ghost predicate NoTestNames(base: Map) {
    forall n :: n in base ==> !SelfTestName(n)
  }

  ghost function Base(d: Defaults): Map {
    Contents(Mounted(d.Files()))
  }

  /** The next boot shows the default files, and perhaps a file of the self test, which that boot
      moves to a recovery name. */
  ghost predicate ShowsDefaults(h: Checksum, m: Media, d: Defaults) {
    Mount(h, m).Loaded? && Beside(Base(d), Contents(Mount(h, m).view.slots))
  }

  lemma ShowsFrom(h: Checksum, m: Media, slots: seq<Slot>, d: Defaults)
    requires DistinctSlots(slots) && Beside(Base(d), Contents(slots)) && Mounts(h, m, Live(slots))
    ensures ShowsDefaults(h, m, d)
  {
    hide Mount, Base, Beside, Contents, DistinctSlots;
    SameLive(slots, Mount(h, m).view.slots);
  }

  lemma BesideSelf(base: Map)
    ensures Beside(base, base)
  {
  }

  lemma BesideWrite(base: Map, c: Map)
    requires Beside(base, c) && NoTestNames(base)
    ensures Beside(base, c[Scratch() := PAYLOAD])
  {
    hide Scratch, SelfTestName;
    TestNames();
  }

  lemma BesideRename(base: Map, c: Map)
    requires Beside(base, c) && NoTestNames(base) && Scratch() in c
    ensures Beside(base, (c - {Scratch()})[Second() := c[Scratch()]])
  {
    hide Scratch, Second, SelfTestName;
    TestNames();
  }

  lemma BesideRemove(base: Map, c: Map)
    requires Beside(base, c) && NoTestNames(base)
    ensures Beside(base, c - {Second()})
  {
    hide Scratch, Second, SelfTestName;
    TestNames();
  }

  lemma BesideIsSmall(base: Map, slots: seq<Slot>)
    requires DistinctSlots(slots) && Beside(base, Contents(slots))
    requires forall n :: n in base ==> |base[n]| <= DATA_BYTES
    ensures Small(slots)
  {
    hide SelfTestName;
    forall i | 0 <= i < |slots| && slots[i].Used? ensures |slots[i].file.data| <= DATA_BYTES {
      InNameSet(slots, i);
    }
  }

  lemma BaseFacts(d: Defaults)
    requires d.Ok()
    ensures |d.Files()| <= MAX_FILES && DistinctSlots(Mounted(d.Files())) && Live(Mounted(d.Files())) == d.Files()
    ensures NoTestNames(Base(d)) && forall n :: n in Base(d) ==> |Base(d)[n]| <= DATA_BYTES
  {
    hide SelfTestName, Defaults.Files;
    var slots := Mounted(d.Files());
    DefaultFilesOk(d);
    LiveOfMounted(slots, d.Files());
    ValidFilesGiveSlots(slots);
    forall n | n in Base(d) ensures !SelfTestName(n) && |Base(d)[n]| <= DATA_BYTES {
      var i: nat :| i < |slots| && slots[i].Used? && slots[i].file.name == n;
      InNameSet(slots, i);
      assert i < 4 && slots[i].file == d.Files()[i];
    }
  }
}
