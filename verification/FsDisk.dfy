/** The two-slot disk area of kernel/fs.c: header sectors, slot selection by serial-number
    order, the mount decision, and what a power cut can leave behind. Every statement holds
    for any checksum function, so none of them rests on collision resistance. */
module FsDisk {
  import opened Bytes
  import opened Options
  import opened FsTable
  import opened FsLegacy
  import opened FsImage
  import opened FsCodec

  const MAGIC: u32 := 0xBA5EBA11
  const INTEGRITY_VERSION: u32 := 4
  const DISK_VERSION: u32 := 5
  const SLOT_SECTORS: nat := 68
  const SLOT_BYTES: nat := 34816
  const HALF_RANGE: int := 0x8000_0000

  type Checksum = seq<byte> -> u32
  type Media = m: seq<byte> | |m| == 69632 witness Zeros(69632)
  type SlotIndex = s: int | 0 <= s < 2

  function HeaderSector(m: Media, slot: SlotIndex): (s: seq<byte>)
    ensures |s| == SECTOR
  {
    m[slot * SLOT_BYTES..slot * SLOT_BYTES + SECTOR]
  }

  function TableImage(m: Media, slot: SlotIndex): (s: seq<byte>)
    ensures |s| == IMAGE_BYTES
  {
    m[slot * SLOT_BYTES + SECTOR..slot * SLOT_BYTES + SLOT_BYTES]
  }

  // --------------------------------------------------------------------------------------
  // Header sectors

  datatype Header = Header(magic: u32, version: u32, tableBytes: u32,
                           checksum: u32, generation: u32, headerChecksum: u32)

  function HeaderOf(sector: seq<byte>): Header
    requires |sector| == SECTOR
  {
    Header(ReadU32Le(sector, 0), ReadU32Le(sector, 4), ReadU32Le(sector, 8),
           ReadU32Le(sector, 12), ReadU32Le(sector, 16), ReadU32Le(sector, 20))
  }

  /** The checksum over a header sector with its own field read as zero. */
  function HeaderSum(h: Checksum, sector: seq<byte>): u32
    requires |sector| == SECTOR
  {
    h(sector[..20] + Zeros(4) + sector[24..])
  }

  predicate HeaderValid(h: Checksum, sector: seq<byte>)
    requires |sector| == SECTOR
  {
    var header := HeaderOf(sector);
    && header.magic == MAGIC
    && 1 <= header.version <= DISK_VERSION
    && header.tableBytes == TABLE_BYTES
    && (header.version < INTEGRITY_VERSION || header.headerChecksum == HeaderSum(h, sector))
  }

  predicate AllZero(s: seq<byte>) {
    forall i :: 0 <= i < |s| ==> s[i] == 0
  }

  function Generation(header: Header): u32 {
    if header.version == 1 then 0 else header.generation
  }

  /** fs_generation_is_newer: serial-number order, section 3.2 of RFC 1982. */
  predicate Newer(lhs: u32, rhs: u32) {
    0 < (lhs - rhs) % U32_MODULUS < HALF_RANGE
  }

  function HeaderBytes(d: Header): (s: seq<byte>)
    ensures |s| == SECTOR
  {
    (U32Le(d.magic) + U32Le(d.version) + U32Le(d.tableBytes))
    + (U32Le(d.checksum) + U32Le(d.generation) + U32Le(d.headerChecksum))
    + Zeros(SECTOR - 24)
  }

  /** The header sector a commit publishes: built with a zero checksum, then sealed. */
  function NewHeader(h: Checksum, image: seq<byte>, generation: u32): (s: seq<byte>)
    ensures |s| == SECTOR
  {
    var unsealed := Header(MAGIC, DISK_VERSION, TABLE_BYTES, h(image), generation, 0);
    HeaderBytes(unsealed.(headerChecksum := HeaderSum(h, HeaderBytes(unsealed))))
  }

  lemma FieldAt(s: seq<byte>, at: nat, v: u32)
    requires at + 4 <= |s|
    requires forall k :: 0 <= k < 4 ==> s[at + k] == U32Le(v)[k]
    ensures ReadU32Le(s, at) == v
  {
    U32LeRoundTrip(v);
    assert s[at + 0] == U32Le(v)[0];
  }

  lemma HeaderRoundTrip(d: Header)
    ensures HeaderOf(HeaderBytes(d)) == d
  {
    hide U32Le;
    var s := HeaderBytes(d);
    FieldAt(s, 0, d.magic);
    FieldAt(s, 4, d.version);
    FieldAt(s, 8, d.tableBytes);
    FieldAt(s, 12, d.checksum);
    FieldAt(s, 16, d.generation);
    FieldAt(s, 20, d.headerChecksum);
  }

  /** The seal does not cover itself. */
  lemma HeaderSumIgnoresSeal(h: Checksum, d: Header, seal: u32)
    ensures HeaderSum(h, HeaderBytes(d.(headerChecksum := seal))) == HeaderSum(h, HeaderBytes(d))
  {
    hide U32Le;
    var a, b := HeaderBytes(d.(headerChecksum := seal)), HeaderBytes(d);
    assert a[..20] == b[..20] && a[24..] == b[24..];
  }

  /** A published header reads back with its own fields and is valid. */
  lemma NewHeaderReads(h: Checksum, image: seq<byte>, generation: u32)
    ensures var s := NewHeader(h, image, generation);
            && HeaderValid(h, s)
            && HeaderOf(s).version == DISK_VERSION
            && HeaderOf(s).checksum == h(image)
            && HeaderOf(s).generation == generation
  {
    hide HeaderBytes, HeaderSum, HeaderOf;
    var unsealed := Header(MAGIC, DISK_VERSION, TABLE_BYTES, h(image), generation, 0);
    var seal := HeaderSum(h, HeaderBytes(unsealed));
    HeaderRoundTrip(unsealed.(headerChecksum := seal));
    HeaderSumIgnoresSeal(h, unsealed, seal);
  }

  // --------------------------------------------------------------------------------------
  // Mounting

  datatype View = View(slot: SlotIndex, generation: u32, version: u32, slots: seq<Slot>)

  datatype Trust = Trusted | AfterIoError | AfterCorruption

  datatype MountResult =
    | Loaded(view: View, trust: Trust, legacyAmbiguous: bool)
    | NoDrive
    | Blank
    | Corrupt
    | IoError

  function HeaderAt(m: Media, slot: SlotIndex): Header {
    HeaderOf(HeaderSector(m, slot))
  }

  predicate ValidAt(h: Checksum, m: Media, slot: SlotIndex) {
    HeaderValid(h, HeaderSector(m, slot))
  }

  predicate Protected(h: Checksum, m: Media, slot: SlotIndex) {
    ProtectedBy(ValidAt(h, m, slot), HeaderAt(m, slot))
  }

  /** The slots a table image mounts under a header; None when it is rejected. */
  function LoadImage(h: Checksum, header: Header, image: seq<byte>): (r: Option<seq<Slot>>)
    requires |image| == IMAGE_BYTES
  {
    if header.checksum != h(image) then None
    else if header.version >= DISK_VERSION then
      match Parse(Records(image))
      case None => None
      case Some(files) => if |files| <= MAX_FILES then Some(Mounted(files)) else None
    else LegacyParse(Records(image))
  }

  function LoadSlot(h: Checksum, m: Media, slot: SlotIndex): Option<seq<Slot>> {
    LoadImage(h, HeaderAt(m, slot), TableImage(m, slot))
  }

  function ViewOf(m: Media, slot: SlotIndex, slots: seq<Slot>): View {
    View(slot, Generation(HeaderAt(m, slot)), HeaderAt(m, slot).version, slots)
  }

  predicate BothLegacy(h: Checksum, m: Media) {
    ValidAt(h, m, 0) && ValidAt(h, m, 1) && !Protected(h, m, 0) && !Protected(h, m, 1)
  }

  predicate BothProtected(h: Checksum, m: Media) {
    Protected(h, m, 0) && Protected(h, m, 1)
  }

  predicate SameGeneration(m: Media) {
    Generation(HeaderAt(m, 0)) == Generation(HeaderAt(m, 1))
  }

  predicate HalfRangeApart(m: Media) {
    (Generation(HeaderAt(m, 0)) - Generation(HeaderAt(m, 1))) % U32_MODULUS == HALF_RANGE
  }

  predicate LegacyAmbiguous(h: Checksum, m: Media) {
    BothLegacy(h, m) && TableImage(m, 0) != TableImage(m, 1)
  }

  predicate ProtectedAmbiguous(h: Checksum, m: Media) {
    && BothProtected(h, m)
    && (HalfRangeApart(m) || (SameGeneration(m) && TableImage(m, 0) != TableImage(m, 1)))
  }

  predicate Ambiguous(h: Checksum, m: Media) {
    LegacyAmbiguous(h, m) || ProtectedAmbiguous(h, m)
  }

  predicate StrayHeader(h: Checksum, m: Media, slot: SlotIndex) {
    !ValidAt(h, m, slot) && !AllZero(HeaderSector(m, slot))
  }

  predicate ProtectedBy(valid: bool, header: Header) {
    valid && header.version >= INTEGRITY_VERSION
  }

  /** The slot to try first, from what was read of the two headers. */
  function FirstOf(valid0: bool, header0: Header, valid1: bool, header1: Header): SlotIndex {
    var protected0 := ProtectedBy(valid0, header0);
    var protected1 := ProtectedBy(valid1, header1);
    if valid1
       && (!valid0
           || (protected1 && !protected0)
           || (protected1 == protected0 && Newer(Generation(header1), Generation(header0))))
    then 1 else 0
  }

  /** The slot tried first. It depends on the header sectors only. */
  function Preferred(h: Checksum, m: Media): SlotIndex {
    FirstOf(ValidAt(h, m, 0), HeaderAt(m, 0), ValidAt(h, m, 1), HeaderAt(m, 1))
  }

  function Other(slot: SlotIndex): SlotIndex { 1 - slot }

  predicate BlankTables(m: Media) {
    AllZero(TableImage(m, 0)) && AllZero(TableImage(m, 1))
  }

  predicate Loads(h: Checksum, m: Media, slot: SlotIndex) {
    ValidAt(h, m, slot) && LoadSlot(h, m, slot).Some?
  }

  function TrustOf(suspect: bool): Trust {
    if suspect then AfterCorruption else Trusted
  }

  /** fs_load_from_disk when every sector can be read. */
  function Mount(h: Checksum, m: Media): MountResult {
    var first := Preferred(h, m);
    var second := Other(first);
    var suspect := StrayHeader(h, m, 0) || StrayHeader(h, m, 1) || Ambiguous(h, m);
    if Loads(h, m, first) then
      Loaded(ViewOf(m, first, LoadSlot(h, m, first).value), TrustOf(suspect), LegacyAmbiguous(h, m))
    else if Loads(h, m, second) then
      Loaded(ViewOf(m, second, LoadSlot(h, m, second).value),
             TrustOf(ValidAt(h, m, first) || suspect), LegacyAmbiguous(h, m))
    else if ValidAt(h, m, 0) || ValidAt(h, m, 1) || StrayHeader(h, m, 0) || StrayHeader(h, m, 1) then Corrupt
    else if !BlankTables(m) then Corrupt
    else Blank
  }

  /** The next boot shows exactly these files. */
  ghost predicate Mounts(h: Checksum, m: Media, files: seq<File>) {
    Mount(h, m).Loaded? && Live(Mount(h, m).view.slots) == files
  }

  // --------------------------------------------------------------------------------------
  // Writing

  function Splice(m: Media, at: nat, data: seq<byte>): Media
    requires at + |data| <= |m|
  {
    m[..at] + data + m[at + |data|..]
  }

  /** `m'` is a state a power cut can leave while `data` is being written at byte `at`:
      each 512-byte sector of the request is still old or already new. */
  ghost predicate Torn(m: Media, at: nat, data: seq<byte>, m': Media)
    requires at + |data| <= |m|
  {
    && (forall i :: 0 <= i < at || at + |data| <= i < |m| ==> m'[i] == m[i])
    && forall s: nat :: SECTOR * s + SECTOR <= |data| ==>
         || SectorAt(m', at, s) == SectorAt(m, at, s)
         || SectorAt(m', at, s) == data[SECTOR * s..SECTOR * s + SECTOR]
  }

  ghost function SectorAt(m: Media, at: nat, s: nat): seq<byte> {
    if at + SECTOR * s + SECTOR <= |m| then m[at + SECTOR * s..at + SECTOR * s + SECTOR] else []
  }

  function HeaderByte(slot: SlotIndex): nat { slot * SLOT_BYTES }

  function TableByte(slot: SlotIndex): nat { slot * SLOT_BYTES + SECTOR }

  function WithTable(m: Media, slot: SlotIndex, image: seq<byte>): Media
    requires |image| == IMAGE_BYTES
  {
    Splice(m, TableByte(slot), image)
  }

  /** The disk after a completed commit of `image` into `slot`. */
  function Published(h: Checksum, m: Media, slot: SlotIndex, image: seq<byte>, generation: u32): Media
    requires |image| == IMAGE_BYTES
  {
    Splice(WithTable(m, slot, image), HeaderByte(slot), NewHeader(h, image, generation))
  }

  /** Outside one slot's table nothing differs. */
  ghost predicate OnlyTableOf(m: Media, m': Media, slot: SlotIndex) {
    && HeaderSector(m', 0) == HeaderSector(m, 0)
    && HeaderSector(m', 1) == HeaderSector(m, 1)
    && TableImage(m', Other(slot)) == TableImage(m, Other(slot))
  }

  lemma TornTableTouchesOneSlot(m: Media, slot: SlotIndex, image: seq<byte>, m': Media)
    requires |image| == IMAGE_BYTES
    requires Torn(m, TableByte(slot), image, m')
    ensures OnlyTableOf(m, m', slot)
  {
  }

  /** Any damage to the inactive table leaves the selected view, and its files, mounted:
      the choice of slot reads headers only. */
  lemma InactiveTableIsIrrelevant(h: Checksum, m: Media, m': Media, slot: SlotIndex)
    requires OnlyTableOf(m, m', slot)
    requires Loads(h, m, Other(slot)) && Preferred(h, m) == Other(slot)
    ensures Mount(h, m').Loaded? && Mount(h, m').view == Mount(h, m).view
  {
  }

  lemma SpliceReads(m: Media, at: nat, data: seq<byte>)
    requires at + |data| <= |m|
    ensures Splice(m, at, data)[at..at + |data|] == data
    ensures forall i :: 0 <= i < at || at + |data| <= i < |m| ==> Splice(m, at, data)[i] == m[i]
  {
  }

  lemma PublishedSlots(h: Checksum, m: Media, slot: SlotIndex, image: seq<byte>, generation: u32)
    requires |image| == IMAGE_BYTES
    ensures var p := Published(h, m, slot, image, generation);
            && HeaderSector(p, slot) == NewHeader(h, image, generation)
            && TableImage(p, slot) == image
            && HeaderSector(p, Other(slot)) == HeaderSector(m, Other(slot))
            && TableImage(p, Other(slot)) == TableImage(m, Other(slot))
  {
    var t := WithTable(m, slot, image);
    SpliceReads(m, TableByte(slot), image);
    SpliceReads(t, HeaderByte(slot), NewHeader(h, image, generation));
    assert TableImage(t, slot) == image;
  }

  function NextGeneration(g: u32): u32 { (g + 1) % U32_MODULUS }

  lemma NextIsNewer(g: u32)
    ensures Newer(NextGeneration(g), g) && !Newer(g, NextGeneration(g))
    ensures NextGeneration(g) != g
    ensures (NextGeneration(g) - g) % U32_MODULUS != HALF_RANGE
    ensures (g - NextGeneration(g)) % U32_MODULUS != HALF_RANGE
  {
  }

  lemma FreshImageLoads(h: Checksum, files: seq<File>, generation: u32)
    requires ValidFiles(files) && FitsTable(files)
    ensures |files| <= MAX_FILES
    ensures var image := Image(Table(files));
            LoadImage(h, HeaderOf(NewHeader(h, image, generation)), image) == Some(Mounted(files))
  {
    var image := Image(Table(files));
    NewHeaderReads(h, image, generation);
    ImageRoundTrip(Table(files));
    TableRoundTrip(files);
    ParsedCount(Table(files), 0);
  }

  /** A slot whose protected generation follows the other slot's is selected without ambiguity. */
  lemma SuccessorSelected(h: Checksum, p: Media, slot: SlotIndex, g: u32)
    requires Protected(h, p, slot)
    requires Generation(HeaderAt(p, slot)) == NextGeneration(g)
    requires ValidAt(h, p, Other(slot)) ==> Generation(HeaderAt(p, Other(slot))) == g
    requires !StrayHeader(h, p, Other(slot))
    ensures Preferred(h, p) == slot
    ensures !Ambiguous(h, p)
    ensures !StrayHeader(h, p, 0) && !StrayHeader(h, p, 1)
  {
    hide HeaderValid, HeaderOf, AllZero;
    NextIsNewer(g);
    assert Other(0) == 1 && Other(1) == 0;
  }

  lemma SelectedMounts(h: Checksum, p: Media, slot: SlotIndex)
    requires Preferred(h, p) == slot && Loads(h, p, slot)
    requires !Ambiguous(h, p) && !StrayHeader(h, p, 0) && !StrayHeader(h, p, 1)
    ensures Mount(h, p) == Loaded(ViewOf(p, slot, LoadSlot(h, p, slot).value), Trusted, false)
  {
    hide Preferred, Loads, StrayHeader, LoadSlot, ViewOf;
  }

  /** A published commit is the slot the next boot selects and trusts, for every generation
      including the wrap to zero, and whether the previous slot was legacy or protected. */
  lemma PublishedMounts(h: Checksum, m: Media, slot: SlotIndex, files: seq<File>, g: u32)
    requires ValidFiles(files) && FitsTable(files)
    requires ValidAt(h, m, Other(slot)) ==> Generation(HeaderAt(m, Other(slot))) == g
    requires !StrayHeader(h, m, Other(slot))
    ensures |files| <= MAX_FILES
    ensures Mount(h, Published(h, m, slot, Image(Table(files)), NextGeneration(g)))
         == Loaded(View(slot, NextGeneration(g), DISK_VERSION, Mounted(files)), Trusted, false)
  {
    hide Mount, Published, NewHeader, LoadImage, HeaderValid, Preferred, Ambiguous;
    var image := Image(Table(files));
    var p := Published(h, m, slot, image, NextGeneration(g));
    PublishedSlots(h, m, slot, image, NextGeneration(g));
    NewHeaderReads(h, image, NextGeneration(g));
    FreshImageLoads(h, files, NextGeneration(g));
    SuccessorSelected(h, p, slot, g);
    SelectedMounts(h, p, slot);
  }
}
