/** What fs_init of kernel/fs.c does to a loaded view: leftovers of the self test and a physical
    system.log move to recovery names, and an old volume gets the default picture. */
module FsRecovery {
  import opened Bytes
  import opened FsTable
  import opened FsLegacy
  import opened FsCodec
  import opened FsContents
  import opened FsNames

  // --------------------------------------------------------------------------------------
  // Recovery names

  /** A family of names: the first without a number, the others with one. */
  datatype Family = Family(first: string, stem: string, suffix: string)

  const TEST_NAMES := Family("recovered-fs-test.bin", "recovered-fs-test-", ".bin")
  const LOG_NAMES := Family("recovered-system-log.txt", "recovered-system-log-", ".txt")

  function Digits(n: nat): (s: seq<byte>)
    ensures 1 <= |s| <= 2
  {
    if n >= 10 then [48 + n / 10 % 10, 48 + n % 10] else [48 + n % 10]
  }

  /** fs_recovered_self_test_name and fs_recovered_log_name. */
  function Candidate(f: Family, attempt: nat): seq<byte> {
    if attempt == 0 then Text(f.first) else Text(f.stem) + Digits(attempt) + Text(f.suffix)
  }

  /** Small letters, hyphens and dots. */
  predicate NameText(s: string) {
    forall c :: c in s ==> 'a' <= c <= 'z' || c == '-' || c == '.'
  }

  predicate FamilyOk(f: Family) {
    && NameText(f.first) && NameText(f.stem) && NameText(f.suffix)
    && 0 < |f.first| < MAX_FILENAME && |f.stem| + 2 + |f.suffix| < MAX_FILENAME
    && |f.first| != |f.stem| + 1 + |f.suffix| && |f.first| != |f.stem| + 2 + |f.suffix|
  }

  lemma FamiliesOk()
    ensures FamilyOk(TEST_NAMES) && FamilyOk(LOG_NAMES)
  {
    hide NameText;
    TestTexts();
    LogTexts();
  }

  lemma TestTexts()
    ensures NameText("recovered-fs-test.bin") && NameText("recovered-fs-test-") && NameText(".bin")
  {
  }

  lemma LogTexts()
    ensures NameText("recovered-system-log.txt") && NameText("recovered-system-log-") && NameText(".txt")
  {
  }

  lemma NameTextBytes(s: string)
    requires NameText(s)
    ensures forall i :: 0 <= i < |s| ==> NameByte(Text(s)[i])
  {
    forall i | 0 <= i < |s| ensures NameByte(Text(s)[i]) {
      assert s[i] in s;
    }
  }

  lemma CandidateIsValid(f: Family, attempt: nat)
    requires FamilyOk(f)
    ensures ValidName(Candidate(f, attempt))
  {
    hide NameText, Text;
    NameTextBytes(f.first);
    NameTextBytes(f.stem);
    NameTextBytes(f.suffix);
  }

  /** The names fs_init tries are all different. */
  lemma CandidatesDiffer(f: Family, a: nat, b: nat)
    requires FamilyOk(f) && a < b <= MAX_FILES
    ensures Candidate(f, a) != Candidate(f, b)
  {
    hide NameText, Text;
    if a > 0 && |Digits(a)| == |Digits(b)| {
      var n, x, y := |f.stem|, Candidate(f, a), Candidate(f, b);
      assert x[n] == Digits(a)[0] && y[n] == Digits(b)[0];
      if a >= 10 { assert x[n + 1] == Digits(a)[1] && y[n + 1] == Digits(b)[1]; }
    }
  }

  // --------------------------------------------------------------------------------------
  // One of 33 names is always free

  lemma {:induction false} NamesAtMostSlots(slots: seq<Slot>)
    ensures |NameSet(slots)| <= |slots|
  {
    if slots == [] {
      assert NameSet(slots) == {};
    } else {
      var last := |slots| - 1;
      NamesAtMostSlots(slots[..last]);
      var rest := NameSet(slots[..last]);
      assert NameSet(slots) <= rest + (if slots[last].Used? then {slots[last].file.name} else {});
      Subset(NameSet(slots), rest + (if slots[last].Used? then {slots[last].file.name} else {}));
    }
  }

  lemma Subset<T>(a: set<T>, b: set<T>)
    requires a <= b
    ensures |a| <= |b|
  {
    assert b == a + (b - a);
  }

  ghost function Names(f: Family, n: nat): set<seq<byte>> {
    set a: nat | a < n :: Candidate(f, a)
  }

  lemma {:induction false} NamesCount(f: Family, n: nat)
    requires FamilyOk(f) && n <= MAX_FILES + 1
    ensures |Names(f, n)| == n
  {
    hide Candidate;
    if n == 0 {
      assert Names(f, 0) == {};
    } else {
      NamesCount(f, n - 1);
      assert Names(f, n) == Names(f, n - 1) + {Candidate(f, n - 1)};
      forall a: nat | a < n - 1 ensures Candidate(f, a) != Candidate(f, n - 1) {
        CandidatesDiffer(f, a, n - 1);
      }
    }
  }

  /** Thirty-three names cannot all be taken by thirty-two slots. */
  lemma SomeNameIsFree(f: Family, slots: seq<Slot>) returns (a: nat)
    requires FamilyOk(f) && |slots| == MAX_FILES
    ensures a <= MAX_FILES && Candidate(f, a) !in NameSet(slots)
  {
    hide Candidate, NameSet;
    NamesAtMostSlots(slots);
    NamesCount(f, MAX_FILES + 1);
    if Names(f, MAX_FILES + 1) <= NameSet(slots) {
      Subset(Names(f, MAX_FILES + 1), NameSet(slots));
      assert false;
    }
    var name :| name in Names(f, MAX_FILES + 1) && name !in NameSet(slots);
    a :| a < MAX_FILES + 1 && Candidate(f, a) == name;
  }

  predicate Taken(f: Family, slots: seq<Slot>, a: nat) {
    Find(slots, Candidate(f, a)) < |slots|
  }

  /** The first attempt from `a` on whose name no slot has. */
  function FirstFree(f: Family, slots: seq<Slot>, a: nat): (r: nat)
    requires a <= MAX_FILES + 1
    ensures a <= r <= MAX_FILES + 1
    decreases MAX_FILES + 1 - a
  {
    if a > MAX_FILES || !Taken(f, slots, a) then a else FirstFree(f, slots, a + 1)
  }

  lemma {:induction false} FirstFreeIsFirst(f: Family, slots: seq<Slot>, a: nat)
    requires a <= MAX_FILES + 1
    ensures forall k :: a <= k < FirstFree(f, slots, a) ==> Taken(f, slots, k)
    ensures FirstFree(f, slots, a) <= MAX_FILES ==> !Taken(f, slots, FirstFree(f, slots, a))
    decreases MAX_FILES + 1 - a
  {
    hide Taken;
    if a <= MAX_FILES && Taken(f, slots, a) { FirstFreeIsFirst(f, slots, a + 1); }
  }

  /** The search for a recovery name never fails. */
  lemma FirstFreeIsFound(f: Family, slots: seq<Slot>)
    requires FamilyOk(f) && |slots| == MAX_FILES
    ensures FirstFree(f, slots, 0) <= MAX_FILES
    ensures Candidate(f, FirstFree(f, slots, 0)) !in NameSet(slots)
  {
    hide Candidate, NameSet, FirstFree, Taken;
    FirstFreeIsFirst(f, slots, 0);
    var a := SomeNameIsFree(f, slots);
    TakenIff(f, slots, a);
    TakenIff(f, slots, FirstFree(f, slots, 0));
  }

  lemma TakenIff(f: Family, slots: seq<Slot>, a: nat)
    ensures Taken(f, slots, a) <==> Candidate(f, a) in NameSet(slots)
  {
    hide Candidate, NameSet;
    NotFound(slots, Candidate(f, a));
  }

  lemma FirstFreeStep(f: Family, slots: seq<Slot>, a: nat)
    requires a <= MAX_FILES
    ensures FirstFree(f, slots, a) == if Find(slots, Candidate(f, a)) == |slots| then a else FirstFree(f, slots, a + 1)
  {
    hide Candidate, Find;
  }

  // --------------------------------------------------------------------------------------
  // Moving leftovers out of the way

  /** A file fs_init does not leave under its name. */
  predicate Leftover(f: File) {
    SelfTestArtifact(f) || SystemLog(f.name)
  }

  ghost predicate NoLeftovers(slots: seq<Slot>) {
    forall i :: 0 <= i < |slots| && slots[i].Used? ==> !Leftover(slots[i].file)
  }

  function Moved(f: Family, slots: seq<Slot>, i: nat): (r: seq<Slot>)
    requires i < |slots| && slots[i].Used?
    ensures |r| == |slots|
  {
    slots[i := Used(File(Candidate(f, FirstFree(f, slots, 0)), slots[i].file.data))]
  }

  /** fs_quarantine_self_test_artifacts from slot `i` on. */
  function Quarantined(slots: seq<Slot>, i: nat): (r: seq<Slot>)
    requires i <= |slots|
    ensures |r| == |slots|
    decreases |slots| - i
  {
    if i == |slots| then slots
    else if slots[i].Used? && SelfTestArtifact(slots[i].file) then Quarantined(Moved(TEST_NAMES, slots, i), i + 1)
    else Quarantined(slots, i + 1)
  }

  /** fs_quarantine_physical_system_log. */
  function WithoutLog(slots: seq<Slot>): (r: seq<Slot>)
    ensures |r| == |slots|
  {
    var i := Find(slots, Text("system.log"));
    if i == |slots| then slots else Moved(LOG_NAMES, slots, i)
  }

  function Renamed(slots: seq<Slot>): (r: seq<Slot>)
    ensures |r| == |slots|
  {
    WithoutLog(Quarantined(slots, 0))
  }

  /** Every file is where it was, byte for byte; only leftovers have another name, which no file
      had before. */
  ghost predicate Kept(before: seq<Slot>, after: seq<Slot>) {
    && |after| == |before|
    && forall i :: 0 <= i < |before| ==>
         && (after[i].Used? <==> before[i].Used?)
         && (before[i].Used? ==>
               && after[i].file.data == before[i].file.data
               && (|| after[i].file.name == before[i].file.name
                   || (Leftover(before[i].file) && after[i].file.name !in NameSet(before))))
  }

  /** What stays true of the view while leftovers move. */
  ghost predicate Sound(before: seq<Slot>, slots: seq<Slot>) {
    |slots| == MAX_FILES && SlotsValid(slots) && DistinctSlots(slots) && Kept(before, slots) && Cost(slots) == Cost(before)
  }

  lemma CandidateIsPlain(f: Family, attempt: nat)
    requires f == TEST_NAMES || f == LOG_NAMES
    ensures !SelfTestName(Candidate(f, attempt)) && !SystemLog(Candidate(f, attempt))
  {
    hide Digits;
    var name := Candidate(f, attempt);
    assert Text("recovered-fs-test.bin")[0] == 114 && Text("recovered-fs-test-")[0] == 114;
    assert Text("recovered-system-log.txt")[0] == 114 && Text("recovered-system-log-")[0] == 114;
    assert name[0] == 114;
    assert Text("__fs_self_test__")[0] == 95 && Text("__fs_self_renamed__")[0] == 95 && Text("system.log")[0] == 115;
  }

  /** A leftover still has the name and the bytes it was loaded with. */
  lemma LeftoverIsOriginal(before: seq<Slot>, slots: seq<Slot>, i: nat)
    requires Sound(before, slots) && i < |slots| && slots[i].Used? && Leftover(slots[i].file)
    requires Plain(before, slots)
    ensures before[i] == slots[i]
  {
    hide SlotsValid, DistinctSlots, Cost;
  }

  /** New names are none of the reserved ones. */
  ghost predicate Plain(before: seq<Slot>, slots: seq<Slot>)
    requires |slots| == |before|
  {
    forall i :: 0 <= i < |slots| && slots[i].Used? && before[i].Used? && slots[i].file.name != before[i].file.name ==>
      !SelfTestName(slots[i].file.name) && !SystemLog(slots[i].file.name)
  }

  lemma NewNameIsNew(before: seq<Slot>, slots: seq<Slot>, name: seq<byte>)
    requires Kept(before, slots) && name !in NameSet(slots) && !SelfTestName(name) && !SystemLog(name)
    ensures name !in NameSet(before)
  {
    hide SelfTestName, SystemLog;
    forall j | 0 <= j < |before| && before[j].Used? ensures before[j].file.name != name {
    }
  }

  lemma MovedIsSound(f: Family, before: seq<Slot>, slots: seq<Slot>, i: nat)
    requires f == TEST_NAMES || f == LOG_NAMES
    requires Sound(before, slots) && Plain(before, slots)
    requires i < |slots| && slots[i].Used? && Leftover(slots[i].file)
    ensures Sound(before, Moved(f, slots, i)) && Plain(before, Moved(f, slots, i))
    ensures !Leftover(Moved(f, slots, i)[i].file)
  {
    hide Candidate, FirstFree, SelfTestName, SystemLog, NameSet, ValidName, FamilyOk, Cost;
    FamiliesOk();
    FirstFreeIsFound(f, slots);
    var attempt := FirstFree(f, slots, 0);
    var name := Candidate(f, attempt);
    CandidateIsValid(f, attempt);
    CandidateIsPlain(f, attempt);
    LeftoverIsOriginal(before, slots, i);
    NewNameIsNew(before, slots, name);
    RenameSlot(slots, i, name);
    CostUpdate(slots, i, Used(File(name, slots[i].file.data)));
  }

  ghost predicate NoArtifacts(slots: seq<Slot>, from: nat, to: nat)
    requires to <= |slots|
  {
    forall i :: from <= i < to && slots[i].Used? ==> !SelfTestArtifact(slots[i].file)
  }

  lemma {:induction false} QuarantinedIsSound(before: seq<Slot>, slots: seq<Slot>, i: nat)
    requires Sound(before, slots) && Plain(before, slots) && i <= |slots| && NoArtifacts(slots, 0, i)
    ensures var after := Quarantined(slots, i);
            && Sound(before, after) && Plain(before, after) && NoArtifacts(after, 0, |after|)
            && (NoArtifacts(slots, i, |slots|) ==> after == slots)
    decreases |slots| - i
  {
    hide Sound, Plain, Moved, SelfTestArtifact;
    if i < |slots| {
      if slots[i].Used? && SelfTestArtifact(slots[i].file) {
        SoundLength(before, slots);
        MovedIsSound(TEST_NAMES, before, slots, i);
        MovedOnly(TEST_NAMES, slots, i);
        QuarantinedIsSound(before, Moved(TEST_NAMES, slots, i), i + 1);
      } else {
        QuarantinedIsSound(before, slots, i + 1);
      }
    }
  }

  lemma SoundLength(before: seq<Slot>, slots: seq<Slot>)
    requires Sound(before, slots)
    ensures |slots| == |before| == MAX_FILES
  {
  }

  lemma MovedOnly(f: Family, slots: seq<Slot>, i: nat)
    requires i < |slots| && slots[i].Used?
    ensures var after := Moved(f, slots, i);
            after[i].Used? && forall k :: 0 <= k < |slots| && k != i ==> after[k] == slots[k]
  {
  }

  lemma WithoutLogIsSound(before: seq<Slot>, slots: seq<Slot>)
    requires Sound(before, slots) && Plain(before, slots) && NoArtifacts(slots, 0, |slots|)
    ensures var after := WithoutLog(slots);
            Sound(before, after) && Plain(before, after) && NoLeftovers(after)
    ensures NoLeftovers(slots) ==> WithoutLog(slots) == slots
  {
    hide Sound, Plain, Moved, SelfTestArtifact, Find;
    var log := Text("system.log");
    var i := Find(slots, log);
    SoundLength(before, slots);
    if i < |slots| {
      assert IsNamed(slots[i], log);
      MovedIsSound(LOG_NAMES, before, slots, i);
      MovedOnly(LOG_NAMES, slots, i);
      OnlyLog(before, slots, i);
    } else {
      NoneNamed(slots, log);
    }
  }

  lemma OnlyLog(before: seq<Slot>, slots: seq<Slot>, i: nat)
    requires Sound(before, slots) && i < |slots| && slots[i].Used? && SystemLog(slots[i].file.name)
    ensures forall k :: 0 <= k < |slots| && k != i && slots[k].Used? ==> !SystemLog(slots[k].file.name)
  {
  }

  lemma NoneNamed(slots: seq<Slot>, name: seq<byte>)
    requires Find(slots, name) == |slots|
    ensures forall k :: 0 <= k < |slots| && slots[k].Used? ==> slots[k].file.name != name
  {
    forall k | 0 <= k < |slots| && slots[k].Used? ensures slots[k].file.name != name {
      assert !IsNamed(slots[k], name);
    }
  }

  /** Leftovers are gone from their names, and nothing else has happened: the names stay valid and
      unique, every file keeps its slot and its bytes, and the view still fits the disk. */
  lemma RenamedKeeps(slots: seq<Slot>)
    requires |slots| == MAX_FILES && SlotsValid(slots) && DistinctSlots(slots)
    ensures var after := Renamed(slots);
            && SlotsValid(after) && DistinctSlots(after) && NoLeftovers(after)
            && Kept(slots, after) && Cost(after) == Cost(slots)
    ensures NoLeftovers(slots) ==> Renamed(slots) == slots
  {
    hide Quarantined, WithoutLog, SelfTestArtifact;
    QuarantinedIsSound(slots, slots, 0);
    WithoutLogIsSound(slots, Quarantined(slots, 0));
  }

  // --------------------------------------------------------------------------------------
  // The default picture

  const CONTENT_VERSION: u32 := 3

  function PictureName(): seq<byte> {
    Text("nostalux.bmp")
  }

  /** The first free slot, or |slots|. */
  function FreeSlot(slots: seq<Slot>): (i: nat)
    ensures i <= |slots| && (i < |slots| ==> slots[i].Free?) && forall k :: 0 <= k < i ==> slots[k].Used?
  {
    if slots == [] || slots[0].Free? then 0 else 1 + FreeSlot(slots[1..])
  }

  /** The picture is added unless its name is taken or no slot is free. */
  function WithPicture(slots: seq<Slot>, picture: seq<byte>): (r: seq<Slot>)
    ensures |r| == |slots|
  {
    var i := FreeSlot(slots);
    if Find(slots, PictureName()) < |slots| || i == |slots| then slots else slots[i := Used(File(PictureName(), picture))]
  }

  lemma PictureNameIsValid()
    ensures ValidName(PictureName()) && !SelfTestName(PictureName()) && !SystemLog(PictureName())
  {
    assert NameText("nostalux.bmp");
    NameTextBytes("nostalux.bmp");
    assert PictureName()[0] == 110;
    assert Text("__fs_self_test__")[0] == 95 && Text("__fs_self_renamed__")[0] == 95 && Text("system.log")[0] == 115;
  }

  /** One file more at most, of its own name, and room for it where every file has one extent. */
  lemma PictureAdds(slots: seq<Slot>, picture: seq<byte>)
    requires SlotsValid(slots) && DistinctSlots(slots) && NoLeftovers(slots) && |picture| <= DATA_BYTES
    requires forall i :: 0 <= i < |slots| && slots[i].Used? ==> |slots[i].file.data| <= DATA_BYTES
    ensures var after := WithPicture(slots, picture);
            && SlotsValid(after) && DistinctSlots(after) && NoLeftovers(after) && Cost(after) <= |slots|
            && (after == slots || Contents(after) == Contents(slots)[PictureName() := picture])
            && (after != slots <==> PictureName() !in Contents(slots) && FreeSlot(slots) < |slots|)
  {
    hide PictureName, ValidName, SelfTestName, SystemLog;
    PictureNameIsValid();
    var i := FreeSlot(slots);
    var f := File(PictureName(), picture);
    NotFound(slots, PictureName());
    SmallCost(slots);
    if Find(slots, PictureName()) == |slots| && i < |slots| {
      SetSlot(slots, i, f);
      SmallCost(slots[i := Used(f)]);
      assert slots[i := Used(f)][i] != slots[i];
    }
  }

  /** The view fs_init makes of a loaded one. */
  function Tidied(slots: seq<Slot>, version: u32, trusted: bool, picture: seq<byte>): (r: seq<Slot>)
    ensures |r| == |slots|
  {
    if trusted && version < CONTENT_VERSION then WithPicture(Renamed(slots), picture) else Renamed(slots)
  }

  /** Every file takes one extent. */
  ghost predicate Small(slots: seq<Slot>) {
    forall i :: 0 <= i < |slots| && slots[i].Used? ==> |slots[i].file.data| <= DATA_BYTES
  }

  lemma KeptIsSmall(before: seq<Slot>, after: seq<Slot>)
    requires Kept(before, after) && Small(before)
    ensures Small(after)
  {
  }

  /** The picture was added to `renamed`. */
  ghost predicate PictureAt(renamed: seq<Slot>, slots: seq<Slot>, picture: seq<byte>) {
    && FreeSlot(renamed) < |renamed| && Find(renamed, PictureName()) == |renamed|
    && slots == renamed[FreeSlot(renamed) := Used(File(PictureName(), picture))]
  }

  lemma PictureIsThere(renamed: seq<Slot>, slots: seq<Slot>, picture: seq<byte>)
    requires PictureAt(renamed, slots, picture)
    ensures Find(slots, PictureName()) == FreeSlot(renamed) && slots[FreeSlot(renamed) := Free] == renamed
  {
    hide PictureName;
    var i := FreeSlot(renamed);
    NoneNamed(renamed, PictureName());
    assert IsNamed(slots[i], PictureName());
    assert IsNamed(slots[Find(slots, PictureName())], PictureName());
    assert slots[i := Free] == renamed;
  }

  /** Nothing moves exactly when nothing was left over. */
  lemma UnchangedView(slots: seq<Slot>)
    requires |slots| == MAX_FILES && SlotsValid(slots) && DistinctSlots(slots)
    ensures NoArtifacts(slots, 0, MAX_FILES) && Find(Quarantined(slots, 0), Text("system.log")) == MAX_FILES ==> Renamed(slots) == slots
    ensures NoLeftovers(slots) ==> NoArtifacts(slots, 0, MAX_FILES) && Find(Quarantined(slots, 0), Text("system.log")) == MAX_FILES
  {
    hide Find, Moved, SelfTestArtifact, SlotsValid, DistinctSlots, Cost;
    QuarantinedIsSound(slots, slots, 0);
    var i := Find(Quarantined(slots, 0), Text("system.log"));
    assert i < MAX_FILES ==> IsNamed(Quarantined(slots, 0)[i], Text("system.log"));
  }

  // --------------------------------------------------------------------------------------
  // Clearing what the self test left in memory

  /** fs_clear_self_test_artifacts. */
  ghost predicate Cleared(before: seq<Slot>, after: seq<Slot>) {
    && |after| == |before|
    && forall i :: 0 <= i < |before| ==>
         after[i] == if before[i].Used? && SelfTestArtifact(before[i].file) then Free else before[i]
  }

  lemma ClearedIsSound(before: seq<Slot>, after: seq<Slot>)
    requires SlotsValid(before) && DistinctSlots(before) && Cleared(before, after)
    ensures SlotsValid(after) && DistinctSlots(after) && Cost(after) <= Cost(before)
    ensures NoArtifacts(before, 0, |before|) ==> after == before
  {
    hide SelfTestArtifact, ValidFile;
    ClearedCost(before, after);
  }

  lemma {:induction false} ClearedCost(before: seq<Slot>, after: seq<Slot>)
    requires Cleared(before, after)
    ensures Cost(after) <= Cost(before)
  {
    hide SelfTestArtifact;
    if before != [] {
      assert Cleared(before[1..], after[1..]);
      ClearedCost(before[1..], after[1..]);
    }
  }
}
