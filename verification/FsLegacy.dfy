/** The record tables of disk versions 1 to 4: one record a file, at the position of its slot. */
module FsLegacy {
  import opened Bytes
  import opened Options
  import opened FsTable

  /** The files of the mounted view, in slot order. */
  function Live(slots: seq<Slot>): (files: seq<File>)
    ensures |files| <= |slots|
  {
    if slots == [] then []
    else (if slots[0].Used? then [slots[0].file] else []) + Live(slots[1..])
  }

  lemma LiveStep(slots: seq<Slot>)
    requires slots != []
    ensures Live(slots) == (if slots[0].Used? then [slots[0].file] else []) + Live(slots[1..])
  {
  }

  lemma {:induction false} LiveAppend(a: seq<Slot>, b: seq<Slot>)
    ensures Live(a + b) == Live(a) + Live(b)
    decreases |a|, 1
  {
    if a == [] {
      assert a + b == b;
    } else {
      LiveAppendStep(a, b);
    }
  }

  lemma LiveAppendStep(a: seq<Slot>, b: seq<Slot>)
    requires a != []
    ensures Live(a + b) == Live(a) + Live(b)
    decreases |a|, 0
  {
    hide Live;
    LiveStep(a);
    LiveStep(a + b);
    LiveAppend(a[1..], b);
    assert (a + b)[1..] == a[1..] + b;
  }

  predicate LegacyHeadValid(r: Record) {
    && r.inUse == HEAD
    && r.size < DATA_BYTES
    && r.name[MAX_FILENAME - 1] == 0
    && r.data[r.size] == 0
    && ValidName(CString(r.name))
  }

  function LegacyFile(r: Record): File
    requires r.size < DATA_BYTES
  {
    File(CString(r.name), r.data[..r.size])
  }

  /** The slots a legacy table mounts from record `at` on; None when it is rejected. */
  function LegacyFrom(rs: seq<Record>, at: nat): Option<seq<Slot>>
    requires at <= |rs|
    decreases |rs| - at
  {
    if at == |rs| then Some([])
    else if rs[at].inUse != 0 && (!LegacyHeadValid(rs[at]) || CString(rs[at].name) in HeadNames(rs[..at])) then None
    else
      match LegacyFrom(rs, at + 1)
      case None => None
      case Some(rest) =>
        Some([if rs[at].inUse == 0 then Free else Used(LegacyFile(rs[at]))] + rest)
  }

  function LegacyParse(rs: seq<Record>): Option<seq<Slot>> {
    LegacyFrom(rs, 0)
  }

  lemma {:induction false} LegacyFilesAreValid(rs: seq<Record>, at: nat)
    requires at <= |rs|
    requires LegacyFrom(rs, at).Some?
    ensures |LegacyFrom(rs, at).value| == |rs| - at
    ensures ParsedAt(rs, at, Live(LegacyFrom(rs, at).value))
    decreases |rs| - at
  {
    hide ParsedAt;
    if at == |rs| {
      ParsedNothing(rs);
    } else {
      LegacyFilesAreValid(rs, at + 1);
      var rest := LegacyFrom(rs, at + 1).value;
      if rs[at].inUse == 0 {
        ParsedSkip(rs, at, Live(rest));
        assert LegacyFrom(rs, at).value == [Free] + rest && ([Free] + rest)[1..] == rest;
        assert Live([Free] + rest) == [] + Live(rest) == Live(rest);
      } else {
        LegacyChain(rs, at);
        ParsedCons(rs, at, Live(rest));
        assert ([Used(LegacyFile(rs[at]))] + rest)[1..] == rest;
      }
    }
  }

  /** A legacy record read as a version 5 chain of one extent is the same file. */
  lemma LegacyChain(rs: seq<Record>, at: nat)
    requires at < |rs| && LegacyHeadValid(rs[at]) && CString(rs[at].name) !in HeadNames(rs[..at])
    ensures RecordsNeeded(rs[at].size) == 1
    ensures ChainValid(rs, at) && ChainFile(rs, at) == LegacyFile(rs[at])
  {
    assert rs[at..at + 1] == [rs[at]];
    assert rs[at + 1..at + 1] == [];
  }

  /** Migration never runs out of extents: what a legacy table mounts always fits the
      version 5 table, which then reads as the same files. */
  lemma LegacyTableMigrates(rs: seq<Record>)
    requires |rs| == MAX_FILES
    requires LegacyParse(rs).Some?
    ensures var files := Live(LegacyParse(rs).value);
            ValidFiles(files) && FitsTable(files) && Parse(Table(files)) == Some(files)
  {
    LegacyFilesAreValid(rs, 0);
    TableRoundTrip(Live(LegacyParse(rs).value));
  }

  /** A legacy file takes one extent. */
  lemma {:induction false} LegacyIsSmall(rs: seq<Record>, at: nat)
    requires at <= |rs| && LegacyFrom(rs, at).Some?
    ensures var slots := LegacyFrom(rs, at).value;
            forall i :: 0 <= i < |slots| && slots[i].Used? ==> |slots[i].file.data| < DATA_BYTES
    decreases |rs| - at
  {
    if at < |rs| { LegacyIsSmall(rs, at + 1); }
  }
}
