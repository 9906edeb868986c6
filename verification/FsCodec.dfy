/** fs_serialize and the two deserializers, as the loops of kernel/fs.c, proved against the
    table functions. */
module FsCodec {
  import opened Bytes
  import opened Options
  import opened FsTable
  import opened FsLegacy

  ghost predicate SlotsValid(slots: seq<Slot>) {
    forall i :: 0 <= i < |slots| && slots[i].Used? ==> ValidFile(slots[i].file)
  }

  lemma {:induction false} LiveFilesValid(slots: seq<Slot>)
    requires SlotsValid(slots)
    ensures forall i :: 0 <= i < |Live(slots)| ==> ValidFile(Live(slots)[i])
  {
    if slots != [] {
      LiveFilesValid(slots[1..]);
    }
  }

  lemma {:induction false} ContinuationAt(rest: seq<byte>, j: nat)
    requires j * DATA_BYTES < |rest|
    ensures j < |Continuations(rest)|
    ensures var from := j * DATA_BYTES;
            Continuations(rest)[j] == ContinuationRecord(rest[from..from + ChunkOf(|rest| - from)])
    decreases j
  {
    if j > 0 {
      var tail := rest[ChunkOf(|rest|)..];
      ContinuationAt(tail, j - 1);
      var from := (j - 1) * DATA_BYTES;
      assert tail[from..from + ChunkOf(|tail| - from)]
          == rest[from + DATA_BYTES..from + DATA_BYTES + ChunkOf(|tail| - from)];
    }
  }

  lemma ExtentAt(f: File, j: nat)
    requires ValidFile(f) && 0 < j && j * DATA_BYTES < |f.data|
    ensures |Extents(f)| == RecordsNeeded(|f.data|) && j < |Extents(f)|
    ensures var from := j * DATA_BYTES;
            Extents(f)[j] == ContinuationRecord(f.data[from..from + ChunkOf(|f.data| - from)])
  {
    ExtentsLength(f);
    var rest := f.data[DATA_BYTES..];
    var from := (j - 1) * DATA_BYTES;
    ContinuationAt(rest, j - 1);
    assert rest[from..from + ChunkOf(|rest| - from)]
        == f.data[from + DATA_BYTES..from + DATA_BYTES + ChunkOf(|rest| - from)];
  }

  /** Write the extents of one file from record `at` on. */
  method WriteExtents(table: array<Record>, at: nat, f: File) returns (next: nat)
    requires ValidFile(f)
    requires at + RecordsNeeded(|f.data|) <= table.Length
    modifies table
    ensures next == at + RecordsNeeded(|f.data|) && |Extents(f)| == RecordsNeeded(|f.data|)
    ensures forall k :: at <= k < next ==> table[k] == Extents(f)[k - at]
    ensures forall k :: 0 <= k < at || next <= k < table.Length ==> table[k] == old(table[k])
  {
    ExtentsLength(f);
    var copied := ChunkOf(|f.data|);
    table[at] := HeadRecord(f);
    next := at + 1;
    while copied < |f.data|
      invariant at < next <= at + RecordsNeeded(|f.data|) && copied <= |f.data|
      invariant copied < |f.data| ==> copied == (next - at) * DATA_BYTES
      invariant copied == |f.data| ==> next == at + RecordsNeeded(|f.data|)
      invariant forall k :: at <= k < next ==> table[k] == Extents(f)[k - at]
      invariant forall k :: 0 <= k < at || next <= k < table.Length ==> table[k] == old(table[k])
    {
      var chunk := ChunkOf(|f.data| - copied);
      ExtentAt(f, next - at);
      table[next] := ContinuationRecord(f.data[copied..copied + chunk]);
      next := next + 1;
      copied := copied + chunk;
    }
  }

  /** The table grows by the extents of one more file. */
  method PackFile(table: array<Record>, ghost before: seq<File>, at: nat, f: File) returns (next: nat)
    requires ValidFile(f) && forall k :: 0 <= k < |before| ==> ValidFile(before[k])
    requires at == |Pack(before)| && at + RecordsNeeded(|f.data|) <= table.Length
    requires table[..] == Pack(before) + Blanks(table.Length - at)
    modifies table
    ensures forall k :: 0 <= k < |before + [f]| ==> ValidFile((before + [f])[k])
    ensures next == |Pack(before + [f])| <= table.Length
    ensures table[..] == Pack(before + [f]) + Blanks(table.Length - next)
  {
    PackSnoc(before, f);
    ghost var was := table[..];
    next := WriteExtents(table, at, f);
    assert forall k :: 0 <= k < |was| ==> was[k] == old(table[k]);
    assert table[..] == Pack(before) + Extents(f) + Blanks(table.Length - next);
  }

  /** fs_serialize: rebuild the whole table from the mounted view. */
  method Serialize(files: seq<Slot>, table: array<Record>) returns (ok: bool)
    requires |files| == MAX_FILES && table.Length == MAX_FILES
    requires SlotsValid(files)
    modifies table
    ensures forall i :: 0 <= i < |Live(files)| ==> ValidFile(Live(files)[i])
    ensures ok == FitsTable(Live(files))
    ensures ok ==> table[..] == Table(Live(files))
  {
    LiveFilesValid(files);
    var j := 0;
    while j < table.Length
      invariant 0 <= j <= table.Length
      invariant forall k :: 0 <= k < j ==> table[k] == BLANK
    {
      table[j] := BLANK;
      j := j + 1;
    }

    var next := 0;
    for i := 0 to |files|
      invariant SlotsValid(files[..i])
      invariant forall k :: 0 <= k < |Live(files[..i])| ==> ValidFile(Live(files[..i])[k])
      invariant next == |Pack(Live(files[..i]))| <= table.Length
      invariant table[..] == Pack(Live(files[..i])) + Blanks(table.Length - next)
    {
      PrefixLive(files, i);
      LiveFilesValid(files[..i + 1]);
      if files[i].Free? { continue; }
      var f := files[i].file;
      if RecordsNeeded(|f.data|) > table.Length - next {
        PackSnoc(Live(files[..i]), f);
        PackMonotone(files, i + 1);
        return false;
      }
      next := PackFile(table, Live(files[..i]), next, f);
    }
    assert files[..|files|] == files;
    return true;
  }

  lemma PackSnoc(before: seq<File>, f: File)
    requires forall k :: 0 <= k < |before| ==> ValidFile(before[k])
    requires ValidFile(f)
    ensures forall k :: 0 <= k < |before + [f]| ==> ValidFile((before + [f])[k])
    ensures Pack(before + [f]) == Pack(before) + Extents(f)
    ensures |Extents(f)| == RecordsNeeded(|f.data|)
  {
    ExtentsLength(f);
    PackAppend(before, [f]);
    assert Pack([f]) == Extents(f) + Pack([f][1..]) == Extents(f);
  }

  lemma PrefixLive(slots: seq<Slot>, i: nat)
    requires i < |slots|
    ensures slots[..i + 1] == slots[..i] + [slots[i]]
    ensures slots[i].Free? ==> Live(slots[..i + 1]) == Live(slots[..i])
    ensures slots[i].Used? ==> Live(slots[..i + 1]) == Live(slots[..i]) + [slots[i].file]
  {
    assert slots[..i + 1] == slots[..i] + [slots[i]];
    LiveAppend(slots[..i], [slots[i]]);
    assert Live([slots[i]]) == if slots[i].Free? then [] else [slots[i].file];
  }

  lemma PackMonotone(slots: seq<Slot>, i: nat)
    requires i <= |slots| && SlotsValid(slots)
    ensures forall k :: 0 <= k < |Live(slots[..i])| ==> ValidFile(Live(slots[..i])[k])
    ensures forall k :: 0 <= k < |Live(slots)| ==> ValidFile(Live(slots)[k])
    ensures |Pack(Live(slots[..i]))| <= |Pack(Live(slots))|
  {
    LiveFilesValid(slots[..i]);
    LiveFilesValid(slots[i..]);
    LiveFilesValid(slots);
    assert slots == slots[..i] + slots[i..];
    LiveAppend(slots[..i], slots[i..]);
    PackAppend(Live(slots[..i]), Live(slots[i..]));
  }

  // --------------------------------------------------------------------------------------

  /** The scan for an earlier head record of the same name. */
  method NameSeenBefore(table: array<Record>, at: nat, name: seq<byte>) returns (seen: bool)
    requires at <= table.Length
    ensures seen == (name in HeadNames(table[..at]))
  {
    for previous := 0 to at
      invariant name !in HeadNames(table[..previous])
    {
      assert table[..previous + 1] == table[..previous] + [table[previous]];
      HeadNamesAppend(table[..previous], [table[previous]]);
      if table[previous].inUse == HEAD && CString(table[previous].name) == name {
        assert name in HeadNames(table[..previous + 1]);
        assert table[..at] == table[..previous + 1] + table[previous + 1..at];
        HeadNamesAppend(table[..previous + 1], table[previous + 1..at]);
        return true;
      }
    }
    return false;
  }

  method ContinuationsFollow(table: array<Record>, at: nat, size: nat) returns (ok: bool)
    requires at + RecordsNeeded(size) <= table.Length
    ensures ok == ContinuationsValid(table[at + 1..at + RecordsNeeded(size)], Remaining(size))
  {
    var needed := RecordsNeeded(size);
    var remaining: nat := Remaining(size);
    for part := 1 to needed
      invariant remaining <= size
      invariant (remaining + DATA_BYTES - 1) / DATA_BYTES == needed - part
      invariant ContinuationsValid(table[at + 1..at + needed], Remaining(size))
                == ContinuationsValid(table[at + part..at + needed], remaining)
    {
      var expected := ChunkOf(remaining);
      assert table[at + part..at + needed][1..] == table[at + part + 1..at + needed];
      if !ContinuationValid(table[at + part], expected) {
        return false;
      }
      remaining := remaining - expected;
    }
    return remaining == 0;
  }

  /** The first pass of fs_deserialize_current: accept or reject without touching FILES. */
  method ValidateCurrent(table: array<Record>) returns (ok: bool)
    requires table.Length == MAX_FILES
    ensures ok == Parse(table[..]).Some?
  {
    ghost var rs := table[..];
    var at := 0;
    while at < table.Length
      invariant 0 <= at <= table.Length && rs == table[..]
      invariant Parse(rs).Some? == ParseFrom(rs, at).Some?
    {
      if table[at].inUse == 0 {
        at := at + 1;
        continue;
      }
      assert rs[..at] == table[..at];
      if !HeadValid(table[at]) { return false; }
      var seen := NameSeenBefore(table, at, CString(table[at].name));
      if seen { return false; }
      var needed := RecordsNeeded(table[at].size);
      if needed > table.Length - at { return false; }
      assert rs[at + 1..at + needed] == table[at + 1..at + needed];
      var follow := ContinuationsFollow(table, at, table[at].size);
      if !follow { return false; }
      at := at + needed;
    }
    return true;
  }

  /** Mounted slots of a parsed table: the files in order, then free slots. */
  function Mounted(files: seq<File>): (slots: seq<Slot>)
    requires |files| <= MAX_FILES
    ensures |slots| == MAX_FILES
    ensures forall i :: 0 <= i < |files| ==> slots[i] == Used(files[i])
    ensures forall i :: |files| <= i < MAX_FILES ==> slots[i] == Free
  {
    seq(MAX_FILES, i => if 0 <= i < |files| then Used(files[i]) else Free)
  }

  lemma {:induction false} LiveOfMounted(slots: seq<Slot>, files: seq<File>)
    requires |files| <= |slots|
    requires forall i :: 0 <= i < |files| ==> slots[i] == Used(files[i])
    requires forall i :: |files| <= i < |slots| ==> slots[i] == Free
    ensures Live(slots) == files
  {
    if slots != [] {
      if files == [] {
        LiveOfMounted(slots[1..], []);
      } else {
        LiveOfMounted(slots[1..], files[1..]);
        assert [files[0]] + files[1..] == files;
      }
    }
  }

  lemma {:induction false} ParsedCount(rs: seq<Record>, at: nat)
    requires at <= |rs| && ParseFrom(rs, at).Some?
    ensures |ParseFrom(rs, at).value| <= |rs| - at
    decreases |rs| - at
  {
    if at < |rs| {
      ParsedCount(rs, at + if rs[at].inUse == 0 then 1 else RecordsNeeded(rs[at].size));
    }
  }

  /** One chain copied out of its records, piece by piece. */
  method GatherChain(table: array<Record>, at: nat) returns (data: seq<byte>)
    requires at < table.Length
    requires RecordsNeeded(table[at].size) <= table.Length - at
    requires ContinuationsValid(table[at + 1..at + RecordsNeeded(table[at].size)], Remaining(table[at].size))
    ensures data == Gather(table[at..at + RecordsNeeded(table[at].size)], table[at].size)
  {
    var size: nat := table[at].size;
    var needed := RecordsNeeded(size);
    ghost var chain := table[at..at + needed];
    data := table[at].data[..ChunkOf(size)];
    assert chain[1..] == table[at + 1..at + needed];
    ghost var left: nat := Remaining(size);
    for part := 1 to needed
      invariant |data| + left == size
      invariant left > 0 ==> |data| == part * DATA_BYTES
      invariant (left + DATA_BYTES - 1) / DATA_BYTES == needed - part
      invariant ContinuationsValid(table[at + part..at + needed], left)
      invariant left > 0 ==> Gather(chain, size) == data + Gather(table[at + part..at + needed], left)
      invariant left == 0 ==> Gather(chain, size) == data
    {
      ghost var here := table[at + part..at + needed];
      assert here[0] == table[at + part] && here[1..] == table[at + part + 1..at + needed];
      var record := table[at + part];
      data := data + record.data[..record.size];
      left := left - record.size;
    }
  }

  lemma ParseSkips(rs: seq<Record>, at: nat)
    requires at < |rs| && rs[at].inUse == 0
    ensures ParseFrom(rs, at) == ParseFrom(rs, at + 1)
  {
  }

  lemma ParseEnds(rs: seq<Record>)
    ensures ParseFrom(rs, |rs|) == Some([])
  {
  }

  method ReadChain(table: array<Record>, at: nat) returns (f: File)
    requires at < table.Length && ChainValid(table[..], at)
    ensures f == ChainFile(table[..], at)
  {
    ghost var rs := table[..];
    ghost var next := at + RecordsNeeded(rs[at].size);
    assert rs[at..next] == table[at..next] && rs[at + 1..next] == table[at + 1..next];
    var data := GatherChain(table, at);
    f := File(CString(table[at].name), data);
  }

  lemma ParseUnfold(rs: seq<Record>, at: nat)
    requires at < |rs| && rs[at].inUse != 0 && ParseFrom(rs, at).Some?
    ensures ChainValid(rs, at)
    ensures var rest := ParseFrom(rs, at + RecordsNeeded(rs[at].size));
            rest.Some? && ParseFrom(rs, at).value == [ChainFile(rs, at)] + rest.value
  {
  }

  /** fs_deserialize_current: the mounted view is replaced by the parsed files, or not at all. */
  method DeserializeCurrent(table: array<Record>, files: seq<Slot>) returns (ok: bool, slots: seq<Slot>)
    requires |files| == MAX_FILES && table.Length == MAX_FILES
    ensures ok == Parse(table[..]).Some?
    ensures ok ==> |Parse(table[..]).value| <= MAX_FILES && slots == Mounted(Parse(table[..]).value)
    ensures !ok ==> slots == files
  {
    ok := ValidateCurrent(table);
    if ok {
      ParsedCount(table[..], 0);
      slots := FillCurrent(table);
    } else {
      slots := files;
    }
  }

  /** The second pass: clear the view and copy every chain out, in order. */
  method FillCurrent(table: array<Record>) returns (slots: seq<Slot>)
    requires table.Length == MAX_FILES
    requires Parse(table[..]).Some? && |Parse(table[..]).value| <= MAX_FILES
    ensures slots == Mounted(Parse(table[..]).value)
  {
    hide ParseFrom, ChainValid;
    ghost var rs := table[..];
    ghost var all := Parse(rs).value;
    slots := seq(MAX_FILES, i => Free);
    var logical, at := 0, 0;
    while at < table.Length
      invariant 0 <= at <= table.Length && logical <= |all| && |slots| == MAX_FILES
      invariant ParseFrom(rs, at) == Some(all[logical..])
      invariant forall k :: 0 <= k < logical ==> slots[k] == Used(all[k])
      invariant forall k :: logical <= k < MAX_FILES ==> slots[k] == Free
    {
      if table[at].inUse == 0 {
        ParseSkips(rs, at);
        at := at + 1;
        continue;
      }
      ParseUnfold(rs, at);
      var f := ReadChain(table, at);
      assert all[logical..][0] == f && all[logical..][1..] == all[logical + 1..];
      slots := slots[logical := Used(f)];
      logical := logical + 1;
      at := at + RecordsNeeded(table[at].size);
    }
    ParseEnds(rs);
    assert slots == Mounted(all);
  }

  /** The validation pass of fs_deserialize_legacy. */
  method ValidateLegacy(table: array<Record>) returns (ok: bool)
    requires table.Length == MAX_FILES
    ensures ok == LegacyParse(table[..]).Some?
  {
    ghost var rs := table[..];
    for i := 0 to table.Length
      invariant LegacyParse(rs).Some? == LegacyFrom(rs, i).Some?
    {
      if table[i].inUse == 0 { continue; }
      if !LegacyHeadValid(table[i]) { return false; }
      assert rs[..i] == table[..i];
      var seen := NameSeenBefore(table, i, CString(table[i].name));
      if seen { return false; }
    }
    return true;
  }

  /** fs_deserialize_legacy: slots keep their positions; a rejected table changes nothing. */
  method DeserializeLegacy(table: array<Record>, files: seq<Slot>) returns (ok: bool, slots: seq<Slot>)
    requires |files| == MAX_FILES && table.Length == MAX_FILES
    ensures ok == LegacyParse(table[..]).Some? && |slots| == MAX_FILES
    ensures ok ==> slots == LegacyParse(table[..]).value
    ensures !ok ==> slots == files
  {
    slots := files;
    ok := ValidateLegacy(table);
    if !ok { return; }
    ghost var rs := table[..];
    ghost var all := LegacyParse(rs).value;
    LegacyFilesAreValid(rs, 0);
    for i := 0 to table.Length
      invariant |slots| == MAX_FILES
      invariant LegacyFrom(rs, i) == Some(all[i..])
      invariant forall k :: 0 <= k < i ==> slots[k] == all[k]
    {
      assert all[i..][0] == all[i] && all[i..][1..] == all[i + 1..];
      if table[i].inUse == 0 {
        slots := slots[i := Free];
        continue;
      }
      slots := slots[i := Used(File(CString(table[i].name), table[i].data[..table[i].size]))];
    }
  }
}
