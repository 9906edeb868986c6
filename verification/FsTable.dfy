/** The record table of kernel/fs.c: files cut into 1 KiB extent records, and the parser
    that rebuilds them. */
module FsTable {
  import opened Bytes
  import opened Options

  const MAX_FILES: nat := 32
  const MAX_FILENAME: nat := 32
  const MAX_FILE_SIZE: nat := 8192
  const DATA_BYTES: nat := 1024
  const HEAD: byte := 1
  const CONTINUATION: byte := 2

  datatype File = File(name: seq<byte>, data: seq<byte>)

  /** One entry of the mounted view FILES. */
  datatype Slot = Free | Used(file: File)

  datatype RawRecord = Record(inUse: byte, name: seq<byte>, size: u32, data: seq<byte>)

  type Record = r: RawRecord | |r.name| == MAX_FILENAME && |r.data| == DATA_BYTES
    witness Record(0, Zeros(MAX_FILENAME), 0, Zeros(DATA_BYTES))

  const BLANK: Record := Record(0, Zeros(MAX_FILENAME), 0, Zeros(DATA_BYTES))

  predicate NameByte(c: byte) {
    c != 0 && c != 0x20 && c != 0x09 && c != 0x2F && c != 0x5C
  }

  /** A name the filesystem accepts: short enough for its field with a NUL, no blank, no slash. */
  predicate ValidName(name: seq<byte>) {
    0 < |name| < MAX_FILENAME && forall i :: 0 <= i < |name| ==> NameByte(name[i])
  }

  predicate DistinctNames(files: seq<File>) {
    forall i, j :: 0 <= i < j < |files| ==> files[i].name != files[j].name
  }

  /** `names` lists the names of `files`, in order. */
  predicate Lists(names: seq<seq<byte>>, files: seq<File>) {
    |names| == |files| && forall i :: 0 <= i < |files| ==> names[i] == files[i].name
  }

  predicate ValidFile(f: File) {
    ValidName(f.name) && |f.data| < MAX_FILE_SIZE
  }

  /** What the volume keeps true of its list of files, apart from the extent budget. */
  predicate ValidFiles(files: seq<File>) {
    && (forall i :: 0 <= i < |files| ==> ValidFile(files[i]))
    && DistinctNames(files)
  }

  // --------------------------------------------------------------------------------------
  // Writing: files to extent records

  function RecordsNeeded(size: nat): nat {
    if size == 0 then 1 else (size + DATA_BYTES - 1) / DATA_BYTES
  }

  function ChunkOf(size: nat): nat {
    if size > DATA_BYTES then DATA_BYTES else size
  }

  function NameField(name: seq<byte>): (r: seq<byte>)
    requires |name| < MAX_FILENAME
    ensures |r| == MAX_FILENAME
  {
    name + Zeros(MAX_FILENAME - |name|)
  }

  function DataField(chunk: seq<byte>): (r: seq<byte>)
    requires |chunk| <= DATA_BYTES
    ensures |r| == DATA_BYTES
  {
    chunk + Zeros(DATA_BYTES - |chunk|)
  }

  function ContinuationRecord(chunk: seq<byte>): Record
    requires |chunk| <= DATA_BYTES
  {
    Record(CONTINUATION, Zeros(MAX_FILENAME), |chunk|, DataField(chunk))
  }

  function Continuations(rest: seq<byte>): (r: seq<Record>)
    decreases |rest|
  {
    if rest == [] then []
    else
      var n := ChunkOf(|rest|);
      [ContinuationRecord(rest[..n])] + Continuations(rest[n..])
  }

  function HeadRecord(f: File): Record
    requires ValidFile(f)
  {
    Record(HEAD, NameField(f.name), |f.data|, DataField(f.data[..ChunkOf(|f.data|)]))
  }

  function Extents(f: File): (r: seq<Record>)
    requires ValidFile(f)
  {
    [HeadRecord(f)] + Continuations(f.data[ChunkOf(|f.data|)..])
  }

  function Pack(files: seq<File>): (r: seq<Record>)
    requires forall i :: 0 <= i < |files| ==> ValidFile(files[i])
  {
    if files == [] then [] else Extents(files[0]) + Pack(files[1..])
  }

  function Blanks(n: nat): (r: seq<Record>)
    ensures |r| == n && forall i :: 0 <= i < n ==> r[i] == BLANK
  {
    seq(n, i => BLANK)
  }

  predicate FitsTable(files: seq<File>)
    requires forall i :: 0 <= i < |files| ==> ValidFile(files[i])
  {
    |Pack(files)| <= MAX_FILES
  }

  /** The table fs_serialize leaves behind when it succeeds. */
  function Table(files: seq<File>): (r: seq<Record>)
    requires forall i :: 0 <= i < |files| ==> ValidFile(files[i])
    requires FitsTable(files)
    ensures |r| == MAX_FILES
  {
    Pack(files) + Blanks(MAX_FILES - |Pack(files)|)
  }

  lemma {:induction false} ContinuationsLength(rest: seq<byte>)
    ensures |Continuations(rest)| == (|rest| + DATA_BYTES - 1) / DATA_BYTES
    decreases |rest|
  {
    if rest != [] {
      ContinuationsLength(rest[ChunkOf(|rest|)..]);
    }
  }

  lemma ExtentsLength(f: File)
    requires ValidFile(f)
    ensures |Extents(f)| == RecordsNeeded(|f.data|)
  {
    ContinuationsLength(f.data[ChunkOf(|f.data|)..]);
  }

  lemma {:induction false} PackAppend(a: seq<File>, b: seq<File>)
    requires forall i :: 0 <= i < |a| ==> ValidFile(a[i])
    requires forall i :: 0 <= i < |b| ==> ValidFile(b[i])
    ensures forall i :: 0 <= i < |a + b| ==> ValidFile((a + b)[i])
    ensures Pack(a + b) == Pack(a) + Pack(b)
  {
    if a == [] {
      assert a + b == b;
    } else {
      assert (a + b)[1..] == a[1..] + b;
      PackAppend(a[1..], b);
    }
  }

  // --------------------------------------------------------------------------------------
  // Reading: extent records to files

  /** The names of the head records, in order: what the duplicate-name scan looks at. */
  function HeadNames(rs: seq<Record>): seq<seq<byte>> {
    if rs == [] then []
    else (if rs[0].inUse == HEAD then [CString(rs[0].name)] else []) + HeadNames(rs[1..])
  }

  predicate ContinuationValid(r: Record, expected: nat) {
    && r.inUse == CONTINUATION
    && r.size == expected
    && forall i :: 0 <= i < MAX_FILENAME ==> r.name[i] == 0
  }

  /** The records a file of `remaining` further bytes must be followed by. */
  predicate ContinuationsValid(rs: seq<Record>, remaining: nat)
    decreases remaining
  {
    if remaining == 0 then rs == []
    else
      && rs != []
      && ContinuationValid(rs[0], ChunkOf(remaining))
      && ContinuationsValid(rs[1..], remaining - ChunkOf(remaining))
  }

  function Remaining(size: nat): nat {
    if size > DATA_BYTES then size - DATA_BYTES else 0
  }

  predicate HeadValid(r: Record) {
    && r.inUse == HEAD
    && r.size < MAX_FILE_SIZE
    && r.name[MAX_FILENAME - 1] == 0
    && ValidName(CString(r.name))
  }

  /** The bytes of one chain, gathered from its records. */
  function Gather(rs: seq<Record>, size: nat): (r: seq<byte>)
    requires rs != []
    requires |rs| * DATA_BYTES >= size
    ensures |r| == size
  {
    if size <= DATA_BYTES then rs[0].data[..size]
    else rs[0].data + Gather(rs[1..], size - DATA_BYTES)
  }

  predicate ChainValid(rs: seq<Record>, at: nat)
    requires at < |rs|
  {
    && HeadValid(rs[at])
    && CString(rs[at].name) !in HeadNames(rs[..at])
    && RecordsNeeded(rs[at].size) <= |rs| - at
    && ContinuationsValid(rs[at + 1..at + RecordsNeeded(rs[at].size)], Remaining(rs[at].size))
  }

  function ChainFile(rs: seq<Record>, at: nat): File
    requires at < |rs|
    requires RecordsNeeded(rs[at].size) <= |rs| - at
  {
    File(CString(rs[at].name), Gather(rs[at..at + RecordsNeeded(rs[at].size)], rs[at].size))
  }

  /** The file list of a version 5 table from record `at` on; None when the table is rejected. */
  function ParseFrom(rs: seq<Record>, at: nat): Option<seq<File>>
    requires at <= |rs|
    decreases |rs| - at
  {
    if at == |rs| then Some([])
    else if rs[at].inUse == 0 then ParseFrom(rs, at + 1)
    else if !ChainValid(rs, at) then None
    else
      match ParseFrom(rs, at + RecordsNeeded(rs[at].size))
      case None => None
      case Some(rest) => Some([ChainFile(rs, at)] + rest)
  }

  function Parse(rs: seq<Record>): Option<seq<File>> {
    ParseFrom(rs, 0)
  }

  // --------------------------------------------------------------------------------------
  // Round trip

  lemma {:induction false} HeadNamesAppend(a: seq<Record>, b: seq<Record>)
    ensures HeadNames(a + b) == HeadNames(a) + HeadNames(b)
  {
    if a == [] {
      assert a + b == b;
    } else {
      assert (a + b)[1..] == a[1..] + b;
      HeadNamesAppend(a[1..], b);
    }
  }

  lemma {:induction false} ContinuationsHaveNoHead(rest: seq<byte>)
    ensures HeadNames(Continuations(rest)) == []
    decreases |rest|
  {
    if rest != [] {
      ContinuationsHaveNoHead(rest[ChunkOf(|rest|)..]);
    }
  }

  lemma NameFieldRoundTrip(name: seq<byte>)
    requires ValidName(name)
    ensures CString(NameField(name)) == name
    ensures NameField(name)[MAX_FILENAME - 1] == 0
  {
    CStringOfPadded(name, Zeros(MAX_FILENAME - |name|));
  }

  lemma ExtentsHeadNames(f: File)
    requires ValidFile(f)
    ensures HeadNames(Extents(f)) == [f.name]
  {
    NameFieldRoundTrip(f.name);
    ContinuationsHaveNoHead(f.data[ChunkOf(|f.data|)..]);
    assert Extents(f)[1..] == Continuations(f.data[ChunkOf(|f.data|)..]);
  }

  lemma {:induction false} PackHeadNames(files: seq<File>)
    requires forall i :: 0 <= i < |files| ==> ValidFile(files[i])
    ensures Lists(HeadNames(Pack(files)), files)
  {
    if files != [] {
      ExtentsHeadNames(files[0]);
      PackHeadNames(files[1..]);
      HeadNamesAppend(Extents(files[0]), Pack(files[1..]));
    }
  }

  lemma {:induction false} ContinuationsAreValid(rest: seq<byte>)
    ensures ContinuationsValid(Continuations(rest), |rest|)
    decreases |rest|
  {
    if rest != [] {
      var n := ChunkOf(|rest|);
      ContinuationsAreValid(rest[n..]);
      assert Continuations(rest)[1..] == Continuations(rest[n..]);
    }
  }

  lemma {:induction false} GatherContinuations(first: Record, head: seq<byte>, rest: seq<byte>)
    requires rest != [] ==> |head| == DATA_BYTES
    requires |head| <= DATA_BYTES && first.data == DataField(head)
    ensures |[first] + Continuations(rest)| * DATA_BYTES >= |head| + |rest|
    ensures Gather([first] + Continuations(rest), |head| + |rest|) == head + rest
    decreases |rest|
  {
    ContinuationsLength(rest);
    if rest != [] {
      var n := ChunkOf(|rest|);
      var next := ContinuationRecord(rest[..n]);
      GatherContinuations(next, rest[..n], rest[n..]);
      assert rest[..n] + rest[n..] == rest;
      assert ([first] + Continuations(rest))[1..] == [next] + Continuations(rest[n..]);
      assert first.data == head;
    }
  }

  lemma ParseStep(rs: seq<Record>, at: nat, rest: seq<File>)
    requires at < |rs| && rs[at].inUse == HEAD && ChainValid(rs, at)
    requires ParseFrom(rs, at + RecordsNeeded(rs[at].size)) == Some(rest)
    ensures ParseFrom(rs, at) == Some([ChainFile(rs, at)] + rest)
  {
  }

  /** A suffix `rs[at..]` that packs `files`, none of them named like a head before it. */
  ghost predicate PackedAt(rs: seq<Record>, at: nat, files: seq<File>, blanks: nat) {
    && ValidFiles(files)
    && at <= |rs| && rs[at..] == Pack(files) + Blanks(blanks)
    && forall i :: 0 <= i < |files| ==> files[i].name !in HeadNames(rs[..at])
  }

  lemma TailNames(rs: seq<Record>, at: nat, files: seq<File>)
    requires files != [] && DistinctNames(files)
    requires at < |rs| && ChainValid(rs, at) && CString(rs[at].name) == files[0].name
    requires forall i :: 0 <= i < |files| ==> files[i].name !in HeadNames(rs[..at])
    ensures var before := HeadNames(rs[..at + RecordsNeeded(rs[at].size)]);
            forall i :: 0 <= i < |files[1..]| ==> files[1..][i].name !in before
  {
    ChainHeadNames(rs, at);
  }

  lemma PackedStep(rs: seq<Record>, at: nat, files: seq<File>, blanks: nat)
    requires PackedAt(rs, at, files, blanks) && files != []
    ensures at < |rs| && rs[at].inUse == HEAD && ChainValid(rs, at)
    ensures ChainFile(rs, at) == files[0]
    ensures PackedAt(rs, at + RecordsNeeded(rs[at].size), files[1..], blanks)
  {
    var rest := Pack(files[1..]) + Blanks(blanks);
    assert rs[at..] == Extents(files[0]) + rest;
    PackedChain(rs, at, files[0], rest);
    TailNames(rs, at, files);
  }

  /** Parsing a packed suffix gives the packed files. */
  lemma {:induction false} ParsePacked(rs: seq<Record>, at: nat, files: seq<File>, blanks: nat)
    requires PackedAt(rs, at, files, blanks)
    ensures ParseFrom(rs, at) == Some(files)
    decreases |files|
  {
    hide ParseFrom;
    if files == [] {
      assert forall i :: at <= i < |rs| ==> rs[i] == rs[at..][i - at];
      ParseBlanks(rs, at);
    } else {
      hide PackedAt;
      PackedStep(rs, at, files, blanks);
      ParsePacked(rs, at + RecordsNeeded(rs[at].size), files[1..], blanks);
      ParseStep(rs, at, files[1..]);
      assert [files[0]] + files[1..] == files;
    }
  }

  lemma {:induction false} ParseBlanks(rs: seq<Record>, at: nat)
    requires at <= |rs|
    requires forall i :: at <= i < |rs| ==> rs[i] == BLANK
    ensures ParseFrom(rs, at) == Some([])
    decreases |rs| - at
  {
    if at < |rs| {
      ParseBlanks(rs, at + 1);
    }
  }

  lemma SplitAt<T>(rs: seq<T>, at: nat, a: seq<T>, rest: seq<T>)
    requires at <= |rs| && rs[at..] == a + rest
    requires a != []
    ensures at + |a| <= |rs|
    ensures rs[at] == a[0]
    ensures rs[at..at + |a|] == a && rs[at + 1..at + |a|] == a[1..]
    ensures rs[at + |a|..] == rest
  {
    assert rs[at..][0] == a[0];
    assert rs[at..at + |a|] == rs[at..][..|a|];
    assert rs[at + 1..at + |a|] == rs[at..][1..|a|];
    assert rs[at + |a|..] == rs[at..][|a|..];
  }

  lemma ExtentsChain(f: File)
    requires ValidFile(f)
    ensures |Extents(f)| == RecordsNeeded(|f.data|)
    ensures HeadValid(Extents(f)[0]) && CString(Extents(f)[0].name) == f.name
    ensures ContinuationsValid(Extents(f)[1..], Remaining(|f.data|))
    ensures Gather(Extents(f), |f.data|) == f.data
  {
    var n := ChunkOf(|f.data|);
    ExtentsLength(f);
    NameFieldRoundTrip(f.name);
    ContinuationsAreValid(f.data[n..]);
    assert Extents(f)[1..] == Continuations(f.data[n..]);
    GatherContinuations(HeadRecord(f), f.data[..n], f.data[n..]);
    assert f.data[..n] + f.data[n..] == f.data;
  }

  lemma PackedChain(rs: seq<Record>, at: nat, f: File, rest: seq<Record>)
    requires ValidFile(f)
    requires at <= |rs| && rs[at..] == Extents(f) + rest
    requires f.name !in HeadNames(rs[..at])
    ensures at < |rs| && rs[at].inUse == HEAD && rs[at].size == |f.data|
    ensures ChainValid(rs, at) && ChainFile(rs, at) == f
    ensures rs[at + RecordsNeeded(|f.data|)..] == rest
  {
    ExtentsChain(f);
    SplitAt(rs, at, Extents(f), rest);
  }

  /** Serializing any valid file list that fits and parsing the table gives the list back. */
  lemma TableRoundTrip(files: seq<File>)
    requires ValidFiles(files)
    requires FitsTable(files)
    ensures Parse(Table(files)) == Some(files)
  {
    ParsePacked(Table(files), 0, files, MAX_FILES - |Pack(files)|);
  }

  // --------------------------------------------------------------------------------------
  // Everything the parser accepts can be written again

  lemma {:induction false} ContinuationsValidHaveNoHead(rs: seq<Record>, remaining: nat)
    requires ContinuationsValid(rs, remaining)
    ensures HeadNames(rs) == []
    decreases remaining
  {
    if remaining != 0 {
      ContinuationsValidHaveNoHead(rs[1..], remaining - ChunkOf(remaining));
    }
  }

  lemma ChainHeadNames(rs: seq<Record>, at: nat)
    requires at < |rs| && ChainValid(rs, at)
    ensures var next := at + RecordsNeeded(rs[at].size);
            HeadNames(rs[..next]) == HeadNames(rs[..at]) + [CString(rs[at].name)]
  {
    var next := at + RecordsNeeded(rs[at].size);
    assert rs[..next] == rs[..at] + ([rs[at]] + rs[at + 1..next]);
    HeadNamesAppend(rs[..at], [rs[at]] + rs[at + 1..next]);
    ContinuationsValidHaveNoHead(rs[at + 1..next], Remaining(rs[at].size));
    assert ([rs[at]] + rs[at + 1..next])[1..] == rs[at + 1..next];
  }

  /** What parsing from `at` on promises of its files. */
  ghost predicate ParsedAt(rs: seq<Record>, at: nat, files: seq<File>) {
    && at <= |rs|
    && ValidFiles(files)
    && |Pack(files)| <= |rs| - at
    && forall i :: 0 <= i < |files| ==> files[i].name !in HeadNames(rs[..at])
  }

  lemma ParsedSkip(rs: seq<Record>, at: nat, files: seq<File>)
    requires at < |rs| && rs[at].inUse == 0
    requires ParsedAt(rs, at + 1, files)
    ensures ParsedAt(rs, at, files)
  {
    assert rs[..at + 1] == rs[..at] + [rs[at]];
    HeadNamesAppend(rs[..at], [rs[at]]);
  }

  lemma ParsedCons(rs: seq<Record>, at: nat, rest: seq<File>)
    requires at < |rs| && ChainValid(rs, at)
    requires ParsedAt(rs, at + RecordsNeeded(rs[at].size), rest)
    ensures ParsedAt(rs, at, [ChainFile(rs, at)] + rest)
  {
    var f := ChainFile(rs, at);
    ChainHeadNames(rs, at);
    assert f.name in HeadNames(rs[..at + RecordsNeeded(rs[at].size)]);
    ExtentsLength(f);
    assert ([f] + rest)[1..] == rest;
  }

  lemma {:induction false} ParsedFilesAreValid(rs: seq<Record>, at: nat)
    requires at <= |rs|
    requires ParseFrom(rs, at).Some?
    ensures ParsedAt(rs, at, ParseFrom(rs, at).value)
    decreases |rs| - at
  {
    hide ParsedAt;
    if at == |rs| {
      assert ParsedAt(rs, at, []) by { ParsedNothing(rs); }
    } else if rs[at].inUse == 0 {
      ParsedFilesAreValid(rs, at + 1);
      ParsedSkip(rs, at, ParseFrom(rs, at + 1).value);
    } else {
      var next := at + RecordsNeeded(rs[at].size);
      ParsedFilesAreValid(rs, next);
      ParsedCons(rs, at, ParseFrom(rs, next).value);
    }
  }

  lemma ParsedNothing(rs: seq<Record>)
    ensures ParsedAt(rs, |rs|, [])
  {
  }

  /** Every accepted table re-serializes, and to a table that reads as the same files. */
  lemma AcceptedTableReserializes(rs: seq<Record>)
    requires |rs| == MAX_FILES
    requires Parse(rs).Some?
    ensures var files := Parse(rs).value;
            ValidFiles(files) && FitsTable(files) && Parse(Table(files)) == Some(files)
  {
    ParsedFilesAreValid(rs, 0);
    TableRoundTrip(Parse(rs).value);
  }
}
