/** The packed byte image of a record table: 32 records of 1061 bytes and zero padding up to
    a whole number of 512-byte sectors. */
module FsImage {
  import opened Bytes
  import opened FsTable

  const SECTOR: nat := 512
  const RECORD_BYTES: nat := 1061
  const TABLE_BYTES: nat := 33952
  const TABLE_SECTORS: nat := 67
  const IMAGE_BYTES: nat := 34304

  function RecordBytes(r: Record): (s: seq<byte>)
    ensures |s| == RECORD_BYTES
  {
    [r.inUse] + r.name + U32Le(r.size) + r.data
  }

  function RecordOf(s: seq<byte>): Record
    requires |s| == RECORD_BYTES
  {
    Record(s[0], s[1..33], ReadU32Le(s, 33), s[37..1061])
  }

  function Flatten(rs: seq<Record>): (s: seq<byte>)
    ensures |s| == RECORD_BYTES * |rs|
  {
    if rs == [] then [] else RecordBytes(rs[0]) + Flatten(rs[1..])
  }

  function Image(rs: seq<Record>): (s: seq<byte>)
    requires |rs| == MAX_FILES
    ensures |s| == IMAGE_BYTES
  {
    Flatten(rs) + Zeros(IMAGE_BYTES - TABLE_BYTES)
  }

  /** The records a table image is read as. */
  function Records(image: seq<byte>): (rs: seq<Record>)
    requires |image| == IMAGE_BYTES
    ensures |rs| == MAX_FILES
  {
    seq(MAX_FILES, i requires 0 <= i < MAX_FILES =>
      RecordOf(image[RECORD_BYTES * i..RECORD_BYTES * i + RECORD_BYTES]))
  }

  lemma RecordRoundTrip(r: Record)
    ensures RecordOf(RecordBytes(r)) == r
  {
    var s := RecordBytes(r);
    U32LeRoundTrip(r.size);
    assert s[33..37] == U32Le(r.size);
    assert ReadU32Le(s, 33) == ReadU32Le(s[33..37], 0);
    assert s[1..33] == r.name;
    assert s[37..1061] == r.data;
  }

  lemma {:induction false} FlattenSlice(rs: seq<Record>, i: nat)
    requires i < |rs|
    ensures Flatten(rs)[RECORD_BYTES * i..RECORD_BYTES * i + RECORD_BYTES] == RecordBytes(rs[i])
  {
    if i > 0 {
      FlattenSlice(rs[1..], i - 1);
      var k := RECORD_BYTES * (i - 1);
      assert Flatten(rs)[k + RECORD_BYTES..k + 2 * RECORD_BYTES] == Flatten(rs[1..])[k..k + RECORD_BYTES];
    }
  }

  lemma ImageRoundTrip(rs: seq<Record>)
    requires |rs| == MAX_FILES
    ensures Records(Image(rs)) == rs
  {
    forall i | 0 <= i < MAX_FILES ensures Records(Image(rs))[i] == rs[i] {
      var k := RECORD_BYTES * i;
      FlattenSlice(rs, i);
      RecordRoundTrip(rs[i]);
      assert 0 <= k && k + RECORD_BYTES <= |Flatten(rs)|;
      assert Image(rs)[k..k + RECORD_BYTES] == Flatten(rs)[k..k + RECORD_BYTES];
    }
  }
}
