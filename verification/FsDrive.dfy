/** The ATA drive as kernel/fs.c sees it: reads that may fail, and writes with three outcomes. */
module FsDrive {
  import opened Bytes
  import opened FsImage
  import opened FsDisk

  datatype WriteResult = Failed | Complete | Uncertain

  datatype InitResult = Ready | NoDevice | InitError

  /** Sectors below `s` have landed or not; nothing else differs. */
  ghost predicate TornBelow(m: Media, at: nat, data: seq<byte>, s: nat, m': Media)
    requires SECTOR * s <= |data| && at + |data| <= |m|
  {
    && (forall i :: 0 <= i < at || at + SECTOR * s <= i < |m| ==> m'[i] == m[i])
    && forall k: nat :: k < s ==>
         || SectorAt(m', at, k) == SectorAt(m, at, k)
         || SectorAt(m', at, k) == data[SECTOR * k..SECTOR * k + SECTOR]
  }

  lemma LandOne(m: Media, at: nat, data: seq<byte>, s: nat, m': Media)
    requires SECTOR * s + SECTOR <= |data| && at + |data| <= |m|
    requires TornBelow(m, at, data, s, m')
    ensures TornBelow(m, at, data, s + 1, Splice(m', at + SECTOR * s, data[SECTOR * s..SECTOR * s + SECTOR]))
  {
    var piece := data[SECTOR * s..SECTOR * s + SECTOR];
    var m'' := Splice(m', at + SECTOR * s, piece);
    SpliceReads(m', at + SECTOR * s, piece);
    assert SectorAt(m'', at, s) == piece;
    forall k: nat | k < s ensures SectorAt(m'', at, k) == SectorAt(m', at, k) {
    }
  }

  lemma SkipOne(m: Media, at: nat, data: seq<byte>, s: nat, m': Media)
    requires SECTOR * s + SECTOR <= |data| && at + |data| <= |m|
    requires TornBelow(m, at, data, s, m')
    ensures TornBelow(m, at, data, s + 1, m')
  {
    assert SectorAt(m', at, s) == SectorAt(m, at, s);
  }

  /** Any subset of the sectors of a request reaches the media. */
  method LandSome(m: Media, at: nat, data: seq<byte>) returns (m': Media)
    requires |data| % SECTOR == 0 && at + |data| <= |m|
    ensures Torn(m, at, data, m')
  {
    m' := m;
    for s := 0 to |data| / SECTOR
      invariant TornBelow(m, at, data, s, m')
    {
      if * {
        LandOne(m, at, data, s, m');
        m' := Splice(m', at + SECTOR * s, data[SECTOR * s..SECTOR * s + SECTOR]);
      } else {
        SkipOne(m, at, data, s, m');
      }
    }
    TornDone(m, at, data, m');
  }

  lemma TornDone(m: Media, at: nat, data: seq<byte>, m': Media)
    requires |data| % SECTOR == 0 && at + |data| <= |m|
    requires TornBelow(m, at, data, |data| / SECTOR, m')
    ensures Torn(m, at, data, m')
  {
  }

  class Drive {
    var media: Media
    /** Every state a power cut could have left so far. */
    ghost var crashable: iset<Media>
    /** How many requests did not complete cleanly. */
    ghost var faults: nat

    constructor (m: Media)
      ensures media == m && crashable == iset{m} && faults == 0
    {
      media := m;
      crashable := iset{m};
      faults := 0;
    }

    method Init() returns (r: InitResult)
      modifies this`faults
      ensures faults == old(faults) + if r == Ready then 0 else 1
    {
      if * { return Ready; }
      faults := faults + 1;
      if * { return NoDevice; }
      return InitError;
    }

    /** ata_read: either the sectors, or a reported error. */
    method Read(sector: nat, count: nat) returns (ok: bool, data: seq<byte>)
      requires SECTOR * (sector + count) <= |media|
      modifies this`faults
      ensures ok ==> data == media[SECTOR * sector..SECTOR * (sector + count)]
      ensures faults == old(faults) + if ok then 0 else 1
    {
      if * {
        faults := faults + 1;
        return false, [];
      }
      return true, media[SECTOR * sector..SECTOR * (sector + count)];
    }

    /** ata_write: nothing transferred, everything flushed, or any of the sectors landed. */
    method Write(sector: nat, data: seq<byte>) returns (r: WriteResult)
      requires |data| % SECTOR == 0
      requires SECTOR * sector + |data| <= |media|
      modifies this
      ensures faults == old(faults) + if r == Complete then 0 else 1
      ensures r == Failed ==> media == old(media)
      ensures r == Complete ==> media == Splice(old(media), SECTOR * sector, data)
      ensures r == Uncertain ==> Torn(old(media), SECTOR * sector, data, media)
      ensures forall m: Media :: m in crashable ==>
                m in old(crashable) || Torn(old(media), SECTOR * sector, data, m)
    {
      var at := SECTOR * sector;
      if * {
        faults := faults + 1;
        return Failed;
      }
      crashable := iset m: Media | m in crashable || Torn(media, at, data, m);
      if * {
        media := Splice(media, at, data);
        return Complete;
      }
      media := LandSome(media, at, data);
      faults := faults + 1;
      return Uncertain;
    }
  }
}
