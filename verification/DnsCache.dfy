/** kernel/net.c: the eight-entry DNS cache, positive and negative (section 5 of RFC 2308). */
module DnsCache {
  import opened Bytes
  import opened Ipv4

  const SLOTS: nat := 8

  datatype Entry = Entry(valid: bool, negative: bool, name: seq<byte>, address: u32, code: byte, expires: u64, lastUsed: u64)

  const EMPTY := Entry(false, false, [], 0, 0, 0, 0)

  /** What a store said about a name, and until when. */
  datatype Stored = Stored(negative: bool, address: u32, code: byte, expires: u64)

  datatype Answer = Miss | Hit(negative: bool, address: u32, code: byte, remaining: u32)

  function Fold(name: seq<byte>): (r: seq<byte>)
    ensures |r| == |name| && forall i :: 0 <= i < |r| ==> r[i] == Lower(name[i])
  {
    seq(|name|, i requires 0 <= i < |name| => Lower(name[i]))
  }

  lemma FoldIsSame(a: seq<byte>, b: seq<byte>)
    ensures SameIgnoringCase(a, b) <==> Fold(a) == Fold(b)
  {
    if Fold(a) == Fold(b) {
      assert forall i :: 0 <= i < |a| ==> Lower(a[i]) == Fold(a)[i] == Fold(b)[i] == Lower(b[i]);
    }
  }

  function Of(e: Entry): Stored {
    Stored(e.negative, e.address, e.code, e.expires)
  }

  function SaturatingAdd(a: u64, b: u64): u64 {
    if b > U64_MAX - a then U64_MAX else a + b
  }

  /** dns_cache_remaining_seconds: rounded up, so it is zero only at or after expiry. */
  function Remaining(expires: u64, now: u64): (r: u32)
    ensures r == 0 <==> expires <= now
    ensures r < 0xFFFF_FFFF && expires > now ==> (r - 1) * 1000 < expires - now <= r * 1000
  {
    if expires <= now then 0
    else
      var left := expires - now;
      var seconds := left / 1000 + if left % 1000 != 0 then 1 else 0;
      if seconds > 0xFFFF_FFFF then 0xFFFF_FFFF else seconds
  }

  // --------------------------------------------------------------------------------------
  // The invariant

  /** At most one valid entry per name, whatever its case. */
  ghost predicate OnePerName(es: seq<Entry>) {
    forall i, j :: 0 <= i < j < |es| && es[i].valid && es[j].valid ==> Fold(es[i].name) != Fold(es[j].name)
  }

  /** Every valid entry repeats the latest store for its name. */
  ghost predicate Current(es: seq<Entry>, latest: map<seq<byte>, Stored>) {
    forall i :: 0 <= i < |es| && es[i].valid ==> Fold(es[i].name) in latest && latest[Fold(es[i].name)] == Of(es[i])
  }

  ghost predicate Ok(es: seq<Entry>, latest: map<seq<byte>, Stored>) {
    |es| == SLOTS && OnePerName(es) && Current(es, latest)
  }

  predicate Named(e: Entry, name: seq<byte>) {
    e.valid && SameIgnoringCase(e.name, name)
  }

  predicate Live(e: Entry, now: u64) {
    e.valid && e.expires > now
  }

  /** What expiry does to each entry. */
  function Expired(es: seq<Entry>, now: u64): (r: seq<Entry>)
    ensures |r| == |es|
    ensures forall i :: 0 <= i < |r| ==> r[i] == if es[i].valid && es[i].expires <= now then es[i].(valid := false) else es[i]
  {
    seq(|es|, i requires 0 <= i < |es| => if es[i].valid && es[i].expires <= now then es[i].(valid := false) else es[i])
  }

  lemma ExpiredOk(es: seq<Entry>, latest: map<seq<byte>, Stored>, now: u64)
    requires Ok(es, latest)
    ensures Ok(Expired(es, now), latest)
  {
    hide Fold;
  }

  /** Writing an entry for a name that no other valid entry has. */
  lemma WriteOk(es: seq<Entry>, latest: map<seq<byte>, Stored>, k: nat, e: Entry)
    requires Ok(es, latest) && k < |es| && e.valid
    requires forall j :: 0 <= j < |es| && j != k ==> !Named(es[j], e.name)
    ensures Ok(es[k := e], latest[Fold(e.name) := Of(e)])
  {
    hide Fold;
    forall j | 0 <= j < |es| && j != k && es[j].valid ensures Fold(es[j].name) != Fold(e.name) {
      assert !Named(es[j], e.name);
      FoldIsSame(es[j].name, e.name);
    }
  }

  /** A store that finds no room leaves no entry for its name. */
  lemma DropOk(es: seq<Entry>, latest: map<seq<byte>, Stored>, name: seq<byte>, s: Stored)
    requires Ok(es, latest) && forall j :: 0 <= j < |es| ==> !Named(es[j], name)
    ensures Ok(es, latest[Fold(name) := s])
  {
    hide Fold;
    forall j | 0 <= j < |es| && es[j].valid ensures Fold(es[j].name) != Fold(name) {
      assert !Named(es[j], name);
      FoldIsSame(es[j].name, name);
    }
  }

  /** Only one entry can be found for a name. */
  lemma NamedOnce(es: seq<Entry>, latest: map<seq<byte>, Stored>, name: seq<byte>, i: nat, j: nat)
    requires Ok(es, latest) && i < |es| && j < |es| && Named(es[i], name) && Named(es[j], name)
    ensures i == j
  {
    hide Fold;
    FoldIsSame(es[i].name, name);
    FoldIsSame(es[j].name, name);
    assert Fold(es[i].name) == Fold(es[j].name);
  }

  lemma TouchOk(es: seq<Entry>, latest: map<seq<byte>, Stored>, k: nat, now: u64)
    requires Ok(es, latest) && k < |es|
    ensures Ok(es[k := es[k].(lastUsed := now)], latest)
  {
    hide Fold;
  }

  // --------------------------------------------------------------------------------------

  class Cache {
    var slots: seq<Entry>
    var now: u64
    var config: Config
    var hits: nat
    var misses: nat
    var evictions: nat
    var expirations: nat
    /** The latest store for every name since the cache was last cleared. */
    ghost var latest: map<seq<byte>, Stored>

    ghost predicate Valid()
      reads this
    {
      Ok(slots, latest)
    }

    constructor (time: u64)
      ensures Valid() && latest == map[] && now == time && forall i :: 0 <= i < SLOTS ==> !slots[i].valid
    {
      slots := seq(SLOTS, i => EMPTY);
      now, config := time, UNCONFIGURED;
      hits, misses, evictions, expirations := 0, 0, 0, 0;
      latest := map[];
    }

    /** dns_cache_expire. */
    method Expire()
      requires Valid()
      modifies this`slots, this`expirations
      ensures Valid() && slots == Expired(old(slots), now)
    {
      hide Fold;
      ghost var was := slots;
      ExpiredOk(slots, latest, now);
      for i := 0 to SLOTS
        invariant |slots| == SLOTS
        invariant forall k :: 0 <= k < i ==> slots[k] == Expired(was, now)[k]
        invariant forall k :: i <= k < SLOTS ==> slots[k] == was[k]
      {
        if slots[i].valid && slots[i].expires <= now {
          slots := slots[i := slots[i].(valid := false)];
          expirations := expirations + 1;
        }
      }
      assert slots == Expired(was, now);
    }

    /** dns_cache_find: the entry for a name, or SLOTS. */
    method Find(name: seq<byte>) returns (k: nat)
      requires Valid()
      ensures k <= SLOTS
      ensures k < SLOTS ==> Named(slots[k], name)
      ensures forall j :: 0 <= j < SLOTS && j != k ==> !Named(slots[j], name)
    {
      hide Named;
      k := 0;
      while k < SLOTS
        invariant k <= SLOTS && forall j :: 0 <= j < k ==> !Named(slots[j], name)
      {
        if Named(slots[k], name) {
          forall j | 0 <= j < SLOTS && j != k ensures !Named(slots[j], name) {
            if Named(slots[j], name) { NamedOnce(slots, latest, name, j, k); }
          }
          return;
        }
        k := k + 1;
      }
    }

    /** The slot for a new name: a free one, else the least recently used; SLOTS if every entry
        was last used at the very end of time. */
    method Select() returns (k: nat)
      requires |slots| == SLOTS
      ensures k <= SLOTS
      ensures k < SLOTS && slots[k].valid ==>
                && (forall j :: 0 <= j < SLOTS ==> slots[j].valid && slots[k].lastUsed <= slots[j].lastUsed)
                && slots[k].lastUsed < U64_MAX
      ensures k == SLOTS <==> forall j :: 0 <= j < SLOTS ==> slots[j].valid && slots[j].lastUsed == U64_MAX
    {
      var oldest := U64_MAX;
      k := SLOTS;
      for i := 0 to SLOTS
        invariant k == SLOTS || k < i
        invariant forall j :: 0 <= j < i ==> slots[j].valid && oldest <= slots[j].lastUsed
        invariant k == SLOTS <==> oldest == U64_MAX
        invariant k < SLOTS ==> slots[k].lastUsed == oldest
      {
        if !slots[i].valid { return i; }
        if slots[i].lastUsed < oldest {
          oldest := slots[i].lastUsed;
          k := i;
        }
      }
    }

    /** dns_cache_store: at most one entry changes; one in use is given up only when no entry has
        the name, every entry is in use, and it is a least recently used one. */
    method Store(name: seq<byte>, negative: bool, address: u32, code: byte, ttl: u32)
      requires Valid()
      modifies this`slots, this`latest, this`evictions, this`expirations
      ensures Valid()
      ensures ttl == 0 ==> slots == old(slots) && latest == old(latest)
      ensures ttl > 0 ==>
        var s := Stored(negative, if negative then 0 else address, code, SaturatingAdd(now, ttl * 1000));
        var kept := Expired(old(slots), now);
        && latest == old(latest)[Fold(name) := s]
        && (if forall j :: 0 <= j < SLOTS ==> kept[j].valid && kept[j].lastUsed == U64_MAX && !Named(kept[j], name)
            then slots == kept && evictions == old(evictions)
            else exists k :: 0 <= k < SLOTS && slots == kept[k := EntryOf(name, s, now)] && MayReplace(kept, k, name)
                             && evictions == old(evictions) + if kept[k].valid && !Named(kept[k], name) then 1 else 0)
    {
      hide Fold, OnePerName, Current, Named;
      if ttl == 0 { return; }
      Expire();
      ghost var kept := slots;
      ghost var s := Stored(negative, if negative then 0 else address, code, SaturatingAdd(now, ttl * 1000));
      var k := Find(name);
      if k == SLOTS {
        k := Select();
        if k < SLOTS && slots[k].valid { evictions := evictions + 1; }
      }
      if k == SLOTS {
        DropOk(slots, latest, name, s);
        latest := latest[Fold(name) := s];
        return;
      }
      var e := Entry(true, negative, name, if negative then 0 else address, code, SaturatingAdd(now, ttl * 1000), now);
      WriteOk(slots, latest, k, e);
      assert MayReplace(kept, k, name);
      slots := slots[k := e];
      latest := latest[Fold(name) := s];
      assert e == EntryOf(name, s, now);
    }

    /** The cache part of net_dns_query: a hit repeats the latest store for the name, strictly
        before it expires. */
    method Query(name: seq<byte>) returns (a: Answer)
      requires Valid()
      modifies this`slots, this`hits, this`misses, this`expirations
      ensures Valid()
      ensures a.Hit? ==>
        && Fold(name) in latest && now < latest[Fold(name)].expires
        && a == Hit(latest[Fold(name)].negative, latest[Fold(name)].address, latest[Fold(name)].code,
                    Remaining(latest[Fold(name)].expires, now))
      ensures a.Hit? <==> exists k :: 0 <= k < SLOTS && Live(old(slots)[k], now) && Named(old(slots)[k], name)
      ensures hits + misses == old(hits + misses) + 1 && (a.Hit? <==> hits > old(hits))
      ensures var kept := Expired(old(slots), now);
              if a.Hit? then exists k :: 0 <= k < SLOTS && Named(kept[k], name) && slots == kept[k := kept[k].(lastUsed := now)]
              else slots == kept
    {
      hide Fold, OnePerName;
      Expire();
      ghost var kept := slots;
      var k := Find(name);
      if k < SLOTS {
        var e := slots[k];
        FoldIsSame(e.name, name);
        var remaining := Remaining(e.expires, now);
        // Expiry has just removed every entry without time left.
        assert remaining != 0;
        assert Live(old(slots)[k], now) && Named(old(slots)[k], name);
        TouchOk(slots, latest, k, now);
        hits := hits + 1;
        slots := slots[k := e.(lastUsed := now)];
        assert Named(kept[k], name) && slots == kept[k := kept[k].(lastUsed := now)];
        return Hit(e.negative, e.address, e.code, remaining);
      }
      misses := misses + 1;
      forall j | 0 <= j < SLOTS ensures !(Live(old(slots)[j], now) && Named(old(slots)[j], name)) {
        assert !Named(slots[j], name);
      }
      return Miss;
    }

    /** net_configure_ipv4: another network or resolver forgets every answer. */
    method Configure(c: Config)
      requires Valid()
      modifies this`slots, this`config, this`latest
      ensures Valid() && config == c
      ensures c == old(config) ==> slots == old(slots) && latest == old(latest)
      ensures c != old(config) ==> latest == map[] && forall i :: 0 <= i < SLOTS ==> !slots[i].valid
    {
      hide Fold;
      var networkChanged := config.address != c.address || config.netmask != c.netmask || config.gateway != c.gateway;
      var resolverChanged := config.dns != c.dns;
      config := c;
      if networkChanged || resolverChanged { Clear(); }
    }

    /** net_dns_cache_clear. */
    method Clear()
      modifies this`slots, this`latest
      ensures Valid() && latest == map[] && forall i :: 0 <= i < SLOTS ==> !slots[i].valid
    {
      hide Fold;
      slots := seq(SLOTS, i => EMPTY);
      latest := map[];
    }

    /** net_clear_ipv4. */
    method ClearConfig()
      requires Valid()
      modifies this`slots, this`config, this`latest
      ensures Valid() && config == UNCONFIGURED && latest == map[]
    {
      config := UNCONFIGURED;
      Clear();
    }

    /** The clock of net_tick; it may also go back. */
    method Tick(time: u64)
      requires Valid()
      modifies this`slots, this`now, this`expirations
      ensures Valid() && now == time && slots == Expired(old(slots), time)
    {
      now := time;
      Expire();
    }
  }

  function EntryOf(name: seq<byte>, s: Stored, now: u64): Entry {
    Entry(true, s.negative, name, s.address, s.code, s.expires, now)
  }

  /** A slot a store may write: its name's own, a free one, or a least recently used one. */
  ghost predicate MayReplace(es: seq<Entry>, k: nat, name: seq<byte>)
    requires k < |es|
  {
    || Named(es[k], name)
    || ((forall j :: 0 <= j < |es| ==> !Named(es[j], name))
        && (!es[k].valid || forall j :: 0 <= j < |es| ==> es[j].valid && es[k].lastUsed <= es[j].lastUsed))
  }
}
