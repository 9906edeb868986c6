/** kernel/net.c: resource records and the search for an address through aliases. */
module DnsAnswer {
  import opened Bytes
  import opened Options
  import opened DnsName
  import opened Ipv4

  const TYPE_A: nat := 1
  const TYPE_CNAME: nat := 5
  const CLASS_IN: nat := 1
  const MAX_ALIASES: nat := 8
  const TTL_MAX: nat := 0xFFFF_FFFF

  // --------------------------------------------------------------------------------------
  // Records

  datatype Record = Record(owner: seq<byte>, kind: nat, class_: nat, ttl: u32, at: nat, size: nat) {
    function Next(): nat { at + size }
  }

  /** dns_read_record, with the owner's name. */
  function RecordAt(msg: seq<byte>, offset: nat): (r: Option<Record>)
    ensures r.Some? ==> r.value.Next() <= |msg|
  {
    match Expand(msg, offset, [], None, 0)
    case None => None
    case Some(e) =>
      if e.next > |msg| || |msg| - e.next < 10 then None
      else
        var size := ReadU16Be(msg, e.next + 8);
        if size > |msg| - (e.next + 10) then None
        else Some(Record(e.name, ReadU16Be(msg, e.next), ReadU16Be(msg, e.next + 2), ReadU32Be(msg, e.next + 4), e.next + 10, size))
  }

  method ReadRecord(msg: seq<byte>, offset: nat) returns (r: Option<Record>)
    ensures r == RecordAt(msg, offset)
  {
    hide Expand;
    if offset >= |msg| {
      NothingThere(msg, offset);
      return None;
    }
    var e := ExpandName(msg, offset);
    if e.None? || e.value.next > |msg| || |msg| - e.value.next < 10 { return None; }
    var cursor := e.value.next;
    var size := ReadU16Be(msg, cursor + 8);
    if size > |msg| - (cursor + 10) { return None; }
    return Some(Record(e.value.name, ReadU16Be(msg, cursor), ReadU16Be(msg, cursor + 2), ReadU32Be(msg, cursor + 4), cursor + 10, size));
  }

  lemma NothingThere(msg: seq<byte>, offset: nat)
    requires offset >= |msg|
    ensures Expand(msg, offset, [], None, 0) == None
  {
  }

  /** The next `count` records from `offset` on, if all can be read. */
  function RecordsAt(msg: seq<byte>, offset: nat, count: nat): (r: Option<seq<Record>>)
    ensures r.Some? ==> |r.value| == count && forall i :: 0 <= i < count ==> r.value[i].Next() <= |msg|
    decreases count
  {
    if count == 0 then Some([])
    else
      match RecordAt(msg, offset)
      case None => None
      case Some(first) =>
        match RecordsAt(msg, first.Next(), count - 1)
        case None => None
        case Some(rest) => Some([first] + rest)
  }

  // --------------------------------------------------------------------------------------
  // One name

  predicate Owns(r: Record, name: seq<byte>) {
    r.class_ == CLASS_IN && SameIgnoringCase(r.owner, name)
  }

  /** A usable address of `name`. */
  predicate AddressOf(msg: seq<byte>, r: Record, name: seq<byte>) {
    Owns(r, name) && r.kind == TYPE_A && r.size == 4 && r.Next() <= |msg| && UsableUnicast(ReadU32Be(msg, r.at))
  }

  /** `name` is an alias of `to`. */
  predicate AliasOf(msg: seq<byte>, r: Record, name: seq<byte>, to: seq<byte>) {
    Owns(r, name) && r.kind == TYPE_CNAME && to != [] && Expand(msg, r.at, [], None, 0) == Some(Expanded(to, r.Next()))
  }

  datatype Found = Found(address: Option<u32>, ttl: nat, alias: Option<seq<byte>>, aliasTtl: nat)

  const NOTHING := Found(None, 0, None, 0)

  /** One record of the inner loop; None is a malformed answer. */
  function Look(msg: seq<byte>, f: Found, r: Record, name: seq<byte>): Option<Found>
    requires r.Next() <= |msg|
  {
    if !Owns(r, name) then Some(f)
    else if r.kind == TYPE_A then
      if r.size != 4 || f.alias.Some? then None
      else if !UsableUnicast(ReadU32Be(msg, r.at)) then Some(f)
      else if f.address.None? then Some(f.(address := Some(ReadU32Be(msg, r.at)), ttl := r.ttl))
      else Some(f.(ttl := if r.ttl < f.ttl then r.ttl else f.ttl))
    else if r.kind == TYPE_CNAME then
      if f.address.Some? || f.alias.Some? then None
      else
        match Expand(msg, r.at, [], None, 0)
        case None => None
        case Some(e) =>
          if e.name == [] || e.next != r.Next() then None
          else Some(f.(alias := Some(e.name), aliasTtl := r.ttl))
    else Some(f)
  }

  /** The inner loop from record `i` on. */
  function LookFrom(msg: seq<byte>, rs: seq<Record>, i: nat, f: Found, name: seq<byte>): Option<Found>
    requires i <= |rs| && forall k :: 0 <= k < |rs| ==> rs[k].Next() <= |msg|
    decreases |rs| - i
  {
    if i == |rs| then Some(f)
    else
      match Look(msg, f, rs[i], name)
      case None => None
      case Some(g) => LookFrom(msg, rs, i + 1, g, name)
  }

  /** The first usable address of `name` among the first `i` records. */
  ghost predicate FirstAddress(msg: seq<byte>, rs: seq<Record>, i: nat, name: seq<byte>, address: u32)
    requires i <= |rs|
  {
    exists k :: 0 <= k < i && AddressOf(msg, rs[k], name) && ReadU32Be(msg, rs[k].at) == address
                && forall j :: 0 <= j < k ==> !AddressOf(msg, rs[j], name)
  }

  /** What has been found among the first `i` records. */
  ghost predicate Describes(msg: seq<byte>, rs: seq<Record>, i: nat, f: Found, name: seq<byte>)
    requires i <= |rs|
  {
    && (f.address.None? ==> forall k :: 0 <= k < i ==> !AddressOf(msg, rs[k], name))
    && (f.address.Some? ==>
          && FirstAddress(msg, rs, i, name, f.address.value)
          && (forall k :: 0 <= k < i && AddressOf(msg, rs[k], name) ==> f.ttl <= rs[k].ttl)
          && (exists k :: 0 <= k < i && AddressOf(msg, rs[k], name) && rs[k].ttl == f.ttl))
    && (f.alias.None? ==> forall k :: 0 <= k < i && Owns(rs[k], name) ==> rs[k].kind != TYPE_CNAME)
    && (f.alias.Some? ==> exists k :: 0 <= k < i && AliasOf(msg, rs[k], name, f.alias.value) && rs[k].ttl == f.aliasTtl)
    && !(f.alias.Some? && f.address.Some?)
  }

  lemma LookDescribes(msg: seq<byte>, rs: seq<Record>, i: nat, f: Found, name: seq<byte>)
    requires i < |rs| && rs[i].Next() <= |msg| && Describes(msg, rs, i, f, name) && Look(msg, f, rs[i], name).Some?
    ensures Describes(msg, rs, i + 1, Look(msg, f, rs[i], name).value, name)
  {
    hide Owns, UsableUnicast, Expand;
    var g := Look(msg, f, rs[i], name).value;
    if f.address.Some? {
      assert FirstAddress(msg, rs, i + 1, name, f.address.value);
      var b :| 0 <= b < i && AddressOf(msg, rs[b], name) && rs[b].ttl == f.ttl;
      assert g.address == f.address;
    } else if g.address.Some? {
      assert AddressOf(msg, rs[i], name);
      assert FirstAddress(msg, rs, i + 1, name, g.address.value);
    }
    if f.alias.Some? {
      var c :| 0 <= c < i && AliasOf(msg, rs[c], name, f.alias.value) && rs[c].ttl == f.aliasTtl;
    } else if g.alias.Some? {
      assert AliasOf(msg, rs[i], name, g.alias.value);
    }
  }

  lemma {:induction false} LookFromDescribes(msg: seq<byte>, rs: seq<Record>, i: nat, f: Found, name: seq<byte>)
    requires i <= |rs| && (forall k :: 0 <= k < |rs| ==> rs[k].Next() <= |msg|)
    requires Describes(msg, rs, i, f, name) && LookFrom(msg, rs, i, f, name).Some?
    ensures Describes(msg, rs, |rs|, LookFrom(msg, rs, i, f, name).value, name)
    decreases |rs| - i
  {
    hide Describes, Look;
    if i < |rs| {
      LookDescribes(msg, rs, i, f, name);
      LookFromDescribes(msg, rs, i + 1, Look(msg, f, rs[i], name).value, name);
    }
  }

  // --------------------------------------------------------------------------------------
  // Which record lists are in order for a name

  /** An address has four bytes, an alias a name that fills its data. */
  predicate RecordOk(msg: seq<byte>, r: Record, name: seq<byte>) {
    Owns(r, name) ==>
      && (r.kind == TYPE_A ==> r.size == 4)
      && (r.kind == TYPE_CNAME ==>
            var e := Expand(msg, r.at, [], None, 0); e.Some? && e.value.name != [] && e.value.next == r.Next())
  }

  /** Nothing follows an alias, and no alias follows a usable address. */
  predicate Clash(msg: seq<byte>, a: Record, b: Record, name: seq<byte>) {
    && Owns(a, name) && Owns(b, name)
    && (|| (a.kind == TYPE_CNAME && (b.kind == TYPE_A || b.kind == TYPE_CNAME))
        || (AddressOf(msg, a, name) && b.kind == TYPE_CNAME))
  }

  ghost predicate InOrder(msg: seq<byte>, rs: seq<Record>, from: nat, name: seq<byte>) {
    && (forall k :: from <= k < |rs| ==> RecordOk(msg, rs[k], name))
    && forall j, k :: from <= j < k < |rs| ==> !Clash(msg, rs[j], rs[k], name)
  }

  /** What has been found already rules out what is still to come. */
  predicate Blocks(f: Found, r: Record, name: seq<byte>) {
    Owns(r, name) && ((f.alias.Some? && (r.kind == TYPE_A || r.kind == TYPE_CNAME)) || (f.address.Some? && r.kind == TYPE_CNAME))
  }

  ghost predicate Passes(msg: seq<byte>, rs: seq<Record>, from: nat, f: Found, name: seq<byte>) {
    InOrder(msg, rs, from, name) && forall k :: from <= k < |rs| ==> !Blocks(f, rs[k], name)
  }

  lemma LookIff(msg: seq<byte>, f: Found, r: Record, name: seq<byte>)
    requires r.Next() <= |msg|
    ensures Look(msg, f, r, name).Some? <==> RecordOk(msg, r, name) && !Blocks(f, r, name)
    ensures Look(msg, f, r, name).Some? ==>
              forall b: Record :: Blocks(Look(msg, f, r, name).value, b, name) <==> Blocks(f, b, name) || Clash(msg, r, b, name)
  {
    hide Expand, UsableUnicast, SameIgnoringCase;
  }

  lemma {:induction false} PassIff(msg: seq<byte>, rs: seq<Record>, i: nat, f: Found, name: seq<byte>)
    requires i <= |rs| && forall k :: 0 <= k < |rs| ==> rs[k].Next() <= |msg|
    ensures LookFrom(msg, rs, i, f, name).Some? <==> Passes(msg, rs, i, f, name)
    decreases |rs| - i
  {
    hide Look, RecordOk, Clash, Blocks;
    if i < |rs| {
      LookIff(msg, f, rs[i], name);
      if Look(msg, f, rs[i], name).Some? {
        PassIff(msg, rs, i + 1, Look(msg, f, rs[i], name).value, name);
      }
    }
  }

  /** A pass over the records fails exactly when those of the name are not in order. */
  lemma InOrderIff(msg: seq<byte>, rs: seq<Record>, name: seq<byte>)
    requires forall k :: 0 <= k < |rs| ==> rs[k].Next() <= |msg|
    ensures LookFrom(msg, rs, 0, NOTHING, name).Some? <==> InOrder(msg, rs, 0, name)
  {
    hide LookFrom, InOrder;
    PassIff(msg, rs, 0, NOTHING, name);
  }

  // --------------------------------------------------------------------------------------
  // The chase

  datatype Answer = Malformed | Address(address: u32, ttl: nat, terminal: seq<byte>) | NotFound(ttl: nat, terminal: seq<byte>)

  function Min(a: nat, b: nat): nat {
    if a < b then a else b
  }

  /** dns_find_address_answer after `hop` aliases, on readable records. */
  function Chase(msg: seq<byte>, rs: seq<Record>, name: seq<byte>, ttl: nat, hop: nat): Answer
    requires hop <= MAX_ALIASES && forall k :: 0 <= k < |rs| ==> rs[k].Next() <= |msg|
    decreases MAX_ALIASES - hop
  {
    match LookFrom(msg, rs, 0, NOTHING, name)
    case None => Malformed
    case Some(f) =>
      if f.address.Some? then Address(f.address.value, Min(ttl, f.ttl), name)
      else if f.alias.None? then NotFound(ttl, name)
      else if hop == MAX_ALIASES || SameIgnoringCase(f.alias.value, name) then Malformed
      else Chase(msg, rs, f.alias.value, Min(ttl, f.aliasTtl), hop + 1)
  }

  /** A chain of alias records: each name is an alias of the next, with that time to live. */
  ghost predicate Chain(msg: seq<byte>, rs: seq<Record>, names: seq<seq<byte>>, ttls: seq<nat>) {
    && |names| == |ttls| + 1
    && forall k :: 0 <= k < |ttls| ==> Step(msg, rs, names[k], names[k + 1], ttls[k])
  }

  ghost predicate Step(msg: seq<byte>, rs: seq<Record>, from: seq<byte>, to: seq<byte>, ttl: nat) {
    exists i :: 0 <= i < |rs| && AliasOf(msg, rs[i], from, to) && rs[i].ttl == ttl
  }

  /** `t` is the least of `start` and the times to live of the chain. */
  ghost predicate LeastOf(t: nat, start: nat, ttls: seq<nat>) {
    && t <= start && (forall k :: 0 <= k < |ttls| ==> t <= ttls[k])
    && (t == start || exists k :: 0 <= k < |ttls| && ttls[k] == t)
  }

  /** The first usable address of `name`, and `t` the least of `chain` and the times to live of all of
      its usable addresses. */
  ghost predicate Ends(msg: seq<byte>, rs: seq<Record>, name: seq<byte>, address: u32, chain: nat, t: nat) {
    && FirstAddress(msg, rs, |rs|, name, address)
    && t <= chain && (forall i :: 0 <= i < |rs| && AddressOf(msg, rs[i], name) ==> t <= rs[i].ttl)
    && (t == chain || exists i :: 0 <= i < |rs| && AddressOf(msg, rs[i], name) && rs[i].ttl == t)
  }

  /** The name has no usable address and no alias. */
  ghost predicate DeadEnd(msg: seq<byte>, rs: seq<Record>, name: seq<byte>) {
    forall i :: 0 <= i < |rs| && Owns(rs[i], name) ==> rs[i].kind != TYPE_CNAME && !AddressOf(msg, rs[i], name)
  }

  /** What the answer promises, for the chain that led to it. */
  ghost predicate Justified(msg: seq<byte>, rs: seq<Record>, a: Answer, last: seq<byte>, chainTtl: nat, hops: nat) {
    match a
    case Malformed => !InOrder(msg, rs, 0, last) || Stuck(msg, rs, last, hops)
    case Address(ip, ttl, terminal) => InOrder(msg, rs, 0, last) && terminal == last && Ends(msg, rs, last, ip, chainTtl, ttl)
    case NotFound(ttl, terminal) => InOrder(msg, rs, 0, last) && terminal == last && ttl == chainTtl && DeadEnd(msg, rs, last)
  }

  /** One alias too many, or an alias of itself. */
  ghost predicate Stuck(msg: seq<byte>, rs: seq<Record>, last: seq<byte>, hops: nat) {
    exists to, ttl :: Step(msg, rs, last, to, ttl) && (hops == MAX_ALIASES || SameIgnoringCase(to, last))
  }

  /** Every answer rests on a chain of at most eight aliases from the query name. */
  lemma {:induction false} ChaseIsChained(msg: seq<byte>, rs: seq<Record>, name: seq<byte>, ttl: nat, hop: nat)
    returns (names: seq<seq<byte>>, ttls: seq<nat>, chainTtl: nat)
    requires hop <= MAX_ALIASES && forall k :: 0 <= k < |rs| ==> rs[k].Next() <= |msg|
    ensures Chain(msg, rs, names, ttls) && names != [] && names[0] == name && |ttls| <= MAX_ALIASES - hop
    ensures LeastOf(chainTtl, ttl, ttls)
    ensures Justified(msg, rs, Chase(msg, rs, name, ttl, hop), names[|names| - 1], chainTtl, hop + |ttls|)
    decreases MAX_ALIASES - hop
  {
    hide LookFrom, Step, Ends, DeadEnd, LeastOf, Describes, Chain, SameIgnoringCase, InOrder;
    InOrderIff(msg, rs, name);
    names, ttls, chainTtl := [name], [], ttl;
    LeastAlone(ttl);
    ChainAlone(msg, rs, name);
    NothingYet(msg, rs, name);
    var look := LookFrom(msg, rs, 0, NOTHING, name);
    if look.Some? {
      var f := look.value;
      LookFromDescribes(msg, rs, 0, NOTHING, name);
      if f.address.Some? {
        FoundEnds(msg, rs, f, name, ttl);
      } else if f.alias.None? {
        FoundNothing(msg, rs, f, name);
      } else if hop == MAX_ALIASES || SameIgnoringCase(f.alias.value, name) {
        FoundAlias(msg, rs, f, name);
        assert Stuck(msg, rs, name, hop);
      } else {
        FoundAlias(msg, rs, f, name);
        var rest, restTtls;
        rest, restTtls, chainTtl := ChaseIsChained(msg, rs, f.alias.value, Min(ttl, f.aliasTtl), hop + 1);
        names, ttls := [name] + rest, [f.aliasTtl] + restTtls;
        ChainLength(msg, rs, rest, restTtls);
        ChainExtends(msg, rs, name, f.aliasTtl, rest, restTtls);
        LeastExtends(chainTtl, ttl, f.aliasTtl, restTtls);
      }
    }
  }

  lemma ChainAlone(msg: seq<byte>, rs: seq<Record>, name: seq<byte>)
    ensures Chain(msg, rs, [name], [])
  {
  }

  lemma NothingYet(msg: seq<byte>, rs: seq<Record>, name: seq<byte>)
    ensures Describes(msg, rs, 0, NOTHING, name)
  {
  }

  lemma ChainLength(msg: seq<byte>, rs: seq<Record>, names: seq<seq<byte>>, ttls: seq<nat>)
    requires Chain(msg, rs, names, ttls)
    ensures |names| == |ttls| + 1
  {
  }

  lemma LeastAlone(ttl: nat)
    ensures LeastOf(ttl, ttl, [])
  {
  }

  lemma FoundEnds(msg: seq<byte>, rs: seq<Record>, f: Found, name: seq<byte>, ttl: nat)
    requires Describes(msg, rs, |rs|, f, name) && f.address.Some?
    ensures Ends(msg, rs, name, f.address.value, ttl, Min(ttl, f.ttl))
  {
    hide AddressOf, Owns, AliasOf;
  }

  lemma FoundNothing(msg: seq<byte>, rs: seq<Record>, f: Found, name: seq<byte>)
    requires Describes(msg, rs, |rs|, f, name) && f.address.None? && f.alias.None?
    ensures DeadEnd(msg, rs, name)
  {
    hide AddressOf, Owns, AliasOf;
  }

  lemma FoundAlias(msg: seq<byte>, rs: seq<Record>, f: Found, name: seq<byte>)
    requires Describes(msg, rs, |rs|, f, name) && f.alias.Some?
    ensures Step(msg, rs, name, f.alias.value, f.aliasTtl)
  {
    hide AddressOf, Owns, AliasOf;
  }

  lemma ChainExtends(msg: seq<byte>, rs: seq<Record>, name: seq<byte>, ttl: nat, names: seq<seq<byte>>, ttls: seq<nat>)
    requires Chain(msg, rs, names, ttls) && names != [] && Step(msg, rs, name, names[0], ttl)
    ensures Chain(msg, rs, [name] + names, [ttl] + ttls)
  {
    hide Step;
    var more, all := [name] + names, [ttl] + ttls;
    forall k | 0 <= k < |all| ensures Step(msg, rs, more[k], more[k + 1], all[k]) {
      if k > 0 {
        assert more[k] == names[k - 1] && more[k + 1] == names[k - 1 + 1] && all[k] == ttls[k - 1];
      }
    }
  }

  lemma LeastExtends(t: nat, start: nat, first: nat, ttls: seq<nat>)
    requires LeastOf(t, Min(start, first), ttls)
    ensures LeastOf(t, start, [first] + ttls)
  {
    var all := [first] + ttls;
    assert all[0] == first;
    assert forall k :: 0 <= k < |ttls| ==> all[k + 1] == ttls[k];
  }

  // --------------------------------------------------------------------------------------
  // The loops, which read the records again for every name

  /** The inner loop over the next `count` records of the message. */
  function LookWire(msg: seq<byte>, offset: nat, count: nat, f: Found, name: seq<byte>): Option<Found>
    decreases count
  {
    if count == 0 then Some(f)
    else
      match RecordAt(msg, offset)
      case None => None
      case Some(r) =>
        match Look(msg, f, r, name)
        case None => None
        case Some(g) => LookWire(msg, r.Next(), count - 1, g, name)
  }

  lemma {:induction false} LookTail(msg: seq<byte>, r: Record, rs: seq<Record>, i: nat, f: Found, name: seq<byte>)
    requires i <= |rs| && r.Next() <= |msg| && forall k :: 0 <= k < |rs| ==> rs[k].Next() <= |msg|
    ensures LookFrom(msg, [r] + rs, i + 1, f, name) == LookFrom(msg, rs, i, f, name)
    decreases |rs| - i
  {
    hide Look;
    var all := [r] + rs;
    assert forall k :: 0 <= k < |all| ==> all[k].Next() <= |msg|;
    if i < |rs| {
      assert all[i + 1] == rs[i];
      match Look(msg, f, rs[i], name)
      case None =>
      case Some(g) => LookTail(msg, r, rs, i + 1, g, name);
    }
  }

  /** An unreadable record makes the whole answer malformed; otherwise the loop is a search of the
      list of records. */
  lemma {:induction false} LookWireIsLook(msg: seq<byte>, offset: nat, count: nat, f: Found, name: seq<byte>)
    ensures LookWire(msg, offset, count, f, name) ==
            match RecordsAt(msg, offset, count) case None => None case Some(rs) => LookFrom(msg, rs, 0, f, name)
    decreases count
  {
    hide Look, RecordAt;
    if count > 0 && RecordAt(msg, offset).Some? {
      var r := RecordAt(msg, offset).value;
      var rest := RecordsAt(msg, r.Next(), count - 1);
      if rest.Some? {
        assert ([r] + rest.value)[0] == r;
      }
      match Look(msg, f, r, name)
      case None =>
        LookWireNone(msg, offset, count, f, name);
      case Some(g) =>
        LookWireIsLook(msg, r.Next(), count - 1, g, name);
        if rest.Some? { LookTail(msg, r, rest.value, 0, g, name); }
    }
  }

  lemma LookWireNone(msg: seq<byte>, offset: nat, count: nat, f: Found, name: seq<byte>)
    requires count > 0 && RecordAt(msg, offset).Some? && Look(msg, f, RecordAt(msg, offset).value, name).None?
    ensures LookWire(msg, offset, count, f, name) == None
    ensures match RecordsAt(msg, offset, count) case None => true case Some(rs) => LookFrom(msg, rs, 0, f, name) == None
  {
    hide Look, RecordAt;
  }

  method LookAt(msg: seq<byte>, f: Found, r: Record, name: seq<byte>) returns (g: Option<Found>)
    requires r.Next() <= |msg|
    ensures g == Look(msg, f, r, name)
  {
    hide Expand, UsableUnicast;
    if !Owns(r, name) { return Some(f); }
    if r.kind == TYPE_A {
      if r.size != 4 || f.alias.Some? { return None; }
      var candidate := ReadU32Be(msg, r.at);
      if !UsableUnicast(candidate) { return Some(f); }
      if f.address.None? { return Some(f.(address := Some(candidate), ttl := r.ttl)); }
      if r.ttl < f.ttl { return Some(f.(ttl := r.ttl)); }
      return Some(f);
    } else if r.kind == TYPE_CNAME {
      if f.address.Some? || f.alias.Some? { return None; }
      var e := ExpandName(msg, r.at);
      if e.None? || e.value.name == [] || e.value.next != r.Next() { return None; }
      return Some(f.(alias := Some(e.value.name), aliasTtl := r.ttl));
    }
    return Some(f);
  }

  method LookUp(msg: seq<byte>, offset: nat, count: nat, name: seq<byte>) returns (r: Option<Found>)
    ensures r == LookWire(msg, offset, count, NOTHING, name)
  {
    hide Look, RecordAt;
    var cursor, f := offset, NOTHING;
    for i := 0 to count
      invariant LookWire(msg, offset, count, NOTHING, name) == LookWire(msg, cursor, count - i, f, name)
    {
      var record := ReadRecord(msg, cursor);
      if record.None? { return None; }
      var g := LookAt(msg, f, record.value, name);
      if g.None? { return None; }
      f := g.value;
      cursor := record.value.Next();
    }
    return Some(f);
  }

  /** dns_find_address_answer. */
  method FindAddress(msg: seq<byte>, offset: nat, count: nat, query: seq<byte>) returns (a: Answer)
    ensures a == match RecordsAt(msg, offset, count)
                 case None => Malformed
                 case Some(rs) => Chase(msg, rs, query, TTL_MAX, 0)
  {
    hide LookWire, LookFrom, RecordsAt, SameIgnoringCase;
    ghost var records := RecordsAt(msg, offset, count);
    var name, ttl, hop := query, TTL_MAX, 0;
    while true
      invariant hop <= MAX_ALIASES
      invariant records.Some? ==> Chase(msg, records.value, query, TTL_MAX, 0) == Chase(msg, records.value, name, ttl, hop)
      decreases MAX_ALIASES - hop
    {
      LookWireIsLook(msg, offset, count, NOTHING, name);
      var look := LookUp(msg, offset, count, name);
      if look.None? { return Malformed; }
      var f := look.value;
      if f.address.Some? { return Address(f.address.value, Min(ttl, f.ttl), name); }
      if f.alias.None? { return NotFound(ttl, name); }
      if hop == MAX_ALIASES || SameIgnoringCase(f.alias.value, name) { return Malformed; }
      ttl := Min(ttl, f.aliasTtl);
      name := f.alias.value;
      hop := hop + 1;
    }
  }

  /** The promise of the search as a whole. */
  lemma AnswerIsChained(msg: seq<byte>, offset: nat, count: nat, query: seq<byte>)
    returns (names: seq<seq<byte>>, ttls: seq<nat>, chainTtl: nat)
    requires RecordsAt(msg, offset, count).Some?
    ensures var rs := RecordsAt(msg, offset, count).value;
            && Chain(msg, rs, names, ttls) && names != [] && names[0] == query && |ttls| <= MAX_ALIASES
            && LeastOf(chainTtl, TTL_MAX, ttls)
            && Justified(msg, rs, Chase(msg, rs, query, TTL_MAX, 0), names[|names| - 1], chainTtl, |ttls|)
  {
    hide Chain, LeastOf, Justified, Chase;
    names, ttls, chainTtl := ChaseIsChained(msg, RecordsAt(msg, offset, count).value, query, TTL_MAX, 0);
  }
}
