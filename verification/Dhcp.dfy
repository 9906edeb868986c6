/** kernel/net.c: the DHCP client (section 4.4 of RFC 2131). */
module Dhcp {
  import opened Bytes
  import opened Options
  import opened Ipv4

  const FIXED_SIZE: nat := 240
  const MAGIC_COOKIE: u32 := 0x63825363
  const OFFER: byte := 2
  const ACK: byte := 5
  const NAK: byte := 6
  const DEFAULT_LEASE: u32 := 3600
  const RETRY_BASE: nat := 4000
  const MASK_24: u32 := 0xFFFF_FF00

  // --------------------------------------------------------------------------------------
  // Netmasks

  /** The masks of one to 32 leading ones. */
  const LEADING_ONES: seq<u32> := [
    0xFFFF_FFFF, 0xFFFF_FFFE, 0xFFFF_FFFC, 0xFFFF_FFF8, 0xFFFF_FFF0, 0xFFFF_FFE0, 0xFFFF_FFC0, 0xFFFF_FF80,
    0xFFFF_FF00, 0xFFFF_FE00, 0xFFFF_FC00, 0xFFFF_F800, 0xFFFF_F000, 0xFFFF_E000, 0xFFFF_C000, 0xFFFF_8000,
    0xFFFF_0000, 0xFFFE_0000, 0xFFFC_0000, 0xFFF8_0000, 0xFFF0_0000, 0xFFE0_0000, 0xFFC0_0000, 0xFF80_0000,
    0xFF00_0000, 0xFE00_0000, 0xFC00_0000, 0xF800_0000, 0xF000_0000, 0xE000_0000, 0xC000_0000, 0x8000_0000]

  /** ipv4_netmask_is_valid. */
  predicate NetmaskOk(mask: u32) {
    mask in LEADING_ONES
  }

  /** The test on machine words, a nonzero mask whose complement is all low ones, accepts exactly
      those masks. */
  lemma MaskBitsAreLeadingOnes(mask: bv32)
    ensures mask != 0 && (!mask & (!mask + 1)) == 0 <==>
      || mask == 0xFFFF_FFFF || mask == 0xFFFF_FFFE || mask == 0xFFFF_FFFC || mask == 0xFFFF_FFF8
      || mask == 0xFFFF_FFF0 || mask == 0xFFFF_FFE0 || mask == 0xFFFF_FFC0 || mask == 0xFFFF_FF80
      || mask == 0xFFFF_FF00 || mask == 0xFFFF_FE00 || mask == 0xFFFF_FC00 || mask == 0xFFFF_F800
      || mask == 0xFFFF_F000 || mask == 0xFFFF_E000 || mask == 0xFFFF_C000 || mask == 0xFFFF_8000
      || mask == 0xFFFF_0000 || mask == 0xFFFE_0000 || mask == 0xFFFC_0000 || mask == 0xFFF8_0000
      || mask == 0xFFF0_0000 || mask == 0xFFE0_0000 || mask == 0xFFC0_0000 || mask == 0xFF80_0000
      || mask == 0xFF00_0000 || mask == 0xFE00_0000 || mask == 0xFC00_0000 || mask == 0xF800_0000
      || mask == 0xF000_0000 || mask == 0xE000_0000 || mask == 0xC000_0000 || mask == 0x8000_0000
  {
  }

  // --------------------------------------------------------------------------------------
  // Options

  datatype DhcpOptions = DhcpOptions(kind: Option<byte>, mask: Option<u32>, router: Option<u32>, dns: Option<u32>,
                             server: Option<u32>, lease: Option<u32>, renewal: Option<u32>, rebind: Option<u32>)

  const NO_OPTIONS := DhcpOptions(None, None, None, None, None, None, None, None)

  function First<T>(old_: Option<T>, new_: Option<T>): Option<T> {
    if old_.Some? then old_ else new_
  }

  function Word(v: seq<byte>, exact: bool): Option<u32> {
    if |v| == 4 || (!exact && |v| >= 4) then Some(ReadU32Be(v, 0)) else None
  }

  /** One option added: of each kind the first well-formed one counts. */
  function AddOption(o: DhcpOptions, code: byte, v: seq<byte>): DhcpOptions {
    if code == 53 then o.(kind := First(o.kind, if |v| == 1 then Some(v[0]) else None))
    else if code == 1 then o.(mask := First(o.mask, Word(v, true)))
    else if code == 3 then o.(router := First(o.router, Word(v, false)))
    else if code == 6 then o.(dns := First(o.dns, Word(v, false)))
    else if code == 54 then o.(server := First(o.server, Word(v, true)))
    else if code == 51 then o.(lease := First(o.lease, Word(v, true)))
    else if code == 58 then o.(renewal := First(o.renewal, Word(v, true)))
    else if code == 59 then o.(rebind := First(o.rebind, Word(v, true)))
    else o
  }

  /** The option list from `at` on; it must end properly and name a message type. */
  function OptionsFrom(p: seq<byte>, at: nat, o: DhcpOptions): Option<DhcpOptions>
    requires at <= |p|
    decreases |p| - at
  {
    if at == |p| then None
    else if p[at] == 0 then OptionsFrom(p, at + 1, o)
    else if p[at] == 255 then (if o.kind.Some? then Some(o) else None)
    else if at + 1 == |p| || p[at + 1] > |p| - (at + 2) then None
    else OptionsFrom(p, at + 2 + p[at + 1], AddOption(o, p[at], p[at + 2..at + 2 + p[at + 1]]))
  }

  function OptionsOf(p: seq<byte>): Option<DhcpOptions> {
    if |p| < FIXED_SIZE || ReadU32Be(p, 236) != MAGIC_COOKIE then None else OptionsFrom(p, FIXED_SIZE, NO_OPTIONS)
  }

  /** parse_dhcp_options. */
  method ParseOptions(p: seq<byte>) returns (r: Option<DhcpOptions>)
    ensures r == OptionsOf(p)
  {
    hide AddOption;
    if |p| < FIXED_SIZE || ReadU32Be(p, 236) != MAGIC_COOKIE { return None; }
    var at, o := FIXED_SIZE, NO_OPTIONS;
    while at < |p|
      invariant at <= |p| && OptionsFrom(p, FIXED_SIZE, NO_OPTIONS) == OptionsFrom(p, at, o)
    {
      var code := p[at];
      at := at + 1;
      if code == 0 { continue; }
      if code == 255 { return if o.kind.Some? then Some(o) else None; }
      if at >= |p| { return None; }
      var length := p[at];
      at := at + 1;
      if length > |p| - at { return None; }
      o := AddOption(o, code, p[at..at + length]);
      at := at + length;
    }
    return None;
  }

  /** What an option list is made of. */
  datatype Entry = Pad | Opt(code: byte, value: seq<byte>) {
    predicate Ok() {
      Opt? ==> code != 0 && code != 255 && |value| < 256
    }
  }

  predicate EntriesOk(es: seq<Entry>) {
    forall e :: e in es ==> e.Ok()
  }

  /** An entry as dhcp_append_option writes it. */
  function Encoded(e: Entry): seq<byte>
    requires e.Ok()
  {
    if e.Pad? then [0] else [e.code, |e.value|] + e.value
  }

  function EncodedAll(es: seq<Entry>): seq<byte>
    requires EntriesOk(es)
  {
    if es == [] then [] else Encoded(es[0]) + EncodedAll(es[1..])
  }

  /** The first well-formed value that a list holds under a code. */
  function FirstWord(es: seq<Entry>, code: byte, exact: bool): Option<u32> {
    if es == [] then None
    else if es[0].Opt? && es[0].code == code && Word(es[0].value, exact).Some? then Word(es[0].value, exact)
    else FirstWord(es[1..], code, exact)
  }

  function FirstKind(es: seq<Entry>): Option<byte> {
    if es == [] then None
    else if es[0].Opt? && es[0].code == 53 && |es[0].value| == 1 then Some(es[0].value[0])
    else FirstKind(es[1..])
  }

  /** What a list means. */
  function Chosen(es: seq<Entry>): DhcpOptions {
    DhcpOptions(FirstKind(es), FirstWord(es, 1, true), FirstWord(es, 3, false), FirstWord(es, 6, false),
                FirstWord(es, 54, true), FirstWord(es, 51, true), FirstWord(es, 58, true), FirstWord(es, 59, true))
  }

  /** Options already chosen stay. */
  function Over(o: DhcpOptions, more: DhcpOptions): DhcpOptions {
    DhcpOptions(First(o.kind, more.kind), First(o.mask, more.mask), First(o.router, more.router), First(o.dns, more.dns),
                First(o.server, more.server), First(o.lease, more.lease), First(o.renewal, more.renewal), First(o.rebind, more.rebind))
  }

  lemma OneEntry(o: DhcpOptions, es: seq<Entry>)
    requires es != []
    ensures Over(o, Chosen(es))
         == Over(if es[0].Pad? then o else AddOption(o, es[0].code, es[0].value), Chosen(es[1..]))
  {
    hide Word, FirstWord, FirstKind;
    KindStep(es);
    WordStep(es, 1, true);
    WordStep(es, 3, false);
    WordStep(es, 6, false);
    WordStep(es, 54, true);
    WordStep(es, 51, true);
    WordStep(es, 58, true);
    WordStep(es, 59, true);
  }

  lemma WordStep(es: seq<Entry>, code: byte, exact: bool)
    requires es != []
    ensures FirstWord(es, code, exact)
         == First(if es[0].Opt? && es[0].code == code then Word(es[0].value, exact) else None, FirstWord(es[1..], code, exact))
  {
  }

  lemma KindStep(es: seq<Entry>)
    requires es != []
    ensures FirstKind(es)
         == First(if es[0].Opt? && es[0].code == 53 && |es[0].value| == 1 then Some(es[0].value[0]) else None, FirstKind(es[1..]))
  {
  }

  /** `p` holds the entries `es` from `at` on, an end mark and `rest`. */
  ghost predicate Holds(p: seq<byte>, at: nat, es: seq<Entry>, rest: seq<byte>) {
    at <= |p| && EntriesOk(es) && p[at..] == EncodedAll(es) + [255] + rest
  }

  lemma HoldsTail(p: seq<byte>, at: nat, es: seq<Entry>, rest: seq<byte>)
    requires Holds(p, at, es, rest) && es != []
    ensures es[0].Ok() && at + |Encoded(es[0])| <= |p| && p[at..at + |Encoded(es[0])|] == Encoded(es[0])
    ensures Holds(p, at + |Encoded(es[0])|, es[1..], rest)
  {
    hide Encoded;
    var t, e, more := p[at..], Encoded(es[0]), EncodedAll(es[1..]) + [255] + rest;
    assert t == e + more;
    assert p[at + |e|..] == t[|e|..] == more;
    assert p[at..at + |e|] == t[..|e|] == e;
  }

  lemma EntryAt(p: seq<byte>, at: nat, e: Entry)
    requires e.Ok() && at + |Encoded(e)| <= |p| && p[at..at + |Encoded(e)|] == Encoded(e)
    ensures e.Pad? ==> p[at] == 0
    ensures e.Opt? ==> p[at] == e.code && p[at + 1] == |e.value| && p[at + 2..at + 2 + |e.value|] == e.value
  {
    var piece := p[at..at + |Encoded(e)|];
    assert p[at] == piece[0];
    if e.Opt? {
      assert p[at + 1] == piece[1];
      assert p[at + 2..at + 2 + |e.value|] == piece[2..];
    }
  }

  lemma HoldsNext(p: seq<byte>, at: nat, es: seq<Entry>, rest: seq<byte>)
    requires Holds(p, at, es, rest)
    ensures at < |p|
    ensures es == [] ==> p[at] == 255
    ensures es != [] && es[0].Pad? ==> p[at] == 0 && Holds(p, at + 1, es[1..], rest)
    ensures es != [] && es[0].Opt? ==>
              && at + 2 + |es[0].value| <= |p| && p[at] == es[0].code && p[at + 1] == |es[0].value| && p[at] != 0 && p[at] != 255
              && p[at + 2..at + 2 + |es[0].value|] == es[0].value && Holds(p, at + 2 + |es[0].value|, es[1..], rest)
  {
    hide EncodedAll, Holds;
    if es == [] {
      EndAt(p, at, rest);
    } else {
      HoldsTail(p, at, es, rest);
      EntryAt(p, at, es[0]);
    }
  }

  lemma EndAt(p: seq<byte>, at: nat, rest: seq<byte>)
    requires Holds(p, at, [], rest)
    ensures at < |p| && p[at] == 255
  {
    assert p[at] == p[at..][0];
  }

  lemma HoldsCons(p: seq<byte>, at: nat, e: Entry, next: nat, es: seq<Entry>, rest: seq<byte>)
    requires e.Ok() && at <= next <= |p| && p[at..next] == Encoded(e) && Holds(p, next, es, rest)
    ensures Holds(p, at, [e] + es, rest)
  {
    hide Encoded;
    assert p[at..] == p[at..next] + p[next..];
    assert ([e] + es)[1..] == es;
    assert p[at..] == Encoded(e) + EncodedAll(es) + [255] + rest;
  }

  /** Every written list is read as what it means, whatever padding it has and whatever follows. */
  lemma {:induction false} ListReadsBack(p: seq<byte>, at: nat, o: DhcpOptions, es: seq<Entry>, rest: seq<byte>)
    requires Holds(p, at, es, rest)
    ensures OptionsFrom(p, at, o) == if Over(o, Chosen(es)).kind.Some? then Some(Over(o, Chosen(es))) else None
    decreases |es|
  {
    hide Holds, AddOption, Chosen, Over;
    HoldsNext(p, at, es, rest);
    if es == [] {
      NothingOver(o);
    } else {
      OneEntry(o, es);
      if es[0].Pad? { ListReadsBack(p, at + 1, o, es[1..], rest); }
      else { ListReadsBack(p, at + 2 + |es[0].value|, AddOption(o, es[0].code, es[0].value), es[1..], rest); }
    }
  }

  lemma NothingOver(o: DhcpOptions)
    ensures Over(o, Chosen([])) == o && Over(NO_OPTIONS, o) == o
  {
  }

  /** Only written lists are read. */
  lemma {:induction false} OnlyLists(p: seq<byte>, at: nat, o: DhcpOptions) returns (es: seq<Entry>, rest: seq<byte>)
    requires at <= |p| && OptionsFrom(p, at, o).Some?
    ensures Holds(p, at, es, rest)
    decreases |p| - at
  {
    hide AddOption, Holds;
    if p[at] == 255 {
      es, rest := [], p[at + 1..];
      HoldsEnd(p, at);
    } else if p[at] == 0 {
      es, rest := OnlyLists(p, at + 1, o);
      HoldsCons(p, at, Pad, at + 1, es, rest);
      es := [Pad] + es;
    } else {
      var next := at + 2 + p[at + 1];
      var e := Opt(p[at], p[at + 2..next]);
      es, rest := OnlyLists(p, next, AddOption(o, e.code, e.value));
      HoldsCons(p, at, e, next, es, rest);
      es := [e] + es;
    }
  }

  lemma HoldsEnd(p: seq<byte>, at: nat)
    requires at < |p| && p[at] == 255
    ensures Holds(p, at, [], p[at + 1..])
  {
  }

  /** The packets whose options are read, and what is read from them: those that hold a list with
      an end mark, in which a message type is the first well-formed one. */
  lemma OptionsIff(p: seq<byte>, r: DhcpOptions)
    ensures OptionsOf(p) == Some(r) <==>
              && |p| >= FIXED_SIZE && ReadU32Be(p, 236) == MAGIC_COOKIE && r.kind.Some?
              && exists es, rest :: Holds(p, FIXED_SIZE, es, rest) && r == Chosen(es)
  {
    hide Holds, Chosen, OptionsFrom;
    if |p| >= FIXED_SIZE && ReadU32Be(p, 236) == MAGIC_COOKIE {
      forall es, rest | Holds(p, FIXED_SIZE, es, rest)
        ensures OptionsOf(p) == if Chosen(es).kind.Some? then Some(Chosen(es)) else None
      {
        ListReadsBack(p, FIXED_SIZE, NO_OPTIONS, es, rest);
        NothingOver(Chosen(es));
      }
      if OptionsOf(p).Some? {
        var es, rest := OnlyLists(p, FIXED_SIZE, NO_OPTIONS);
      }
    }
  }

  // --------------------------------------------------------------------------------------
  // Lease times

  datatype Times = Times(renewal: u32, rebind: u32)

  function SevenEighths(lease: u32): u32 {
    lease * 7 / 8
  }

  function OrElse(o: Option<u32>, v: u32): u32 {
    if o.Some? then o.value else v
  }

  /** The renewal time that is kept: one that is not before the end is replaced by half the lease. */
  function RenewalOf(lease: u32, o: DhcpOptions): u32 {
    var t1 := OrElse(o.renewal, lease / 2);
    if t1 >= lease then lease / 2 else t1
  }

  function RebindOf(lease: u32, o: DhcpOptions): u32 {
    var t2 := OrElse(o.rebind, SevenEighths(lease));
    if t2 <= RenewalOf(lease, o) || t2 >= lease then SevenEighths(lease) else t2
  }

  /** Both timers fire before the lease ends. */
  lemma TimersBeforeEnd(lease: u32, o: DhcpOptions)
    requires lease > 0
    ensures RenewalOf(lease, o) < lease && RebindOf(lease, o) < lease
  {
  }

  /** Renewing does not always come before rebinding: it does exactly when the renewal time of the
      packet, or half the lease, is too late to be kept or within seven eighths, or the packet's
      rebind time lies between it and the end. */
  lemma RenewalBeforeRebindIff(lease: u32, o: DhcpOptions)
    requires lease > 0
    ensures var t1, t2 := OrElse(o.renewal, lease / 2), OrElse(o.rebind, SevenEighths(lease));
            RenewalOf(lease, o) <= RebindOf(lease, o) <==> t1 >= lease || t1 <= SevenEighths(lease) || t1 < t2 < lease
  {
  }

  /** A lease of 100 seconds to be renewed after 99 rebinds after 87. */
  lemma RenewalAfterRebind()
    ensures var o := NO_OPTIONS.(renewal := Some(99));
            RenewalOf(100, o) == 99 && RebindOf(100, o) == 87
  {
  }

  // --------------------------------------------------------------------------------------
  // The client

  datatype State = Off | Discovering | Requesting | Bound | Renewing | Rebinding

  predicate Leased(s: State) {
    s.Bound? || s.Renewing? || s.Rebinding?
  }

  /** The states that wait for an acknowledgement or a refusal. */
  predicate Asking(s: State) {
    s.Requesting? || s.Renewing? || s.Rebinding?
  }

  /** What the client sends; a renewal names the address in use. */
  datatype Message = Discover | Request(renewing: bool)

  function MessageIn(s: State): Message {
    if s.Discovering? then Discover else Request(Leased(s))
  }

  datatype Offer = Offer(ip: u32, mask: u32, gateway: u32, dns: u32)

  const NO_OFFER := Offer(0, 0, 0, 0)

  /** What the client holds from its server. */
  datatype Grant = Grant(server: u32, offer: Offer, lease: u32, renewal: u32, rebind: u32, started: u64)

  const NO_GRANT := Grant(0, NO_OFFER, 0, 0, 0, 0)

  /** Time since the lease began; none if the clock went back. */
  function ElapsedAt(g: Grant, now: u64): nat {
    if now >= g.started then now - g.started else 0
  }

  /** A message is repeated when its time has come. */
  predicate Due(s: State, nextAction: u64, now: u64) {
    (s.Discovering? || Asking(s)) && now >= nextAction
  }

  /** The state a lease is in after `elapsed` milliseconds. */
  function StateAfter(s: State, g: Grant, elapsed: nat): State {
    if Leased(s) && elapsed >= g.lease * 1000 then Discovering
    else if s.Bound? && elapsed >= g.renewal * 1000 then Renewing
    else if s.Renewing? && elapsed >= g.rebind * 1000 then Rebinding
    else s
  }

  /** The lease time an acknowledgement grants. */
  function LeaseOf(o: DhcpOptions, g: Grant): u32 {
    OrElse(o.lease, if g.lease != 0 then g.lease else DEFAULT_LEASE)
  }

  /** Only an explicit zero grants no time. */
  lemma LeaseIsZeroIff(o: DhcpOptions, g: Grant)
    ensures LeaseOf(o, g) == 0 <==> o.lease == Some(0)
  {
  }

  function ServerAfter(g: Grant, from: u32): u32 {
    if UsableUnicast(from) then from else g.server
  }

  /** What an acknowledgement leaves with the client. */
  function Granted(g: Grant, o: DhcpOptions, from: u32, now: u64): Grant {
    var lease := LeaseOf(o, g);
    Grant(ServerAfter(g, from), g.offer, lease, RenewalOf(lease, o), RebindOf(lease, o), now)
  }

  /** What an acknowledgement of no time leaves, though it is refused. */
  function Zeroed(g: Grant, from: u32): Grant {
    g.(server := ServerAfter(g, from), lease := 0)
  }

  function NextTransaction(id: u32): u32 {
    if id == 0xFFFF_FFFF then 1 else id + 1
  }

  /** What an offer leaves with the client. */
  function Offered(g: Grant, o: DhcpOptions, ip: u32, from: u32): Grant {
    var time := OrElse(o.lease, DEFAULT_LEASE);
    g.(server := from, offer := Offer(ip, OrElse(o.mask, 0), OrElse(o.router, 0), OrElse(o.dns, 0)),
       lease := time, renewal := OrElse(o.renewal, time / 2), rebind := OrElse(o.rebind, SevenEighths(time)))
  }

  /** What a tick leaves behind. */
  datatype Snapshot = Snapshot(state: State, config: Config, lease: u32, elapsed: nat)

  predicate Safe(s: Snapshot) {
    && (Leased(s.state) ==> s.elapsed < s.lease * 1000 && UsableUnicast(s.config.address) && NetmaskOk(s.config.netmask))
    && (!Leased(s.state) ==> s.config.address == 0)
  }

  function SaturatingAdd(a: u64, b: u64): u64 {
    if b > U64_MAX - a then U64_MAX else a + b
  }

  /** dhcp_retry_delay: 4, 8, 16, 32 and then always 64 seconds. */
  function RetryDelay(attempts: nat): (r: nat)
    ensures RETRY_BASE <= r <= 16 * RETRY_BASE
  {
    if attempts == 0 then RETRY_BASE else if attempts == 1 then 2 * RETRY_BASE else if attempts == 2 then 4 * RETRY_BASE
    else if attempts == 3 then 8 * RETRY_BASE else 16 * RETRY_BASE
  }

  /** The configuration an acknowledgement gives, with unusable parts replaced. */
  function ConfigOf(address: u32, o: DhcpOptions, offer: Offer): Config {
    var mask := OrElse(o.mask, offer.mask);
    var gateway := OrElse(o.router, offer.gateway);
    var dns := OrElse(o.dns, offer.dns);
    Config(address, if NetmaskOk(mask) then mask else MASK_24,
           if UsableUnicast(gateway) then gateway else 0, if UsableUnicast(dns) then dns else 0)
  }

  /** The address an acknowledgement grants: its own, else the one in use, else the one asked for. */
  function AckAddress(offered: u32, current: u32, wanted: u32): u32 {
    if UsableUnicast(offered) then offered else if UsableUnicast(current) then current else wanted
  }

  lemma ConfigIsUsable(address: u32, o: DhcpOptions, offer: Offer)
    requires UsableUnicast(address)
    ensures var c := ConfigOf(address, o, offer);
            && c.address == address && NetmaskOk(c.netmask)
            && (c.gateway == 0 || UsableUnicast(c.gateway)) && (c.dns == 0 || UsableUnicast(c.dns))
  {
    hide NetmaskOk, UsableUnicast;
    Mask24Ok();
  }

  lemma Mask24Ok()
    ensures NetmaskOk(MASK_24)
  {
    assert LEADING_ONES[8] == MASK_24;
  }

  class Client {
    const mac: seq<byte>
    var state: State
    var transaction: u32
    var grant: Grant
    var nextAction: u64
    var attempts: nat
    var config: Config
    var now: u64
    /** The state after every tick so far. */
    ghost var ticks: seq<Snapshot>
    /** Every message it has tried to send. */
    ghost var sent: seq<Message>
    /** An acknowledgement of no time has been refused since the last one that was taken. */
    ghost var zeroRefused: bool

    ghost predicate Valid()
      reads this
    {
      && |mac| == 6
      && (!Leased(state) ==> config == UNCONFIGURED)
      && (Leased(state) ==> UsableUnicast(config.address) && NetmaskOk(config.netmask))
      && (state.Requesting? ==> UsableUnicast(grant.offer.ip) && UsableUnicast(grant.server))
      && (state.Bound? ==> !zeroRefused)
      && (Leased(state) ==> (grant.lease == 0 <==> zeroRefused))
      && (Leased(state) && grant.lease > 0 ==> grant.renewal < grant.lease && grant.rebind < grant.lease)
      && forall i :: 0 <= i < |ticks| ==> Safe(ticks[i])
    }

    function Elapsed(): nat
      reads this
    {
      ElapsedAt(grant, now)
    }

    constructor (station: seq<byte>, time: u64)
      requires |station| == 6
      ensures Valid() && state == Off && ticks == []
    {
      mac, now := station, time;
      state, transaction, grant, nextAction, attempts := Off, 0, NO_GRANT, 0, 0;
      config, ticks, sent, zeroRefused := UNCONFIGURED, [], [], false;
    }

    /** What dhcp_send_message leaves behind, whether or not the packet went out. */
    method SendMessage()
      modifies this`attempts, this`nextAction, this`sent
      ensures attempts == old(attempts) + 1 && sent == old(sent) + [MessageIn(state)]
      ensures nextAction == SaturatingAdd(now, RetryDelay(old(attempts)))
    {
      sent := sent + [MessageIn(state)];
      attempts := attempts + 1;
      nextAction := SaturatingAdd(now, RetryDelay(attempts - 1));
    }

    /** net_dhcp_start: no address until a server grants one. */
    method Start(id: u32)
      requires Valid()
      modifies this`state, this`transaction, this`grant, this`nextAction, this`attempts, this`config, this`sent, this`zeroRefused
      ensures Valid() && state == Discovering && config == UNCONFIGURED && transaction != 0 && (id != 0 ==> transaction == id)
      ensures !zeroRefused && grant == NO_GRANT && attempts == 1 && sent == old(sent) + [Discover] && nextAction == SaturatingAdd(now, RETRY_BASE)
    {
      hide NetmaskOk, UsableUnicast, Safe;
      transaction := id;
      if id == 0 {
        // Derived from the station address and the clock, and never zero.
        transaction := *;
        if transaction == 0 { transaction := 1; }
      }
      config := UNCONFIGURED;
      state, grant, attempts, zeroRefused := Discovering, NO_GRANT, 0, false;
      SendMessage();
    }

    /** dhcp_restart: the next transaction number that is not zero. */
    method Restart()
      requires Valid()
      modifies this`state, this`transaction, this`grant, this`nextAction, this`attempts, this`config, this`sent, this`zeroRefused
      ensures Valid() && state == Discovering && config == UNCONFIGURED
      ensures transaction == NextTransaction(old(transaction)) && sent == old(sent) + [Discover] && attempts == 1 && grant == NO_GRANT && !zeroRefused
      ensures nextAction == SaturatingAdd(now, RETRY_BASE)
    {
      var id := (transaction + 1) % U32_MODULUS;
      if id == 0 { id := 1; }
      Start(id);
    }

    /** tick_dhcp: after it no lease has run out. */
    method Tick(time: u64)
      requires Valid()
      modifies this
      ensures Valid() && now == time
      ensures Leased(state) ==> Elapsed() < grant.lease * 1000 && grant.lease > 0 && grant.renewal < grant.lease && grant.rebind < grant.lease
      ensures Leased(state) ==> config == old(config)
      ensures !Leased(state) ==> config == UNCONFIGURED
      ensures ticks == old(ticks) + [Snapshot(state, config, grant.lease, Elapsed())]
      ensures state == StateAfter(old(state), old(grant), ElapsedAt(old(grant), time))
      ensures grant == if Leased(old(state)) && !Leased(state) then NO_GRANT else old(grant)
      ensures sent == old(sent) + if state != old(state) || Due(old(state), old(nextAction), time) then [MessageIn(state)] else []
    {
      hide NetmaskOk, UsableUnicast;
      now := time;
      Advance();
      ticks := ticks + [Snapshot(state, config, grant.lease, Elapsed())];
    }

    /** The body of tick_dhcp. */
    method Advance()
      requires Valid()
      modifies this`state, this`transaction, this`grant, this`nextAction, this`attempts, this`config, this`sent, this`zeroRefused
      ensures Valid()
      ensures Leased(state) ==> Elapsed() < grant.lease * 1000 && config == old(config) && Leased(old(state))
      ensures state == StateAfter(old(state), old(grant), ElapsedAt(old(grant), now))
      ensures grant == if Leased(old(state)) && !Leased(state) then NO_GRANT else old(grant)
      ensures sent == old(sent) + if state != old(state) || Due(old(state), old(nextAction), now) then [MessageIn(state)] else []
    {
      hide NetmaskOk, UsableUnicast, Safe;
      if state.Off? { return; }
      if state.Bound? {
        if Elapsed() >= grant.lease * 1000 {
          Restart();
        } else if Elapsed() >= grant.renewal * 1000 {
          state, attempts := Renewing, 0;
          SendMessage();
        }
        return;
      }
      if state.Renewing? || state.Rebinding? {
        if Elapsed() >= grant.lease * 1000 {
          Restart();
          return;
        }
        if state.Renewing? && Elapsed() >= grant.rebind * 1000 {
          state, attempts := Rebinding, 0;
          SendMessage();
          return;
        }
      }
      if now >= nextAction { SendMessage(); }
    }

    /** A reply to this client's transaction. */
    predicate ForMe(p: seq<byte>)
      reads this
    {
      && !state.Off? && |mac| == 6 && |p| >= FIXED_SIZE && p[0] == 2 && p[1] == 1 && p[2] == 6
      && ReadU32Be(p, 4) == transaction && p[28..34] == mac
    }

    /** The chosen server, or any server when it is not named or the client is rebinding. */
    predicate FromServer(o: DhcpOptions)
      reads this
    {
      state.Rebinding? || grant.server == 0 || o.server.None? || o.server.value == grant.server
    }

    /** Which of the three messages counts in the state the client is in. */
    predicate Counts(o: DhcpOptions, offered: u32, from: u32)
      reads this
    {
      || (o.kind == Some(OFFER) && state.Discovering? && UsableUnicast(offered) && UsableUnicast(from))
      || (o.kind == Some(NAK) && Asking(state) && FromServer(o))
      || (o.kind == Some(ACK) && Asking(state) && FromServer(o) && LeaseOf(o, grant) != 0)
    }

    /** An acknowledgement that passes every check and grants no time. */
    predicate Zeroes(o: DhcpOptions)
      reads this
    {
      o.kind == Some(ACK) && Asking(state) && FromServer(o) && o.lease == Some(0)
    }

    predicate ZeroAck(p: seq<byte>)
      reads this
    {
      ForMe(p) && OptionsOf(p).Some? && Zeroes(OptionsOf(p).value)
    }

    /** dhcp_receive. A lease begins only with an acknowledgement, from the chosen server unless
        the client is rebinding. */
    method Receive(source: u32, p: seq<byte>) returns (handled: bool)
      requires Valid()
      modifies this
      ensures Valid() && ticks == old(ticks) && now == old(now)
      ensures handled <==> old(ForMe(p)) && OptionsOf(p).Some?
                           && old(Counts(OptionsOf(p).value, ReadU32Be(p, 16), OrElse(OptionsOf(p).value.server, source)))
      ensures !handled ==> state == old(state) && config == old(config) && transaction == old(transaction) && sent == old(sent)
                           && nextAction == old(nextAction) && attempts == old(attempts)
      ensures !handled ==> grant == if old(ZeroAck(p)) then Zeroed(old(grant), OrElse(OptionsOf(p).value.server, source)) else old(grant)
      ensures zeroRefused <==> !handled && (old(zeroRefused) || old(ZeroAck(p)))
      ensures handled ==>
        var o := OptionsOf(p).value;
        if old(state).Discovering? then
          && state.Requesting? && sent == old(sent) + [Request(false)] && transaction == old(transaction)
          && grant == Offered(old(grant), o, ReadU32Be(p, 16), OrElse(o.server, source))
          && attempts == 1 && nextAction == SaturatingAdd(now, RETRY_BASE)
        else if o.kind == Some(NAK) then
          && state.Discovering? && sent == old(sent) + [Discover] && transaction == NextTransaction(old(transaction))
          && grant == NO_GRANT && attempts == 1 && nextAction == SaturatingAdd(now, RETRY_BASE)
        else
          && state.Bound? && grant == Granted(old(grant), o, OrElse(o.server, source), now) && grant.lease > 0
          && sent == old(sent) && transaction == old(transaction)
          && config == ConfigOf(AckAddress(ReadU32Be(p, 16), old(config).address, old(grant).offer.ip), o, old(grant).offer)
          && attempts == 0 && nextAction == SaturatingAdd(now, grant.renewal * 1000)
    {
      hide NetmaskOk, UsableUnicast, OptionsOf, ConfigOf, AckAddress, Safe, Granted, Zeroed, Offered, LeaseOf;
      if state.Off? || |p| < FIXED_SIZE || p[0] != 2 || p[1] != 1 || p[2] != 6 || ReadU32Be(p, 4) != transaction
         || p[28..34] != mac { return false; }
      var options := ParseOptions(p);
      if options.None? { return false; }
      var o := options.value;
      var offered := ReadU32Be(p, 16);
      var from := if o.server.Some? then o.server.value else source;
      if o.kind == Some(OFFER) && state.Discovering? && UsableUnicast(offered) && UsableUnicast(from) {
        TakeOffer(o, offered, from);
        return true;
      }
      if o.kind == Some(NAK) && (state.Requesting? || state.Renewing? || state.Rebinding?) {
        if grant.server != 0 && o.server.Some? && o.server.value != grant.server && !state.Rebinding? { return false; }
        Restart();
        return true;
      }
      if o.kind != Some(ACK) || !(state.Requesting? || state.Renewing? || state.Rebinding?) { return false; }
      if !state.Rebinding? && grant.server != 0 && o.server.Some? && o.server.value != grant.server { return false; }
      LeaseIsZeroIff(o, grant);
      handled := TakeAck(o, offered, from);
    }

    /** An offer is remembered and asked for. */
    method TakeOffer(o: DhcpOptions, offered: u32, from: u32)
      requires Valid() && state.Discovering? && UsableUnicast(offered) && UsableUnicast(from)
      modifies this`state, this`grant, this`nextAction, this`attempts, this`sent, this`zeroRefused
      ensures Valid() && state.Requesting? && grant == Offered(old(grant), o, offered, from) && sent == old(sent) + [Request(false)]
      ensures attempts == 1 && nextAction == SaturatingAdd(now, RETRY_BASE) && !zeroRefused
    {
      hide NetmaskOk, UsableUnicast, Safe;
      grant := Offered(grant, o, offered, from);
      state, attempts, zeroRefused := Requesting, 0, false;
      SendMessage();
    }

    /** An acknowledgement: a usable address and a lease of some length; otherwise the state and
        the configuration stay, but the lease time is lost and the server may be another. */
    method TakeAck(o: DhcpOptions, offered: u32, from: u32) returns (handled: bool)
      requires Valid() && (state.Requesting? || state.Renewing? || state.Rebinding?)
      modifies this`state, this`grant, this`nextAction, this`attempts, this`config, this`zeroRefused
      ensures Valid()
      ensures handled <==> LeaseOf(o, old(grant)) != 0
      ensures handled ==> state.Bound? && grant == Granted(old(grant), o, from, now) && grant.lease > 0 && !zeroRefused
                          && config == ConfigOf(AckAddress(offered, old(config).address, old(grant).offer.ip), o, old(grant).offer)
                          && attempts == 0 && nextAction == SaturatingAdd(now, grant.renewal * 1000)
      ensures !handled ==> state == old(state) && config == old(config) && grant == Zeroed(old(grant), from) && zeroRefused
                           && attempts == old(attempts) && nextAction == old(nextAction)
    {
      hide NetmaskOk, UsableUnicast, ConfigOf, Safe, RenewalOf, RebindOf;
      var address := if UsableUnicast(offered) then offered else config.address;
      if !UsableUnicast(address) { address := grant.offer.ip; }
      // In every state that can be acknowledged one of the three is usable.
      assert UsableUnicast(address) by { ZeroIsUnusable(); }
      var c := ConfigOf(address, o, grant.offer);
      ConfigIsUsable(address, o, grant.offer);
      if UsableUnicast(from) { grant := grant.(server := from); }
      var time := LeaseOf(o, grant);
      grant := grant.(lease := time);
      zeroRefused := time == 0;
      if time == 0 { return false; }
      TimersBeforeEnd(time, o);
      grant := grant.(renewal := RenewalOf(time, o), rebind := RebindOf(time, o), started := now);
      config := c;
      state, attempts := Bound, 0;
      nextAction := SaturatingAdd(now, grant.renewal * 1000);
      return true;
    }

    /** Within a lease the timers precede its end unless an acknowledgement of no time has been
        refused since it began. */
    lemma TimersIff()
      requires Valid() && Leased(state)
      ensures grant.renewal < grant.lease && grant.rebind < grant.lease <==> !zeroRefused
    {
    }

    /** Any packet and the next tick: the lease is lost by a refusal, by its end, or by an
        acknowledgement of no time, and by nothing else. */
    method ReceiveThenTick(source: u32, p: seq<byte>, time: u64) returns (handled: bool)
      requires Valid() && Leased(state)
      modifies this
      ensures Valid() && (handled ==> OptionsOf(p).Some?)
      ensures Leased(state) <==>
                if handled then
                  OptionsOf(p).value.kind == Some(ACK)
                  && (if time >= old(now) then time - old(now) else 0) < LeaseOf(OptionsOf(p).value, old(grant)) * 1000
                else
                  !old(ZeroAck(p)) && ElapsedAt(old(grant), time) < old(grant).lease * 1000
      ensures !handled && Leased(state) ==> config == old(config) && grant == old(grant)
      ensures !Leased(state) ==> state.Discovering? && config == UNCONFIGURED
    {
      hide NetmaskOk, UsableUnicast, OptionsOf, ConfigOf, AckAddress, Safe, LeaseOf;
      handled := Receive(source, p);
      Tick(time);
    }

    /** Such a packet exists in every state that can be acknowledged. */
    lemma ZeroAckExists()
      requires Valid() && Asking(state)
      ensures ZeroAck(NoTime(transaction, mac))
    {
      hide OptionsOf;
      NoTimeIsAck(transaction, mac);
    }
  }

  /** An acknowledgement that names no server and grants no time. */
  function NoTime(transaction: u32, mac: seq<byte>): seq<byte>
    requires |mac| == 6
  {
    [2, 1, 6, 0] + U32Be(transaction) + seq(20, _ => 0) + mac + seq(202, _ => 0) + U32Be(MAGIC_COOKIE)
    + [53, 1, ACK, 51, 4, 0, 0, 0, 0, 255]
  }

  lemma NoTimeIsAck(transaction: u32, mac: seq<byte>)
    requires |mac| == 6
    ensures var p := NoTime(transaction, mac);
            && |p| == FIXED_SIZE + 10 && p[0] == 2 && p[1] == 1 && p[2] == 6 && ReadU32Be(p, 4) == transaction && p[28..34] == mac
            && OptionsOf(p) == Some(NO_OPTIONS.(kind := Some(ACK), lease := Some(0)))
  {
    var p := NoTime(transaction, mac);
    assert p[4..8] == U32Be(transaction);
    assert p[236..240] == U32Be(MAGIC_COOKIE);
    ReadLong(p, 4, transaction);
    ReadLong(p, 236, MAGIC_COOKIE);
    assert p[FIXED_SIZE..] == [53, 1, ACK, 51, 4, 0, 0, 0, 0, 255];
    NoTimeOptions(p);
  }

  lemma NoTimeOptions(p: seq<byte>)
    requires |p| > FIXED_SIZE && p[FIXED_SIZE..] == [53, 1, ACK, 51, 4, 0, 0, 0, 0, 255]
    ensures OptionsFrom(p, FIXED_SIZE, NO_OPTIONS) == Some(NO_OPTIONS.(kind := Some(ACK), lease := Some(0)))
  {
    hide OptionsFrom, Chosen, Over, AddOption, EncodedAll, EntriesOk, Holds;
    var kind, lease := Opt(53, [ACK]), Opt(51, [0, 0, 0, 0]);
    NoTimeHolds(p);
    ListReadsBack(p, FIXED_SIZE, NO_OPTIONS, [kind, lease], []);
    assert [kind, lease][1..] == [lease] && [lease][1..] == [];
    OneEntry(NO_OPTIONS, [kind, lease]);
    OneEntry(AddOption(NO_OPTIONS, 53, [ACK]), [lease]);
    NothingOver(AddOption(AddOption(NO_OPTIONS, 53, [ACK]), 51, [0, 0, 0, 0]));
    NoTimeAdds();
  }

  lemma NoTimeAdds()
    ensures AddOption(AddOption(NO_OPTIONS, 53, [ACK]), 51, [0, 0, 0, 0]) == NO_OPTIONS.(kind := Some(ACK), lease := Some(0))
  {
  }

  lemma NoTimeHolds(p: seq<byte>)
    requires |p| > FIXED_SIZE && p[FIXED_SIZE..] == [53, 1, ACK, 51, 4, 0, 0, 0, 0, 255]
    ensures Holds(p, FIXED_SIZE, [Opt(53, [ACK]), Opt(51, [0, 0, 0, 0])], [])
  {
    var kind, lease := Opt(53, [ACK]), Opt(51, [0, 0, 0, 0]);
    assert [kind, lease][1..] == [lease] && [lease][1..] == [];
    assert EncodedAll([lease]) == Encoded(lease) + EncodedAll([]) == [51, 4, 0, 0, 0, 0];
    assert EncodedAll([kind, lease]) == Encoded(kind) + EncodedAll([lease]) == [53, 1, ACK, 51, 4, 0, 0, 0, 0];
  }

  lemma ZeroIsUnusable()
    ensures !UsableUnicast(0)
  {
  }
}
