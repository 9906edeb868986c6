/** kernel/net.c: sending datagrams from one transmit buffer, at once or after address resolution. */
module UdpSender {
  import opened Bytes
  import opened Options
  import opened Buffers
  import opened Checksum
  import opened Ipv4
  import opened Udp

  const RETRY_INTERVAL: nat := 1000
  const MAX_ATTEMPTS: nat := 3

  datatype Result = Failed | Queued | Sent

  /** A packet that waits for its next hop's address. */
  datatype Pending = Pending(destination: u32, nextHop: u32, payload: seq<byte>, requested: u64, requests: nat, attempts: u32)

  /** A frame that was handed to the link. */
  datatype Delivery = Delivery(to: Mac, id: u16, datagram: Datagram)

  ghost function FrameOf(from: Mac, d: Delivery): seq<byte>
    requires Sendable(d.datagram)
  {
    EthernetHeader(d.to, from) + Packet(d.id, d.datagram.source, d.datagram.destination, PROTOCOL_UDP, UdpBytes(d.datagram))
  }

  /** Every delivery is received as sent by the stations it is for, and by no other. */
  lemma DeliveryArrives(me: Mac, c: Config, dhcp: bool, from: Mac, d: Delivery)
    requires Sendable(d.datagram) && ValidSource(from)
    ensures ReceiveFrame(me, c, dhcp, FrameOf(from, d))
         == if (d.to == me || d.to == ALL_STATIONS) && IsFor(c, dhcp, d.datagram) then Some(d.datagram) else None
  {
    FrameArrives(me, c, dhcp, d.to, from, d.id, d.datagram);
  }

  datatype Route = NoRoute | Known(to: Mac) | Unresolved(nextHop: u32)

  /** route_ipv4. */
  function RouteOf(c: Config, arp: map<u32, Mac>, ip: u32): Route {
    if ip == 0 then NoRoute
    else if ip == BROADCAST || SubnetBroadcast(c, ip) then Known(ALL_STATIONS)
    else if Multicast(ip) then Known([1, 0, 0x5E, ip / 0x1_0000 % 128, ip / 256 % 256, ip % 256])
    else if c.address == 0 then NoRoute
    else
      var target := if c.netmask != 0 && Masked(ip, c.netmask) != Masked(c.address, c.netmask) then c.gateway else ip;
      if !UsableUnicast(target) then NoRoute
      else if target in arp then Known(arp[target]) else Unresolved(target)
  }

  /** What a send comes to when the link takes the frame; `busy` is whether a packet waits. */
  function Expected(c: Config, arp: map<u32, Mac>, busy: bool, destination: u32): Result {
    if destination == 0 || (c.address == 0 && destination != BROADCAST) then Failed
    else
      match RouteOf(c, arp, destination)
      case NoRoute => Failed
      case Known(_) => Sent
      case Unresolved(_) => if busy then Failed else Queued
  }

  // --------------------------------------------------------------------------------------
  // How long a packet waits

  /** What the waiting packet meets: a clock tick, or the flush that follows every packet received
      on the link. `known` is whether its next hop is, `refused` whether the link turns it down. */
  datatype Event = Tick(time: u64, known: bool, refused: bool) | Flush(known: bool, refused: bool)

  /** flush_pending_ipv4 on a waiting packet. The count of refusals is 32 bits wide. */
  function Flushed(p: Pending, now: u64, known: bool, refused: bool): Option<Pending> {
    if !known then Some(p)
    else if !refused then None
    else Some(p.(requested := now, attempts := (p.attempts + 1) % 0x1_0000_0000))
  }

  predicate Due(since: u64, time: u64) {
    since + RETRY_INTERVAL <= time
  }

  /** tick_pending_arp on a waiting packet. */
  function Ticked(p: Pending, now: u64, known: bool, refused: bool): Option<Pending> {
    if !Due(p.requested, now) then Some(p)
    else if known then
      if p.attempts >= MAX_ATTEMPTS then None else Flushed(p, now, known, refused)
    else if p.requests >= MAX_ATTEMPTS then None
    else Some(p.(requested := now, requests := p.requests + 1))
  }

  /** The clock is read by ticks alone. */
  function Clock(start: u64, es: seq<Event>): u64 {
    if es == [] then start
    else if es[|es| - 1].Tick? then es[|es| - 1].time
    else Clock(start, es[..|es| - 1])
  }

  function Step(p: Pending, now: u64, e: Event): Option<Pending> {
    match e
    case Tick(time, known, refused) => Ticked(p, time, known, refused)
    case Flush(known, refused) => Flushed(p, now, known, refused)
  }

  /** What is left of a packet queued at `start` after a run. */
  function After(q: Pending, start: u64, es: seq<Event>): Option<Pending> {
    if es == [] then Some(q)
    else
      var before := es[..|es| - 1];
      match After(q, start, before)
      case None => None
      case Some(p) => Step(p, Clock(start, before), es[|es| - 1])
  }

  /** When a run last put the packet off. */
  function Since(since: u64, start: u64, es: seq<Event>): u64 {
    if es == [] then since
    else
      var before, e := es[..|es| - 1], es[|es| - 1];
      match e
      case Tick(time, _, _) => if Due(Since(since, start, before), time) then time else Since(since, start, before)
      case Flush(known, refused) => if known && refused then Clock(start, before) else Since(since, start, before)
  }

  /** The last event of a run is a tick that found the packet due. */
  predicate EndsDue(since: u64, start: u64, es: seq<Event>)
    requires es != []
  {
    es[|es| - 1].Tick? && Due(Since(since, start, es[..|es| - 1]), es[|es| - 1].time)
  }

  /** How often a run asked for the next hop's address. */
  function Asked(since: u64, start: u64, es: seq<Event>): nat {
    if es == [] then 0
    else Asked(since, start, es[..|es| - 1]) + if EndsDue(since, start, es) && !es[|es| - 1].known then 1 else 0
  }

  /** How often a run offered the packet to the link in vain. */
  function Refused(since: u64, start: u64, es: seq<Event>): nat {
    if es == [] then 0
    else
      var e := es[|es| - 1];
      Refused(since, start, es[..|es| - 1])
      + if e.known && e.refused && (e.Flush? || EndsDue(since, start, es)) then 1 else 0
  }

  /** The last event of a run ends the wait of a packet queued with these counts: the link takes it,
      or a due tick finds its offers or its questions used up. */
  predicate LastEnds(q: Pending, start: u64, es: seq<Event>)
    requires es != []
  {
    var before, e := es[..|es| - 1], es[|es| - 1];
    if e.Flush? then e.known && !e.refused
    else
      && EndsDue(q.requested, start, es)
      && if e.known then !e.refused || (q.attempts + Refused(q.requested, start, before)) % 0x1_0000_0000 >= MAX_ATTEMPTS
         else q.requests + Asked(q.requested, start, before) >= MAX_ATTEMPTS
  }

  lemma OneMore(n: nat)
    ensures (n % 0x1_0000_0000 + 1) % 0x1_0000_0000 == (n + 1) % 0x1_0000_0000
  {
  }

  /** A packet that still waits is the one that was queued, with what the run did to its counts. */
  lemma {:induction false} StillWaiting(q: Pending, start: u64, es: seq<Event>)
    ensures After(q, start, es).Some? ==>
              After(q, start, es).value == q.(requested := Since(q.requested, start, es),
                                              requests := q.requests + Asked(q.requested, start, es),
                                              attempts := (q.attempts + Refused(q.requested, start, es)) % 0x1_0000_0000)
    decreases |es|
  {
    if es != [] {
      var before := es[..|es| - 1];
      StillWaiting(q, start, before);
      OneMore(q.attempts + Refused(q.requested, start, before));
    }
  }

  /** A packet stops waiting exactly when some event of the run ends its wait. */
  lemma {:induction false} GoneIff(q: Pending, start: u64, es: seq<Event>)
    ensures After(q, start, es).None? <==> exists n :: 0 < n <= |es| && LastEnds(q, start, es[..n])
    decreases |es|
  {
    if es != [] {
      var before := es[..|es| - 1];
      GoneIff(q, start, before);
      StillWaiting(q, start, before);
      assert es[..|es|] == es;
      forall n | 0 < n <= |before| ensures before[..n] == es[..n] {}
      if After(q, start, es).None? && After(q, start, before).None? {
        var n :| 0 < n <= |before| && LastEnds(q, start, before[..n]);
        assert LastEnds(q, start, es[..n]);
      }
    }
  }

  /** Ticks that found the packet due, and those of them with the next hop known. */
  function DueTicks(since: u64, start: u64, es: seq<Event>): nat {
    if es == [] then 0 else DueTicks(since, start, es[..|es| - 1]) + if EndsDue(since, start, es) then 1 else 0
  }

  function DueOffers(since: u64, start: u64, es: seq<Event>): nat {
    if es == [] then 0
    else DueOffers(since, start, es[..|es| - 1]) + if EndsDue(since, start, es) && es[|es| - 1].known then 1 else 0
  }

  /** The due ticks that a packet can outlive. */
  function Patience(q: Pending): nat {
    (if q.requests < MAX_ATTEMPTS then MAX_ATTEMPTS - q.requests else 0)
    + (if q.attempts < MAX_ATTEMPTS then MAX_ATTEMPTS - q.attempts else 0)
  }

  lemma {:induction false} DueTicksSplit(since: u64, start: u64, es: seq<Event>)
    ensures DueTicks(since, start, es) == Asked(since, start, es) + DueOffers(since, start, es)
    decreases |es|
  {
    if es != [] { DueTicksSplit(since, start, es[..|es| - 1]); }
  }

  lemma {:induction false} PatienceIsUsed(q: Pending, start: u64, es: seq<Event>)
    requires After(q, start, es).Some? && q.attempts + Refused(q.requested, start, es) < 0x1_0000_0000
    ensures DueOffers(q.requested, start, es) <= Refused(q.requested, start, es)
    ensures DueOffers(q.requested, start, es) == 0 || q.attempts + DueOffers(q.requested, start, es) <= MAX_ATTEMPTS
    ensures Asked(q.requested, start, es) == 0 || q.requests + Asked(q.requested, start, es) <= MAX_ATTEMPTS
    decreases |es|
  {
    if es != [] {
      PatienceIsUsed(q, start, es[..|es| - 1]);
      StillWaiting(q, start, es[..|es| - 1]);
    }
  }

  /** Nothing outlives more due ticks than it has questions and offers left, whatever the cache and
      the link do and however many packets flush it in between. */
  lemma WaitingEnds(q: Pending, start: u64, es: seq<Event>)
    requires DueTicks(q.requested, start, es) > Patience(q)
    requires q.attempts + Refused(q.requested, start, es) < 0x1_0000_0000
    ensures After(q, start, es).None?
  {
    if After(q, start, es).Some? {
      PatienceIsUsed(q, start, es);
      DueTicksSplit(q.requested, start, es);
    }
  }

  /** The ticks of a run are a retry interval apart. */
  predicate Apart(start: u64, es: seq<Event>) {
    es == []
    || (Apart(start, es[..|es| - 1]) && (es[|es| - 1].Tick? ==> Due(Clock(start, es[..|es| - 1]), es[|es| - 1].time)))
  }

  function Ticks(es: seq<Event>): nat {
    if es == [] then 0 else Ticks(es[..|es| - 1]) + if es[|es| - 1].Tick? then 1 else 0
  }

  /** Under slow ticks every tick finds the packet due: a flush puts it off to the tick before it. */
  lemma {:induction false} SlowTicksAreDue(since: u64, start: u64, es: seq<Event>)
    requires since <= start && Apart(start, es)
    ensures Since(since, start, es) <= Clock(start, es) && DueTicks(since, start, es) == Ticks(es)
    decreases |es|
  {
    if es != [] { SlowTicksAreDue(since, start, es[..|es| - 1]); }
  }

  /** `n` rounds of a flush that the link refuses and a tick half a second later. */
  function Rounds(start: u64, n: nat): seq<Event>
    requires start + 500 * n <= U64_MAX
  {
    if n == 0 then [] else Rounds(start, n - 1) + [Flush(true, true), Tick(start + 500 * n, true, true)]
  }

  /** Under faster ticks there is no bound: refused flushes put every tick off, and the count of
      offers, which only a due tick looks at, grows without one. */
  lemma {:induction false} NeverDue(q: Pending, start: u64, n: nat)
    requires start + 500 * n <= U64_MAX
    ensures After(q, start, Rounds(start, n)).Some? && Clock(start, Rounds(start, n)) == start + 500 * n
    ensures Ticks(Rounds(start, n)) == n && Refused(q.requested, start, Rounds(start, n)) == n
    ensures DueTicks(q.requested, start, Rounds(start, n)) == 0
    decreases n
  {
    if n > 0 {
      NeverDue(q, start, n - 1);
      var r := Rounds(start, n - 1);
      var f := r + [Flush(true, true)];
      var es := Rounds(start, n);
      assert f[..|f| - 1] == r;
      assert es[..|es| - 1] == f;
      assert Since(q.requested, start, f) == Clock(start, r);
    }
  }

  lemma HeaderParts(e: seq<byte>, h: seq<byte>, c: u16, h2: seq<byte>)
    requires |e| == ETHERNET_HEADER && |h| == IP_HEADER == |h2|
    requires h2[..10] == h[..10] && h2[10..12] == U16Be(c) && h2[12..] == h[12..]
    ensures Overlay(e + h, ETHERNET_HEADER + 10, U16Be(c)) == e + h2
  {
    var x, y := Overlay(e + h, ETHERNET_HEADER + 10, U16Be(c)), e + h2;
    forall i | 0 <= i < |x| ensures x[i] == y[i] {
      if i >= ETHERNET_HEADER {
        var k := i - ETHERNET_HEADER;
        if k < 10 { assert h2[k] == h2[..10][k]; }
        else if k < 12 { assert h2[k] == h2[10..12][k - 10]; }
        else { assert h2[k] == h2[12..][k - 12]; }
      }
    }
  }

  lemma IpHeaderParts(id: u16, source: u32, destination: u32, protocol: byte, size: nat, c: u16)
    requires size <= IP_PAYLOAD_MAX
    ensures var h, h2 := IpHeaderWith(id, source, destination, protocol, size, 0), IpHeaderWith(id, source, destination, protocol, size, c);
            h2[..10] == h[..10] && h2[10..12] == U16Be(c) && h2[12..] == h[12..]
  {
    hide IpStart, IpAddresses, U16Be;
  }

  lemma UdpParts(d: Datagram, c: u16)
    requires Sendable(d)
    ensures Overlay(UdpWith(d, 0), 6, U16Be(c)) == UdpWith(d, c)
  {
    hide UdpPorts, U16Be;
  }

  class Sender {
    const frame: array<byte>
    const mac: Mac
    var config: Config
    var arp: map<u32, Mac>
    var nextId: u16
    var now: u64
    var pending: Option<Pending>
    /** What the pending payload means, and every frame handed to the link. */
    ghost var waiting: Datagram
    ghost var log: seq<Delivery>
    ghost var wire: seq<seq<byte>>
    /** How many datagrams the link has turned down. */
    ghost var refusals: nat
    /** The packet that was queued last, with the clock of that moment, and what happened since. */
    ghost var queued: Option<Pending>
    ghost var start: u64
    ghost var history: seq<Event>

    ghost predicate Sound()
      reads this, frame
    {
      && frame.Length == FRAME_MAX
      && (pending.Some? ==>
            && Sendable(waiting) && waiting.source == config.address && waiting.destination == pending.value.destination
            && pending.value.payload == UdpBytes(waiting))
      && |wire| == |log|
      && forall i :: 0 <= i < |log| ==> Sendable(log[i].datagram) && wire[i] == FrameOf(mac, log[i])
    }

    /** What waits is what the run since the last queueing has left. */
    ghost predicate Tied()
      reads this
    {
      && (if queued.None? then pending.None? else pending == After(queued.value, start, history))
      && (pending.Some? ==> Clock(start, history) == now)
    }

    ghost predicate Valid()
      reads this, frame
    {
      Sound() && Tied()
    }

    constructor (station: Mac, time: u64)
      ensures Valid() && mac == station && log == [] && pending.None?
      ensures fresh(frame)
    {
      frame := new byte[FRAME_MAX];
      mac, now, config, arp, nextId, pending := station, time, UNCONFIGURED, map[], 1, None;
      waiting, log, wire, refusals := Datagram(0, 0, 1, 1, []), [], [], 0;
      queued, start, history := None, time, [];
    }

    /** The link takes the first `size` bytes of the transmit buffer, or refuses. */
    method Transmit(size: nat, ghost d: Delivery) returns (ok: bool)
      requires Sound() && size <= FRAME_MAX && Sendable(d.datagram) && frame[..size] == FrameOf(mac, d)
      modifies this`log, this`wire, this`refusals
      ensures Sound()
      ensures log == if ok then old(log) + [d] else old(log)
      ensures refusals == if ok then old(refusals) else old(refusals) + 1
    {
      hide FrameOf, UdpBytes;
      ok := *;
      if ok {
        log := log + [d];
        wire := wire + [frame[..size]];
      } else {
        refusals := refusals + 1;
      }
    }

    /** The Ethernet and IPv4 headers in front of a payload of `size` bytes. */
    method WriteHeaders(destination: u32, size: nat, to: Mac)
      requires frame.Length == FRAME_MAX && size <= IP_PAYLOAD_MAX
      modifies frame, this`nextId
      ensures frame[..ETHERNET_HEADER + IP_HEADER]
           == EthernetHeader(to, mac) + IpHeader(old(nextId), config.address, destination, PROTOCOL_UDP, size)
      ensures frame[ETHERNET_HEADER + IP_HEADER..] == old(frame[ETHERNET_HEADER + IP_HEADER..])
    {
      hide EthernetHeader, IpHeaderWith, WordSum, Finish, U16Be, Overlay;
      var ethernet, ip := EthernetHeader(to, mac), IpHeaderWith(nextId, config.address, destination, PROTOCOL_UDP, size, 0);
      ghost var tail := frame[ETHERNET_HEADER + IP_HEADER..];
      Store(frame, 0, ethernet + ip);
      assert frame[0..ETHERNET_HEADER + IP_HEADER] == frame[..ETHERNET_HEADER + IP_HEADER];
      assert frame[ETHERNET_HEADER..ETHERNET_HEADER + IP_HEADER] == (ethernet + ip)[ETHERNET_HEADER..] == ip;
      var c := InternetChecksum(frame[ETHERNET_HEADER..ETHERNET_HEADER + IP_HEADER]);
      IpHeaderParts(nextId, config.address, destination, PROTOCOL_UDP, size, c);
      HeaderParts(ethernet, ip, c, IpHeaderWith(nextId, config.address, destination, PROTOCOL_UDP, size, c));
      ghost var was := frame[..];
      Store(frame, ETHERNET_HEADER + 10, U16Be(c));
      OverlaySplit(was, ETHERNET_HEADER + IP_HEADER, ETHERNET_HEADER + 10, U16Be(c));
      nextId := (nextId + 1) % 0x1_0000;
      assert was[..ETHERNET_HEADER + IP_HEADER] == ethernet + ip && was[ETHERNET_HEADER + IP_HEADER..] == tail;
      assert frame[..ETHERNET_HEADER + IP_HEADER] == frame[..][..ETHERNET_HEADER + IP_HEADER];
      assert frame[ETHERNET_HEADER + IP_HEADER..] == frame[..][ETHERNET_HEADER + IP_HEADER..];
    }

    /** send_ipv4_with_mac. The payload is in the buffer already (`None`: copying it onto itself
        changes nothing) or is copied there after the headers are written. */
    method SendWithMac(destination: u32, payload: Option<seq<byte>>, size: nat, to: Mac, ghost d: Datagram) returns (ok: bool)
      requires Sound() && size <= IP_PAYLOAD_MAX
      requires Sendable(d) && d.source == config.address && d.destination == destination && size == |UdpBytes(d)|
      requires payload.Some? ==> payload.value == UdpBytes(d)
      requires payload.None? ==> frame[ETHERNET_HEADER + IP_HEADER..ETHERNET_HEADER + IP_HEADER + size] == UdpBytes(d)
      modifies frame, this`nextId, this`log, this`wire, this`refusals
      ensures Sound() && log == if ok then old(log) + [Delivery(to, old(nextId), d)] else old(log)
      ensures refusals == if ok then old(refusals) else old(refusals) + 1
    {
      hide EthernetHeader, IpHeader, UdpBytes, Overlay;
      ghost var id := nextId;
      var start := ETHERNET_HEADER + IP_HEADER;
      ghost var body := frame[start..];
      assert frame[start..start + size] == body[..size];
      WriteHeaders(destination, size, to);
      ghost var headers := frame[..start];
      if payload.Some? {
        Store(frame, start, payload.value);
        assert frame[..start] == headers;
      } else {
        assert frame[start..start + size] == frame[start..][..size];
      }
      assert frame[..start + size] == headers + UdpBytes(d);
      assert headers + UdpBytes(d) == FrameOf(mac, Delivery(to, id, d)) by {
        FrameParts(mac, Delivery(to, id, d));
      }
      ok := Transmit(start + size, Delivery(to, id, d));
    }

    /** net_arp_request: the question is written over the front of the same buffer. */
    method ArpRequest(ip: u32) returns (ok: bool)
      requires frame.Length == FRAME_MAX
      modifies frame
    {
      if config.address == 0 || !UsableUnicast(ip) { return false; }
      var question := [0, 1, 8, 0, 6, 4, 0, 1] + mac + U32Be(config.address) + [0, 0, 0, 0, 0, 0] + U32Be(ip);
      Store(frame, 0, ALL_STATIONS + mac + [8, 6] + question);
      ok := *;
    }

    /** net_ipv4_send of the datagram that lies in the transmit buffer. */
    method SendFromFrame(destination: u32, size: nat, ghost d: Datagram) returns (r: Result)
      requires Valid() && size <= IP_PAYLOAD_MAX
      requires Sendable(d) && d.source == config.address && d.destination == destination && size == |UdpBytes(d)|
      requires frame[ETHERNET_HEADER + IP_HEADER..ETHERNET_HEADER + IP_HEADER + size] == UdpBytes(d)
      modifies frame, this`nextId, this`log, this`wire, this`refusals, this`pending, this`waiting, this`queued, this`start, this`history
      ensures Valid()
      ensures r.Sent? ==> RouteOf(config, arp, destination).Known? && pending == old(pending)
                          && log == old(log) + [Delivery(RouteOf(config, arp, destination).to, old(nextId), d)]
      ensures r.Queued? ==> log == old(log) && pending.Some? && waiting == d
                            && RouteOf(config, arp, destination) == Unresolved(pending.value.nextHop)
                            && pending == Some(Pending(destination, pending.value.nextHop, UdpBytes(d), now, 1, 0))
                            && queued == pending && start == now && history == []
      ensures r.Failed? ==> log == old(log) && pending == old(pending) && waiting == old(waiting)
                            && queued == old(queued) && history == old(history) && start == old(start)
      ensures var expected := Expected(config, arp, old(pending).Some?, destination);
              if refusals == old(refusals) then r == expected
              else refusals == old(refusals) + 1 && expected == Sent && r == Failed
    {
      hide RouteOf, UdpBytes, FrameOf;
      if destination == 0 { return Failed; }
      if config.address == 0 && destination != BROADCAST { return Failed; }
      var route := RouteOf(config, arp, destination);
      match route {
        case NoRoute => return Failed;
        case Known(to) =>
          var ok := SendWithMac(destination, None, size, to, d);
          return if ok then Sent else Failed;
        case Unresolved(nextHop) =>
          if pending.Some? { return Failed; }
          // The copy is taken before the question overwrites the buffer.
          var payload := frame[ETHERNET_HEADER + IP_HEADER..ETHERNET_HEADER + IP_HEADER + size];
          pending := Some(Pending(destination, nextHop, payload, now, 1, 0));
          waiting := d;
          queued, start, history := pending, now, [];
          var _ := ArpRequest(nextHop);
          return Queued;
      }
    }

    /** net_udp_send. */
    method Send(destination: u32, destinationPort: u16, sourcePort: u16, data: seq<byte>) returns (r: Result)
      requires Valid()
      modifies frame, this`nextId, this`log, this`wire, this`refusals, this`pending, this`waiting, this`queued, this`start, this`history
      ensures Valid()
      ensures var d := Datagram(config.address, destination, sourcePort, destinationPort, data);
              && (r != Failed ==> Sendable(d))
              && (!Sendable(d) ==> r == Failed)
              && (Sendable(d) ==>
                    var expected := Expected(config, arp, old(pending).Some?, destination);
                    if refusals == old(refusals) then r == expected
                    else refusals == old(refusals) + 1 && expected == Sent && r == Failed)
              && (r.Sent? ==> RouteOf(config, arp, destination).Known? && pending == old(pending)
                              && log == old(log) + [Delivery(RouteOf(config, arp, destination).to, old(nextId), d)])
              && (r.Queued? ==> log == old(log) && pending.Some? && waiting == d
                                && RouteOf(config, arp, destination) == Unresolved(pending.value.nextHop)
                                && queued == pending && start == now && history == [])
              && (r.Failed? ==> log == old(log) && pending == old(pending) && waiting == old(waiting))
    {
      hide RouteOf, FrameOf;
      if destinationPort == 0 || sourcePort == 0 || |data| > UDP_PAYLOAD_MAX { return Failed; }
      ghost var d := Datagram(config.address, destination, sourcePort, destinationPort, data);
      WriteUdp(destination, destinationPort, sourcePort, data);
      r := SendFromFrame(destination, UDP_HEADER + |data|, d);
    }

    /** The datagram composed in the buffer: zero checksum first, then the real one. */
    method WriteUdp(destination: u32, destinationPort: u16, sourcePort: u16, data: seq<byte>)
      requires frame.Length == FRAME_MAX
      requires Sendable(Datagram(config.address, destination, sourcePort, destinationPort, data))
      modifies frame
      ensures frame[ETHERNET_HEADER + IP_HEADER..ETHERNET_HEADER + IP_HEADER + UDP_HEADER + |data|]
           == UdpBytes(Datagram(config.address, destination, sourcePort, destinationPort, data))
    {
      hide PseudoHeader, WordSum, Finish, UdpWith, Overlay, U16Be;
      ghost var d := Datagram(config.address, destination, sourcePort, destinationPort, data);
      var start, size := ETHERNET_HEADER + IP_HEADER, UDP_HEADER + |data|;
      UdpZero(d);
      Store(frame, start, U16Be(sourcePort) + U16Be(destinationPort) + U16Be(size) + U16Be(0) + data);
      var c := TransportChecksum(config.address, destination, frame[start..start + size]);
      var field := if c == 0 then 0xFFFF else c;
      ghost var was := frame[..];
      assert was[start..start + size] == UdpWith(d, 0);
      UdpParts(d, field);
      Store(frame, start + 6, U16Be(field));
      OverlayInside(was, start, size, 6, U16Be(field));
      assert frame[start..start + size] == frame[..][start..start + size];
    }

    /** flush_pending_ipv4: the packet that waited, once its next hop is known. */
    method Flush() returns (ok: bool)
      requires Sound()
      modifies frame, this`nextId, this`log, this`wire, this`refusals, this`pending
      ensures Sound()
      ensures ok <==> old(pending).None? || (old(pending).value.nextHop in arp && refusals == old(refusals))
      ensures old(pending).None? ==> pending.None? && log == old(log) && refusals == old(refusals)
      ensures old(pending).Some? ==>
                pending == Flushed(old(pending).value, now, old(pending).value.nextHop in arp, refusals > old(refusals))
      ensures old(pending).Some? ==>
                log == if pending.None? then old(log) + [Delivery(arp[old(pending).value.nextHop], old(nextId), waiting)] else old(log)
      ensures refusals >= old(refusals)
    {
      hide UdpBytes, FrameOf;
      if pending.None? { return true; }
      var p := pending.value;
      if p.nextHop !in arp { return false; }
      ok := SendWithMac(p.destination, Some(p.payload), |p.payload|, arp[p.nextHop], waiting);
      if ok {
        pending := None;
      } else {
        pending := Some(p.(requested := now, attempts := (p.attempts + 1) % 0x1_0000_0000));
      }
    }

    /** arp_learn, and the flush that follows it: the waiting packet goes out as soon as its next
        hop is known, unless the link turns it down. */
    method Learn(ip: u32, station: Mac)
      requires Valid()
      modifies frame, this`arp, this`nextId, this`log, this`wire, this`refusals, this`pending, this`history
      ensures Valid()
      ensures arp == if UsableUnicast(ip) && ValidSource(station) then old(arp)[ip := station] else old(arp)
      ensures history == if old(pending).None? then old(history)
                         else old(history) + [Event.Flush(old(pending).value.nextHop in arp, refusals > old(refusals))]
      ensures if old(pending).Some? && old(pending).value.nextHop in arp && refusals == old(refusals)
              then pending.None? && log == old(log) + [Delivery(arp[old(pending).value.nextHop], old(nextId), waiting)]
              else log == old(log) && (pending.Some? <==> old(pending).Some?)
    {
      hide FrameOf, UdpBytes;
      ghost var was := pending;
      if UsableUnicast(ip) && ValidSource(station) {
        arp := arp[ip := station];
      }
      var _ := Flush();
      if was.Some? {
        history := history + [Event.Flush(was.value.nextHop in arp, refusals > old(refusals))];
        assert history[..|history| - 1] == old(history);
      }
    }

    /** tick_pending_arp. */
    method Tick(time: u64)
      requires Valid()
      modifies frame, this`now, this`nextId, this`log, this`wire, this`refusals, this`pending, this`history
      ensures Valid() && now == time
      ensures history == if old(pending).None? then old(history)
                         else old(history) + [Event.Tick(time, old(pending).value.nextHop in arp, refusals > old(refusals))]
      ensures old(pending).None? ==> pending.None? && log == old(log)
      ensures old(pending).Some? ==>
                pending == Ticked(old(pending).value, time, old(pending).value.nextHop in arp, refusals > old(refusals))
      ensures log != old(log) ==> old(pending).Some? && old(pending).value.nextHop in arp
                                  && log == old(log) + [Delivery(arp[old(pending).value.nextHop], old(nextId), waiting)]
      ensures old(pending).Some? && pending.None? && log == old(log) ==>
                old(pending).value.attempts >= MAX_ATTEMPTS || old(pending).value.requests >= MAX_ATTEMPTS
    {
      hide FrameOf, UdpBytes;
      ghost var was := pending;
      now := time;
      TickPending();
      if was.Some? {
        history := history + [Event.Tick(time, was.value.nextHop in arp, refusals > old(refusals))];
        assert history[..|history| - 1] == old(history);
      }
    }

    method TickPending()
      requires Sound()
      modifies frame, this`nextId, this`log, this`wire, this`refusals, this`pending
      ensures Sound() && refusals >= old(refusals)
      ensures old(pending).None? ==> pending.None? && log == old(log)
      ensures old(pending).Some? ==>
                pending == Ticked(old(pending).value, now, old(pending).value.nextHop in arp, refusals > old(refusals))
      ensures log != old(log) ==> old(pending).Some? && old(pending).value.nextHop in arp
                                  && log == old(log) + [Delivery(arp[old(pending).value.nextHop], old(nextId), waiting)]
      ensures old(pending).Some? && pending.None? && log == old(log) ==>
                old(pending).value.attempts >= MAX_ATTEMPTS || old(pending).value.requests >= MAX_ATTEMPTS
    {
      hide FrameOf, UdpBytes;
      if pending.None? { return; }
      var p := pending.value;
      if now < p.requested || now - p.requested < RETRY_INTERVAL { return; }
      if p.nextHop in arp {
        if p.attempts >= MAX_ATTEMPTS {
          pending := None;
        } else {
          var _ := Flush();
        }
      } else if p.requests >= MAX_ATTEMPTS {
        pending := None;
      } else {
        pending := Some(p.(requested := now, requests := p.requests + 1));
        var _ := ArpRequest(p.nextHop);
      }
    }

    /** Entries of the address cache may go at any time: they expire or make room. */
    method Forget(ip: u32)
      requires Valid()
      modifies this`arp
      ensures Valid() && arp == old(arp) - {ip}
    {
      arp := arp - {ip};
    }

    /** net_configure_ipv4: under another address the pending packet would carry the wrong one, so
        it goes. */
    method Configure(c: Config)
      requires Valid()
      modifies this`config, this`arp, this`pending, this`queued
      ensures Valid() && config == c && log == old(log)
      ensures c.address == old(config).address && c.netmask == old(config).netmask && c.gateway == old(config).gateway ==>
                pending == old(pending) && arp == old(arp)
      ensures !(c.address == old(config).address && c.netmask == old(config).netmask && c.gateway == old(config).gateway) ==>
                pending.None? && arp == map[]
    {
      hide FrameOf, UdpBytes;
      var changed := config.address != c.address || config.netmask != c.netmask || config.gateway != c.gateway;
      config := c;
      if changed {
        arp := map[];
        pending := None;
        queued := None;
      }
    }
  }

  lemma FrameParts(from: Mac, d: Delivery)
    requires Sendable(d.datagram)
    ensures FrameOf(from, d)
         == EthernetHeader(d.to, from) + IpHeader(d.id, d.datagram.source, d.datagram.destination, PROTOCOL_UDP, |UdpBytes(d.datagram)|)
            + UdpBytes(d.datagram)
  {
    hide EthernetHeader, IpHeader, UdpBytes;
  }

  lemma OverlaySplit(s: seq<byte>, n: nat, at: nat, data: seq<byte>)
    requires at + |data| <= n <= |s|
    ensures Overlay(s, at, data)[..n] == Overlay(s[..n], at, data) && Overlay(s, at, data)[n..] == s[n..]
  {
  }

  lemma OverlayInside(s: seq<byte>, start: nat, size: nat, at: nat, data: seq<byte>)
    requires at + |data| <= size && start + size <= |s|
    ensures Overlay(s, start + at, data)[start..start + size] == Overlay(s[start..start + size], at, data)
  {
    var x, y := Overlay(s, start + at, data)[start..start + size], Overlay(s[start..start + size], at, data);
    forall i | 0 <= i < size ensures x[i] == y[i] {
    }
  }

  lemma UdpZero(d: Datagram)
    requires Sendable(d)
    ensures UdpWith(d, 0) == U16Be(d.sourcePort) + U16Be(d.destinationPort) + U16Be(UDP_HEADER + |d.data|) + U16Be(0) + d.data
  {
  }

  /** transport_checksum. */
  method TransportChecksum(source: u32, destination: u32, udp: seq<byte>) returns (c: u16)
    requires |udp| <= IP_PAYLOAD_MAX
    ensures c == Finish(WordSum(PseudoHeader(source, destination, |udp|)) + WordSum(udp))
  {
    hide WordSum, Finish, PseudoHeader;
    var pseudo := PseudoHeader(source, destination, |udp|);
    SumBound(pseudo);
    SumBound(udp);
    var sum := AddWords(0, pseudo);
    sum := AddWords(sum, udp);
    c := FinishSum(sum);
  }
}
