/** kernel/net.c: UDP datagrams in IPv4 packets in Ethernet frames, as sent and as received. */
module Udp {
  import opened Bytes
  import opened Options
  import opened Checksum
  import opened Ipv4

  const MAC_SIZE: nat := 6
  const ETHERNET_HEADER: nat := 14
  const MTU: nat := 1500
  const FRAME_MAX: nat := ETHERNET_HEADER + MTU
  const IP_HEADER: nat := 20
  const IP_PAYLOAD_MAX: nat := MTU - IP_HEADER
  const UDP_HEADER: nat := 8
  const UDP_PAYLOAD_MAX: nat := IP_PAYLOAD_MAX - UDP_HEADER
  const PROTOCOL_UDP: byte := 17
  const DHCP_CLIENT_PORT: u16 := 68

  const ALL_STATIONS: Mac := [255, 255, 255, 255, 255, 255]

  type Mac = m: seq<byte> | |m| == MAC_SIZE witness [2, 0, 0, 0, 0, 0]

  datatype Datagram = Datagram(source: u32, destination: u32, sourcePort: u16, destinationPort: u16, data: seq<byte>)

  predicate Sendable(d: Datagram) {
    d.sourcePort != 0 && d.destinationPort != 0 && |d.data| <= UDP_PAYLOAD_MAX
  }

  // --------------------------------------------------------------------------------------
  // What is sent

  function PseudoHeader(source: u32, destination: u32, size: u16): (r: seq<byte>)
    ensures |r| == 12
  {
    U32Be(source) + U32Be(destination) + [0, PROTOCOL_UDP] + U16Be(size)
  }

  /** The UDP header up to the checksum. */
  function UdpPorts(d: Datagram): (r: seq<byte>)
    requires Sendable(d)
    ensures |r| == 6
  {
    U16Be(d.sourcePort) + U16Be(d.destinationPort) + U16Be(UDP_HEADER + |d.data|)
  }

  function UdpWith(d: Datagram, c: u16): (r: seq<byte>)
    requires Sendable(d)
    ensures |r| == UDP_HEADER + |d.data|
  {
    UdpPorts(d) + U16Be(c) + d.data
  }

  /** The checksum field: computed over a zero field, and never sent as zero. */
  function UdpChecksum(d: Datagram): u16
    requires Sendable(d)
  {
    var c := Finish(WordSum(PseudoHeader(d.source, d.destination, UDP_HEADER + |d.data|)) + WordSum(UdpWith(d, 0)));
    if c == 0 then 0xFFFF else c
  }

  function UdpBytes(d: Datagram): (r: seq<byte>)
    requires Sendable(d)
    ensures |r| == UDP_HEADER + |d.data|
  {
    UdpWith(d, UdpChecksum(d))
  }

  /** The IPv4 header before and after its checksum. */
  function IpStart(id: u16, protocol: byte, size: nat): (r: seq<byte>)
    requires size <= IP_PAYLOAD_MAX
    ensures |r| == 10
  {
    [0x45, 0] + U16Be(IP_HEADER + size) + U16Be(id) + U16Be(0x4000) + [64, protocol]
  }

  function IpAddresses(source: u32, destination: u32): (r: seq<byte>)
    ensures |r| == 8
  {
    U32Be(source) + U32Be(destination)
  }

  function IpHeaderWith(id: u16, source: u32, destination: u32, protocol: byte, size: nat, c: u16): (r: seq<byte>)
    requires size <= IP_PAYLOAD_MAX
    ensures |r| == IP_HEADER
  {
    IpStart(id, protocol, size) + U16Be(c) + IpAddresses(source, destination)
  }

  function IpHeader(id: u16, source: u32, destination: u32, protocol: byte, size: nat): (r: seq<byte>)
    requires size <= IP_PAYLOAD_MAX
    ensures |r| == IP_HEADER
  {
    IpHeaderWith(id, source, destination, protocol, size,
                 Finish(WordSum(IpHeaderWith(id, source, destination, protocol, size, 0))))
  }

  function EthernetHeader(to: Mac, from: Mac): (r: seq<byte>)
    ensures |r| == ETHERNET_HEADER
  {
    to + from + U16Be(0x0800)
  }

  function Packet(id: u16, source: u32, destination: u32, protocol: byte, payload: seq<byte>): (r: seq<byte>)
    requires |payload| <= IP_PAYLOAD_MAX
    ensures |r| == IP_HEADER + |payload|
  {
    IpHeader(id, source, destination, protocol, |payload|) + payload
  }

  // --------------------------------------------------------------------------------------
  // What is received

  datatype Ip = Ip(source: u32, destination: u32, protocol: byte, payload: seq<byte>)

  /** The header checks of receive_ipv4; bytes after the stated length are padding. */
  function ReceiveIp(p: seq<byte>): Option<Ip> {
    if |p| < IP_HEADER || p[0] / 16 != 4 then None
    else
      var header := (p[0] % 16) * 4;
      var total := ReadU16Be(p, 2);
      var fragment := ReadU16Be(p, 6);
      if header < IP_HEADER || header > |p| || total < header || total > |p| || p[8] == 0
         || Finish(WordSum(p[..header])) != 0 || fragment >= 0x8000 || fragment % 0x4000 != 0 then None
      else Some(Ip(ReadU32Be(p, 12), ReadU32Be(p, 16), p[9], p[header..total]))
  }

  /** udp_checksum_valid: a zero field means that none was computed. */
  predicate UdpChecksumOk(source: u32, destination: u32, udp: seq<byte>)
    requires UDP_HEADER <= |udp| <= 0xFFFF
  {
    ReadU16Be(udp, 6) == 0 || Finish(WordSum(PseudoHeader(source, destination, |udp|)) + WordSum(udp)) == 0
  }

  /** The checks of receive_udp. */
  function ReceiveUdp(source: u32, destination: u32, udp: seq<byte>): Option<Datagram> {
    if |udp| < UDP_HEADER || ReadU16Be(udp, 0) == 0 || ReadU16Be(udp, 2) == 0 || ReadU16Be(udp, 4) < UDP_HEADER
       || ReadU16Be(udp, 4) != |udp| || !UdpChecksumOk(source, destination, udp) then None
    else Some(Datagram(source, destination, ReadU16Be(udp, 0), ReadU16Be(udp, 2), udp[UDP_HEADER..]))
  }

  predicate ValidSource(m: Mac) {
    m != [0, 0, 0, 0, 0, 0] && m != [255, 255, 255, 255, 255, 255] && m[0] % 2 == 0
  }

  /** ipv4_destination_is_local. */
  predicate LocalDestination(c: Config, ip: u32) {
    ip == BROADCAST || SubnetBroadcast(c, ip) || (c.address != 0 && ip == c.address)
  }

  /** receive_ipv4 also takes a DHCP answer to an address that is not configured yet. */
  predicate Addressed(c: Config, dhcp: bool, ip: Ip) {
    || LocalDestination(c, ip.destination)
    || (c.address == 0 && dhcp && ip.protocol == PROTOCOL_UDP && |ip.payload| >= UDP_HEADER
        && ReadU16Be(ip.payload, 2) == DHCP_CLIENT_PORT)
  }

  /** A frame as the station `me` with configuration `c` reads it: net_input down to the UDP payload. */
  function ReceiveFrame(me: Mac, c: Config, dhcp: bool, frame: seq<byte>): Option<Datagram> {
    if |frame| < ETHERNET_HEADER || |frame| > FRAME_MAX then None
    else if (frame[..6] != me && frame[..6] != ALL_STATIONS) || !ValidSource(frame[6..12])
            || ReadU16Be(frame, 12) != 0x0800 then None
    else
      match ReceiveIp(frame[ETHERNET_HEADER..])
      case None => None
      case Some(ip) =>
        if !Addressed(c, dhcp, ip) || ip.protocol != PROTOCOL_UDP then None
        else ReceiveUdp(ip.source, ip.destination, ip.payload)
  }

  /** Whose a datagram is: a station takes what is for its address, for its subnet or for everyone,
      and while it has no address whatever is for its DHCP client. */
  predicate IsFor(c: Config, dhcp: bool, d: Datagram) {
    LocalDestination(c, d.destination) || (c.address == 0 && dhcp && d.destinationPort == DHCP_CLIENT_PORT)
  }

  // --------------------------------------------------------------------------------------
  // They agree

  lemma BeWord(v: u16)
    ensures WordSum(U16Be(v)) == v && ReadU16Be(U16Be(v), 0) == v
  {
    assert U16Be(v)[2..] == [];
  }

  /** A checksum field between even-sized parts adds itself to the sum. */
  lemma SumAround(before: seq<byte>, c: u16, after: seq<byte>)
    requires |before| % 2 == 0
    ensures WordSum(before + U16Be(c) + after) == WordSum(before + U16Be(0) + after) + c
  {
    BeWord(c);
    BeWord(0);
    SumConcat(before, U16Be(c));
    SumConcat(before, U16Be(0));
    SumConcat(before + U16Be(c), after);
    SumConcat(before + U16Be(0), after);
  }

  lemma IpHeaderVerifies(id: u16, source: u32, destination: u32, protocol: byte, size: nat)
    requires size <= IP_PAYLOAD_MAX
    ensures Finish(WordSum(IpHeader(id, source, destination, protocol, size))) == 0
  {
    hide WordSum, Finish;
    var start, rest := IpStart(id, protocol, size), IpAddresses(source, destination);
    var sum := WordSum(start + U16Be(0) + rest);
    SumAround(start, Finish(sum), rest);
    ChecksumVerifies(sum);
  }

  lemma UdpVerifies(d: Datagram)
    requires Sendable(d)
    ensures UdpChecksum(d) != 0
    ensures Finish(WordSum(PseudoHeader(d.source, d.destination, UDP_HEADER + |d.data|)) + WordSum(UdpBytes(d))) == 0
  {
    hide WordSum, Finish, PseudoHeader, UdpPorts;
    var sum := WordSum(PseudoHeader(d.source, d.destination, UDP_HEADER + |d.data|)) + WordSum(UdpWith(d, 0));
    SumAround(UdpPorts(d), UdpChecksum(d), d.data);
    ChecksumVerifies(sum);
  }

  lemma ReadWord(s: seq<byte>, at: nat, v: u16)
    requires at + 2 <= |s| && s[at..at + 2] == U16Be(v)
    ensures ReadU16Be(s, at) == v
  {
    assert s[at] == s[at..at + 2][0] && s[at + 1] == s[at..at + 2][1];
  }

  lemma UdpFields(d: Datagram, c: u16)
    requires Sendable(d)
    ensures var u := UdpWith(d, c);
            && ReadU16Be(u, 0) == d.sourcePort && ReadU16Be(u, 2) == d.destinationPort
            && ReadU16Be(u, 4) == |u| && ReadU16Be(u, 6) == c && u[UDP_HEADER..] == d.data
  {
    var u := UdpWith(d, c);
    assert u[0..2] == U16Be(d.sourcePort);
    assert u[2..4] == U16Be(d.destinationPort);
    assert u[4..6] == U16Be(UDP_HEADER + |d.data|);
    assert u[6..8] == U16Be(c);
    ReadWord(u, 0, d.sourcePort);
    ReadWord(u, 2, d.destinationPort);
    ReadWord(u, 4, UDP_HEADER + |d.data|);
    ReadWord(u, 6, c);
  }

  /** The receiver gets the datagram that was sent, of any length. */
  lemma UdpArrives(d: Datagram)
    requires Sendable(d)
    ensures ReceiveUdp(d.source, d.destination, UdpBytes(d)) == Some(d)
  {
    hide WordSum, Finish, PseudoHeader, UdpWith;
    UdpFields(d, UdpChecksum(d));
    UdpVerifies(d);
  }

  lemma IpFields(id: u16, source: u32, destination: u32, protocol: byte, size: nat, c: u16, rest: seq<byte>)
    requires size <= IP_PAYLOAD_MAX
    ensures var p := IpHeaderWith(id, source, destination, protocol, size, c) + rest;
            && p[0] == 0x45 && p[8] == 64 && p[9] == protocol
            && ReadU16Be(p, 2) == IP_HEADER + size && ReadU16Be(p, 6) == 0x4000
            && ReadU32Be(p, 12) == source && ReadU32Be(p, 16) == destination
  {
    var p := IpHeaderWith(id, source, destination, protocol, size, c) + rest;
    assert p[2..4] == U16Be(IP_HEADER + size);
    assert p[6..8] == U16Be(0x4000);
    assert p[12..16] == U32Be(source);
    assert p[16..20] == U32Be(destination);
    ReadWord(p, 2, IP_HEADER + size);
    ReadWord(p, 6, 0x4000);
    ReadLong(p, 12, source);
    ReadLong(p, 16, destination);
  }

  /** The receiver gets the payload that was sent, whatever padding follows it. */
  lemma PacketArrives(id: u16, source: u32, destination: u32, protocol: byte, payload: seq<byte>, padding: seq<byte>)
    requires |payload| <= IP_PAYLOAD_MAX
    ensures ReceiveIp(Packet(id, source, destination, protocol, payload) + padding) == Some(Ip(source, destination, protocol, payload))
  {
    hide WordSum, Finish, IpHeaderWith, U16Be, U32Be;
    var header := IpHeader(id, source, destination, protocol, |payload|);
    var p := Packet(id, source, destination, protocol, payload) + padding;
    assert p == header + (payload + padding);
    var c := Finish(WordSum(IpHeaderWith(id, source, destination, protocol, |payload|, 0)));
    IpFields(id, source, destination, protocol, |payload|, c, payload + padding);
    IpHeaderVerifies(id, source, destination, protocol, |payload|);
    assert p[..IP_HEADER] == header;
    assert p[IP_HEADER..IP_HEADER + |payload|] == payload;
  }

  /** A whole frame with a datagram: the station receives the datagram as sent when frame and
      packet are for it, and nothing otherwise. */
  lemma FrameArrives(me: Mac, c: Config, dhcp: bool, to: Mac, from: Mac, id: u16, d: Datagram)
    requires Sendable(d) && ValidSource(from)
    ensures ReceiveFrame(me, c, dhcp, EthernetHeader(to, from) + Packet(id, d.source, d.destination, PROTOCOL_UDP, UdpBytes(d)))
         == if (to == me || to == ALL_STATIONS) && IsFor(c, dhcp, d) then Some(d) else None
  {
    hide Packet, UdpWith, UdpChecksum, ReceiveIp, ReceiveUdp, ValidSource, LocalDestination;
    var packet := Packet(id, d.source, d.destination, PROTOCOL_UDP, UdpBytes(d));
    var frame := EthernetHeader(to, from) + packet;
    assert frame[..6] == to && frame[6..12] == from && frame[12..14] == U16Be(0x0800);
    ReadWord(frame, 12, 0x0800);
    assert frame[ETHERNET_HEADER..] == packet;
    PacketArrives(id, d.source, d.destination, PROTOCOL_UDP, UdpBytes(d), []);
    assert packet + [] == packet;
    UdpFields(d, UdpChecksum(d));
    UdpArrives(d);
  }
}
