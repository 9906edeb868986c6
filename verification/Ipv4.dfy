/** kernel/net.c: predicates on IPv4 addresses and masks. */
module Ipv4 {
  import opened Bytes

  const BROADCAST: u32 := 0xFFFF_FFFF

  datatype Config = Config(address: u32, netmask: u32, gateway: u32, dns: u32)

  const UNCONFIGURED := Config(0, 0, 0, 0)

  /** ipv4_is_usable_unicast. */
  predicate UsableUnicast(ip: u32) {
    var first := ip / 0x100_0000;
    first != 0 && first != 127 && first < 224
  }

  /** ipv4_is_multicast. */
  predicate Multicast(ip: u32) {
    224 <= ip / 0x100_0000 < 240
  }

  /** The bits of an address under a mask. */
  function Masked(ip: u32, mask: u32): u32 {
    ((ip as bv32) & (mask as bv32)) as int
  }

  /** ipv4_is_subnet_broadcast. */
  predicate SubnetBroadcast(c: Config, ip: u32) {
    c.address != 0 && c.netmask != 0 && c.netmask != BROADCAST
    && (ip as bv32) == ((c.address as bv32) & (c.netmask as bv32)) | !(c.netmask as bv32)
  }
}
