/** The node's addresses, derived from the two IP holding registers:
    getIpAddr, getIpBcast, getMacAddr and getId. */
module Addressing {
  import opened Bytes
  import opened Registers

  /** getIpAddr: the two IP words, high byte first. */
  function IpAddr(ip1: word, ip2: word): (ip: seq<byte>)
    ensures |ip| == 4
    ensures WordOf(ip[0], ip[1]) == ip1 && WordOf(ip[2], ip[3]) == ip2
  {
    SplitJoin(ip1);
    SplitJoin(ip2);
    [Hi(ip1), Lo(ip1), Hi(ip2), Lo(ip2)]
  }

  /** getIpBcast: the node's address with the last byte set to 0xFF (a /24
      network). */
  function IpBcast(ip1: word, ip2: word): (bc: seq<byte>)
    ensures |bc| == 4
    ensures bc[..3] == IpAddr(ip1, ip2)[..3] && bc[3] == 0xFF
  {
    IpAddr(ip1, ip2)[3 := 0xFF]
  }

  /** getMacAddr's promise: a locally administered unicast prefix 2, then
      (from the third byte on) the IP address. The second byte is never
      written by getMacAddr, so nothing is said about it. */
  predicate IsSwarmMac(mac: seq<byte>, ip: seq<byte>)
  {
    |mac| == 6 && mac[0] == 2 && mac[2..] == ip
  }

  /** getId: the last IP byte counted from NETSWARM_IP_START_4, modulo 256
      (the `byte` return truncates). */
  function SwarmId(ip2: word): (id: byte)
    ensures (id + NETSWARM_IP_START_4) % 0x100 == Lo(ip2)
  {
    (Lo(ip2) - NETSWARM_IP_START_4) % 0x100
  }

  /** Nodes whose last IP bytes differ have different ids. */
  lemma SwarmIdInjective(a: word, b: word)
    requires Lo(a) != Lo(b)
    ensures SwarmId(a) != SwarmId(b)
  {
  }

  /** The default address is 192.168.1.177, broadcast 192.168.1.255, id 0. */
  lemma DefaultAddresses()
    ensures IpAddr(HREG_IP_ADDR_DEFAULT_1, HREG_IP_ADDR_DEFAULT_2) == [192, 168, 1, 177]
    ensures IpBcast(HREG_IP_ADDR_DEFAULT_1, HREG_IP_ADDR_DEFAULT_2) == [192, 168, 1, 255]
    ensures SwarmId(HREG_IP_ADDR_DEFAULT_2) == 0
  {
  }
}
