/** The network interface configuration record (include/NetworkInterface.h).
    Getters other than `get_mac_address` return a field as it is, so they
    are the fields themselves here. */
module Interfaces {
  import opened Bytes
  import opened Addresses

  /** C++ `int` */
  type int32 = x: int | -0x8000_0000 <= x < 0x8000_0000

  const DefaultMtu: int32 := 1500

  class NetworkInterface {
    var name: string
    var ipAddress: IPAddress
    var subnetMask: IPAddress
    var gateway: IPAddress
    var dnsServers: seq<IPAddress>
    /** `uint8_t mac_address[6]` */
    const mac: array<byte>
    var mtu: int32

    predicate Valid()
      reads this
    {
      mac.Length == 6
    }

    /** `NetworkInterface(name)`: MTU 1500, a zero MAC, default (IPv4 zero)
        addresses and no DNS servers. */
    constructor(n: string)
      ensures Valid() && fresh(mac)
      ensures name == n && mtu == DefaultMtu && mac[..] == Zeros(6)
      ensures ipAddress == Default() && subnetMask == Default() && gateway == Default()
      ensures dnsServers == []
    {
      name := n;
      ipAddress, subnetMask, gateway := Default(), Default(), Default();
      dnsServers := [];
      mac := new byte[6](_ => 0);
      mtu := DefaultMtu;
    }

    method SetIpAddress(a: IPAddress)
      modifies this
      ensures ipAddress == a
      ensures name == old(name) && subnetMask == old(subnetMask) && gateway == old(gateway)
      ensures dnsServers == old(dnsServers) && mtu == old(mtu)
    {
      ipAddress := a;
    }

    method SetSubnetMask(m: IPAddress)
      modifies this
      ensures subnetMask == m
      ensures name == old(name) && ipAddress == old(ipAddress) && gateway == old(gateway)
      ensures dnsServers == old(dnsServers) && mtu == old(mtu)
    {
      subnetMask := m;
    }

    method SetGateway(g: IPAddress)
      modifies this
      ensures gateway == g
      ensures name == old(name) && ipAddress == old(ipAddress) && subnetMask == old(subnetMask)
      ensures dnsServers == old(dnsServers) && mtu == old(mtu)
    {
      gateway := g;
    }

    /** `add_dns_server`: appends, keeping earlier servers in order. */
    method AddDnsServer(d: IPAddress)
      modifies this
      ensures dnsServers == old(dnsServers) + [d]
      ensures name == old(name) && ipAddress == old(ipAddress) && subnetMask == old(subnetMask)
      ensures gateway == old(gateway) && mtu == old(mtu)
    {
      dnsServers := dnsServers + [d];
    }

    /** `set_mac_address`: a vector of any size other than 6 is ignored. */
    method SetMacAddress(m: seq<byte>)
      requires Valid()
      modifies mac
      ensures |m| == 6 ==> mac[..] == m
      ensures |m| != 6 ==> mac[..] == old(mac[..])
    {
      if |m| == 6 {
        Memcpy(mac, 0, m);
        assert mac[..] == m;
      }
    }

    /** `get_mac_address`: a fresh copy of the six bytes. */
    method GetMacAddress() returns (m: seq<byte>)
      requires Valid()
      ensures |m| == 6 && m == mac[..]
    {
      m := mac[..];
    }

    method SetMtu(n: int32)
      modifies this
      ensures mtu == n
      ensures name == old(name) && ipAddress == old(ipAddress) && subnetMask == old(subnetMask)
      ensures gateway == old(gateway) && dnsServers == old(dnsServers)
    {
      mtu := n;
    }
  }

  /** The driver's interface set-up (TCP-IP-Stack.cpp): "eth0" with MAC
      00:0c:29:36:bc:17; a second, malformed MAC of five bytes is ignored. */
  method InterfaceScenario() returns (m: seq<byte>, mtu: int32)
    ensures m == [0x00, 0x0c, 0x29, 0x36, 0xbc, 0x17] && mtu == 1500
  {
    var netif := new NetworkInterface("eth0");
    netif.SetMacAddress([0x00, 0x0c, 0x29, 0x36, 0xbc, 0x17]);
    netif.SetMacAddress([0x01, 0x02, 0x03, 0x04, 0x05]);
    m := netif.GetMacAddress();
    mtu := netif.mtu;
  }
}
