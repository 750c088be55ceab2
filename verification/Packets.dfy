/** The packet objects of jpcap (jpcap-0.7/src/java/jpcap/packet) as values.  Java's `short`,
    `int` and `long` fields are integers; the frame type is kept as its 16-bit pattern. */
module Packets {
  import opened Bytes

  datatype Option<+T> = None | Some(value: T)

  const ETHERTYPE_IP: word := 0x0800
  const ETHERTYPE_ARP: word := 0x0806
  const ETHERTYPE_REVARP: word := 0x8035
  const ETHERTYPE_IPV6: word := 0x86dd

  const IPPROTO_ICMP: byte := 1
  const IPPROTO_TCP: byte := 6
  const IPPROTO_UDP: byte := 17

  /** EthernetPacket. */
  datatype Ether = Ether(dst: seq<byte>, src: seq<byte>, frametype: word)

  /** The `datalink` field of a packet: null, an EthernetPacket, or another DatalinkPacket. */
  datatype Datalink = NoDatalink | OtherDatalink | EthernetLink(ether: Ether)

  /** The fields of ARPPacket. */
  datatype ArpFields = ArpFields(
    hardtype: int, prototype: int, hlen: int, plen: int, operation: int,
    senderHard: seq<byte>, senderProto: seq<byte>, targetHard: seq<byte>, targetProto: seq<byte>)

  const ARP_REQUEST := 1
  const ARP_REPLY := 2

  /** The fields of IPPacket. */
  datatype IpFields = IpFields(
    version: int, priority: int, dFlag: bool, tFlag: bool, rFlag: bool, rsvTos: int,
    rsvFrag: bool, dontFrag: bool, moreFrag: bool, offset: int, length: int,
    ident: int, hopLimit: int, protocol: int, src: seq<byte>, dst: seq<byte>)

  /** The fields of TCPPacket. */
  datatype TcpFields = TcpFields(
    srcPort: int, dstPort: int, sequence: int, ackNum: int,
    urg: bool, ack: bool, psh: bool, rst: bool, syn: bool, fin: bool, rsv1: bool, rsv2: bool,
    window: int, urgent: int)

  /** The fields of UDPPacket. */
  datatype UdpFields = UdpFields(srcPort: int, dstPort: int, length: int)

  /** The class of a packet object, with the fields of that class. */
  datatype Body =
    | Plain
    | Arp(arp: ArpFields)
    | Ip(ip: IpFields)
    | Tcp(ip: IpFields, tcp: TcpFields)
    | Udp(ip: IpFields, udp: UdpFields)
    | Icmp(ip: IpFields)

  /** Packet: a null `data` or `header` is the empty sequence. */
  datatype Packet = Packet(datalink: Datalink, body: Body, header: seq<byte>, data: seq<byte>)
}
