/** get_packet and the analyze_* functions of jpcap (jpcap-0.7/src/c): how a captured frame is
    taken apart and split into `header` and `data`. */
module Parser {
  import opened Bytes
  import opened Packets
  import Ipv6

  const UNKNOWN_PROTO: word := Ipv6.UNKNOWN_PROTO

  /** The link types get_packet tells apart, with the entries of offset_type and offset_data. */
  datatype LinkType = RawIp | Ethernet | TokenRing | OtherLink {
    function TypeOffset(): nat {
      if Ethernet? then 12 else 20
    }

    function HeaderLength(): nat {
      match this
      case Ethernet => 14
      case TokenRing => 22
      case _ => 0
    }
  }

  // ---------------------------------------------------------------- headers

  function Net32(mem: seq<byte>, i: int): int {
    0x1_0000 * Net16(mem, i) + Net16(mem, i + 2)
  }

  predicate Bit(b: byte, weight: int)
    requires weight > 0
  {
    b / weight % 2 == 1
  }

  /** analyze_datalink. */
  function AnalyzeDatalink(lt: LinkType, mem: seq<byte>): Datalink {
    if lt.Ethernet? then EthernetLink(Ether(Copy(mem, 0, 6), Copy(mem, 6, 6), Net16(mem, 12))) else OtherDatalink
  }

  /** analyze_ip.  The fragment flags are tested in the word as the host reads it, without
      `ntohs`, so they depend on the byte order of the host. */
  function AnalyzeIp(e: Order, mem: seq<byte>, d: int): IpFields {
    var tos, off := At(mem, d + 1), Load16(e, At(mem, d + 6), At(mem, d + 7));
    IpFields(
      4, tos / 32, Bit(tos, 0x10), Bit(tos, 0x08), Bit(tos, 0x04), tos % 4,
      off / 0x8000 == 1, off / 0x4000 % 2 == 1, off / 0x2000 % 2 == 1,
      Net16(mem, d + 6) % 0x2000, S16(Net16(mem, d + 2)), S16(Net16(mem, d + 4)),
      At(mem, d + 8), At(mem, d + 9), Copy(mem, d + 12, 4), Copy(mem, d + 16, 4))
  }

  function IpHeaderLength(mem: seq<byte>, d: int): nat {
    At(mem, d) % 16 * 4
  }

  /** The fields of an object that AllocObject has zeroed. */
  const NO_IP: IpFields := IpFields(0, 0, false, false, false, 0, false, false, false, 0, 0, 0, 0, 0, [], [])
  const NO_ARP: ArpFields := ArpFields(0, 0, 0, 0, 0, [], [], [], [])

  /** analyze_ipv6, without the fields of the fixed header that are not read back consistently. */
  function AnalyzeIpv6(mem: seq<byte>, d: int): IpFields {
    NO_IP.(version := 6, length := S16(Net16(mem, d + 4)), src := Copy(mem, d + 8, 16), dst := Copy(mem, d + 24, 16))
  }

  /** analyze_tcp. */
  function AnalyzeTcp(mem: seq<byte>, t: int): TcpFields {
    var flags := At(mem, t + 13);
    TcpFields(
      Net16(mem, t), Net16(mem, t + 2), Net32(mem, t + 4), Net32(mem, t + 8),
      Bit(flags, 0x20), Bit(flags, 0x10), Bit(flags, 0x08), Bit(flags, 0x04), Bit(flags, 0x02), Bit(flags, 0x01),
      Bit(flags, 0x80), Bit(flags, 0x40), Net16(mem, t + 14), S16(Net16(mem, t + 18)))
  }

  function TcpHeaderLength(mem: seq<byte>, t: int): nat {
    At(mem, t + 12) / 16 * 4
  }

  /** analyze_udp. */
  function AnalyzeUdp(mem: seq<byte>, t: int): UdpFields {
    UdpFields(Net16(mem, t), Net16(mem, t + 2), Net16(mem, t + 4))
  }

  /** analyze_arp: the offsets of the addresses follow from the lengths in the packet. */
  function AnalyzeArp(mem: seq<byte>, d: int): ArpFields {
    var hl, pl := At(mem, d + 4), At(mem, d + 5);
    ArpFields(
      S16(Net16(mem, d)), S16(Net16(mem, d + 2)), hl, pl, S16(Net16(mem, d + 6)),
      Copy(mem, d + 8, hl), Copy(mem, d + 8 + hl, pl), Copy(mem, d + 8 + hl + pl, hl), Copy(mem,
          d + 8 + hl + pl + hl, pl))
  }

  function ArpLength(mem: seq<byte>, d: int): nat {
    8 + At(mem, d + 4) * 2 + At(mem, d + 5) * 2
  }

  // ---------------------------------------------------------------- classification

  /** The network protocol of a frame. */
  function NetworkType(lt: LinkType, mem: seq<byte>): word {
    match lt
    case RawIp => ETHERTYPE_IP
    case OtherLink => UNKNOWN_PROTO
    case _ => Net16(mem, lt.TypeOffset())
  }

  /** Where the network header begins. */
  function NetworkOffset(lt: LinkType, mem: seq<byte>): nat {
    if NetworkType(lt, mem) == UNKNOWN_PROTO then 0 else lt.HeaderLength()
  }

  /** The captured length after the datalink header, in a `short`. */
  function AfterLink(lt: LinkType, caplen: nat): int {
    if lt.OtherLink? then S16(caplen) else S16(S16(caplen) - lt.HeaderLength())
  }

  /** The transport protocol before the check for truncation, and the captured length left.
      Where the code assigns nothing, `tproto` keeps the stale value of the stack. */
  function Transport(lt: LinkType, mem: seq<byte>, caplen: nat, stale: word): (word, int) {
    var clen, nproto, d := AfterLink(lt, caplen), NetworkType(lt, mem), lt.HeaderLength();
    if clen <= 0 then (stale, clen)
    else if nproto == ETHERTYPE_IP then
      var left := S16(clen - IpHeaderLength(mem, d));
      (if left > 0 && Net16(mem, d + 6) % 0x2000 == 0 then At(mem, d + 9) else ETHERTYPE_IP, left)
    else if nproto == ETHERTYPE_IPV6 then
      var left := S16(clen - 40);
      if left > 0 then
        var f := Ipv6.ClassWalk(mem, d, left, At(mem, d + 6));
        (f.tproto, f.clen)
      else (stale, left)
    else if nproto == ETHERTYPE_ARP then
      var left := S16(clen - 28);
      (if left > 0 then ETHERTYPE_ARP else stale, left)
    else (nproto, clen)
  }

  /** After the check for a truncated transport header. */
  function TransportType(lt: LinkType, mem: seq<byte>, caplen: nat, stale: word): word {
    var (tproto, clen) := Transport(lt, mem, caplen, stale);
    if (tproto == IPPROTO_TCP && clen < 20) || (tproto == IPPROTO_UDP && clen < 8)
       || (tproto == IPPROTO_ICMP && clen < 8)
    then UNKNOWN_PROTO else tproto
  }

  // ---------------------------------------------------------------- lengths

  /** What the network layer says of itself: how long it is (in a `short`), and how long its
      header is; the walk of analyze_ipv6 may fault. */
  datatype Extent = Extent(total: int, header: int) | Fault

  function NetworkExtent(lt: LinkType, mem: seq<byte>, caplen: nat): Extent {
    var nproto, d := NetworkType(lt, mem), NetworkOffset(lt, mem);
    if nproto == ETHERTYPE_IP then Extent(S16(Net16(mem, d + 2)), IpHeaderLength(mem, d))
    else if nproto == ETHERTYPE_IPV6 then
      if d + 40 > |mem| then Fault
      else
        var w := Ipv6.LengthWalk(mem, d + 40, 40, mem[d + 6]);
        if w.Fault? then Fault else Extent(S16(S16(Net16(mem, d + 4)) + 40), S16(w.hlen % 0x1_0000))
    else if nproto == ETHERTYPE_ARP then Extent(ArpLength(mem, d), ArpLength(mem, d))
    else if nproto == UNKNOWN_PROTO then Extent(S16(caplen), 0)
    else Extent(S16(caplen - d), 0)
  }

  /** Conversion to an unsigned 32-bit integer, as C converts before comparing. */
  function Unsigned32(x: int): nat {
    x % 0x1_0000_0000
  }

  /** The length is cut to what was captured -- but only if neither protocol is unknown. */
  function Clamped(nproto: word, tproto: word, total: int, caplen: nat, dlen: nat): int {
    if nproto != UNKNOWN_PROTO && tproto != UNKNOWN_PROTO && Unsigned32(total) > Unsigned32(caplen - dlen)
    then S16(caplen - dlen) else total
  }

  function TransportHeader(tproto: word, mem: seq<byte>, t: int): nat {
    if tproto == IPPROTO_TCP then TcpHeaderLength(mem, t)
    else if tproto == IPPROTO_UDP || tproto == IPPROTO_ICMP then 8
    else 0
  }

  /** Where `header` ends and `data` begins, and how long each is, all in `short`s. */
  datatype Split = Split(start: int, header: int, data: int)

  function SplitAt(offset: nat, clamped: int, hlen: int, transport: nat): Split {
    var left := S16(clamped - hlen);
    var h := if transport > left then left else transport;
    Split(offset + hlen + h, S16(offset + hlen + h), S16(left - h))
  }

  // ---------------------------------------------------------------- the packet object

  /** The packet object, with the fields that the network and transport layers fill in. */
  function BodyOf(e: Order, nproto: word, tproto: word, mem: seq<byte>, d: int, t: int): Body {
    var ip := if nproto == ETHERTYPE_IP then AnalyzeIp(e, mem, d)
              else if nproto == ETHERTYPE_IPV6 then AnalyzeIpv6(mem, d) else NO_IP;
    if tproto == IPPROTO_TCP then Tcp(ip, AnalyzeTcp(mem, t))
    else if tproto == IPPROTO_UDP then Udp(ip, AnalyzeUdp(mem, t))
    else if tproto == IPPROTO_ICMP then Icmp(ip)
    else if nproto == ETHERTYPE_IP || nproto == ETHERTYPE_IPV6 then Ip(ip)
    else if nproto == ETHERTYPE_ARP then Arp(AnalyzeArp(mem, d))
    else if nproto == ETHERTYPE_REVARP then Arp(NO_ARP)
    else Plain
  }

  /** What get_packet makes of a frame: a packet; nothing, if the walk over IPv6 headers leaves
      the memory; or a packet that lacks an array, because a length has become negative. */
  datatype Outcome = Parsed(p: Packet) | Unreadable | NegativeLength

  function Parse(e: Order, lt: LinkType, mem: seq<byte>, caplen: nat, stale: word): Outcome {
    var nproto, tproto, d := NetworkType(lt, mem), TransportType(lt, mem, caplen, stale), NetworkOffset(lt, mem);
    var x := NetworkExtent(lt, mem, caplen);
    if x.Fault? then Unreadable
    else
      var t := d + x.header;
      var s := SplitAt(d, Clamped(nproto, tproto, x.total, caplen, lt.HeaderLength()), x.header,
          TransportHeader(tproto, mem, t));
      if s.header < 0 || s.data < 0 then NegativeLength
      else Parsed(Packet(AnalyzeDatalink(lt, mem), BodyOf(e, nproto, tproto, mem, d, t),
                         Copy(mem, 0, s.header), Copy(mem, s.start, s.data)))
  }

  // ---------------------------------------------------------------- the function itself

  /** The classification at the head of get_packet. */
  method ClassifyFrame(lt: LinkType, mem: seq<byte>, caplen: nat, stale: word) returns (nproto: word, tproto: word)
    ensures nproto == NetworkType(lt, mem) && tproto == TransportType(lt, mem, caplen, stale)
  {
    hide S16, Net16, At, IpHeaderLength;
    tproto := stale;
    var clen := S16(caplen);
    var d := lt.HeaderLength();
    match lt {
      case RawIp =>
        nproto := ETHERTYPE_IP;
        clen := S16(clen - d);
      case OtherLink =>
        nproto := UNKNOWN_PROTO;
      case _ =>
        nproto := Net16(mem, lt.TypeOffset());
        clen := S16(clen - d);
    }
    if clen > 0 {
      if nproto == ETHERTYPE_IP {
        clen := S16(clen - IpHeaderLength(mem, d));
        if clen > 0 && Net16(mem, d + 6) % 0x2000 == 0 {
          tproto := At(mem, d + 9);
        } else {
          tproto := ETHERTYPE_IP;
        }
      } else if nproto == ETHERTYPE_IPV6 {
        clen := S16(clen - 40);
        S16Bounds(AfterLink(lt, caplen) - 40);
        if clen > 0 {
          tproto, clen := Ipv6.Classify(mem, d, clen, At(mem, d + 6));
        }
      } else if nproto == ETHERTYPE_ARP {
        clen := S16(clen - 28);
        if clen > 0 {
          tproto := ETHERTYPE_ARP;
        }
      } else {
        tproto := nproto;
      }
    }
    if (tproto == IPPROTO_TCP && clen < 20) || (tproto == IPPROTO_UDP && clen < 8) || (tproto == IPPROTO_ICMP
        && clen < 8) {
      tproto := UNKNOWN_PROTO;
    }
  }

  /** The network part of get_packet: the two lengths, as each protocol gives them. */
  method AnalyzeNetwork(lt: LinkType, mem: seq<byte>, caplen: nat, nproto: word) returns (x: Extent)
    requires nproto == NetworkType(lt, mem)
    ensures x == NetworkExtent(lt, mem, caplen)
  {
    hide NetworkType, IpHeaderLength, ArpLength, S16, Net16;
    var data, hlen, clen := 0, 0, 0;
    if nproto != UNKNOWN_PROTO {
      data := lt.HeaderLength();
    }
    if nproto == ETHERTYPE_IP {
      clen, hlen := S16(Net16(mem, data + 2)), IpHeaderLength(mem, data);
    } else if nproto == ETHERTYPE_IPV6 {
      if data + 40 > |mem| {
        return Fault;
      }
      clen := S16(Net16(mem, data + 4));
      clen := S16(clen + 40);
      var w := Ipv6.AnalyzeIpv6(mem, data);
      if w.Fault? {
        return Fault;
      }
      hlen := S16(w.hlen % 0x1_0000);
    } else if nproto == ETHERTYPE_ARP {
      clen := ArpLength(mem, data);
      hlen := clen;
    } else if nproto == UNKNOWN_PROTO {
      clen := S16(caplen);
    } else {
      clen := S16(caplen - lt.HeaderLength());
    }
    x := Extent(clen, hlen);
  }

  /** get_packet: `mem` is the memory that begins with the frame, `caplen` what was captured. */
  method GetPacket(e: Order, lt: LinkType, mem: seq<byte>, caplen: nat, stale: word) returns (r: Outcome)
    ensures r == Parse(e, lt, mem, caplen, stale)
  {
    hide AnalyzeDatalink, BodyOf, NetworkType, TransportType, NetworkExtent, TransportHeader, Clamped, S16, Copy;
    var nproto, tproto := ClassifyFrame(lt, mem, caplen, stale);
    var data := if nproto == UNKNOWN_PROTO then 0 else lt.HeaderLength();
    var net := data;
    var x := AnalyzeNetwork(lt, mem, caplen, nproto);
    if x.Fault? {
      return Unreadable;
    }
    var hlen, clen := x.header, Clamped(nproto, tproto, x.total, caplen, lt.HeaderLength());
    data, clen := data + hlen, S16(clen - hlen);
    var body := BodyOf(e, nproto, tproto, mem, net, data);
    hlen := TransportHeader(tproto, mem, data);
    if hlen > clen {
      hlen := clen;
    }
    clen, data := S16(clen - hlen), data + hlen;
    hlen := S16(data);
    if hlen < 0 || clen < 0 {
      return NegativeLength;
    }
    r := Parsed(Packet(AnalyzeDatalink(lt, mem), body, Copy(mem, 0, hlen), Copy(mem, data, clen)));
  }

  /** The record that writePacket dumps: `caplen` bytes of its buffer, which begins with the two
      arrays and goes on with what it held. */
  function Record(p: Packet, caplen: nat, buffer: seq<byte>): seq<byte>
    requires |p.header| + |p.data| <= |buffer| && caplen <= |buffer|
  {
    (p.header + p.data + buffer[|p.header| + |p.data|..])[..caplen]
  }

  /** writePacket: the two arrays glued together again, and dumped. */
  method WritePacket(p: Packet, caplen: nat, buf: array<byte>) returns (record: seq<byte>)
    requires |p.header| + |p.data| <= buf.Length && caplen <= buf.Length
    modifies buf
    ensures buf[..|p.header| + |p.data|] == p.header + p.data
    ensures buf[|p.header| + |p.data|..] == old(buf[|p.header| + |p.data|..])
    ensures record == Record(p, caplen, old(buf[..]))
  {
    var h := |p.header|;
    for i := 0 to h
      invariant buf[..i] == p.header[..i] && forall k | h + |p.data| <= k < buf.Length :: buf[k] == old(buf[k])
    {
      buf[i] := p.header[i];
    }
    for i := 0 to |p.data|
      invariant buf[..h] == p.header && buf[h..h + i] == p.data[..i]
      invariant forall k | h + |p.data| <= k < buf.Length :: buf[k] == old(buf[k])
    {
      buf[h + i] := p.data[i];
    }
    assert buf[..h + |p.data|] == buf[..h] + buf[h..h + |p.data|];
    assert buf[..] == buf[..h + |p.data|] + buf[h + |p.data|..];
    assert old(buf[..])[h + |p.data|..] == buf[h + |p.data|..];
    record := buf[..][..caplen];
  }
}
