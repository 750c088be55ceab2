/** The frames of the builder, byte by byte: the layouts of RFC 791, RFC 793, RFC 768 and RFC 826
    behind an Ethernet header, and packets of no known class. */
module WireLayout {
  import opened Bytes
  import opened Packets
  import opened Builder
  import opened Parser
  import Boundaries
  import Checksum
  import RoundTrip

  // ---------------------------------------------------------------- in numbers

  /** The number that the bytes of `f` from `i` on stand for, most significant byte first. */
  ghost predicate Short(f: seq<byte>, i: nat, x: int)
    requires i + 2 <= |f|
  {
    0x100 * (f[i] as int) + f[i + 1] == x % 0x1_0000
  }

  ghost predicate Long(f: seq<byte>, i: nat, x: int)
    requires i + 4 <= |f|
  {
    0x100_0000 * (f[i] as int) + 0x1_0000 * (f[i + 1] as int) + 0x100 * (f[i + 2] as int) + f[i + 3]
    == x % 0x1_0000_0000
  }

  lemma ShortIs(f: seq<byte>, i: nat, x: int)
    requires i + 2 <= |f| && f[i..i + 2] == Be16(U16(x))
    ensures Short(f, i, x)
  {
    assert f[i] == f[i..i + 2][0] && f[i + 1] == f[i..i + 2][1];
  }

  lemma LongIs(f: seq<byte>, i: nat, x: int)
    requires i + 4 <= |f| && f[i..i + 4] == Be32(x)
    ensures Long(f, i, x)
  {
    var h: word, l: word := x / 0x1_0000 % 0x1_0000, x % 0x1_0000;
    var b := f[i..i + 4];
    assert f[i] == b[0] && f[i + 1] == b[1] && f[i + 2] == b[2] && f[i + 3] == b[3];
    assert b[..2] == Be16(h) && b[2..] == Be16(l);
    assert b[0] == b[..2][0] && b[1] == b[..2][1] && b[2] == b[2..][0] && b[3] == b[2..][1];
    RoundTrip.TwoWords(x);
  }

  /** Section 3.1 of RFC 791: version 4, five words of header, the total length, the
      identification, the time to live, the protocol and the two addresses; and, for a
      datagram sent with offset 0, the flags. */
  ghost predicate IpLaid(f: seq<byte>, d: nat, ip: IpFields, protocol: int, length: int)
    requires d + 20 <= |f|
  {
    && f[d] == 0x45 && Short(f, d + 2, length) && length < 0x1_0000 && Short(f, d + 4, ip.ident)
    && f[d + 8] == ip.hopLimit % 0x100 && f[d + 9] == protocol
    && f[d + 12..d + 16] == ip.src && f[d + 16..d + 20] == ip.dst
    && (ip.offset == 0 ==>
          && f[d + 6] == (if ip.rsvFrag then 128 else 0) + (if ip.dontFrag then 64 else 0)
                         + (if ip.moreFrag then 32 else 0)
          && f[d + 7] == 0)
    && (0 <= ip.priority < 8 && 0 <= ip.rsvTos < 4 ==>
          f[d + 1] == 32 * ip.priority + (if ip.dFlag then 16 else 0) + (if ip.tFlag then 8 else 0)
                      + (if ip.rFlag then 4 else 0) + ip.rsvTos)
  }

  /** Section 3.1 of RFC 793, with the two reserved bits of byte 13 that jpcap names. */
  ghost predicate TcpLaid(f: seq<byte>, d: nat, t: TcpFields)
    requires d + 20 <= |f|
  {
    && Short(f, d, t.srcPort) && Short(f, d + 2, t.dstPort) && Long(f, d + 4, t.sequence) && Long(f, d + 8, t.ackNum)
    && f[d + 12] / 16 == 5
    && f[d + 13] == (if t.rsv1 then 128 else 0) + (if t.rsv2 then 64 else 0) + (if t.urg then 32 else 0)
                    + (if t.ack then 16 else 0) + (if t.psh then 8 else 0) + (if t.rst then 4 else 0)
                    + (if t.syn then 2 else 0) + (if t.fin then 1 else 0)
    && Short(f, d + 14, t.window) && Short(f, d + 18, t.urgent)
  }

  /** RFC 768. */
  ghost predicate UdpLaid(f: seq<byte>, d: nat, u: UdpFields, length: int)
    requires d + 8 <= |f|
  {
    Short(f, d, u.srcPort) && Short(f, d + 2, u.dstPort) && Short(f, d + 4, length) && length < 0x1_0000
  }

  /** RFC 826, for addresses of 6 and 4 bytes. */
  ghost predicate ArpLaid(f: seq<byte>, d: nat, a: ArpFields)
    requires d + 28 <= |f|
  {
    && Short(f, d, a.hardtype) && Short(f, d + 2, a.prototype) && f[d + 4] == 6 && f[d + 5] == 4
    && Short(f, d + 6, a.operation)
    && f[d + 8..d + 14] == a.senderHard && f[d + 14..d + 18] == a.senderProto
    && f[d + 18..d + 24] == a.targetHard && f[d + 24..d + 28] == a.targetProto
  }

  /** What a frame is behind its first `d` bytes, for each class. */
  ghost predicate BodyLaid(f: seq<byte>, d: nat, p: Packet) {
    match p.body
    case Tcp(ip, t) =>
      |f| == d + 40 + |p.data| && IpLaid(f, d, ip, 6, 40 + |p.data|) && TcpLaid(f, d + 20, t) && f[d + 40..] == p.data
    case Udp(ip, u) =>
      |f| == d + 28 + |p.data| && IpLaid(f, d, ip, 17, 28 + |p.data|) && UdpLaid(f, d + 20, u, 8 + |p.data|)
      && f[d + 28..] == p.data
    case Ip(ip) =>
      |f| == d + 20 + |p.data| && IpLaid(f, d, ip, ip.protocol % 0x100, 20 + |p.data|) && f[d + 20..] == p.data
    case Arp(a) => |f| == d + 28 && ArpLaid(f, d, a)
    case Plain => |f| == d + |p.data| && f[d..] == p.data
    case Icmp(_) => false
  }

  /** The Ethernet header: destination, source, type. */
  ghost predicate EtherLaid(f: seq<byte>, e: Ether) {
    14 <= |f| && f[..6] == e.dst && f[6..12] == e.src && Short(f, 12, e.frametype)
  }

  // ---------------------------------------------------------------- the frames are laid out so

  lemma IpHeaderLaid(e: Order, f: seq<byte>, d: nat, ip: IpFields, protocol: byte, length: word, sum: word)
    requires |ip.src| == 4 && |ip.dst| == 4 && d + 20 <= |f| && f[d..d + 20] == IpHeader(e, ip, protocol, length, sum)
    ensures IpLaid(f, d, ip, protocol, length)
  {
    hide Be16, Tos, FragWord, U8, U16, Short;
    ghost var h := IpHeader(e, ip, protocol, length, sum);
    RoundTrip.IpHeaderBytes(e, ip, protocol, length, sum);
    SubSlices(f, d, 20, h);
    U16OfWord(length);
    PairIs(f, d + 2, length);
    PairIs(f, d + 4, ip.ident);
    FlagBytes(e, ip);
    TosByte(ip);
    HopByte(ip);
  }

  lemma U16OfWord(w: word)
    ensures U16(w) == w
  {
  }

  lemma HopByte(ip: IpFields)
    ensures U8(ip.hopLimit) == ip.hopLimit % 0x100
  {
  }

  lemma PairIs(f: seq<byte>, i: nat, x: int)
    requires i + 2 <= |f| && f[i] == Be16(U16(x))[0] && f[i + 1] == Be16(U16(x))[1]
    ensures Short(f, i, x)
  {
  }

  lemma SubSlices(f: seq<byte>, d: nat, n: nat, h: seq<byte>)
    requires d + n <= |f| && f[d..d + n] == h
    ensures forall i | 0 <= i < n :: f[d + i] == h[i]
    ensures forall i, j | 0 <= i <= j <= n :: f[d + i..d + j] == h[i..j]
  {
    forall i | 0 <= i < n ensures f[d + i] == h[i] {
      assert f[d..d + n][i] == f[d + i];
    }
  }

  lemma FlagBytes(e: Order, ip: IpFields)
    ensures ip.offset == 0 ==>
              Be16(FragWord(e, ip)) == [(if ip.rsvFrag then 128 else 0) + (if ip.dontFrag then 64 else 0)
                                        + (if ip.moreFrag then 32 else 0), 0]
  {
    if ip.offset == 0 {
      FlagWord(e, ip);
      hide FragWord;
      FlagWordBytes(Flag(ip.rsvFrag, 4) + Flag(ip.dontFrag, 2) + Flag(ip.moreFrag, 1));
    }
  }

  lemma FlagWord(e: Order, ip: IpFields)
    requires ip.offset == 0
    ensures FragWord(e, ip) == 0x2000 * (Flag(ip.rsvFrag, 4) + Flag(ip.dontFrag, 2) + Flag(ip.moreFrag, 1))
  {
    hide Htons, U16;
    ZeroWord(e);
    U16OfWord((if ip.rsvFrag then 0x8000 else 0) + (if ip.dontFrag then 0x4000 else 0)
        + (if ip.moreFrag then 0x2000 else 0));
  }

  lemma ZeroWord(e: Order)
    ensures Htons(e, U16(0)) == 0
  {
  }

  lemma FlagWordBytes(n: nat)
    requires n < 8
    ensures Be16(0x2000 * n) == [0x20 * n, 0]
  {
  }

  lemma TosByte(ip: IpFields)
    ensures 0 <= ip.priority < 8 && 0 <= ip.rsvTos < 4 ==>
              Tos(ip) == 32 * ip.priority + (if ip.dFlag then 16 else 0) + (if ip.tFlag then 8 else 0)
                         + (if ip.rFlag then 4 else 0) + ip.rsvTos
  {
  }

  lemma TcpHeaderLaid(f: seq<byte>, d: nat, t: TcpFields, junk: byte, sum: word)
    requires junk < 16 && d + 20 <= |f| && f[d..d + 20] == TcpHeader(t, junk, sum)
    ensures TcpLaid(f, d, t)
  {
    hide Be16, Be32, U16, Short, Long, TcpFlags;
    ghost var h := TcpHeader(t, junk, sum);
    RoundTrip.TcpHeaderBytes(t, junk, sum);
    SubSlices(f, d, 20, h);
    PairIs(f, d, t.srcPort);
    PairIs(f, d + 2, t.dstPort);
    LongIs(f, d + 4, t.sequence);
    LongIs(f, d + 8, t.ackNum);
    PairIs(f, d + 14, t.window);
    PairIs(f, d + 18, t.urgent);
    FlagByte(t);
  }

  lemma FlagByte(t: TcpFields)
    ensures TcpFlags(t) ==
            (if t.rsv1 then 128 else 0) + (if t.rsv2 then 64 else 0) + (if t.urg then 32 else 0)
            + (if t.ack then 16 else 0) + (if t.psh then 8 else 0) + (if t.rst then 4 else 0)
            + (if t.syn then 2 else 0) + (if t.fin then 1 else 0)
  {
  }

  lemma UdpHeaderLaid(f: seq<byte>, d: nat, u: UdpFields, length: word, sum: word)
    requires d + 8 <= |f| && f[d..d + 8] == UdpHeader(u, length, sum)
    ensures UdpLaid(f, d, u, length)
  {
    hide Be16, U16, Short;
    ghost var h := UdpHeader(u, length, sum);
    SubSlices(f, d, 8, h);
    assert forall i | 0 <= i < 2 ::
        h[i] == Be16(U16(u.srcPort))[i] && h[2 + i] == Be16(U16(u.dstPort))[i] && h[4 + i] == Be16(length)[i];
    assert f[d] == h[0] && f[d + 1] == h[1];
    U16OfWord(length);
    PairIs(f, d, u.srcPort);
    PairIs(f, d + 2, u.dstPort);
    PairIs(f, d + 4, length);
  }

  lemma ArpBytesLaid(f: seq<byte>, d: nat, a: ArpFields)
    requires ArpSized(a) && d + 28 <= |f| && f[d..d + 28] == ArpBytes(a)
    ensures ArpLaid(f, d, a)
  {
    hide Be16, U16, Short, U8;
    RoundTrip.ArpBytesAre(a);
    SubSlices(f, d, 28, ArpBytes(a));
    PairIs(f, d, a.hardtype);
    PairIs(f, d + 2, a.prototype);
    PairIs(f, d + 6, a.operation);
  }

  lemma DatagramLaid(e: Order, f: seq<byte>, d: nat, ip: IpFields, protocol: byte, payload: seq<byte>)
    requires |ip.src| == 4 && |ip.dst| == 4 && |payload| + 20 < 0x1_0000
    requires d <= |f| && f[d..] == Ipv4(e, ip, protocol, payload)
    ensures |f| == d + 20 + |payload| && IpLaid(f, d, ip, protocol, |payload| + 20) && f[d + 20..] == payload
  {
    hide IpHeader, IpLaid, Checksum.Rfc1071;
    var sum := Checksum.Rfc1071(IpHeader(e, ip, protocol, |payload| + 20, 0));
    assert f[d..d + 20] == f[d..][..20];
    IpHeaderLaid(e, f, d, ip, protocol, |payload| + 20, sum);
    assert f[d + 20..] == f[d..][20..];
  }

  lemma TcpFrameLaid(e: Order, f: seq<byte>, d: nat, p: Packet, junk: byte)
    requires p.body.Tcp? && BodySendable(p.body, p.data, 0) && junk < 16
    requires d <= |f| && f[d..] == BodyBytes(e, p.body, p.data, junk)
    ensures BodyLaid(f, d, p)
  {
    hide IpHeader, IpLaid, TcpLaid, TcpHeader, SegmentChecksum, Ipv4;
    var ip, t := p.body.ip, p.body.tcp;
    var segment := TcpSegment(e, ip, t, junk, p.data);
    DatagramLaid(e, f, d, ip, IPPROTO_TCP, segment);
    assert f[d + 20..d + 40] == f[d + 20..][..20] == segment[..20];
    TcpHeaderLaid(f, d + 20, t, junk, SegmentChecksum(e, ip.src + ip.dst, IPPROTO_TCP,
        TcpHeader(t, junk, 0) + p.data));
    assert f[d + 40..] == f[d + 20..][20..];
  }

  lemma UdpFrameLaid(e: Order, f: seq<byte>, d: nat, p: Packet, junk: byte)
    requires p.body.Udp? && BodySendable(p.body, p.data, 0) && junk < 16
    requires d <= |f| && f[d..] == BodyBytes(e, p.body, p.data, junk)
    ensures BodyLaid(f, d, p)
  {
    hide IpHeader, IpLaid, UdpLaid, UdpHeader, SegmentChecksum, Ipv4;
    var ip, u, n := p.body.ip, p.body.udp, |p.data| + 8;
    var datagram := UdpDatagram(e, ip, u, p.data);
    DatagramLaid(e, f, d, ip, IPPROTO_UDP, datagram);
    assert f[d + 20..d + 28] == f[d + 20..][..8] == datagram[..8];
    UdpHeaderLaid(f, d + 20, u, n, NonZero(SegmentChecksum(e, ip.src + ip.dst, IPPROTO_UDP,
        UdpHeader(u, n, 0) + p.data)));
    assert f[d + 28..] == f[d + 20..][8..];
  }

  /** The part behind the Ethernet header. */
  lemma BodyFrameLaid(e: Order, f: seq<byte>, d: nat, p: Packet, junk: byte)
    requires BodySendable(p.body, p.data, 0) && junk < 16
    requires d <= |f| && f[d..] == BodyBytes(e, p.body, p.data, junk)
    ensures BodyLaid(f, d, p)
  {
    hide Ipv4, TcpSegment, UdpDatagram, ArpBytes, IpLaid, TcpLaid, UdpLaid, ArpLaid;
    match p.body {
      case Tcp(_, _) => TcpFrameLaid(e, f, d, p, junk);
      case Udp(_, _) => UdpFrameLaid(e, f, d, p, junk);
      case Ip(ip) => DatagramLaid(e, f, d, ip, U8(ip.protocol), p.data);
      case Arp(a) =>
        assert f[d..d + 28] == f[d..][..28];
        ArpBytesLaid(f, d, a);
      case Plain =>
    }
  }

  lemma EtherHeaderLaid(f: seq<byte>, d: Datalink)
    requires d.EthernetLink? && |d.ether.dst| == 6 && |d.ether.src| == 6 && 14 <= |f| && f[..14] == EtherHeader(d)
    ensures EtherLaid(f, d.ether)
  {
    hide Be16, Short, U16;
    var h := EtherHeader(d);
    assert f[..6] == f[..14][..6] && f[6..12] == f[..14][6..12] && f[12..14] == f[..14][12..14];
    U16OfWord(d.ether.frametype);
    ShortIs(f, 12, d.ether.frametype);
  }

  /** The frame of every packet that can be sent: the Ethernet header, if there is one, and
      behind it the headers of the class and the data, all of it and in order. */
  lemma FrameLaid(e: Order, p: Packet, junk: byte)
    requires Sendable(p) && junk < 16
    ensures var f := Frame(e, p, junk);
            if p.datalink.EthernetLink? then EtherLaid(f, p.datalink.ether) && BodyLaid(f, 14, p)
            else BodyLaid(f, 0, p)
  {
    hide BodyBytes, EtherHeader, BodyLaid, EtherLaid;
    var f, h := Frame(e, p, junk), EtherHeader(p.datalink);
    assert f[|h|..] == BodyBytes(e, p.body, p.data, junk) && f[..|h|] == h;
    BodyFrameLaid(e, f, |h|, p, junk);
    if p.datalink.EthernetLink? {
      EtherHeaderLaid(f, p.datalink);
    }
  }

  // ---------------------------------------------------------------- packets of no known class

  /** What get_packet makes of a frame with an Ethernet header and a payload of no class, and
      anything after it: a packet of no class again, its header the 14 bytes and its data the
      payload and what followed, exactly if the type is none of those of IPv4, ARP, RARP and
      IPv6, not the unknown one, and not (with enough bytes behind it) one of the three that
      are also numbers of transport protocols. */
  lemma PlainRoundTripIff(e: Order, r: Order, p: Packet, junk: byte, trailer: seq<byte>, stale: word)
    requires Sendable(p) && p.body.Plain? && p.datalink.EthernetLink? && junk < 16
    requires |Frame(e, p, junk) + trailer| <= 0x7fff
    ensures var frame, kind, room := Frame(e, p, junk), p.datalink.ether.frametype, |p.data| + |trailer|;
            Parse(r, Ethernet, frame + trailer, |frame + trailer|, stale)
            == Parsed(Packet(p.datalink, Plain, frame[..14], p.data + trailer)) <==>
            kind !in {0x0800, 0x0806, 0x8035, 0x86dd, 0xffff}
            && (kind == 6 ==> room < 20) && (kind == 17 || kind == 1 ==> room < 8)
  {
    hide *;
    var frame, d := Frame(e, p, junk), p.datalink;
    var mem := frame + trailer;
    PlainFrame(e, p, junk, trailer);
    RoundTrip.EtherRead(mem, d);
    TypeDecides(r, mem, stale, d);
  }

  /** The same of the memory that the receiver has. */
  lemma TypeDecides(r: Order, mem: seq<byte>, stale: word, d: Datalink)
    requires d.EthernetLink? && AnalyzeDatalink(Ethernet, mem) == d && Net16(mem, 12) == d.ether.frametype
    requires 14 <= |mem| <= 0x7fff
    ensures var kind, room := d.ether.frametype, |mem| - 14;
            Parse(r, Ethernet, mem, |mem|, stale) == Parsed(Packet(d, Plain, mem[..14], mem[14..])) <==>
            kind !in {0x0800, 0x0806, 0x8035, 0x86dd, 0xffff}
            && (kind == 6 ==> room < 20) && (kind == 17 || kind == 1 ==> room < 8)
  {
    hide Parse, AnalyzeDatalink, At, Boundaries.TransportBytes, Boundaries.CutAt;
    var kind := d.ether.frametype;
    if kind == 0x0800 || kind == 0x86dd || kind == 0x0806 {
      ProtocolIsNotPlain(r, mem, stale);
    } else if kind == 0xffff {
      Boundaries.UnknownCut(r, Ethernet, mem, |mem|, stale);
      NoHeader(Parse(r, Ethernet, mem, |mem|, stale), mem);
    } else {
      Boundaries.OtherCut(r, Ethernet, mem, |mem|, stale, 14, At(mem, 12), At(mem, 13));
      NoTransport(Parse(r, Ethernet, mem, |mem|, stale), mem, kind);
    }
  }

  lemma ProtocolIsNotPlain(r: Order, mem: seq<byte>, stale: word)
    requires Net16(mem, 12) == 0x0800 || Net16(mem, 12) == 0x86dd || Net16(mem, 12) == 0x0806
    ensures Parse(r, Ethernet, mem, |mem|, stale).Parsed? ==> !Parse(r, Ethernet, mem, |mem|, stale).p.body.Plain?
  {
    hide NetworkExtent, TransportType, SplitAt, Clamped, TransportHeader, Copy, AnalyzeDatalink, Net16;
    hide AnalyzeIp, AnalyzeIpv6, AnalyzeTcp, AnalyzeUdp, AnalyzeArp;
  }

  lemma NoHeader(o: Outcome, mem: seq<byte>)
    requires 14 <= |mem| && Boundaries.CutAt(o, mem, 0, |mem|)
    ensures o.Parsed? && o.p.header == []
  {
  }

  lemma NoTransport(o: Outcome, mem: seq<byte>, kind: word)
    requires 14 <= |mem|
    requires var room := |mem| - 14;
             Boundaries.CutAt(o, mem, 14 + Boundaries.Min(Boundaries.TransportBytes(kind, mem, 14, room), room), |mem|)
    ensures o.Parsed?
    ensures (kind == 6 ==> |mem| - 14 < 20) && (kind == 17 || kind == 1 ==> |mem| - 14 < 8) ==>
              o.p.header == mem[..14] && o.p.data == mem[14..]
  {
  }

  lemma PlainFrame(e: Order, p: Packet, junk: byte, trailer: seq<byte>)
    requires Sendable(p) && p.body.Plain? && p.datalink.EthernetLink? && junk < 16
    ensures var mem := Frame(e, p, junk) + trailer;
            && |mem| == 14 + |p.data| + |trailer| && mem[0..14] == mem[..14] == EtherHeader(p.datalink)
            && mem[..14] == Frame(e, p, junk)[..14] && mem[14..] == p.data + trailer
            && |p.datalink.ether.dst| == 6 && |p.datalink.ether.src| == 6
  {
    hide EtherHeader;
    var f := Frame(e, p, junk);
    assert f == EtherHeader(p.datalink) + p.data;
    assert f + trailer == EtherHeader(p.datalink) + (p.data + trailer);
  }
}
