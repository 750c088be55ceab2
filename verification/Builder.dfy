/** set_packet and the set_* functions of jpcap (jpcap-0.7/src/c): how a packet object is
    written into the byte buffer that nativeSendPacket hands to pcap_sendpacket. */
module Builder {
  import opened Bytes
  import opened Packets
  import opened Checksum

  const MAX_PACKET_SIZE := 1600

  // ---------------------------------------------------------------- the bytes of each header

  function Flag(b: bool, weight: byte): byte {
    if b then weight else 0
  }

  /** ip_tos: precedence, the reserved bits, then the three flags, added up in an `u_char`. */
  function Tos(ip: IpFields): byte {
    U8(ip.priority * 32 + ip.rsvTos + Flag(ip.dFlag, 0x10) + Flag(ip.tFlag, 0x08) + Flag(ip.rFlag, 0x04))
  }

  /** ip_off before set_packet applies `htons` to the whole word: the flags as they are, the
      offset already converted. */
  function FragWord(e: Order, ip: IpFields): word {
    U16((if ip.rsvFrag then 0x8000 else 0) + (if ip.dontFrag then 0x4000 else 0) + (if ip.moreFrag then 0x2000 else 0)
        + Htons(e, U16(ip.offset)))
  }

  /** The IPv4 header of section 3.1 of RFC 791, as set_ip and set_packet fill it in. */
  function IpHeader(e: Order, ip: IpFields, protocol: byte, length: word, sum: word): (s: seq<byte>)
    requires |ip.src| == 4 && |ip.dst| == 4
    ensures |s| == 20
  {
    [0x45, Tos(ip)] + Be16(length) + Be16(U16(ip.ident)) + Be16(FragWord(e, ip)) + [U8(ip.hopLimit), protocol]
    + Be16(sum) + ip.src + ip.dst
  }

  function TcpFlags(t: TcpFields): byte {
    Flag(t.rsv1, 0x80) + Flag(t.rsv2, 0x40) + Flag(t.urg, 0x20) + Flag(t.ack, 0x10)
    + Flag(t.psh, 0x08) + Flag(t.rst, 0x04) + Flag(t.syn, 0x02) + Flag(t.fin, 0x01)
  }

  /** The TCP header of section 3.1 of RFC 793 up to the checksum.  set_tcp leaves the four bits
      beside the data offset as the buffer has them: `junk`. */
  function TcpHead(t: TcpFields, junk: byte): (s: seq<byte>)
    requires junk < 16
    ensures |s| == 16
  {
    Be16(U16(t.srcPort)) + Be16(U16(t.dstPort)) + Be32(t.sequence) + Be32(t.ackNum) + [0x50 + junk, TcpFlags(t)]
    + Be16(U16(t.window))
  }

  function TcpHeader(t: TcpFields, junk: byte, sum: word): (s: seq<byte>)
    requires junk < 16
    ensures |s| == 20
  {
    TcpHead(t, junk) + Be16(sum) + Be16(U16(t.urgent))
  }

  /** The UDP header of RFC 768 up to the checksum. */
  function UdpHead(u: UdpFields, length: word): (s: seq<byte>)
    ensures |s| == 6
  {
    Be16(U16(u.srcPort)) + Be16(U16(u.dstPort)) + Be16(length)
  }

  function UdpHeader(u: UdpFields, length: word, sum: word): (s: seq<byte>)
    ensures |s| == 8
  {
    UdpHead(u, length) + Be16(sum)
  }

  /** What in_cksum2 puts into a checksum field, read in network order. */
  function SegmentChecksum(e: Order, addresses: seq<byte>, protocol: byte, segment: seq<byte>): word
    requires |addresses| == 8
  {
    Htons(e, 0xffff - FoldTwice(U32(Cksum2Total(e, addresses, protocol, Htons(e, U16(|segment|)), segment))))
  }

  /** The TCP segment, checksum inserted. */
  function TcpSegment(e: Order, ip: IpFields, t: TcpFields, junk: byte, data: seq<byte>): (s: seq<byte>)
    requires |ip.src| == 4 && |ip.dst| == 4 && junk < 16
    ensures |s| == 20 + |data|
  {
    TcpHeader(t, junk, SegmentChecksum(e, ip.src + ip.dst, IPPROTO_TCP, TcpHeader(t, junk, 0) + data)) + data
  }

  /** A checksum of 0 is sent as 0xffff. */
  function NonZero(sum: word): word {
    if sum == 0 then 0xffff else sum
  }

  /** The UDP datagram, checksum inserted. */
  function UdpDatagram(e: Order, ip: IpFields, u: UdpFields, data: seq<byte>): (s: seq<byte>)
    requires |ip.src| == 4 && |ip.dst| == 4 && |data| + 8 < 0x1_0000
    ensures |s| == 8 + |data|
  {
    UdpHeader(u, |data| + 8, NonZero(SegmentChecksum(e, ip.src + ip.dst, IPPROTO_UDP, UdpHeader(u, |data| + 8,
        0) + data))) + data
  }

  /** The IPv4 packet around a payload, header checksum inserted. */
  function Ipv4(e: Order, ip: IpFields, protocol: byte, payload: seq<byte>): (s: seq<byte>)
    requires |ip.src| == 4 && |ip.dst| == 4 && |payload| + 20 < 0x1_0000
    ensures |s| == 20 + |payload|
  {
    IpHeader(e, ip, protocol, |payload| + 20, Rfc1071(IpHeader(e, ip, protocol, |payload| + 20, 0))) + payload
  }

  /** The Ethernet header; nothing if the packet has none. */
  function EtherHeader(d: Datalink): (s: seq<byte>)
    requires d.EthernetLink? ==> |d.ether.dst| == 6 && |d.ether.src| == 6
    ensures |s| == if d.EthernetLink? then 14 else 0
  {
    if d.EthernetLink? then d.ether.dst + d.ether.src + Be16(d.ether.frametype) else []
  }

  /** The 28 bytes of an Ethernet/IPv4 ARP packet (RFC 826). */
  function ArpBytes(a: ArpFields): (s: seq<byte>)
    requires ArpSized(a)
    ensures |s| == 28
  {
    ArpHead(a) + a.senderHard + a.senderProto + a.targetHard + a.targetProto
  }

  function ArpHead(a: ArpFields): (s: seq<byte>)
    ensures |s| == 8
  {
    Be16(U16(a.hardtype)) + Be16(U16(a.prototype)) + [U8(a.hlen), U8(a.plen)] + Be16(U16(a.operation))
  }

  ghost predicate ArpSized(a: ArpFields) {
    U8(a.hlen) == 6 && U8(a.plen) == 4 && |a.senderHard| == 6 && |a.senderProto| == 4 && |a.targetHard| == 6
        && |a.targetProto| == 4
  }

  /** The headers that set_packet puts between the Ethernet header and the payload. */
  function Overhead(body: Body): nat {
    match body
    case Tcp(_, _) => 40
    case Udp(_, _) => 28
    case Ip(_) => 20
    case Arp(_) => 28
    case _ => 0
  }

  /** The packets that the sender is modelled for: sized addresses, and a frame that fits the
      buffer of nativeSendPacket. */
  ghost predicate Sendable(p: Packet) {
    && (p.datalink.EthernetLink? ==> |p.datalink.ether.dst| == 6 && |p.datalink.ether.src| == 6)
    && BodySendable(p.body, p.data, |EtherHeader(p.datalink)|)
  }

  ghost predicate BodySendable(body: Body, data: seq<byte>, off: nat) {
    && (body.Ip? || body.Tcp? || body.Udp? ==> body.ip.version == 4 && |body.ip.src| == 4 && |body.ip.dst| == 4)
    && (body.Arp? ==> ArpSized(body.arp) && data == [])
    && !body.Icmp?
    && off + Overhead(body) + |data| <= MAX_PACKET_SIZE
  }

  /** The frame of a packet after the Ethernet header. */
  function BodyBytes(e: Order, body: Body, data: seq<byte>, junk: byte): seq<byte>
    requires BodySendable(body, data, 0) && junk < 16
  {
    match body
    case Tcp(ip, t) => Ipv4(e, ip, IPPROTO_TCP, TcpSegment(e, ip, t, junk, data))
    case Udp(ip, u) => Ipv4(e, ip, IPPROTO_UDP, UdpDatagram(e, ip, u, data))
    case Ip(ip) => Ipv4(e, ip, U8(ip.protocol), data)
    case Arp(a) => ArpBytes(a)
    case Plain => data
  }

  /** The frame of a packet. */
  function Frame(e: Order, p: Packet, junk: byte): seq<byte>
    requires Sendable(p) && junk < 16
  {
    EtherHeader(p.datalink) + BodyBytes(e, p.body, p.data, junk)
  }

  /** The four bits of the uninitialised buffer that end up in the TCP header. */
  function Junk(p: Packet, buffer: seq<byte>): byte {
    At(buffer, (if p.datalink.EthernetLink? then 14 else 0) + 32) % 16
  }

  /** Zeros up to the least length of an Ethernet frame. */
  function Pad60(s: seq<byte>): (r: seq<byte>)
    ensures |r| == if |s| < 60 then 60 else |s|
    ensures s <= r && forall k | |s| <= k < |r| :: r[k] == 0
  {
    if |s| < 60 then s + seq<byte>(60 - |s|, i => 0) else s
  }

  // ---------------------------------------------------------------- stores

  /** What lies outside `[i, j)` is as it was. */
  twostate predicate OnlyWithin(buf: array<byte>, i: int, j: int)
    reads buf
  {
    forall k | 0 <= k < buf.Length && !(i <= k < j) :: buf[k] == old(buf[k])
  }

  /** `field = htons(w)`: network order in memory on either host. */
  method PutShort(e: Order, buf: array<byte>, i: nat, w: word)
    requires i + 2 <= buf.Length
    modifies buf
    ensures buf[i..i + 2] == Be16(w) && OnlyWithin(buf, i, i + 2)
  {
    StoreHtons(e, w);
    var s := Store16(e, Htons(e, w));
    buf[i], buf[i + 1] := s[0], s[1];
  }

  /** `field = htonl(x)`. */
  method PutLong(e: Order, buf: array<byte>, i: nat, x: int)
    requires i + 4 <= buf.Length
    modifies buf
    ensures buf[i..i + 4] == Be32(x) && OnlyWithin(buf, i, i + 4)
  {
    PutShort(e, buf, i, x / 0x1_0000 % 0x1_0000);
    PutShort(e, buf, i + 2, x % 0x1_0000);
    assert buf[i..i + 4] == buf[i..i + 2] + buf[i + 2..i + 4];
  }

  /** GetByteArrayRegion: copies all of `bs` to `i`. */
  method PutBytes(buf: array<byte>, i: nat, bs: seq<byte>)
    requires i + |bs| <= buf.Length
    modifies buf
    ensures buf[i..i + |bs|] == bs && OnlyWithin(buf, i, i + |bs|)
  {
    for j := 0 to |bs|
      invariant buf[i..i + j] == bs[..j] && OnlyWithin(buf, i, i + |bs|)
    {
      buf[i + j] := bs[j];
    }
  }

  lemma Join(buf: array<byte>, i: nat, j: nat, k: nat)
    requires i <= j <= k <= buf.Length
    ensures buf[i..k] == buf[i..j] + buf[j..k]
  {
  }

  // ---------------------------------------------------------------- set_tcp and set_udp

  method SetTcpFields(e: Order, buf: array<byte>, off: nat, t: TcpFields)
    requires off + 20 <= buf.Length
    modifies buf
    ensures buf[off..off + 16] == TcpHead(t, old(buf[off + 12]) % 16)
    ensures buf[off + 18..off + 20] == Be16(U16(t.urgent))
    ensures OnlyWithin(buf, off, off + 20)
  {
    hide Be16, Be32, TcpFlags, U16, TcpHead;
    PutShort(e, buf, off, U16(t.srcPort));
    PutShort(e, buf, off + 2, U16(t.dstPort));
    PutLong(e, buf, off + 4, t.sequence);
    PutLong(e, buf, off + 8, t.ackNum);
    buf[off + 12] := 0x50 + buf[off + 12] % 16;
    buf[off + 13] := TcpFlags(t);
    PutShort(e, buf, off + 14, U16(t.window));
    PutShort(e, buf, off + 18, U16(t.urgent));
    TcpHeadAssembled(buf, off, t, old(buf[off + 12]) % 16);
  }

  lemma TcpHeadAssembled(buf: array<byte>, off: nat, t: TcpFields, junk: byte)
    requires off + 16 <= buf.Length && junk < 16
    requires buf[off..off + 2] == Be16(U16(t.srcPort)) && buf[off + 2..off + 4] == Be16(U16(t.dstPort))
    requires buf[off + 4..off + 8] == Be32(t.sequence) && buf[off + 8..off + 12] == Be32(t.ackNum)
    requires buf[off + 12] == 0x50 + junk && buf[off + 13] == TcpFlags(t)
        && buf[off + 14..off + 16] == Be16(U16(t.window))
    ensures buf[off..off + 16] == TcpHead(t, junk)
  {
    hide Be16, Be32, TcpFlags, U16;
    assert buf[off + 12..off + 14] == [buf[off + 12], buf[off + 13]];
    Join(buf, off, off + 2, off + 4);
    Join(buf, off, off + 4, off + 8);
    Join(buf, off, off + 8, off + 12);
    Join(buf, off, off + 12, off + 14);
    Join(buf, off, off + 14, off + 16);
  }

  /** What set_tcp and set_udp copy of the payload. */
  function Fitting(data: seq<byte>, header: nat): (d: seq<byte>)
    requires header <= 20
    ensures |d| <= |data| && |d| <= MAX_PACKET_SIZE - 20 - header
    ensures |data| + 20 + header <= MAX_PACKET_SIZE ==> d == data
  {
    if |data| + 20 + header > MAX_PACKET_SIZE then data[..MAX_PACKET_SIZE - 20 - header] else data
  }

  /** As much of it, from the front, as 1600 bytes of IPv4 packet hold. */
  lemma FittingIsLongest(data: seq<byte>, header: nat, n: nat)
    requires header <= 20 && n <= |data|
    ensures data[..n] <= Fitting(data, header) <==> n + 20 + header <= 1600
  {
  }

  /** Stores the checksum of the segment that begins at `off`: `head`, the field, `tail`. */
  method InsertChecksum(e: Order, buf: array<byte>, ipOff: nat, off: nat, field: nat, size: nat,
      ghost head: seq<byte>, ghost tail: seq<byte>)
      returns (sum: word)
    requires ipOff + 20 <= off && field + 2 <= size && off + size <= buf.Length
    requires buf[off..off + field] == head && buf[off + field + 2..off + size] == tail
    modifies buf
    ensures sum == SegmentChecksum(e, old(buf[ipOff + 12..ipOff + 20]), old(buf[ipOff + 9]), head + Be16(0) + tail)
    ensures buf[off..off + size] == head + Be16(sum) + tail && OnlyWithin(buf, off + field, off + field + 2)
  {
    hide Cksum2Total, FoldTwice, U32, Be16, Htons, U16;
    PutBetween(e, buf, off, off + field, off + size, 0, head, tail);
    assert buf[ipOff + 12..ipOff + 20] == old(buf[ipOff + 12..ipOff + 20]);
    var r := InCksum2(e, buf, ipOff, Htons(e, U16(size)), off, size);
    sum := Htons(e, r);
    HtonsTwice(e, r);
    PutBetween(e, buf, off, off + field, off + size, sum, head, tail);
  }

  /** A word between `head` and `tail`. */
  method PutBetween(e: Order, buf: array<byte>, ghost i: nat, j: nat, ghost n: nat, w: word, ghost head: seq<byte>,
      ghost tail: seq<byte>)
    requires i <= j && j + 2 <= n <= buf.Length && buf[i..j] == head && buf[j + 2..n] == tail
    modifies buf
    ensures buf[i..j] == head && buf[j + 2..n] == tail && buf[i..n] == head + Be16(w) + tail
        && OnlyWithin(buf, j, j + 2)
  {
    hide Be16;
    PutShort(e, buf, j, w);
    assert buf[i..j] == head && buf[j + 2..n] == tail;
    Join(buf, i, j, j + 2);
    Join(buf, i, j + 2, n);
  }

  lemma HtonsTwice(e: Order, w: word)
    ensures Htons(e, Htons(e, w)) == w
  {
    hide Swap;
    var h, l := w / 0x100, w % 0x100;
    SwapIs(h, l);
    SwapIs(l, h);
  }

  /** set_tcp before the checksum. */
  method SetTcpUnchecked(e: Order, buf: array<byte>, off: nat, t: TcpFields, d: seq<byte>)
    requires off + 20 + |d| <= buf.Length
    modifies buf
    ensures buf[off..off + 16] == TcpHead(t, old(buf[off + 12]) % 16)
    ensures buf[off + 18..off + 20 + |d|] == Be16(U16(t.urgent)) + d
    ensures OnlyWithin(buf, off, off + 20 + |d|)
  {
    hide TcpHead, Be16, U16;
    SetTcpFields(e, buf, off, t);
    PutBytes(buf, off + 20, d);
    Join(buf, off + 18, off + 20, off + 20 + |d|);
  }

  method SetTcp(e: Order, buf: array<byte>, ipOff: nat, off: nat, t: TcpFields, data: seq<byte>)
    requires ipOff + 20 <= off && off + 20 + |Fitting(data, 20)| <= buf.Length
    modifies buf
    ensures var d, junk := Fitting(data, 20), old(buf[off + 12]) % 16;
            buf[off..off + 20 + |d|] == TcpHeader(t, junk, SegmentChecksum(e, old(buf[ipOff + 12..ipOff + 20]),
                old(buf[ipOff + 9]), TcpHeader(t, junk, 0) + d)) + d
    ensures OnlyWithin(buf, off, off + 20 + |Fitting(data, 20)|)
  {
    hide TcpHead, TcpHeader, SegmentChecksum, Be16, U16;
    var d := Fitting(data, 20);
    ghost var junk := buf[off + 12] % 16;
    SetTcpUnchecked(e, buf, off, t, d);
    assert buf[ipOff + 12..ipOff + 20] == old(buf[ipOff + 12..ipOff + 20]);
    var sum := InsertChecksum(e, buf, ipOff, off, 16, 20 + |d|, TcpHead(t, junk), Be16(U16(t.urgent)) + d);
    TcpHeaderParts(t, junk, 0, d);
    TcpHeaderParts(t, junk, sum, d);
  }

  lemma TcpHeaderParts(t: TcpFields, junk: byte, sum: word, d: seq<byte>)
    requires junk < 16
    ensures TcpHeader(t, junk, sum) + d == TcpHead(t, junk) + Be16(sum) + (Be16(U16(t.urgent)) + d)
  {
    hide U16, TcpHead;
  }

  method SetUdpFields(e: Order, buf: array<byte>, off: nat, u: UdpFields, length: word)
    requires off + 8 <= buf.Length
    modifies buf
    ensures buf[off..off + 6] == UdpHead(u, length)
    ensures OnlyWithin(buf, off, off + 6)
  {
    hide Be16, U16;
    PutShort(e, buf, off, U16(u.srcPort));
    PutShort(e, buf, off + 2, U16(u.dstPort));
    PutShort(e, buf, off + 4, length);
    Join(buf, off, off + 2, off + 4);
    Join(buf, off, off + 4, off + 6);
  }

  /** set_udp before the checksum. */
  method SetUdpUnchecked(e: Order, buf: array<byte>, off: nat, u: UdpFields, d: seq<byte>)
    requires off + 8 + |d| <= buf.Length && |d| + 8 < 0x1_0000
    modifies buf
    ensures buf[off..off + 6] == UdpHead(u, |d| + 8) && buf[off + 8..off + 8 + |d|] == d
    ensures OnlyWithin(buf, off, off + 8 + |d|)
  {
    hide UdpHead;
    SetUdpFields(e, buf, off, u, |d| + 8);
    PutBytes(buf, off + 8, d);
    assert buf[off..off + 6] == UdpHead(u, |d| + 8);
  }

  method SetUdp(e: Order, buf: array<byte>, ipOff: nat, off: nat, u: UdpFields, data: seq<byte>)
    requires ipOff + 20 <= off && off + 8 + |Fitting(data, 8)| <= buf.Length
    modifies buf
    ensures var d := Fitting(data, 8);
            buf[off..off + 8 + |d|] == UdpHeader(u, |d| + 8, NonZero(SegmentChecksum(e,
                old(buf[ipOff + 12..ipOff + 20]), old(buf[ipOff + 9]), UdpHeader(u, |d| + 8, 0) + d))) + d
    ensures OnlyWithin(buf, off, off + 8 + |Fitting(data, 8)|)
  {
    hide SegmentChecksum, UdpHead, UdpHeader, Be16, Fitting;
    var d := Fitting(data, 8);
    SetUdpUnchecked(e, buf, off, u, d);
    assert buf[ipOff + 12..ipOff + 20] == old(buf[ipOff + 12..ipOff + 20]);
    var sum := InsertChecksum(e, buf, ipOff, off, 6, 8 + |d|, UdpHead(u, |d| + 8), d);
    UdpHeaderParts(u, |d| + 8, 0, d);
    UdpHeaderParts(u, |d| + 8, sum, d);
    if sum == 0 {
      ZeroReplaced(e, buf, off, u, d);
    }
  }

  /** The end of set_udp: a checksum of 0 becomes 0xffff. */
  method ZeroReplaced(e: Order, buf: array<byte>, off: nat, ghost u: UdpFields, ghost d: seq<byte>)
    requires |d| + 8 <= MAX_PACKET_SIZE && off + 8 + |d| <= buf.Length
    requires buf[off..off + 8 + |d|] == UdpHeader(u, |d| + 8, 0) + d
    modifies buf
    ensures buf[off..off + 8 + |d|] == UdpHeader(u, |d| + 8, 0xffff) + d && OnlyWithin(buf, off + 6, off + 8)
  {
    hide UdpHead, Be16;
    ghost var all := buf[off..off + 8 + |d|];
    assert buf[off..off + 6] == all[..6] && buf[off + 8..off + 8 + |d|] == all[8..];
    PutBetween(e, buf, off, off + 6, off + 8 + |d|, 0xffff, UdpHead(u, |d| + 8), d);
  }

  lemma UdpHeaderParts(u: UdpFields, length: word, sum: word, d: seq<byte>)
    ensures UdpHeader(u, length, sum) + d == UdpHead(u, length) + Be16(sum) + d
  {
    hide U16, UdpHead;
  }

  // ---------------------------------------------------------------- set_ip

  lemma LoadStore(e: Order, w: word)
    ensures Load16(e, Store16(e, w)[0], Store16(e, w)[1]) == w
  {
  }

  /** A plain store of a word, as the host lays it out. */
  method PutHostShort(e: Order, buf: array<byte>, i: nat, w: word)
    requires i + 2 <= buf.Length
    modifies buf
    ensures Load16(e, buf[i], buf[i + 1]) == w && OnlyWithin(buf, i, i + 2)
  {
    LoadStore(e, w);
    var s := Store16(e, w);
    buf[i], buf[i + 1] := s[0], s[1];
  }

  /** What set_ip leaves at `off`: everything but the total length, the protocol and the
      checksum, with ip_off still in the order of the host. */
  ghost predicate IpFieldsAt(e: Order, buf: array<byte>, off: nat, ip: IpFields)
    requires off + 20 <= buf.Length && |ip.src| == 4 && |ip.dst| == 4
    reads buf
  {
    && buf[off] == 0x45 && buf[off + 1] == Tos(ip)
    && buf[off + 4] == Be16(U16(ip.ident))[0] && buf[off + 5] == Be16(U16(ip.ident))[1]
    && Load16(e, buf[off + 6], buf[off + 7]) == FragWord(e, ip)
    && buf[off + 8] == U8(ip.hopLimit)
    && forall k | 0 <= k < 4 :: buf[off + 12 + k] == ip.src[k] && buf[off + 16 + k] == ip.dst[k]
  }

  method SetIp(e: Order, buf: array<byte>, off: nat, ip: IpFields)
    requires off + 20 <= buf.Length && |ip.src| == 4 && |ip.dst| == 4
    modifies buf
    ensures IpFieldsAt(e, buf, off, ip) && OnlyWithin(buf, off, off + 20)
  {
    hide Be16, U16, Load16, Tos, FragWord, U8;
    SetIpWords(e, buf, off, ip);
    PutBytes(buf, off + 12, ip.src);
    PutBytes(buf, off + 16, ip.dst);
    assert forall k | 0 <= k < 4 :: ip.src[k] == buf[off + 12..off + 16][k] && ip.dst[k] == buf[off + 16..off + 20][k];
  }

  method SetIpWords(e: Order, buf: array<byte>, off: nat, ip: IpFields)
    requires off + 20 <= buf.Length
    modifies buf
    ensures buf[off] == 0x45 && buf[off + 1] == Tos(ip)
    ensures buf[off + 4] == Be16(U16(ip.ident))[0] && buf[off + 5] == Be16(U16(ip.ident))[1]
    ensures Load16(e, buf[off + 6], buf[off + 7]) == FragWord(e, ip) && buf[off + 8] == U8(ip.hopLimit)
    ensures OnlyWithin(buf, off, off + 12)
  {
    hide Be16, U16, Load16, Tos, FragWord, U8;
    buf[off] := 0x45;
    PutShort(e, buf, off + 4, U16(ip.ident));
    assert buf[off + 4..off + 6][0] == buf[off + 4] && buf[off + 4..off + 6][1] == buf[off + 5];
    PutHostShort(e, buf, off + 6, FragWord(e, ip));
    buf[off + 8] := U8(ip.hopLimit);
    buf[off + 1] := Tos(ip);
  }

  /** The end of the IPv4 branch of set_packet: `htons` of length and offset, then the header
      checksum over 20 bytes. */
  method FinishIp(e: Order, buf: array<byte>, off: nat, ghost ip: IpFields, ghost protocol: byte, ghost length: word)
    requires off + 20 <= buf.Length && |ip.src| == 4 && |ip.dst| == 4
    requires IpFieldsAt(e, buf, off, ip) && buf[off + 9] == protocol && Load16(e, buf[off + 2], buf[off + 3]) == length
    modifies buf
    ensures buf[off..off + 20] == IpHeader(e, ip, protocol, length, Rfc1071(IpHeader(e, ip, protocol, length, 0)))
    ensures OnlyWithin(buf, off, off + 20)
  {
    hide Be16, U16, Load16, Tos, FragWord, U8, Rfc1071, CksumTotal, FoldTwice, Htons, IpHeader, U32;
    PutShort(e, buf, off + 2, Load16(e, buf[off + 2], buf[off + 3]));
    PutShort(e, buf, off + 6, Load16(e, buf[off + 6], buf[off + 7]));
    PutShort(e, buf, off + 10, 0);
    IpHeaderAssembled(e, buf, off, ip, protocol, length, 0);
    var r := InCksum(e, buf, off, 20);
    ChecksumOfEven(e, buf[off..off + 20]);
    HtonsTwice(e, Rfc1071(buf[off..off + 20]));
    PutShort(e, buf, off + 10, Htons(e, r));
    IpHeaderAssembled(e, buf, off, ip, protocol, length, Htons(e, r));
  }

  lemma IpHeaderAssembled(e: Order, buf: array<byte>, off: nat, ip: IpFields, protocol: byte, length: word, sum: word)
    requires off + 20 <= buf.Length && |ip.src| == 4 && |ip.dst| == 4
    requires buf[off..off + 2] == [0x45, Tos(ip)] && buf[off + 2..off + 4] == Be16(length)
    requires buf[off + 4..off + 6] == Be16(U16(ip.ident)) && buf[off + 6..off + 8] == Be16(FragWord(e, ip))
    requires buf[off + 8] == U8(ip.hopLimit) && buf[off + 9] == protocol && buf[off + 10..off + 12] == Be16(sum)
    requires buf[off + 12..off + 16] == ip.src && buf[off + 16..off + 20] == ip.dst
    ensures buf[off..off + 20] == IpHeader(e, ip, protocol, length, sum)
  {
    hide Be16, U16, Tos, FragWord, U8;
    assert buf[off + 8..off + 10] == [buf[off + 8], buf[off + 9]];
    Join(buf, off, off + 2, off + 4);
    Join(buf, off, off + 4, off + 6);
    Join(buf, off, off + 6, off + 8);
    Join(buf, off, off + 8, off + 10);
    Join(buf, off, off + 10, off + 12);
    Join(buf, off, off + 12, off + 16);
    Join(buf, off, off + 16, off + 20);
  }

  /** in_cksum over an even size, in the terms of FinishIp. */
  lemma ChecksumOfEven(e: Order, s: seq<byte>)
    requires |s| == 20
    ensures 0xffff - FoldTwice(U32(CksumTotal(e, s, 0))) == Htons(e, Rfc1071(s))
  {
    hide Rfc1071, FoldTwice, CksumTotal;
    CksumTotalMeaning(e, s, 0);
    StoredIs(e, 0xffff - FoldTwice(CksumTotal(e, s, 0)), Rfc1071(s));
  }

  lemma StoredIs(e: Order, r: word, w: word)
    requires Store16(e, r) == Be16(w)
    ensures r == Htons(e, w)
  {
  }

  // ---------------------------------------------------------------- set_ether and set_arp

  method SetEther(e: Order, buf: array<byte>, d: Datalink) returns (length: nat)
    requires 14 <= buf.Length && (d.EthernetLink? ==> |d.ether.dst| == 6 && |d.ether.src| == 6)
    modifies buf
    ensures length == |EtherHeader(d)| && buf[..length] == EtherHeader(d) && OnlyWithin(buf, 0, length)
  {
    hide Be16;
    if !d.EthernetLink? {
      return 0;
    }
    PutBytes(buf, 6, d.ether.src);
    PutBytes(buf, 0, d.ether.dst);
    PutShort(e, buf, 12, d.ether.frametype);
    Join(buf, 0, 6, 12);
    Join(buf, 0, 12, 14);
    assert buf[..14] == buf[0..14];
    return 14;
  }

  /** `bs` written over `s` at `i`. */
  function Put(s: seq<byte>, i: nat, bs: seq<byte>): (r: seq<byte>)
    requires i + |bs| <= |s|
    ensures |r| == |s|
    ensures forall k | 0 <= k < |s| :: r[k] == if i <= k < i + |bs| then bs[k - i] else s[k]
  {
    s[..i] + bs + s[i + |bs|..]
  }

  /** The address arrays are as long as the lengths say, at least; a shorter one throws. */
  ghost predicate ArpReadable(a: ArpFields) {
    U8(a.hlen) <= |a.senderHard| && U8(a.hlen) <= |a.targetHard| && U8(a.plen) <= |a.senderProto|
        && U8(a.plen) <= |a.targetProto|
  }

  /** What set_arp leaves of a buffer, for addresses of any lengths: it puts them where those of
      Ethernet and IPv4 belong, the later ones over the earlier ones. */
  function ArpWritten(s: seq<byte>, off: nat, a: ArpFields): (r: seq<byte>)
    requires ArpReadable(a) && off + 279 <= |s|
    ensures |r| == |s|
  {
    var hl, pl := U8(a.hlen), U8(a.plen);
    Put(Put(Put(Put(Put(s, off, ArpHead(a)), off + 8, a.senderHard[..hl]), off + 14, a.senderProto[..pl]),
            off + 18, a.targetHard[..hl]), off + 24, a.targetProto[..pl])
  }

  /** PutBytes in these terms. */
  method PutRegion(buf: array<byte>, i: nat, bs: seq<byte>)
    requires i + |bs| <= buf.Length
    modifies buf
    ensures buf[..] == Put(old(buf[..]), i, bs)
  {
    PutBytes(buf, i, bs);
    assert forall k | i <= k < i + |bs| :: buf[k] == buf[i..i + |bs|][k - i];
  }

  /** set_arp. */
  method SetArp(e: Order, buf: array<byte>, off: nat, a: ArpFields)
    requires ArpReadable(a) && off + 279 <= buf.Length
    modifies buf
    ensures buf[..] == ArpWritten(old(buf[..]), off, a)
  {
    hide ArpHead, Put, U8;
    var hl, pl := U8(a.hlen), U8(a.plen);
    SetArpHead(e, buf, off, a);
    assert buf[..] == Put(old(buf[..]), off, ArpHead(a)) by {
      assert forall k | off <= k < off + 8 :: buf[k] == buf[off..off + 8][k - off];
    }
    PutRegion(buf, off + 8, a.senderHard[..hl]);
    PutRegion(buf, off + 14, a.senderProto[..pl]);
    PutRegion(buf, off + 18, a.targetHard[..hl]);
    PutRegion(buf, off + 24, a.targetProto[..pl]);
  }

  /** For Ethernet and IPv4 addresses these are the 28 bytes of the packet, and no others. */
  lemma ArpWrittenSized(s: seq<byte>, off: nat, a: ArpFields)
    requires ArpSized(a) && off + 279 <= |s|
    ensures var w := ArpWritten(s, off, a);
            w[off..off + 28] == ArpBytes(a) && forall k | 0 <= k < |s| && !(off <= k < off + 28) :: w[k] == s[k]
  {
    hide ArpHead, Put, U8;
    assert a.senderHard[..6] == a.senderHard && a.senderProto[..4] == a.senderProto;
    assert a.targetHard[..6] == a.targetHard && a.targetProto[..4] == a.targetProto;
  }

  method SetArpHead(e: Order, buf: array<byte>, off: nat, a: ArpFields)
    requires off + 8 <= buf.Length
    modifies buf
    ensures buf[off..off + 8] == ArpHead(a) && OnlyWithin(buf, off, off + 8)
  {
    hide Be16, U8, U16;
    PutShort(e, buf, off, U16(a.hardtype));
    PutShort(e, buf, off + 2, U16(a.prototype));
    PutShort(e, buf, off + 6, U16(a.operation));
    buf[off + 4] := U8(a.hlen);
    buf[off + 5] := U8(a.plen);
    assert buf[off + 4..off + 6] == [U8(a.hlen), U8(a.plen)];
    Join(buf, off, off + 2, off + 4);
    Join(buf, off, off + 4, off + 6);
    Join(buf, off, off + 6, off + 8);
  }

  // ---------------------------------------------------------------- set_packet

  /** The beginning of the IPv4 branch: set_ip, the protocol, the length in host order. */
  method BeginIp(e: Order, buf: array<byte>, off: nat, ip: IpFields, protocol: byte, length: word)
    requires off + 20 <= buf.Length && |ip.src| == 4 && |ip.dst| == 4
    modifies buf
    ensures IpFieldsAt(e, buf, off, ip) && buf[off + 9] == protocol && Load16(e, buf[off + 2], buf[off + 3]) == length
    ensures OnlyWithin(buf, off, off + 20)
  {
    hide Be16, U16, Load16, Tos, FragWord, U8;
    SetIp(e, buf, off, ip);
    buf[off + 9] := protocol;
    PutHostShort(e, buf, off + 2, length);
  }

  method SetTcpPacket(e: Order, buf: array<byte>, off: nat, ip: IpFields, t: TcpFields, data: seq<byte>)
    requires |ip.src| == 4 && |ip.dst| == 4 && off + 40 + |data| <= buf.Length == MAX_PACKET_SIZE
    modifies buf
    ensures buf[off..off + 40 + |data|] == Ipv4(e, ip, IPPROTO_TCP, TcpSegment(e, ip, t, old(buf[off + 32]) % 16, data))
    ensures OnlyWithin(buf, off, off + 40 + |data|)
  {
    hide Load16, IpHeader, Rfc1071, SegmentChecksum, TcpHeader;
    BeginIp(e, buf, off, ip, IPPROTO_TCP, |data| + 40);
    AddressesAt(e, buf, off, ip);
    SetTcp(e, buf, off, off + 20, t, data);
    ghost var segment := TcpSegment(e, ip, t, old(buf[off + 32]) % 16, data);
    assert buf[off + 20..off + 40 + |data|] == segment;
    FinishIp(e, buf, off, ip, IPPROTO_TCP, |data| + 40);
    assert buf[off + 20..off + 40 + |data|] == segment;
    Join(buf, off, off + 20, off + 40 + |data|);
  }

  method SetUdpPacket(e: Order, buf: array<byte>, off: nat, ip: IpFields, u: UdpFields, data: seq<byte>)
    requires |ip.src| == 4 && |ip.dst| == 4 && off + 28 + |data| <= buf.Length == MAX_PACKET_SIZE
    modifies buf
    ensures buf[off..off + 28 + |data|] == Ipv4(e, ip, IPPROTO_UDP, UdpDatagram(e, ip, u, data))
    ensures OnlyWithin(buf, off, off + 28 + |data|)
  {
    hide Load16, IpHeader, Rfc1071, SegmentChecksum, UdpHeader;
    BeginIp(e, buf, off, ip, IPPROTO_UDP, |data| + 28);
    AddressesAt(e, buf, off, ip);
    SetUdp(e, buf, off, off + 20, u, data);
    ghost var datagram := UdpDatagram(e, ip, u, data);
    assert buf[off + 20..off + 28 + |data|] == datagram;
    FinishIp(e, buf, off, ip, IPPROTO_UDP, |data| + 28);
    assert buf[off + 20..off + 28 + |data|] == datagram;
    Join(buf, off, off + 20, off + 28 + |data|);
  }

  method SetPlainIpPacket(e: Order, buf: array<byte>, off: nat, ip: IpFields, data: seq<byte>)
    requires |ip.src| == 4 && |ip.dst| == 4 && off + 20 + |data| <= buf.Length == MAX_PACKET_SIZE
    modifies buf
    ensures buf[off..off + 20 + |data|] == Ipv4(e, ip, U8(ip.protocol), data)
    ensures OnlyWithin(buf, off, off + 20 + |data|)
  {
    hide Load16, IpHeader, Rfc1071, U8;
    BeginIp(e, buf, off, ip, U8(ip.protocol), |data| + 20);
    PutBytes(buf, off + 20, data);
    FinishIp(e, buf, off, ip, U8(ip.protocol), |data| + 20);
    assert buf[off + 20..off + 20 + |data|] == data;
    Join(buf, off, off + 20, off + 20 + |data|);
  }

  lemma AddressesAt(e: Order, buf: array<byte>, off: nat, ip: IpFields)
    requires off + 20 <= buf.Length && |ip.src| == 4 && |ip.dst| == 4 && IpFieldsAt(e, buf, off, ip)
    ensures buf[off + 12..off + 20] == ip.src + ip.dst
  {
    hide Be16, U16, Load16, Tos, FragWord, U8;
    assert buf[off + 12..off + 16] == ip.src;
    assert buf[off + 16..off + 20] == ip.dst;
    hide IpFieldsAt;
    Join(buf, off + 12, off + 16, off + 20);
  }

  /** The part of set_packet that depends on the class of the packet. */
  method SetBody(e: Order, buf: array<byte>, off: nat, body: Body, data: seq<byte>) returns (length: nat)
    requires BodySendable(body, data, off) && off <= 14 && buf.Length == MAX_PACKET_SIZE
    modifies buf
    ensures length == |BodyBytes(e, body, data, old(buf[off + 32]) % 16)|
    ensures buf[off..off + length] == BodyBytes(e, body, data, old(buf[off + 32]) % 16)
    ensures OnlyWithin(buf, off, off + length)
  {
    hide Ipv4, TcpSegment, UdpDatagram, ArpBytes, U8;
    match body {
      case Tcp(ip, t) =>
        SetTcpPacket(e, buf, off, ip, t, data);
        length := |data| + 40;
      case Udp(ip, u) =>
        SetUdpPacket(e, buf, off, ip, u, data);
        length := |data| + 28;
      case Ip(ip) =>
        SetPlainIpPacket(e, buf, off, ip, data);
        length := |data| + 20;
      case Arp(a) =>
        ArpWrittenSized(buf[..], off, a);
        SetArp(e, buf, off, a);
        assert buf[off..off + 28] == buf[..][off..off + 28];
        length := |data| + 28;
      case Plain =>
        PutBytes(buf, off, data);
        length := |data|;
    }
  }

  /** set_packet with the datalink header. */
  method SetPacket(e: Order, buf: array<byte>, p: Packet) returns (length: nat)
    requires Sendable(p) && buf.Length == MAX_PACKET_SIZE
    modifies buf
    ensures length == |Frame(e, p, Junk(p, old(buf[..])))| && length <= MAX_PACKET_SIZE
    ensures buf[..length] == Frame(e, p, Junk(p, old(buf[..]))) && OnlyWithin(buf, 0, length)
  {
    hide BodyBytes, BodySendable, EtherHeader;
    BodyFits(p);
    var d := SetEther(e, buf, p.datalink);
    length := SetBody(e, buf, d, p.body, p.data);
    assert buf[..d] == EtherHeader(p.datalink);
    assert buf[..d + length] == buf[..d] + buf[d..d + length];
    length := length + d;
  }

  lemma BodyFits(p: Packet)
    requires Sendable(p)
    ensures forall e, junk: byte | junk < 16 ::
              |EtherHeader(p.datalink)| + |BodyBytes(e, p.body, p.data, junk)| <= MAX_PACKET_SIZE
  {
    hide Ipv4, TcpSegment, UdpDatagram, ArpBytes;
  }

  /** nativeSendPacket: what it hands to pcap_sendpacket for the packet. */
  method SendPacket(e: Order, buf: array<byte>, p: Packet) returns (length: nat)
    requires Sendable(p) && buf.Length == MAX_PACKET_SIZE
    modifies buf
    ensures length <= buf.Length && buf[..length] == Pad60(Frame(e, p, Junk(p, old(buf[..]))))
  {
    hide Frame, Sendable, Junk;
    length := SetPacket(e, buf, p);
    if length < 60 {
      ghost var frame := buf[..length];
      for i := 0 to 60 - length + 1
        invariant buf[..length] == frame && forall k | length <= k < length + i :: buf[k] == 0
      {
        buf[length + i] := 0;
      }
      length := 60;
    }
  }
}
