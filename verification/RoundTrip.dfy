/** What the parser makes of a frame that the builder has made. */
module RoundTrip {
  import opened Bytes
  import opened Packets
  import opened Builder
  import opened Parser
  import ParserLaws

  // ---------------------------------------------------------------- what a frame can carry

  /** The fields that the receiver's setTCPValue gets: widths of the wire, nothing else lost. */
  function WireTcp(t: TcpFields): TcpFields {
    t.(srcPort := U16(t.srcPort), dstPort := U16(t.dstPort), sequence := Unsigned32(t.sequence),
       ackNum := Unsigned32(t.ackNum), window := U16(t.window), urgent := S16(t.urgent))
  }

  function WireUdp(u: UdpFields, length: word): UdpFields {
    UdpFields(U16(u.srcPort), U16(u.dstPort), length)
  }

  /** The fields that setIPValue gets for a datagram sent with offset 0.  A little-endian
      receiver tests the fragment flags in the wrong byte and never sees one. */
  function WireIp(r: Order, ip: IpFields, protocol: byte, length: word): IpFields {
    ip.(version := 4,
        rsvFrag := r.BigEndian? && ip.rsvFrag, dontFrag := r.BigEndian? && ip.dontFrag, moreFrag := r.BigEndian?
            && ip.moreFrag,
        length := S16(length), ident := S16(ip.ident), hopLimit := U8(ip.hopLimit), protocol := protocol)
  }

  function WireArp(a: ArpFields): ArpFields {
    a.(hardtype := S16(a.hardtype), prototype := S16(a.prototype), hlen := 6, plen := 4, operation := S16(a.operation))
  }

  ghost predicate TosInRange(ip: IpFields) {
    0 <= ip.priority < 8 && 0 <= ip.rsvTos < 4
  }

  // ---------------------------------------------------------------- reading what was written

  lemma ReadBack(mem: seq<byte>, d: nat, s: seq<byte>)
    requires d + |s| <= |mem| && mem[d..d + |s|] == s
    ensures forall i | 0 <= i < |s| :: At(mem, d + i) == s[i]
  {
    forall i | 0 <= i < |s| ensures At(mem, d + i) == s[i] {
      assert mem[d..d + |s|][i] == mem[d + i];
    }
  }

  lemma WordRead(mem: seq<byte>, i: nat, w: word)
    requires At(mem, i) == Be16(w)[0] && At(mem, i + 1) == Be16(w)[1]
    ensures Net16(mem, i) == w
  {
  }

  lemma LongRead(mem: seq<byte>, i: nat, x: int)
    requires forall k | 0 <= k < 4 :: At(mem, i + k) == Be32(x)[k]
    ensures Net32(mem, i) == Unsigned32(x)
  {
    var h: word, l: word := x / 0x1_0000 % 0x1_0000, x % 0x1_0000;
    assert Be32(x)[0] == Be16(h)[0] && Be32(x)[1] == Be16(h)[1] && Be32(x)[2] == Be16(l)[0] && Be32(x)[3] == Be16(l)[1];
    assert At(mem, i) == At(mem, i + 0);
    assert At(mem, i + 2) == Be16(l)[0] && At(mem, i + 3) == Be16(l)[1];
    WordRead(mem, i, h);
    WordRead(mem, i + 2, l);
    TwoWords(x);
  }

  lemma TwoWords(x: int)
    ensures 0x1_0000 * (x / 0x1_0000 % 0x1_0000) + x % 0x1_0000 == x % 0x1_0000_0000
  {
    var q, l := x / 0x1_0000, x % 0x1_0000;
    var p, h := q / 0x1_0000, q % 0x1_0000;
    assert x == 0x1_0000_0000 * p + (0x1_0000 * h + l);
  }

  lemma Nibble(b3: bool, b2: bool, b1: bool, b0: bool) returns (n: nat)
    ensures n == Flag(b3, 8) + Flag(b2, 4) + Flag(b1, 2) + Flag(b0, 1) && n < 16
    ensures (n / 8 == 1) == b3 && (n / 4 % 2 == 1) == b2 && (n / 2 % 2 == 1) == b1 && (n % 2 == 1) == b0
  {
    n := Flag(b3, 8) + Flag(b2, 4) + Flag(b1, 2) + Flag(b0, 1);
  }

  lemma FlagsRead(t: TcpFields)
    ensures var f := TcpFlags(t);
            Bit(f, 0x80) == t.rsv1 && Bit(f, 0x40) == t.rsv2 && Bit(f, 0x20) == t.urg && Bit(f, 0x10) == t.ack
            && Bit(f, 0x08) == t.psh && Bit(f, 0x04) == t.rst && Bit(f, 0x02) == t.syn && Bit(f, 0x01) == t.fin
  {
    hide TcpFlags, Bit, Flag;
    var h := Nibble(t.rsv1, t.rsv2, t.urg, t.ack);
    var l := Nibble(t.psh, t.rst, t.syn, t.fin);
    TwoNibbles(t);
    HighBits(h, l);
    LowBits(h, l);
  }

  lemma TwoNibbles(t: TcpFields)
    ensures TcpFlags(t) == 16 * (Flag(t.rsv1, 8) + Flag(t.rsv2, 4) + Flag(t.urg, 2) + Flag(t.ack, 1))
                           + (Flag(t.psh, 8) + Flag(t.rst, 4) + Flag(t.syn, 2) + Flag(t.fin, 1))
  {
  }

  lemma HighBits(h: nat, l: nat)
    requires h < 16 && l < 16
    ensures Bit(16 * h + l, 0x80) == (h / 8 == 1) && Bit(16 * h + l, 0x40) == (h / 4 % 2 == 1)
    ensures Bit(16 * h + l, 0x20) == (h / 2 % 2 == 1) && Bit(16 * h + l, 0x10) == (h % 2 == 1)
  {
  }

  lemma LowBits(h: nat, l: nat)
    requires h < 16 && l < 16
    ensures Bit(16 * h + l, 0x08) == (l / 8 == 1) && Bit(16 * h + l, 0x04) == (l / 4 % 2 == 1)
    ensures Bit(16 * h + l, 0x02) == (l / 2 % 2 == 1) && Bit(16 * h + l, 0x01) == (l % 2 == 1)
  {
    var f := 16 * h + l;
    assert f / 8 == 2 * h + l / 8 && f / 4 == 4 * h + l / 4 && f / 2 == 8 * h + l / 2;
  }

  /** The TOS byte gives its parts back exactly if they fit their bits. */
  lemma TosSurvivesIff(ip: IpFields)
    ensures var tos := Tos(ip);
            tos / 32 == ip.priority && tos % 4 == ip.rsvTos && Bit(tos, 0x10) == ip.dFlag
                && Bit(tos, 0x08) == ip.tFlag && Bit(tos, 0x04) == ip.rFlag
            <==> TosInRange(ip)
  {
    if TosInRange(ip) {
      var n := Nibble(false, ip.dFlag, ip.tFlag, ip.rFlag);
      assert Tos(ip) == 32 * ip.priority + 4 * n + ip.rsvTos;
      TosBits(ip.priority, n, ip.rsvTos);
    } else {
      var tos := Tos(ip);
      hide Tos;
      assert 0 <= tos / 32 < 8 && 0 <= tos % 4 < 4;
    }
  }

  lemma TosBits(p: int, n: nat, v: int)
    requires 0 <= p < 8 && 0 <= v < 4 && n < 8
    ensures var tos := 32 * p + 4 * n + v;
            tos / 32 == p && tos % 4 == v && Bit(tos, 0x10) == (n / 4 % 2 == 1)
                && Bit(tos, 0x08) == (n / 2 % 2 == 1) && Bit(tos, 0x04) == (n % 2 == 1)
  {
    var tos := 32 * p + 4 * n + v;
    assert tos / 4 == 8 * p + n && tos / 8 == 4 * p + n / 2 && tos / 16 == 2 * p + n / 4;
  }

  /** The fragment offset comes back exactly if it is an offset at all and, on a little-endian
      sender, which converts it twice, its two bytes are equal. */
  lemma OffsetSurvivesIff(e: Order, ip: IpFields)
    ensures FragWord(e, ip) % 0x2000 == ip.offset <==>
            0 <= ip.offset < 0x2000 && (e.BigEndian? || ip.offset / 0x100 == ip.offset % 0x100)
  {
    FragLow(e, ip);
    hide FragWord, Htons;
    if 0 <= ip.offset < 0x2000 {
      assert U16(ip.offset) == ip.offset;
      SwappedOffset(e, ip.offset);
    }
  }

  lemma SwappedOffset(e: Order, offset: word)
    requires offset < 0x2000
    ensures Htons(e, offset) % 0x2000 == offset <==> e.BigEndian? || offset / 0x100 == offset % 0x100
  {
    if e.LittleEndian? {
      SwappedLow(offset / 0x100, offset % 0x100);
    }
  }

  lemma SwappedLow(h: byte, l: byte)
    requires h < 0x20
    ensures (0x100 * l + h) % 0x2000 == 0x100 * h + l <==> h == l
  {
    assert 0x100 * l + h == 0x2000 * (l / 0x20) + (0x100 * (l % 0x20) + h);
    LowBitsOnly(l / 0x20, 0x100 * (l % 0x20) + h);
  }

  lemma LowBitsOnly(q: nat, x: nat)
    requires x < 0x2000
    ensures (0x2000 * q + x) % 0x2000 == x
  {
  }

  lemma FragLow(e: Order, ip: IpFields)
    ensures FragWord(e, ip) % 0x2000 == Htons(e, U16(ip.offset)) % 0x2000
  {
    hide Htons;
  }

  // ---------------------------------------------------------------- headers read back

  lemma IpRead(r: Order, e: Order, mem: seq<byte>, d: nat, ip: IpFields, protocol: byte, length: word, sum: word)
    requires |ip.src| == 4 && |ip.dst| == 4 && ip.offset == 0 && TosInRange(ip)
    requires d + 20 <= |mem| && mem[d..d + 20] == IpHeader(e, ip, protocol, length, sum)
    ensures At(mem, d) == 0x45 && Net16(mem, d + 2) == length && Net16(mem, d + 6) % 0x2000 == 0
        && At(mem, d + 9) == protocol
    ensures AnalyzeIp(r, mem, d) == WireIp(r, ip, protocol, length)
  {
    hide Tos, FragWord, Bit, S16, Be16, U8, Copy;
    ghost var h := IpHeader(e, ip, protocol, length, sum);
    ReadBack(mem, d, h);
    IpHeaderBytes(e, ip, protocol, length, sum);
    assert forall i | 0 <= i < 20 :: At(mem, d + i) == h[i];
    WordRead(mem, d + 2, length);
    WordRead(mem, d + 4, U16(ip.ident));
    WordRead(mem, d + 6, FragWord(e, ip));
    TosSurvivesIff(ip);
    FragmentFlagsRead(r, e, mem, d + 6, ip);
    WrappedShort(ip.ident);
    CopyBack(mem, d, h, 12, ip.src);
    CopyBack(mem, d, h, 16, ip.dst);
  }

  lemma IpHeaderBytes(e: Order, ip: IpFields, protocol: byte, length: word, sum: word)
    requires |ip.src| == 4 && |ip.dst| == 4
    ensures var h := IpHeader(e, ip, protocol, length, sum);
            && h[0] == 0x45 && h[1] == Tos(ip) && h[2] == Be16(length)[0] && h[3] == Be16(length)[1]
            && h[4] == Be16(U16(ip.ident))[0] && h[5] == Be16(U16(ip.ident))[1]
            && h[6] == Be16(FragWord(e, ip))[0] && h[7] == Be16(FragWord(e, ip))[1]
            && h[8] == U8(ip.hopLimit) && h[9] == protocol && h[12..16] == ip.src && h[16..20] == ip.dst
  {
    hide Tos, FragWord, U8, U16, Be16;
  }

  lemma CopyBack(mem: seq<byte>, d: nat, h: seq<byte>, i: nat, s: seq<byte>)
    requires i + |s| <= |h| && d + |h| <= |mem| && mem[d..d + |h|] == h && h[i..i + |s|] == s
    ensures Copy(mem, d + i, |s|) == s
  {
    var c := Copy(mem, d + i, |s|);
    forall k | 0 <= k < |s| ensures c[k] == s[k] {
      assert s[k] == h[i + k] == mem[d..d + |h|][i + k] == mem[d + (i + k)];
    }
  }

  lemma WrappedShort(x: int)
    ensures S16(U16(x)) == S16(x)
  {
    var q, m := x / 0x1_0000, x % 0x1_0000;
    assert x + 0x8000 == 0x1_0000 * q + (m + 0x8000);
  }

  /** With offset 0 the word holds three flags, in the byte that only a big-endian receiver
      tests. */
  lemma FragmentFlagsRead(r: Order, e: Order, mem: seq<byte>, i: nat, ip: IpFields)
    requires ip.offset == 0 && Net16(mem, i) == FragWord(e, ip)
    ensures FragWord(e, ip) % 0x2000 == 0
    ensures var off := Load16(r, At(mem, i), At(mem, i + 1));
            && (off / 0x8000 == 1) == (r.BigEndian? && ip.rsvFrag)
            && (off / 0x4000 % 2 == 1) == (r.BigEndian? && ip.dontFrag)
            && (off / 0x2000 % 2 == 1) == (r.BigEndian? && ip.moreFrag)
  {
    var n := Nibble(false, ip.rsvFrag, ip.dontFrag, ip.moreFrag);
    assert FragWord(e, ip) == 0x2000 * n;
    hide FragWord;
    assert At(mem, i) == 0x20 * n && At(mem, i + 1) == 0;
  }

  lemma TcpRead(mem: seq<byte>, d: nat, t: TcpFields, junk: byte, sum: word)
    requires junk < 16 && d + 20 <= |mem| && mem[d..d + 20] == TcpHeader(t, junk, sum)
    ensures TcpHeaderLength(mem, d) == 20 && AnalyzeTcp(mem, d) == WireTcp(t)
  {
    hide TcpFlags, Bit, S16, Be16, Be32, U16, Net32, Unsigned32;
    ghost var h := TcpHeader(t, junk, sum);
    ReadBack(mem, d, h);
    TcpHeaderBytes(t, junk, sum);
    assert forall i | 0 <= i < 20 :: At(mem, d + i) == h[i];
    WordRead(mem, d, U16(t.srcPort));
    WordRead(mem, d + 2, U16(t.dstPort));
    LongAt(mem, d, h, 4, t.sequence);
    LongAt(mem, d, h, 8, t.ackNum);
    WordRead(mem, d + 14, U16(t.window));
    WordRead(mem, d + 18, U16(t.urgent));
    WrappedShort(t.urgent);
    FlagsRead(t);
    assert (0x50 + junk) / 16 == 5;
  }

  lemma LongAt(mem: seq<byte>, d: nat, h: seq<byte>, i: nat, x: int)
    requires i + 4 <= |h| && (forall k | 0 <= k < |h| :: At(mem, d + k) == h[k]) && h[i..i + 4] == Be32(x)
    ensures Net32(mem, d + i) == Unsigned32(x)
  {
    hide Be32, Net32, Unsigned32, At;
    forall k | 0 <= k < 4 ensures At(mem, d + i + k) == Be32(x)[k] {
      assert At(mem, d + (i + k)) == h[i + k] == h[i..i + 4][k];
    }
    LongRead(mem, d + i, x);
  }

  lemma TcpHeaderBytes(t: TcpFields, junk: byte, sum: word)
    requires junk < 16
    ensures var h := TcpHeader(t, junk, sum);
            && h[0] == Be16(U16(t.srcPort))[0] && h[1] == Be16(U16(t.srcPort))[1]
            && h[2] == Be16(U16(t.dstPort))[0] && h[3] == Be16(U16(t.dstPort))[1]
            && h[4..8] == Be32(t.sequence) && h[8..12] == Be32(t.ackNum) && h[12] == 0x50 + junk && h[13] == TcpFlags(t)
            && h[14] == Be16(U16(t.window))[0] && h[15] == Be16(U16(t.window))[1]
            && h[18] == Be16(U16(t.urgent))[0] && h[19] == Be16(U16(t.urgent))[1]
  {
    hide TcpFlags, U16, Be16, Be32;
  }

  lemma UdpRead(mem: seq<byte>, d: nat, u: UdpFields, length: word, sum: word)
    requires d + 8 <= |mem| && mem[d..d + 8] == UdpHeader(u, length, sum)
    ensures AnalyzeUdp(mem, d) == WireUdp(u, length)
  {
    hide Be16, U16;
    ReadBack(mem, d, UdpHeader(u, length, sum));
    assert forall i | 0 <= i < 8 :: At(mem, d + i) == UdpHeader(u, length, sum)[i];
    WordRead(mem, d, U16(u.srcPort));
    WordRead(mem, d + 2, U16(u.dstPort));
    WordRead(mem, d + 4, length);
  }

  lemma EtherRead(mem: seq<byte>, d: Datalink)
    requires d.EthernetLink? && |d.ether.dst| == 6 && |d.ether.src| == 6
    requires 14 <= |mem| && mem[0..14] == EtherHeader(d)
    ensures AnalyzeDatalink(Ethernet, mem) == d && Net16(mem, 12) == d.ether.frametype
  {
    hide Be16, Copy;
    ghost var h := EtherHeader(d);
    ReadBack(mem, 0, h);
    assert At(mem, 0 + 12) == h[12] && At(mem, 0 + 13) == h[13];
    WordRead(mem, 12, d.ether.frametype);
    assert h[0..6] == d.ether.dst && h[6..12] == d.ether.src;
    CopyBack(mem, 0, h, 0, d.ether.dst);
    CopyBack(mem, 0, h, 6, d.ether.src);
  }

  lemma ArpRead(mem: seq<byte>, d: nat, a: ArpFields)
    requires ArpSized(a) && d + 28 <= |mem| && mem[d..d + 28] == ArpBytes(a)
    ensures ArpLength(mem, d) == 28 && AnalyzeArp(mem, d) == WireArp(a)
  {
    hide Be16, U16, S16, U8, Copy;
    ghost var h := ArpBytes(a);
    ReadBack(mem, d, h);
    ArpBytesAre(a);
    assert forall i | 0 <= i < 28 :: At(mem, d + i) == h[i];
    assert At(mem, d + 4) == 6 && At(mem, d + 5) == 4;
    WordRead(mem, d, U16(a.hardtype));
    WordRead(mem, d + 2, U16(a.prototype));
    WordRead(mem, d + 6, U16(a.operation));
    WrappedShort(a.hardtype);
    WrappedShort(a.prototype);
    WrappedShort(a.operation);
    CopyBack(mem, d, h, 8, a.senderHard);
    CopyBack(mem, d, h, 14, a.senderProto);
    CopyBack(mem, d, h, 18, a.targetHard);
    CopyBack(mem, d, h, 24, a.targetProto);
  }

  lemma ArpBytesAre(a: ArpFields)
    requires ArpSized(a)
    ensures var h := ArpBytes(a);
            && h[0] == Be16(U16(a.hardtype))[0] && h[1] == Be16(U16(a.hardtype))[1]
            && h[2] == Be16(U16(a.prototype))[0] && h[3] == Be16(U16(a.prototype))[1]
            && h[4] == 6 && h[5] == 4
            && h[6] == Be16(U16(a.operation))[0] && h[7] == Be16(U16(a.operation))[1]
            && h[8..14] == a.senderHard && h[14..18] == a.senderProto && h[18..24] == a.targetHard
                && h[24..28] == a.targetProto
  {
    hide Be16, U16;
  }

  // ---------------------------------------------------------------- whole frames

  /** A frame in the memory that begins with it, and `trailer` after it. */
  lemma Layout(mem: seq<byte>, d: Datalink, rest: seq<byte>)
    requires d.EthernetLink? && |d.ether.dst| == 6 && |d.ether.src| == 6 && mem == EtherHeader(d) + rest
    ensures mem[0..14] == EtherHeader(d)
    ensures forall i, j | 0 <= i <= j <= |rest| :: mem[14 + i..14 + j] == rest[i..j]
  {
    hide EtherHeader;
  }

  /** What get_packet does with a short Ethernet frame that holds an unfragmented IPv4 datagram. */
  lemma DatagramSplit(mem: seq<byte>, protocol: byte, length: nat, stale: word)
    requires 34 <= 14 + length <= |mem| <= 0x7fff
    requires Net16(mem, 12) == ETHERTYPE_IP && At(mem, 14) == 0x45 && Net16(mem, 16) == length
        && Net16(mem, 20) % 0x2000 == 0
    requires At(mem, 23) == protocol
    requires protocol == IPPROTO_TCP ==> length >= 40 && TcpHeaderLength(mem, 34) == 20
    requires protocol == IPPROTO_UDP ==> length >= 28
    requires protocol != IPPROTO_ICMP
    ensures NetworkType(Ethernet, mem) == ETHERTYPE_IP && NetworkOffset(Ethernet, mem) == 14
    ensures NetworkExtent(Ethernet, mem, |mem|) == Extent(length, 20)
    ensures var tproto := TransportType(Ethernet, mem, |mem|, stale);
            && (protocol == IPPROTO_TCP || protocol == IPPROTO_UDP ==> tproto == protocol)
            && (protocol != IPPROTO_TCP && protocol != IPPROTO_UDP ==> tproto in {protocol as int, ETHERTYPE_IP})
            && Clamped(ETHERTYPE_IP, tproto, length, |mem|, 14) == length
    ensures var h := if protocol == IPPROTO_TCP then 20 else if protocol == IPPROTO_UDP then 8 else 0;
            SplitAt(14, length, 20, h) == Split(34 + h, 34 + h, length - 20 - h)
  {
    DatagramTransport(mem, protocol, length, stale);
    NotClamped(TransportType(Ethernet, mem, |mem|, stale), length, |mem|);
    S16Fits(length);
    DatagramParts(length, if protocol == IPPROTO_TCP then 20 else if protocol == IPPROTO_UDP then 8 else 0);
    hide S16, Net16, At, TransportType, Clamped, SplitAt;
  }

  lemma DatagramTransport(mem: seq<byte>, protocol: byte, length: nat, stale: word)
    requires 34 <= 14 + length <= |mem| <= 0x7fff
    requires Net16(mem, 12) == ETHERTYPE_IP && At(mem, 14) == 0x45 && Net16(mem, 20) % 0x2000 == 0
    requires At(mem, 23) == protocol && protocol != IPPROTO_ICMP
    requires protocol == IPPROTO_TCP ==> length >= 40
    requires protocol == IPPROTO_UDP ==> length >= 28
    ensures var tproto := TransportType(Ethernet, mem, |mem|, stale);
            && (protocol == IPPROTO_TCP || protocol == IPPROTO_UDP ==> tproto == protocol)
            && (protocol != IPPROTO_TCP && protocol != IPPROTO_UDP ==> tproto in {protocol as int, ETHERTYPE_IP})
  {
    S16Fits(|mem|);
    S16Fits(|mem| - 14);
    S16Fits(|mem| - 34);
    hide S16, Net16, At;
  }

  lemma NotClamped(tproto: word, length: nat, caplen: nat)
    requires 14 + length <= caplen <= 0x7fff
    ensures Clamped(ETHERTYPE_IP, tproto, length, caplen, 14) == length
  {
  }

  lemma DatagramParts(length: nat, h: nat)
    requires 20 + h <= length <= 0x7fff - 14
    ensures SplitAt(14, length, 20, h) == Split(34 + h, 34 + h, length - 20 - h)
  {
    ShortsFit(length - 20, 34 + h);
    ShortsFit(length - 20 - h, 0);
    hide S16;
  }

  lemma ShortsFit(a: int, b: int)
    requires 0 <= a <= 0x7fff && 0 <= b <= 0x7fff
    ensures S16(a) == a && S16(b) == b
  {
  }

  /** The headers and the payload of a sent TCP frame, where the receiver looks for them. */
  ghost predicate OnTheWire(p: Packet, ethertype: word) {
    Sendable(p) && p.datalink.EthernetLink? && p.datalink.ether.frametype == ethertype
  }

  ghost predicate Unfragmented(ip: IpFields) {
    ip.offset == 0 && TosInRange(ip)
  }

  /** A TCP packet with an Ethernet header, sent with offset 0 and followed by any trailer,
      parses back: the same MACs, addresses, ports, sequence numbers, flags, window, TOS parts
      and TTL, each in the width of its field, and exactly the payload -- whatever the byte
      orders of sender and receiver. */
  lemma TcpRoundTrip(e: Order, r: Order, p: Packet, junk: byte, trailer: seq<byte>, stale: word)
    requires OnTheWire(p, ETHERTYPE_IP) && p.body.Tcp? && Unfragmented(p.body.ip) && junk < 16
    requires |Frame(e, p, junk) + trailer| <= 0x7fff
    ensures var frame := Frame(e, p, junk);
            Parse(r, Ethernet, frame + trailer, |frame + trailer|, stale)
            == Parsed(Packet(p.datalink, Tcp(WireIp(r, p.body.ip, IPPROTO_TCP, 40 + |p.data|),
                WireTcp(p.body.tcp)), frame[..54], p.data))
  {
    hide EtherHeader, IpHeader, TcpHeader, SegmentChecksum, Checksum.Rfc1071, AnalyzeIp, AnalyzeTcp,
        AnalyzeDatalink, WireIp, WireTcp;
    hide NetworkType, NetworkOffset, NetworkExtent, TransportType, Clamped, SplitAt, Net16, At, TcpHeaderLength, Copy;
    var ip, t, d := p.body.ip, p.body.tcp, p.data;
    var frame := Frame(e, p, junk);
    var mem := frame + trailer;
    var segment := TcpSegment(e, ip, t, junk, d);
    var datagram := Ipv4(e, ip, IPPROTO_TCP, segment);
    assert mem == EtherHeader(p.datalink) + (datagram + trailer);
    Layout(mem, p.datalink, datagram + trailer);
    assert (datagram + trailer)[0..20] == datagram[..20] && (datagram + trailer)[20..40] == segment[..20]
        && (datagram + trailer)[40..40 + |d|] == d;
    EtherRead(mem, p.datalink);
    var sum := Checksum.Rfc1071(IpHeader(e, ip, IPPROTO_TCP, |segment| + 20, 0));
    assert mem[14..14 + 20] == IpHeader(e, ip, IPPROTO_TCP, |segment| + 20, sum);
    IpRead(r, e, mem, 14, ip, IPPROTO_TCP, |segment| + 20, sum);
    var tsum := SegmentChecksum(e, ip.src + ip.dst, IPPROTO_TCP, TcpHeader(t, junk, 0) + d);
    assert mem[34..34 + 20] == TcpHeader(t, junk, tsum);
    TcpRead(mem, 34, t, junk, tsum);
    DatagramSplit(mem, IPPROTO_TCP, |segment| + 20, stale);
    CopyIsSlice(mem, 0, 54);
    CopyIsSlice(mem, 54, |d|);
    assert mem[54..54 + |d|] == d && mem[0..54] == frame[..54];
  }

  /** The same for UDP. */
  lemma UdpRoundTrip(e: Order, r: Order, p: Packet, junk: byte, trailer: seq<byte>, stale: word)
    requires OnTheWire(p, ETHERTYPE_IP) && p.body.Udp? && Unfragmented(p.body.ip) && junk < 16
    requires |Frame(e, p, junk) + trailer| <= 0x7fff
    ensures var frame := Frame(e, p, junk);
            Parse(r, Ethernet, frame + trailer, |frame + trailer|, stale)
            == Parsed(Packet(p.datalink, Udp(WireIp(r, p.body.ip, IPPROTO_UDP, 28 + |p.data|),
                WireUdp(p.body.udp, 8 + |p.data|)), frame[..42], p.data))
  {
    hide EtherHeader, IpHeader, UdpHeader, SegmentChecksum, Checksum.Rfc1071, AnalyzeIp, AnalyzeUdp,
        AnalyzeDatalink, WireIp, WireUdp;
    hide NetworkType, NetworkOffset, NetworkExtent, TransportType, Clamped, SplitAt, Net16, At, Copy;
    var ip, u, d := p.body.ip, p.body.udp, p.data;
    var frame := Frame(e, p, junk);
    var mem := frame + trailer;
    var segment := UdpDatagram(e, ip, u, d);
    var datagram := Ipv4(e, ip, IPPROTO_UDP, segment);
    assert mem == EtherHeader(p.datalink) + (datagram + trailer);
    Layout(mem, p.datalink, datagram + trailer);
    assert (datagram + trailer)[0..20] == datagram[..20] && (datagram + trailer)[20..28] == segment[..8]
        && (datagram + trailer)[28..28 + |d|] == d;
    EtherRead(mem, p.datalink);
    var sum := Checksum.Rfc1071(IpHeader(e, ip, IPPROTO_UDP, |segment| + 20, 0));
    assert mem[14..14 + 20] == IpHeader(e, ip, IPPROTO_UDP, |segment| + 20, sum);
    IpRead(r, e, mem, 14, ip, IPPROTO_UDP, |segment| + 20, sum);
    var usum := NonZero(SegmentChecksum(e, ip.src + ip.dst, IPPROTO_UDP, UdpHeader(u, |d| + 8, 0) + d));
    assert mem[34..34 + 8] == UdpHeader(u, |d| + 8, usum);
    UdpRead(mem, 34, u, |d| + 8, usum);
    DatagramSplit(mem, IPPROTO_UDP, |segment| + 20, stale);
    CopyIsSlice(mem, 0, 42);
    CopyIsSlice(mem, 42, |d|);
    assert mem[42..42 + |d|] == d && mem[0..42] == frame[..42];
  }

  /** And for an IPv4 packet of a protocol that jpcap does not know. */
  lemma IpRoundTrip(e: Order, r: Order, p: Packet, junk: byte, trailer: seq<byte>, stale: word)
    requires OnTheWire(p, ETHERTYPE_IP) && p.body.Ip? && Unfragmented(p.body.ip) && junk < 16
    requires U8(p.body.ip.protocol) !in {IPPROTO_ICMP, IPPROTO_TCP, IPPROTO_UDP}
    requires |Frame(e, p, junk) + trailer| <= 0x7fff
    ensures var frame := Frame(e, p, junk);
            Parse(r, Ethernet, frame + trailer, |frame + trailer|, stale)
            == Parsed(Packet(p.datalink, Ip(WireIp(r, p.body.ip, U8(p.body.ip.protocol), 20 + |p.data|)),
                frame[..34], p.data))
  {
    hide EtherHeader, IpHeader, Checksum.Rfc1071, AnalyzeIp, AnalyzeDatalink, WireIp, U8;
    hide NetworkType, NetworkOffset, NetworkExtent, TransportType, Clamped, SplitAt, Net16, At, Copy;
    var ip, d := p.body.ip, p.data;
    var protocol := U8(ip.protocol);
    var frame := Frame(e, p, junk);
    var mem := frame + trailer;
    var datagram := Ipv4(e, ip, protocol, d);
    assert mem == EtherHeader(p.datalink) + (datagram + trailer);
    Layout(mem, p.datalink, datagram + trailer);
    assert (datagram + trailer)[0..20] == datagram[..20] && (datagram + trailer)[20..20 + |d|] == d;
    EtherRead(mem, p.datalink);
    var sum := Checksum.Rfc1071(IpHeader(e, ip, protocol, |d| + 20, 0));
    assert mem[14..14 + 20] == IpHeader(e, ip, protocol, |d| + 20, sum);
    IpRead(r, e, mem, 14, ip, protocol, |d| + 20, sum);
    DatagramSplit(mem, protocol, |d| + 20, stale);
    CopyIsSlice(mem, 0, 34);
    CopyIsSlice(mem, 34, |d|);
    assert mem[34..34 + |d|] == d && mem[0..34] == frame[..34];
  }

  /** An Ethernet/IPv4 ARP packet.  Of a capture of exactly 42 bytes get_packet leaves the
      transport protocol unset, but whatever it then holds makes no difference. */
  lemma ArpRoundTrip(e: Order, r: Order, p: Packet, junk: byte, trailer: seq<byte>, stale: word)
    requires OnTheWire(p, ETHERTYPE_ARP) && p.body.Arp? && junk < 16
    requires |Frame(e, p, junk) + trailer| <= 0x7fff
    ensures var frame := Frame(e, p, junk);
            Parse(r, Ethernet, frame + trailer, |frame + trailer|, stale)
                == Parsed(Packet(p.datalink, Arp(WireArp(p.body.arp)), frame[..42], []))
  {
    hide EtherHeader, ArpBytes, AnalyzeArp, AnalyzeDatalink, WireArp, U8;
    hide NetworkType, NetworkOffset, NetworkExtent, TransportType, Clamped, SplitAt, Net16, At, Copy, ArpLength;
    var frame := Frame(e, p, junk);
    var mem := frame + trailer;
    var arp := ArpBytes(p.body.arp);
    assert mem == EtherHeader(p.datalink) + (arp + trailer);
    Layout(mem, p.datalink, arp + trailer);
    assert (arp + trailer)[0..28] == arp;
    EtherRead(mem, p.datalink);
    assert mem[14..14 + 28] == arp;
    ArpRead(mem, 14, p.body.arp);
    ArpSplit(mem, stale);
    CopyIsSlice(mem, 0, 42);
    assert mem[0..42] == frame[..42];
  }

  lemma ArpSplit(mem: seq<byte>, stale: word)
    requires 42 <= |mem| <= 0x7fff && Net16(mem, 12) == ETHERTYPE_ARP && ArpLength(mem, 14) == 28
    ensures NetworkType(Ethernet, mem) == ETHERTYPE_ARP && NetworkOffset(Ethernet, mem) == 14
    ensures NetworkExtent(Ethernet, mem, |mem|) == Extent(28, 28)
    ensures var tproto := TransportType(Ethernet, mem, |mem|, stale);
            tproto !in {IPPROTO_TCP, IPPROTO_UDP, IPPROTO_ICMP} && Clamped(ETHERTYPE_ARP, tproto, 28, |mem|, 14) == 28
    ensures SplitAt(14, 28, 28, 0) == Split(42, 42, 0)
  {
    ShortsFit(42, 0);
    hide S16, Net16, At, ArpLength;
    ParserLaws.ArpIsNoTransport(mem, |mem|, stale);
  }

  // ---------------------------------------------------------------- sent, padded, captured

  /** The packets that survive the wire: an Ethernet header of the right type around an
      unfragmented TCP or UDP datagram or an ARP packet. */
  ghost predicate Survives(p: Packet) {
    match p.body
    case Tcp(ip, _) => OnTheWire(p, ETHERTYPE_IP) && Unfragmented(ip)
    case Udp(ip, _) => OnTheWire(p, ETHERTYPE_IP) && Unfragmented(ip)
    case Arp(_) => OnTheWire(p, ETHERTYPE_ARP)
    case _ => false
  }

  /** The packet that the receiver's get_packet returns for it. */
  function Received(r: Order, p: Packet, frame: seq<byte>): Packet
    requires p.body.Tcp? || p.body.Udp? || p.body.Arp?
    requires |frame| >= 54 || (|frame| >= 42 && !p.body.Tcp?)
    requires |p.data| <= MAX_PACKET_SIZE
  {
    match p.body
    case Tcp(ip, t) => p.(body := Tcp(WireIp(r, ip, IPPROTO_TCP, 40 + |p.data|), WireTcp(t)),
        header := frame[..54])
    case Udp(ip, u) => p.(body := Udp(WireIp(r, ip, IPPROTO_UDP, 28 + |p.data|), WireUdp(u, 8 + |p.data|)),
        header := frame[..42])
    case Arp(a) => p.(body := Arp(WireArp(a)), header := frame[..42])
  }

  /** What one host's nativeSendPacket hands to the medium, another host's get_packet turns
      into the packet that was sent: the padding is trimmed, the payload is exact. */
  lemma SentIsReceived(e: Order, r: Order, p: Packet, junk: byte, stale: word)
    requires Survives(p) && junk < 16
    ensures var wire := Pad60(Frame(e, p, junk));
            Parse(r, Ethernet, wire, |wire|, stale) == Parsed(Received(r, p, wire))
  {
    hide Parse, EtherHeader, Ipv4, TcpSegment, UdpDatagram, ArpBytes, WireIp, WireTcp, WireUdp, WireArp, Unfragmented;
    var frame := Frame(e, p, junk);
    var wire := Pad60(frame);
    assert |frame| <= MAX_PACKET_SIZE;
    var trailer := wire[|frame|..];
    assert wire == frame + trailer;
    match p.body {
      case Tcp(_, _) => TcpRoundTrip(e, r, p, junk, trailer, stale);
      case Udp(_, _) => UdpRoundTrip(e, r, p, junk, trailer, stale);
      case Arp(_) => ArpRoundTrip(e, r, p, junk, trailer, stale);
    }
  }

  /** The ARP packets of the stack, whose fields all fit, come back as they were. */
  lemma ArpFrameRoundTrip(e: Order, r: Order, p: Packet, junk: byte, stale: word)
    requires Survives(p) && p.body.Arp? && junk < 16
    requires var a := p.body.arp;
             && a.hlen == 6 && a.plen == 4 && S16(a.hardtype) == a.hardtype
             && S16(a.prototype) == a.prototype && S16(a.operation) == a.operation
    ensures var wire := Pad60(Frame(e, p, junk));
            Parse(r, Ethernet, wire, |wire|, stale) == Parsed(p.(header := wire[..42]))
  {
    hide Parse, Frame, S16;
    SentIsReceived(e, r, p, junk, stale);
  }

  /** A TCP segment read back field for field: exactly when every field fits its width. */
  lemma TcpFieldsSurviveIff(t: TcpFields)
    ensures WireTcp(t) == t <==>
            0 <= t.srcPort < 0x1_0000 && 0 <= t.dstPort < 0x1_0000 && 0 <= t.sequence < 0x1_0000_0000
                && 0 <= t.ackNum < 0x1_0000_0000
            && 0 <= t.window < 0x1_0000 && -0x8000 <= t.urgent < 0x8000
  {
  }

  /** The IPv4 fields read back: ident modulo 2^16 into a `short`, the flags only on a
      big-endian receiver. */
  lemma IpFieldsSurviveIff(r: Order, ip: IpFields, protocol: byte, length: word)
    ensures WireIp(r, ip, protocol, length) == ip <==>
            ip.version == 4 && ip.protocol == protocol && ip.length == S16(length)
                && -0x8000 <= ip.ident < 0x8000 && 0 <= ip.hopLimit < 0x100
            && (r.BigEndian? || !(ip.rsvFrag || ip.dontFrag || ip.moreFrag))
  {
  }
}
