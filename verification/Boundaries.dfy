/** Where get_packet cuts a frame, in terms of the bytes of the frame: for each network type, how
    long the network header and the transport header are and how far the packet reaches. */
module Boundaries {
  import opened Bytes
  import opened Packets
  import opened Parser
  import Ipv6
  import ParserLaws

  // ---------------------------------------------------------------- the frame in bytes

  /** On a link of type `lt` the network header begins at `d`, and its type is `high`, `low`:
      behind 14 bytes of Ethernet or 22 of Token Ring, where the type is the last two bytes; or
      IPv4 from the first byte. */
  ghost predicate Carries(lt: LinkType, mem: seq<byte>, d: nat, high: byte, low: byte) {
    || (lt == Ethernet && d == 14 && At(mem, 12) == high && At(mem, 13) == low)
    || (lt == TokenRing && d == 22 && At(mem, 20) == high && At(mem, 21) == low)
    || (lt == RawIp && d == 0 && high == 0x08 && low == 0x00)
  }

  /** With `room` bytes captured from `t` on, the transport header of protocol `proto`: of TCP as
      many 32-bit words as the nibble in its byte 12 says, of UDP (17) and ICMP (1) 8 bytes; and
      none, if the capture does not hold the fixed part. */
  ghost function TransportBytes(proto: int, mem: seq<byte>, t: int, room: int): nat {
    if proto == 6 && room >= 20 then 4 * (At(mem, t + 12) / 16)
    else if (proto == 17 || proto == 1) && room >= 8 then 8
    else 0
  }

  /** The capture ends inside the fixed part of the transport header. */
  ghost predicate CutShort(proto: int, room: int) {
    (proto == 6 && room < 20) || ((proto == 17 || proto == 1) && room < 8)
  }

  /** How much is taken to be the packet, of a packet of `total` bytes and a capture of `captured`. */
  ghost function Used(proto: int, room: int, total: int, captured: int): int {
    if CutShort(proto, room) then total else Min(total, captured)
  }

  /** The class goes with the transport protocol where its header is there. */
  ghost predicate ClassOf(body: Body, proto: int, room: int) {
    && (body.Tcp? <==> proto == 6 && room >= 20)
    && (body.Udp? <==> proto == 17 && room >= 8)
    && (body.Icmp? <==> proto == 1 && room >= 8)
  }

  ghost function Min(a: int, b: int): int {
    if a <= b then a else b
  }

  /** The frame is a packet cut in two at `cut`, and ends at `end`. */
  ghost predicate CutAt(r: Outcome, mem: seq<byte>, cut: int, end: int) {
    0 <= cut <= end <= |mem| && r.Parsed? && r.p.header == mem[..cut] && r.p.data == mem[cut..end]
  }

  // ---------------------------------------------------------------- how the pieces fit

  /** The first part ends after both headers, or with the packet. */
  lemma SplitBoundary(offset: nat, used: int, hlen: int, transport: nat)
    requires 0 <= hlen < 0x8000 && 0 <= used && offset + used < 0x8000
    ensures var s := SplitAt(offset, used, hlen, transport);
            s.start == s.header == offset + Min(hlen + transport, used) && s.data == used - Min(hlen + transport, used)
  {
    hide S16;
    S16Fits(used - hlen);
    var left := used - hlen;
    var h := if transport > left then left else transport;
    S16Fits(offset + hlen + h);
    S16Fits(left - h);
  }

  /** get_packet cuts at the end of the headers, whatever the protocols are. */
  lemma CutsThere(e: Order, lt: LinkType, mem: seq<byte>, caplen: nat, stale: word, d: nat, used: int, hlen: int,
      x: nat)
    requires 0 <= used && d + used <= |mem| && d + used < 0x8000 && 0 <= hlen < 0x8000
    requires NetworkOffset(lt, mem) == d
    requires NetworkExtent(lt, mem, caplen).Extent? && NetworkExtent(lt, mem, caplen).header == hlen
    requires Clamped(NetworkType(lt, mem), TransportType(lt, mem, caplen, stale), NetworkExtent(lt, mem, caplen).total,
                     caplen, lt.HeaderLength()) == used
    requires TransportHeader(TransportType(lt, mem, caplen, stale), mem, d + hlen) == x
    ensures var r, b := Parse(e, lt, mem, caplen, stale), Min(hlen + x, used);
            && CutAt(r, mem, d + b, d + used)
            && r.p.datalink == AnalyzeDatalink(lt, mem)
            && r.p.body == BodyOf(e, NetworkType(lt, mem), TransportType(lt, mem, caplen, stale), mem, d, d + hlen)
  {
    hide *;
    hide AnalyzeDatalink, BodyOf, NetworkType, TransportType, NetworkExtent, TransportHeader, Clamped;
    SplitBoundary(d, used, hlen, x);
    var b := Min(hlen + x, used);
    MinBounds(hlen + x, used);
    ParseIs(e, lt, mem, caplen, stale);
    CopyIsSlice(mem, 0, d + b);
    CopyIsSlice(mem, d + b, used - b);
    CutOf(Parse(e, lt, mem, caplen, stale), mem, d + b, d + used);
  }

  lemma MinBounds(a: int, b: int)
    ensures Min(a, b) <= a && Min(a, b) <= b && (0 <= a && 0 <= b ==> 0 <= Min(a, b))
  {
  }

  lemma CutOf(r: Outcome, mem: seq<byte>, cut: int, end: int)
    requires 0 <= cut <= end <= |mem| && r.Parsed? && r.p.header == mem[0..cut] && r.p.data == mem[cut..end]
    ensures CutAt(r, mem, cut, end)
  {
  }

  lemma ParseIs(e: Order, lt: LinkType, mem: seq<byte>, caplen: nat, stale: word)
    requires NetworkExtent(lt, mem, caplen).Extent?
    ensures var nproto, tproto := NetworkType(lt, mem), TransportType(lt, mem, caplen, stale);
            var d, x := NetworkOffset(lt, mem), NetworkExtent(lt, mem, caplen);
            var s := SplitAt(d, Clamped(nproto, tproto, x.total, caplen, lt.HeaderLength()), x.header,
                             TransportHeader(tproto, mem, d + x.header));
            s.header >= 0 && s.data >= 0 ==>
              Parse(e, lt, mem, caplen, stale)
              == Parsed(Packet(AnalyzeDatalink(lt, mem), BodyOf(e, nproto, tproto, mem, d, d + x.header),
                               Copy(mem, 0, s.header), Copy(mem, s.start, s.data)))
  {
    hide AnalyzeDatalink, BodyOf, NetworkType, TransportType, NetworkExtent, TransportHeader, Clamped, Copy, SplitAt;
  }

  /** The length is cut to the capture, unless it is within it. */
  lemma ClampedToCapture(nproto: word, tproto: word, total: word, caplen: nat, dlen: nat)
    requires nproto != UNKNOWN_PROTO && dlen <= caplen < 0x8000
    requires tproto != UNKNOWN_PROTO || total <= caplen - dlen
    ensures Clamped(nproto, tproto, S16(total), caplen, dlen) == Min(total, caplen - dlen)
  {
    hide S16;
    ParserLaws.S16OfNat(total);
    S16Fits(caplen - dlen);
  }

  // ---------------------------------------------------------------- IPv4

  /** The protocol of an IPv4 packet, as far as it is looked at: not in a later fragment, nor if
      nothing is captured of what follows the header. */
  ghost function Ipv4Protocol(mem: seq<byte>, d: nat, room: int): int {
    if room > 0 && At(mem, d + 6) % 32 == 0 && At(mem, d + 7) == 0 then At(mem, d + 9) else -1
  }

  /** Every IPv4 capture of up to 32767 bytes, on every link: with a header of four times the
      low nibble of its first byte, and the total length in bytes 2 and 3, `header` ends behind
      the transport header and `data` where the packet or the capture does.  The exception is a
      capture that ends inside the transport header: its packet counts as long as it says it is,
      however little was captured (here, as far as the memory goes). */
  lemma Ipv4Cut(e: Order, lt: LinkType, mem: seq<byte>, caplen: nat, stale: word, d: nat)
    requires Carries(lt, mem, d, 0x08, 0x00) && d < caplen <= |mem| && caplen < 0x8000
    ensures var h, total := 4 * (At(mem, d) % 16), 0x100 * At(mem, d + 2) + At(mem, d + 3);
            var room := caplen - d - h;
            var proto := Ipv4Protocol(mem, d, room);
            var used := Used(proto, room, total, caplen - d);
            var r := Parse(e, lt, mem, caplen, stale);
            d + used <= |mem| && d + used < 0x8000 ==>
              && CutAt(r, mem, d + Min(h + TransportBytes(proto, mem, d + h, room), used), d + used)
              && ClassOf(r.p.body, proto, room)
              && (r.p.body.Ip? || r.p.body.Tcp? || r.p.body.Udp? || r.p.body.Icmp?)
  {
    hide *;
    var h, total := 4 * (At(mem, d) % 16), 0x100 * At(mem, d + 2) + At(mem, d + 3);
    var room := caplen - d - h;
    var proto := Ipv4Protocol(mem, d, room);
    var used := Used(proto, room, total, caplen - d);
    var tproto := TransportType(lt, mem, caplen, stale);
    Ipv4Types(lt, mem, caplen, stale, d);
    if d + used <= |mem| && d + used < 0x8000 {
      Ipv4Transport(lt, mem, caplen, stale, d);
      IpClamped(ETHERTYPE_IP, tproto, proto, room, total, caplen, d);
      CutsThere(e, lt, mem, caplen, stale, d, used, h, TransportBytes(proto, mem, d + h, room));
      IpClass(e, ETHERTYPE_IP, tproto, proto, room, mem, d, d + h);
    }
  }

  /** The fragment offset is that of the packet; but the three flags are the upper bits of the
      byte that the host has as the more significant one: on a little-endian host, of the lower
      byte of the offset. */
  lemma FragmentFields(e: Order, mem: seq<byte>, d: int)
    ensures var f, high, low := AnalyzeIp(e, mem, d), At(mem, d + 6) as int, At(mem, d + 7) as int;
            var seen := if e.BigEndian? then high else low;
            && f.offset == 0x100 * (high % 32) + low
            && (f.rsvFrag <==> seen / 128 == 1) && (f.dontFrag <==> seen / 64 % 2 == 1)
            && (f.moreFrag <==> seen / 32 % 2 == 1)
  {
    var high, low := At(mem, d + 6), At(mem, d + 7);
    HighByte(high, low);
    HighByte(low, high);
    LowPart(high, low);
    hide Copy, At, S16, Bit;
  }

  lemma HighByte(high: byte, low: byte)
    ensures var w := 0x100 * high as int + low;
            w / 0x8000 == high / 128 && w / 0x4000 % 2 == high / 64 % 2 && w / 0x2000 % 2 == high / 32 % 2
  {
    var w := 0x100 * high as int + low;
    assert w == 0x8000 * (high / 128) + (0x100 * (high % 128) + low);
    assert w == 0x4000 * (high / 64) + (0x100 * (high % 64) + low);
    assert w == 0x2000 * (high / 32) + (0x100 * (high % 32) + low);
  }

  lemma LowPart(high: byte, low: byte)
    ensures (0x100 * high as int + low) % 0x2000 == 0x100 * (high as int % 32) + low
  {
    assert 0x100 * high as int + low == 0x2000 * (high / 32) + (0x100 * (high % 32) + low);
    Modulo(high / 32, 0x100 * (high % 32) + low);
  }

  lemma Modulo(q: nat, x: nat)
    requires x < 0x2000
    ensures (0x2000 * q + x) % 0x2000 == x
  {
  }

  lemma Ipv4Types(lt: LinkType, mem: seq<byte>, caplen: nat, stale: word, d: nat)
    requires Carries(lt, mem, d, 0x08, 0x00)
    ensures NetworkType(lt, mem) == ETHERTYPE_IP && NetworkOffset(lt, mem) == lt.HeaderLength() == d
    ensures NetworkExtent(lt, mem, caplen)
            == Extent(S16(0x100 * At(mem, d + 2) + At(mem, d + 3)), 4 * (At(mem, d) % 16))
  {
    hide S16, At;
  }

  /** What a transport type stands for: a protocol with its header captured, or none. */
  ghost predicate Stands(tproto: word, proto: int, room: int) {
    && (tproto == UNKNOWN_PROTO <==> CutShort(proto, room))
    && (tproto == 6 <==> proto == 6 && room >= 20)
    && (tproto == 17 <==> proto == 17 && room >= 8)
    && (tproto == 1 <==> proto == 1 && room >= 8)
  }

  lemma StandsHeader(tproto: word, proto: int, room: int, mem: seq<byte>, t: int)
    requires Stands(tproto, proto, room)
    ensures TransportHeader(tproto, mem, t) == TransportBytes(proto, mem, t, room)
  {
    hide At;
  }

  lemma IpClamped(nproto: word, tproto: word, proto: int, room: int, total: word, caplen: nat, dlen: nat)
    requires (nproto == ETHERTYPE_IP || nproto == ETHERTYPE_IPV6) && Stands(tproto, proto, room)
    requires dlen <= caplen < 0x8000 && Used(proto, room, total, caplen - dlen) < 0x8000
    ensures Clamped(nproto, tproto, S16(total), caplen, dlen) == Used(proto, room, total, caplen - dlen) >= 0
  {
    hide S16, CutShort;
    if CutShort(proto, room) {
      S16Fits(total);
    } else {
      ClampedToCapture(nproto, tproto, total, caplen, dlen);
    }
  }

  lemma IpClass(e: Order, nproto: word, tproto: word, proto: int, room: int, mem: seq<byte>, d: int, t: int)
    requires (nproto == ETHERTYPE_IP || nproto == ETHERTYPE_IPV6) && Stands(tproto, proto, room)
    ensures var body := BodyOf(e, nproto, tproto, mem, d, t);
            ClassOf(body, proto, room) && (body.Ip? || body.Tcp? || body.Udp? || body.Icmp?)
  {
    hide AnalyzeIp, AnalyzeIpv6, AnalyzeTcp, AnalyzeUdp, At;
  }

  lemma Ipv4Transport(lt: LinkType, mem: seq<byte>, caplen: nat, stale: word, d: nat)
    requires Carries(lt, mem, d, 0x08, 0x00) && d < caplen < 0x8000
    ensures var h := 4 * (At(mem, d) % 16);
            var room := caplen - d - h;
            var proto, tproto := Ipv4Protocol(mem, d, room), TransportType(lt, mem, caplen, stale);
            && Stands(tproto, proto, room)
            && TransportHeader(tproto, mem, d + h) == TransportBytes(proto, mem, d + h, room)
  {
    hide S16, At, TransportHeader, TransportBytes;
    var h := 4 * (At(mem, d) % 16);
    S16Fits(caplen);
    S16Fits(caplen - d);
    S16Fits(caplen - d - h);
    ZeroOffset(At(mem, d + 6), At(mem, d + 7));
    var room := caplen - d - h;
    StandsHeader(TransportType(lt, mem, caplen, stale), Ipv4Protocol(mem, d, room), room, mem, d + h);
  }

  lemma ZeroOffset(high: byte, low: byte)
    ensures (0x100 * high + low) % 0x2000 == 0 <==> high % 32 == 0 && low == 0
  {
    LowPart(high, low);
  }

  // ---------------------------------------------------------------- IPv6

  /** The protocol that get_packet takes for the one above IPv6: the next header, unless that is
      an extension header; then, as written, the byte with the version. */
  ghost function Ipv6Protocol(mem: seq<byte>, d: nat): int {
    if Ipv6.Extension(At(mem, d + 6)) then At(mem, d) else At(mem, d + 6)
  }

  /** Every IPv6 capture of up to 32767 bytes, with something behind the fixed header of 40
      bytes: `header` ends behind the extension headers, as far as analyze_ipv6 walks, and the
      transport header; the packet ends 40 bytes after its payload length, modulo 2^16, or with
      the capture. */
  lemma Ipv6Cut(e: Order, lt: LinkType, mem: seq<byte>, caplen: nat, stale: word, d: nat)
    requires Carries(lt, mem, d, 0x86, 0xdd) && d + 40 < caplen <= |mem| && caplen < 0x8000 && At(mem, d) / 16 == 6
    requires var w := Ipv6.LengthWalk(mem, d + 40, 40, mem[d + 6]); w.Walk? && w.hlen < 0x8000
    ensures var h, total := Ipv6.LengthWalk(mem, d + 40, 40, mem[d + 6]).hlen,
                            (0x100 * At(mem, d + 4) + At(mem, d + 5) + 40) % 0x1_0000;
            var room, proto := caplen - d - 40, Ipv6Protocol(mem, d);
            var used := Used(proto, room, total, caplen - d);
            var r := Parse(e, lt, mem, caplen, stale);
            d + used <= |mem| && d + used < 0x8000 ==>
              && CutAt(r, mem, d + Min(h + TransportBytes(proto, mem, d + h, room), used), d + used)
              && ClassOf(r.p.body, proto, room)
              && (r.p.body.Ip? || r.p.body.Tcp? || r.p.body.Udp? || r.p.body.Icmp?)
              && r.p.body.ip.version == 6
              && (r.p.body.ip.length - 0x100 * At(mem, d + 4) - At(mem, d + 5)) % 0x1_0000 == 0
              && -0x8000 <= r.p.body.ip.length < 0x8000
              && r.p.body.ip.src == mem[d + 8..d + 24] && r.p.body.ip.dst == mem[d + 24..d + 40]
  {
    hide *;
    var h, total := Ipv6.LengthWalk(mem, d + 40, 40, mem[d + 6]).hlen,
                    (0x100 * At(mem, d + 4) + At(mem, d + 5) + 40) % 0x1_0000;
    var room, proto := caplen - d - 40, Ipv6Protocol(mem, d);
    var used := Used(proto, room, total, caplen - d);
    var tproto := TransportType(lt, mem, caplen, stale);
    Ipv6Types(lt, mem, caplen, d);
    if d + used <= |mem| && d + used < 0x8000 {
      Ipv6Transport(lt, mem, caplen, stale, d);
      StandsHeader(tproto, proto, room, mem, d + h);
      IpClamped(ETHERTYPE_IPV6, tproto, proto, room, total, caplen, d);
      CutsThere(e, lt, mem, caplen, stale, d, used, h, TransportBytes(proto, mem, d + h, room));
      IpClass(e, ETHERTYPE_IPV6, tproto, proto, room, mem, d, d + h);
      Ipv6Fields(e, tproto, mem, d, d + h);
    }
  }

  lemma Ipv6Types(lt: LinkType, mem: seq<byte>, caplen: nat, d: nat)
    requires Carries(lt, mem, d, 0x86, 0xdd) && d + 40 <= |mem|
    requires var w := Ipv6.LengthWalk(mem, d + 40, 40, mem[d + 6]); w.Walk? && w.hlen < 0x8000
    ensures NetworkType(lt, mem) == ETHERTYPE_IPV6 && NetworkOffset(lt, mem) == lt.HeaderLength() == d
    ensures NetworkExtent(lt, mem, caplen) ==
            Extent(S16((0x100 * At(mem, d + 4) + At(mem, d + 5) + 40) % 0x1_0000),
                   Ipv6.LengthWalk(mem, d + 40, 40, mem[d + 6]).hlen)
  {
    hide S16, At, Ipv6.LengthWalk;
    var w := Ipv6.LengthWalk(mem, d + 40, 40, mem[d + 6]);
    S16Fits(w.hlen);
    var payload := 0x100 * At(mem, d + 4) + At(mem, d + 5);
    ParserLaws.S16Plus40(payload);
    ParserLaws.S16OfU16(payload + 40);
  }

  lemma Ipv6Transport(lt: LinkType, mem: seq<byte>, caplen: nat, stale: word, d: nat)
    requires Carries(lt, mem, d, 0x86, 0xdd) && d + 40 < caplen < 0x8000 && At(mem, d) / 16 == 6
    ensures Stands(TransportType(lt, mem, caplen, stale), Ipv6Protocol(mem, d), caplen - d - 40)
  {
    hide S16, At, Ipv6.ClassWalk;
    S16Fits(caplen);
    S16Fits(caplen - d);
    S16Fits(caplen - d - 40);
    Ipv6Walked(mem, d, caplen - d - 40);
  }

  lemma Ipv6Walked(mem: seq<byte>, d: nat, room: int)
    requires At(mem, d) / 16 == 6 && room > 0
    ensures var f := Ipv6.ClassWalk(mem, d, room, At(mem, d + 6));
            f.tproto == Ipv6Protocol(mem, d) && (Ipv6.Extension(At(mem, d + 6)) ==> 96 <= f.tproto <= 111)
            && (!Ipv6.Extension(At(mem, d + 6)) ==> f.clen == room)
  {
    if Ipv6.Extension(At(mem, d + 6)) {
      Ipv6.WalkFromFixedHeader(mem, d, room, At(mem, d + 6));
    }
  }

  lemma S16Modulo(x: int)
    ensures (S16(x) - x) % 0x1_0000 == 0 && -0x8000 <= S16(x) < 0x8000
  {
    var q := (x + 0x8000) / 0x1_0000;
    assert S16(x) - x == -0x1_0000 * q;
  }

  lemma Ipv6Fields(e: Order, tproto: word, mem: seq<byte>, d: int, t: int)
    requires 0 <= d && d + 40 <= |mem|
    ensures var body := BodyOf(e, ETHERTYPE_IPV6, tproto, mem, d, t);
            (body.Ip? || body.Tcp? || body.Udp? || body.Icmp?) ==>
              && body.ip.version == 6 && body.ip.src == mem[d + 8..d + 24] && body.ip.dst == mem[d + 24..d + 40]
              && (body.ip.length - 0x100 * At(mem, d + 4) - At(mem, d + 5)) % 0x1_0000 == 0
              && -0x8000 <= body.ip.length < 0x8000
  {
    S16Modulo(0x100 * At(mem, d + 4) + At(mem, d + 5));
    hide At, Copy, S16, AnalyzeTcp, AnalyzeUdp;
    CopyIsSlice(mem, d + 8, 16);
    CopyIsSlice(mem, d + 24, 16);
  }

  // ---------------------------------------------------------------- the other types

  /** Of an ARP capture with no more than 28 bytes behind the datalink header the code sets no
      transport protocol; if what is left on the stack is then 0xffff or one of the three it
      takes for truncated, the length is not cut to the capture. */
  ghost function ArpUsed(length: int, captured: int, stale: word): int {
    if captured <= 28 && stale in {1, 6, 17, 0xffff} then length else Min(length, captured)
  }

  /** Every ARP capture of up to 32767 bytes: the packet is all header, as long as the address
      lengths in its bytes 4 and 5 say, or as the capture is, if it is cut to that. */
  lemma ArpCut(e: Order, lt: LinkType, mem: seq<byte>, caplen: nat, stale: word, d: nat)
    requires Carries(lt, mem, d, 0x08, 0x06) && d <= caplen <= |mem| && caplen < 0x8000
    ensures var length := 8 + 2 * At(mem, d + 4) + 2 * At(mem, d + 5);
            var r, end := Parse(e, lt, mem, caplen, stale), d + ArpUsed(length, caplen - d, stale);
            end <= |mem| && end < 0x8000 ==> CutAt(r, mem, end, end) && r.p.body.Arp?
  {
    hide *;
    var length := 8 + 2 * At(mem, d + 4) + 2 * At(mem, d + 5);
    var tproto := TransportType(lt, mem, caplen, stale);
    var used := ArpUsed(length, caplen - d, stale);
    ArpTypes(lt, mem, caplen, stale, d);
    if d + used <= |mem| && d + used < 0x8000 {
      ArpClamped(tproto, length, caplen, d, stale);
      CutsThere(e, lt, mem, caplen, stale, d, used, length, 0);
      MinTwice(length, used);
      ArpClass(e, tproto, mem, d, d + length);
    }
  }

  lemma ArpClamped(tproto: word, length: word, caplen: nat, d: nat, stale: word)
    requires d <= caplen < 0x8000 && S16(length) == length
    requires tproto == UNKNOWN_PROTO <==> caplen - d <= 28 && stale in {1, 6, 17, 0xffff}
    ensures Clamped(ETHERTYPE_ARP, tproto, length, caplen, d) == ArpUsed(length, caplen - d, stale)
    ensures 0 <= ArpUsed(length, caplen - d, stale) <= length
  {
    hide S16;
    if tproto != UNKNOWN_PROTO {
      ClampedToCapture(ETHERTYPE_ARP, tproto, length, caplen, d);
    }
  }

  lemma MinTwice(length: int, used: int)
    requires used <= length
    ensures Min(length + 0, used) == used
  {
  }

  lemma ArpTypes(lt: LinkType, mem: seq<byte>, caplen: nat, stale: word, d: nat)
    requires Carries(lt, mem, d, 0x08, 0x06) && d <= caplen < 0x8000
    ensures NetworkType(lt, mem) == ETHERTYPE_ARP != UNKNOWN_PROTO && NetworkOffset(lt, mem) == lt.HeaderLength() == d
    ensures var length := 8 + 2 * At(mem, d + 4) + 2 * At(mem, d + 5);
            length < 0x8000 && NetworkExtent(lt, mem, caplen) == Extent(length, length) && S16(length) == length
    ensures var tproto := TransportType(lt, mem, caplen, stale);
            && tproto != 6 && tproto != 17 && tproto != 1
            && (tproto == UNKNOWN_PROTO <==> caplen - d <= 28 && stale in {1, 6, 17, 0xffff})
            && forall t :: TransportHeader(tproto, mem, t) == 0
  {
    hide S16, At;
    S16Fits(caplen);
    S16Fits(caplen - d);
    S16Fits(caplen - d - 28);
    S16Fits(8 + 2 * At(mem, d + 4) + 2 * At(mem, d + 5));
  }

  lemma ArpClass(e: Order, tproto: word, mem: seq<byte>, d: int, t: int)
    requires tproto != 6 && tproto != 17 && tproto != 1
    ensures BodyOf(e, ETHERTYPE_ARP, tproto, mem, d, t).Arp?
  {
    hide AnalyzeArp;
  }

  /** The types below are all but those of IPv4, ARP and IPv6 and the unknown one. */
  ghost predicate OtherType(high: byte, low: byte) {
    0x100 * high + low !in {0x0800, 0x0806, 0x86dd, 0xffff}
  }

  /** Frames of any other type: the datalink header, and then data to the end of the capture.
      As written, the type itself is taken for a transport protocol: frames of the types 1, 6
      and 17 (which are length fields) become ICMP, TCP and UDP packets, with a header of that
      length, if they are long enough. */
  lemma OtherCut(e: Order, lt: LinkType, mem: seq<byte>, caplen: nat, stale: word, d: nat, high: byte, low: byte)
    requires Carries(lt, mem, d, high, low) && OtherType(high, low)
    requires d <= caplen <= |mem| && caplen < 0x8000
    ensures var r, kind, room := Parse(e, lt, mem, caplen, stale), 0x100 * high + low, caplen - d;
            && CutAt(r, mem, d + Min(TransportBytes(kind, mem, d, room), room), caplen)
            && r.p.datalink == AnalyzeDatalink(lt, mem) && ClassOf(r.p.body, kind, room)
            && (r.p.body.Arp? <==> kind == 0x8035)
            && (r.p.body.Plain? || r.p.body.Arp? || r.p.body.Tcp? || r.p.body.Udp? || r.p.body.Icmp?)
  {
    hide *;
    var kind, room := 0x100 * high + low, caplen - d;
    var tproto := TransportType(lt, mem, caplen, stale);
    OtherTypes(lt, mem, caplen, d, high, low, tproto);
    OtherTransport(lt, mem, caplen, stale, d, high, low);
    CutsThere(e, lt, mem, caplen, stale, d, room, 0, TransportBytes(kind, mem, d, room));
    OtherClass(e, high, low, tproto, room, mem, d, d + 0);
  }

  lemma OtherTypes(lt: LinkType, mem: seq<byte>, caplen: nat, d: nat, high: byte, low: byte, tproto: word)
    requires Carries(lt, mem, d, high, low) && OtherType(high, low)
    requires d <= caplen < 0x8000
    ensures NetworkType(lt, mem) == 0x100 * high + low && NetworkOffset(lt, mem) == lt.HeaderLength() == d
    ensures NetworkExtent(lt, mem, caplen) == Extent(caplen - d, 0)
    ensures Clamped(0x100 * high + low, tproto, caplen - d, caplen, d) == caplen - d
  {
    hide S16, At;
    S16Fits(caplen - d);
  }

  /** What a transport type makes of the class and the header. */
  ghost predicate ActsAs(tproto: word, kind: word, room: int) {
    && (tproto == 6 <==> kind == 6 && room >= 20)
    && (tproto == 17 <==> kind == 17 && room >= 8)
    && (tproto == 1 <==> kind == 1 && room >= 8)
  }

  lemma OtherTransport(lt: LinkType, mem: seq<byte>, caplen: nat, stale: word, d: nat, high: byte, low: byte)
    requires Carries(lt, mem, d, high, low) && OtherType(high, low)
    requires d <= caplen < 0x8000
    ensures var tproto, kind := TransportType(lt, mem, caplen, stale), 0x100 * high + low;
            && ActsAs(tproto, kind, caplen - d)
            && TransportHeader(tproto, mem, d + 0) == TransportBytes(kind, mem, d, caplen - d)
  {
    hide S16, At;
    S16Fits(caplen);
    S16Fits(caplen - d);
  }

  lemma OtherClass(e: Order, high: byte, low: byte, tproto: word, room: int, mem: seq<byte>, d: int, t: int)
    requires OtherType(high, low) && ActsAs(tproto, 0x100 * high + low, room)
    ensures var kind := 0x100 * high + low;
            var body := BodyOf(e, kind, tproto, mem, d, t);
            && ClassOf(body, kind, room) && (body.Arp? <==> kind == 0x8035)
            && (body.Plain? || body.Arp? || body.Tcp? || body.Udp? || body.Icmp?)
  {
    hide AnalyzeTcp, AnalyzeUdp;
  }

  /** What has no known type is all data: every frame of a link that is none of the three, and an
      Ethernet or Token Ring frame of type 0xffff. */
  lemma UnknownCut(e: Order, lt: LinkType, mem: seq<byte>, caplen: nat, stale: word)
    requires lt == OtherLink || Carries(lt, mem, 14, 0xff, 0xff) || Carries(lt, mem, 22, 0xff, 0xff)
    requires caplen <= |mem| && caplen < 0x8000
    ensures var r := Parse(e, lt, mem, caplen, stale); CutAt(r, mem, 0, caplen) && r.p.body.Plain?
  {
    hide *;
    UnknownTypes(lt, mem, caplen, stale);
    var tproto := TransportType(lt, mem, caplen, stale);
    CutsThere(e, lt, mem, caplen, stale, 0, caplen, 0, 0);
    UnknownClass(e, tproto, mem);
    MinZero(caplen);
  }

  lemma MinZero(used: int)
    requires 0 <= used
    ensures Min(0 + 0, used) == 0
  {
  }

  lemma UnknownTypes(lt: LinkType, mem: seq<byte>, caplen: nat, stale: word)
    requires lt == OtherLink || Carries(lt, mem, 14, 0xff, 0xff) || Carries(lt, mem, 22, 0xff, 0xff)
    requires caplen < 0x8000
    ensures NetworkType(lt, mem) == UNKNOWN_PROTO && NetworkOffset(lt, mem) == 0
    ensures NetworkExtent(lt, mem, caplen) == Extent(caplen, 0)
    ensures var tproto := TransportType(lt, mem, caplen, stale);
            && tproto != 6 && tproto != 17 && tproto != 1
            && TransportHeader(tproto, mem, 0 + 0) == 0
            && Clamped(UNKNOWN_PROTO, tproto, caplen, caplen, lt.HeaderLength()) == caplen
  {
    hide S16, At;
    S16Fits(caplen);
    S16Fits(caplen - lt.HeaderLength());
  }

  lemma UnknownClass(e: Order, tproto: word, mem: seq<byte>)
    requires tproto != 6 && tproto != 17 && tproto != 1
    ensures BodyOf(e, UNKNOWN_PROTO, tproto, mem, 0, 0 + 0).Plain?
  {
  }
}
