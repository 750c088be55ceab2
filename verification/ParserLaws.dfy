/** How get_packet splits a captured frame. */
module ParserLaws {
  import opened Bytes
  import opened Packets
  import opened Parser
  import StackModel

  // ---------------------------------------------------------------- the split

  /** Whatever the header lengths, even if they exceed what is left, `header` and `data` are
      adjacent and together as long as the clamped length says. */
  lemma SplitIsExact(offset: nat, clamped: int, hlen: int, transport: nat)
    requires 0 <= hlen < 0x8000 && 0 <= clamped && offset + clamped < 0x8000
    ensures var s := SplitAt(offset, clamped, hlen, transport);
            && 0 <= s.header == s.start && 0 <= s.data && s.header + s.data == offset + clamped
  {
    hide S16;
    S16Fits(clamped - hlen);
    var left := clamped - hlen;
    var h := if transport > left then left else transport;
    S16Fits(offset + hlen + h);
    S16Fits(left - h);
  }

  /** With no transport header and a network length beyond what was captured, the split is
      never of the captured length `n`. */
  lemma UnclampedSplitIsWrong(offset: nat, total: int, reported: nat, hlen: int, n: nat)
    requires 0 <= hlen < 0x8000 && reported < 0x1_0000 && total == S16(reported)
    requires offset <= n < 0x8000 && reported > n - offset
    ensures var s := SplitAt(offset, total, hlen, 0);
            s.header < 0 || s.data < 0 || s.header + s.data != n
  {
    hide S16;
    S16OfNat(reported);
    S16OfDifference(total, hlen);
    var left := S16(total - hlen);
    var h := if 0 > left then left else 0;
    S16Fits(left - h);
    S16Near(offset + hlen + h);
  }

  /** The two parts of a packet of `used` bytes after the datalink header each fit a `short`. */
  predicate Fits(offset: nat, used: int, hlen: int, transport: int) {
    used - hlen <= 0x7fff && offset + hlen + (if transport > used - hlen then used - hlen else transport) <= 0x7fff
  }

  /** The split of a length of up to 65535 bytes, kept in a `short`: exact if the parts fit, and
      otherwise `header` is negative or the split falls short of the datalink header. */
  lemma SplitIsExactIf(offset: nat, used: word, hlen: int, transport: nat)
    requires offset <= 22 && 0 <= hlen < 0x8000 && transport <= 60
    ensures var s := SplitAt(offset, S16(used), hlen, transport);
            && s.data >= 0 && (s.header >= 0 ==> s.header == s.start)
            && (Fits(offset, used, hlen, transport) ==> s.header >= 0 && s.header + s.data == offset + used)
            && (!Fits(offset, used, hlen, transport) ==> s.header < 0 || s.header + s.data < offset)
  {
    hide S16;
    S16OfNat(used);
    LeftOver(used, hlen);
    var left := S16(S16(used) - hlen);
    var h := if transport > left then left else transport;
    S16Fits(left - h);
    S16Near(offset + hlen + h);
  }

  lemma LeftOver(used: word, hlen: int)
    requires 0 <= hlen < 0x8000
    ensures S16(S16(used) - hlen) == if used - hlen <= 0x7fff then used - hlen else used - hlen - 0x1_0000
  {
    hide S16;
    S16OfNat(used);
    S16OfDifference(S16(used), hlen);
  }

  lemma S16OfNat(x: nat)
    requires x < 0x1_0000
    ensures S16(x) == (if x < 0x8000 then x else x - 0x1_0000)
  {
  }

  lemma S16OfDifference(total: int, hlen: int)
    requires -0x8000 <= total < 0x8000 && 0 <= hlen < 0x8000
    ensures S16(total - hlen) == (if total - hlen < -0x8000 then total - hlen + 0x1_0000 else total - hlen)
  {
  }

  lemma S16Near(x: int)
    requires -0x1_0000 <= x < 0x1_8000
    ensures S16(x) == (if x < -0x8000 then x + 0x1_0000 else if x < 0x8000 then x else x - 0x1_0000)
  {
  }

  // ---------------------------------------------------------------- the whole frame

  /** The length the network layer reports, without the limits of a `short`. */
  function Reported(lt: LinkType, mem: seq<byte>, caplen: nat): int {
    var nproto, d := NetworkType(lt, mem), lt.HeaderLength();
    if nproto == ETHERTYPE_IP then Net16(mem, d + 2)
    else if nproto == ETHERTYPE_IPV6 then Net16(mem, d + 4) + 40
    else if nproto == ETHERTYPE_ARP then ArpLength(mem, d)
    else caplen - d
  }

  /** How much of the capture belongs to the packet. */
  function PacketLength(lt: LinkType, mem: seq<byte>, caplen: nat): int {
    if NetworkType(lt, mem) == UNKNOWN_PROTO then caplen
    else
      var d, reported := lt.HeaderLength(), Reported(lt, mem, caplen);
      d + if reported < caplen - d then reported else caplen - d
  }

  /** The frame is split without loss: `header` followed by `data` is the part of the capture
      that belongs to the packet. */
  ghost predicate SplitsWhole(lt: LinkType, mem: seq<byte>, caplen: nat, r: Outcome)
    requires caplen <= |mem| && 0 <= PacketLength(lt, mem, caplen) <= caplen
  {
    r.Parsed? && r.p.header + r.p.data == mem[..PacketLength(lt, mem, caplen)]
  }

  /** A capture of at most 65535 bytes, with its datalink header, whose network layer is read
      without a fault and without a header length that a `short` makes negative. */
  ghost predicate Measurable(lt: LinkType, mem: seq<byte>, caplen: nat) {
    lt.HeaderLength() <= caplen <= |mem| && caplen < 0x1_0000 && HeaderRead(lt, mem, caplen)
  }

  ghost predicate HeaderRead(lt: LinkType, mem: seq<byte>, caplen: nat) {
    NetworkExtent(lt, mem, caplen).Extent? && NetworkExtent(lt, mem, caplen).header >= 0
  }

  lemma PacketLengthBounds(lt: LinkType, mem: seq<byte>, caplen: nat)
    requires HeaderRead(lt, mem, caplen)
    ensures 0 <= PacketLength(lt, mem, caplen) <= caplen
    ensures Measurable(lt, mem, caplen) ==> PacketLength(lt, mem, caplen) >= NetworkOffset(lt, mem)
  {
    hide NetworkType, NetworkExtent, Net16;
  }

  /** A `short` keeps the reported length modulo 2^16. */
  lemma ExtentIsReported(lt: LinkType, mem: seq<byte>, caplen: nat)
    requires HeaderRead(lt, mem, caplen)
    ensures var x, reported := NetworkExtent(lt, mem, caplen), Reported(lt, mem, caplen);
            && x.header < 0x8000 && (caplen >= lt.HeaderLength() ==> 0 <= reported)
            && x.total == S16(if NetworkType(lt, mem) == UNKNOWN_PROTO then caplen else reported)
  {
    hide NetworkType, Net16, S16, Ipv6.LengthWalk, ArpLength;
    var nproto, d := NetworkType(lt, mem), lt.HeaderLength();
    if nproto == ETHERTYPE_IPV6 {
      S16Plus40(Net16(mem, d + 4));
      S16Bounds(Ipv6.LengthWalk(mem, d + 40, 40, mem[d + 6]).hlen % 0x1_0000);
    } else if nproto == ETHERTYPE_ARP {
      ArpLengthBound(mem, d);
      S16Fits(ArpLength(mem, d));
    } else if nproto == ETHERTYPE_IP {
      IpHeaderBound(mem, d);
    }
  }

  lemma S16OfU16(x: int)
    ensures S16(U16(x)) == S16(x)
  {
  }

  lemma S16Plus40(w: word)
    ensures S16(S16(w) + 40) == S16(w + 40)
  {
  }

  lemma ArpLengthBound(mem: seq<byte>, d: int)
    ensures ArpLength(mem, d) <= 1028
  {
  }

  lemma IpHeaderBound(mem: seq<byte>, d: int)
    ensures IpHeaderLength(mem, d) <= 60
  {
  }

  /** The length that get_packet works with: what the network layer reports, as far as 16 bits
      hold it; or what was captured after the datalink header, if the code cuts it to that.  A
      length of 32768 or more is cut even if as much was captured, since it is compared as a
      negative `short`; where the transport is marked as unknown nothing is cut. */
  function LengthUsed(lt: LinkType, mem: seq<byte>, caplen: nat, stale: word): word
    requires lt.HeaderLength() <= caplen < 0x1_0000
  {
    var w, room := U16(Reported(lt, mem, caplen)), caplen - lt.HeaderLength();
    if NetworkType(lt, mem) == UNKNOWN_PROTO then caplen
    else if TransportType(lt, mem, caplen, stale) != UNKNOWN_PROTO && (w > room || w >= 0x8000) then room
    else w
  }

  /** For every capture of up to 65535 bytes, of every link and network type and whatever the
      transport type: the frame is split without loss exactly if the length used is the length
      that belongs to the packet, and its two parts fit a `short` each. */
  lemma SplitsWholeIff(e: Order, lt: LinkType, mem: seq<byte>, caplen: nat, stale: word)
    requires Measurable(lt, mem, caplen)
    ensures 0 <= PacketLength(lt, mem, caplen) <= caplen
    ensures var d, hlen := NetworkOffset(lt, mem), NetworkExtent(lt, mem, caplen).header;
            var used := LengthUsed(lt, mem, caplen, stale);
            SplitsWhole(lt, mem, caplen, Parse(e, lt, mem, caplen, stale)) <==>
            d + used == PacketLength(lt, mem, caplen)
            && Fits(d, used, hlen, TransportHeader(TransportType(lt, mem, caplen, stale), mem, d + hlen))
  {
    hide AnalyzeDatalink, BodyOf, NetworkType, TransportType, NetworkExtent, TransportHeader, Clamped, S16, Copy;
    hide Reported, SplitAt, U16, LengthUsed, Fits, PacketLength;
    var nproto, tproto, d := NetworkType(lt, mem), TransportType(lt, mem, caplen, stale), NetworkOffset(lt, mem);
    var x, used := NetworkExtent(lt, mem, caplen), LengthUsed(lt, mem, caplen, stale);
    var th := TransportHeader(tproto, mem, d + x.header);
    PacketLengthBounds(lt, mem, caplen);
    ExtentIsReported(lt, mem, caplen);
    ClampedIsUsed(lt, mem, caplen, stale);
    TransportHeaderBound(tproto, mem, d + x.header);
    SplitIsExactIf(d, used, x.header, th);
    SplitDecides(mem, SplitAt(d, S16(used), x.header, th), PacketLength(lt, mem, caplen));
  }

  lemma ClampedIsUsed(lt: LinkType, mem: seq<byte>, caplen: nat, stale: word)
    requires Measurable(lt, mem, caplen)
    ensures Clamped(NetworkType(lt, mem), TransportType(lt, mem, caplen, stale), NetworkExtent(lt, mem, caplen).total,
                    caplen, lt.HeaderLength())
            == S16(LengthUsed(lt, mem, caplen, stale))
  {
    hide NetworkType, TransportType, NetworkExtent, Reported, S16, U16;
    ExtentIsReported(lt, mem, caplen);
    S16OfU16(Reported(lt, mem, caplen));
    S16OfNat(U16(Reported(lt, mem, caplen)));
  }

  lemma TransportHeaderBound(tproto: word, mem: seq<byte>, t: int)
    ensures TransportHeader(tproto, mem, t) <= 60
  {
  }

  /** With adjacent parts, `header` followed by `data` is a prefix of the capture exactly if the
      lengths add up to it. */
  lemma SplitDecides(mem: seq<byte>, s: Split, n: nat)
    requires n <= |mem| && s.data >= 0 && (s.header >= 0 ==> s.header == s.start)
    ensures s.header >= 0 ==>
              (Copy(mem, 0, s.header) + Copy(mem, s.start, s.data) == mem[..n] <==> s.header + s.data == n)
  {
    if s.header >= 0 && s.header + s.data == n {
      SplitCopies(mem, s, n);
    }
  }

  /** For a capture of at most 32767 bytes the parts always fit.  Let `w` be the length the
      network layer reports, as far as 16 bits hold it, and `room` what was captured after the
      datalink header.  The frame is split without loss exactly if `w` is `room`; or is more and
      is cut, which the code does not do where it has marked the transport as unknown; or is
      less and is the true length. */
  lemma ShortCaptureSplitsWholeIff(e: Order, lt: LinkType, mem: seq<byte>, caplen: nat, stale: word)
    requires Measurable(lt, mem, caplen) && caplen < 0x8000
    ensures 0 <= PacketLength(lt, mem, caplen) <= caplen
    ensures var w, room := U16(Reported(lt, mem, caplen)), caplen - lt.HeaderLength();
            SplitsWhole(lt, mem, caplen, Parse(e, lt, mem, caplen, stale)) <==>
            NetworkType(lt, mem) == UNKNOWN_PROTO
            || w == room
            || (w > room && TransportType(lt, mem, caplen, stale) != UNKNOWN_PROTO)
            || (w < room && w == Reported(lt, mem, caplen))
  {
    hide Parse, NetworkType, TransportType, NetworkExtent, TransportHeader, Reported, U16, SplitsWhole;
    SplitsWholeIff(e, lt, mem, caplen, stale);
    ExtentIsReported(lt, mem, caplen);
    U16Below(Reported(lt, mem, caplen));
  }

  /** A packet that leaves 32768 bytes or more after its network header is never split without
      loss, on any link; on an unknown link it gets no arrays at all. */
  lemma LongCaptureIsLost(e: Order, lt: LinkType, mem: seq<byte>, caplen: nat, stale: word)
    requires Measurable(lt, mem, caplen)
    requires PacketLength(lt, mem, caplen) >= NetworkOffset(lt, mem) + NetworkExtent(lt, mem, caplen).header + 0x8000
    ensures PacketLength(lt, mem, caplen) <= caplen && !SplitsWhole(lt, mem, caplen, Parse(e, lt, mem, caplen, stale))
    ensures lt.OtherLink? ==> Parse(e, lt, mem, caplen, stale).NegativeLength?
  {
    hide Parse, NetworkExtent, TransportType, TransportHeader, SplitsWhole, LengthUsed, NetworkType, PacketLength;
    SplitsWholeIff(e, lt, mem, caplen, stale);
    if lt.OtherLink? {
      UnknownLinkIsLost(e, mem, caplen, stale);
    }
  }

  lemma UnknownLinkIsLost(e: Order, mem: seq<byte>, caplen: nat, stale: word)
    requires caplen < 0x1_0000 && PacketLength(OtherLink, mem, caplen) >= 0x8000
    ensures Parse(e, OtherLink, mem, caplen, stale).NegativeLength?
  {
    hide AnalyzeDatalink, BodyOf, Copy, TransportType;
  }

  /** What writePacket dumps of a frame that get_packet has split is the capture again, whatever
      its buffer held, exactly if the parts fit and the length used reaches to the end of the
      capture -- in particular, of a frame split without loss, exactly if all of the capture
      belongs to the packet. */
  lemma RecordIsCaptureIff(e: Order, lt: LinkType, mem: seq<byte>, caplen: nat, stale: word, size: nat)
    requires Measurable(lt, mem, caplen) && Parse(e, lt, mem, caplen, stale).Parsed?
    requires var p := Parse(e, lt, mem, caplen, stale).p; |p.header| + |p.data| <= size && caplen <= size
    ensures 0 <= PacketLength(lt, mem, caplen) <= caplen
    ensures var r, d := Parse(e, lt, mem, caplen, stale), NetworkOffset(lt, mem);
            var hlen := NetworkExtent(lt, mem, caplen).header;
            var used := LengthUsed(lt, mem, caplen, stale);
            && ((forall buffer | |buffer| == size :: Record(r.p, caplen, buffer) == mem[..caplen]) <==>
                d + used >= caplen
                && Fits(d, used, hlen, TransportHeader(TransportType(lt, mem, caplen, stale), mem, d + hlen)))
            && (SplitsWhole(lt, mem, caplen, r) ==>
                ((forall buffer | |buffer| == size :: Record(r.p, caplen, buffer) == mem[..caplen])
                 <==> PacketLength(lt, mem, caplen) == caplen))
  {
    hide AnalyzeDatalink, BodyOf, NetworkType, TransportType, NetworkExtent, TransportHeader, Clamped, S16, Copy;
    hide Reported, SplitAt, U16, LengthUsed, Fits, PacketLength, Record;
    var tproto, d := TransportType(lt, mem, caplen, stale), NetworkOffset(lt, mem);
    var x, used := NetworkExtent(lt, mem, caplen), LengthUsed(lt, mem, caplen, stale);
    var th := TransportHeader(tproto, mem, d + x.header);
    PacketLengthBounds(lt, mem, caplen);
    ExtentIsReported(lt, mem, caplen);
    ClampedIsUsed(lt, mem, caplen, stale);
    TransportHeaderBound(tproto, mem, d + x.header);
    SplitIsExactIf(d, used, x.header, th);
    var s := SplitAt(d, S16(used), x.header, th);
    var p := Parse(e, lt, mem, caplen, stale).p;
    AdjacentCopies(mem, s);
    RecordIsPrefixIff(p, mem, caplen, size);
    OffsetInCapture(lt, mem, caplen);
  }

  lemma OffsetInCapture(lt: LinkType, mem: seq<byte>, caplen: nat)
    requires lt.HeaderLength() <= caplen
    ensures NetworkOffset(lt, mem) <= caplen
  {
  }

  lemma AdjacentCopies(mem: seq<byte>, s: Split)
    requires s.header >= 0 && s.data >= 0 && s.start == s.header
    ensures Copy(mem, 0, s.header) + Copy(mem, s.start, s.data) == Copy(mem, 0, s.header + s.data)
  {
  }

  lemma RecordIsPrefixIff(p: Packet, mem: seq<byte>, caplen: nat, size: nat)
    requires |p.header| + |p.data| <= size && caplen <= size && caplen <= |mem|
    requires p.header + p.data == Copy(mem, 0, |p.header| + |p.data|)
    ensures (forall buffer | |buffer| == size :: Record(p, caplen, buffer) == mem[..caplen])
            <==> |p.header| + |p.data| >= caplen
  {
    var n := |p.header| + |p.data|;
    forall buffer | |buffer| == size
      ensures n >= caplen ==> Record(p, caplen, buffer) == mem[..caplen]
    {
      if n >= caplen {
        assert Record(p, caplen, buffer) == (p.header + p.data)[..caplen];
      }
    }
    if n < caplen {
      var other: byte := if mem[n] == 0 then 1 else 0;
      var buffer := seq<byte>(size, i => other);
      assert Record(p, caplen, buffer)[n] == other != mem[..caplen][n];
    }
  }

  /** A capture cut inside its datalink header: the frame is split without loss exactly if the
      length used, a negative one, is what is missing -- because no length is reported, or it is
      cut, or it happens to be that -- and no chain of extension headers of almost 32768 bytes
      makes the rest wrap. */
  lemma RuntSplitsWholeIff(e: Order, lt: LinkType, mem: seq<byte>, caplen: nat, stale: word)
    requires caplen < lt.HeaderLength() && caplen <= |mem| && HeaderRead(lt, mem, caplen)
    ensures PacketLength(lt, mem, caplen) == caplen
    ensures var w, room := U16(Reported(lt, mem, caplen)), caplen - lt.HeaderLength();
            SplitsWhole(lt, mem, caplen, Parse(e, lt, mem, caplen, stale)) <==>
            NetworkExtent(lt, mem, caplen).header - room <= 0x8000
            && (NetworkType(lt, mem) !in {ETHERTYPE_IP, ETHERTYPE_IPV6, ETHERTYPE_ARP}
                || w == 0x1_0000 + room
                || (w > 0x1_0000 + room && TransportType(lt, mem, caplen, stale) != UNKNOWN_PROTO))
  {
    hide AnalyzeDatalink, BodyOf, NetworkType, TransportType, NetworkExtent, TransportHeader, Clamped, S16, Copy,
        SplitAt;
    var nproto, tproto, d := NetworkType(lt, mem), TransportType(lt, mem, caplen, stale), NetworkOffset(lt, mem);
    var x := NetworkExtent(lt, mem, caplen);
    var total := Clamped(nproto, tproto, x.total, caplen, lt.HeaderLength());
    var th := TransportHeader(tproto, mem, d + x.header);
    ExtentIsReported(lt, mem, caplen);
    TransportHeaderBound(tproto, mem, d + x.header);
    RuntClamp(lt, mem, caplen, stale);
    UnknownHasNoHeader(lt, mem, caplen);
    RuntSplit(d, total, x.header, th, caplen);
    SplitDecides(mem, SplitAt(d, total, x.header, th), caplen);
  }

  lemma UnknownHasNoHeader(lt: LinkType, mem: seq<byte>, caplen: nat)
    ensures NetworkType(lt, mem) == UNKNOWN_PROTO ==> NetworkExtent(lt, mem, caplen) == Extent(S16(caplen), 0)
  {
    hide NetworkType, S16;
  }

  /** The length used of a runt, and when it is what is missing. */
  lemma RuntClamp(lt: LinkType, mem: seq<byte>, caplen: nat, stale: word)
    requires caplen < lt.HeaderLength() && HeaderRead(lt, mem, caplen)
    ensures PacketLength(lt, mem, caplen) == caplen
    ensures var nproto, tproto := NetworkType(lt, mem), TransportType(lt, mem, caplen, stale);
            var w, room := U16(Reported(lt, mem, caplen)), caplen - lt.HeaderLength();
            var total := Clamped(nproto, tproto, NetworkExtent(lt, mem, caplen).total, caplen, lt.HeaderLength());
            && -0x8000 <= total < 0x8000
            && (nproto == UNKNOWN_PROTO ==> total == caplen)
            && (nproto != UNKNOWN_PROTO ==>
                  (total == room <==> nproto !in {ETHERTYPE_IP, ETHERTYPE_IPV6, ETHERTYPE_ARP} || w == 0x1_0000 + room
                                      || (w > 0x1_0000 + room && tproto != UNKNOWN_PROTO)))
  {
    hide NetworkType, TransportType, NetworkExtent, S16, U16, Net16, ArpLength;
    var reported, room := Reported(lt, mem, caplen), caplen - lt.HeaderLength();
    ExtentIsReported(lt, mem, caplen);
    S16OfU16(reported);
    S16OfNat(U16(reported));
    S16Fits(caplen);
    S16Fits(room);
    if NetworkType(lt, mem) == ETHERTYPE_ARP {
      ArpLengthBound(mem, lt.HeaderLength());
    }
  }

  lemma RuntSplit(d: nat, total: int, hlen: int, transport: nat, caplen: nat)
    requires d <= 22 && caplen < 22 && -0x8000 <= total < 0x8000 && 0 <= hlen < 0x8000 && transport <= 60
    requires caplen < d || (d == 0 && hlen == 0)
    ensures var s := SplitAt(d, total, hlen, transport);
            && s.data >= 0 && (s.header >= 0 ==> s.header == s.start)
            && (s.header >= 0 && s.header + s.data == caplen <==>
                d + total == caplen && (d > 0 ==> hlen - total <= 0x8000))
  {
    hide S16;
    S16OfDifference(total, hlen);
    var left := S16(total - hlen);
    var h := if transport > left then left else transport;
    S16Fits(left - h);
    S16Near(d + hlen + h);
  }

  lemma U16Below(x: nat)
    ensures U16(x) <= x && (x < 0x1_0000 ==> U16(x) == x)
  {
  }

  lemma SplitCopies(mem: seq<byte>, s: Split, n: nat)
    requires 0 <= s.header == s.start && 0 <= s.data && s.header + s.data == n <= |mem|
    ensures Copy(mem, 0, s.header) + Copy(mem, s.start, s.data) == mem[..n]
  {
    CopyIsSlice(mem, 0, s.header);
    CopyIsSlice(mem, s.start, s.data);
    assert mem[..n] == mem[..s.header] + mem[s.header..n];
  }

  /** A capture cut inside the TCP header is such a case: with 10 bytes of TCP captured of a
      packet of 1500, `header` and `data` run over 1470 bytes that were never captured. */
  lemma TruncatedTcpIsNotClamped(e: Order, mem: seq<byte>, stale: word)
    requires |mem| >= 1514 && Net16(mem, 12) == ETHERTYPE_IP
    requires At(mem, 14) == 0x45 && Net16(mem, 16) == 1500 && Net16(mem, 20) == 0 && At(mem, 23) == 6
    ensures TransportType(Ethernet, mem, 44, stale) == UNKNOWN_PROTO
    ensures var r := Parse(e, Ethernet, mem, 44, stale);
            r.Parsed? && |r.p.header| + |r.p.data| == 1514
  {
    hide AnalyzeDatalink, BodyOf, Copy;
    assert IpHeaderLength(mem, 14) == 20;
  }

  // ---------------------------------------------------------------- class and frame type

  /** The packet class goes with the frame type: an ARP frame gives an ARPPacket and an IP frame
      an IPPacket or one of its subclasses, whatever is left on the stack -- so the casts in the
      protocol threads succeed. */
  lemma FrameTypeFixesClass(e: Order, mem: seq<byte>, caplen: nat, stale: word)
    requires Parse(e, Ethernet, mem, caplen, stale).Parsed?
    ensures StackModel.WellTyped(Parse(e, Ethernet, mem, caplen, stale).p)
  {
    hide AnalyzeIp, AnalyzeIpv6, AnalyzeTcp, AnalyzeUdp, AnalyzeArp, NetworkExtent, SplitAt, Clamped, Copy,
        TransportHeader;
    var nproto := NetworkType(Ethernet, mem);
    if nproto == ETHERTYPE_ARP {
      ArpIsNoTransport(mem, caplen, stale);
    }
  }

  /** Where the code assigns no transport protocol to an ARP frame, what is left of the capture
      is too short for any. */
  lemma ArpIsNoTransport(mem: seq<byte>, caplen: nat, stale: word)
    requires NetworkType(Ethernet, mem) == ETHERTYPE_ARP
    ensures TransportType(Ethernet, mem, caplen, stale) !in {IPPROTO_TCP, IPPROTO_UDP, IPPROTO_ICMP}
  {
    hide S16, NetworkType;
  }
}
