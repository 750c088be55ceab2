/** Whether the checksums in a sent frame verify at the receiver. */
module SentChecksums {
  import opened Bytes
  import opened Packets
  import opened Checksum
  import opened Builder

  /** A receiver accepts data if its checksum, the field included, is 0. */
  predicate Verifies(s: seq<byte>) {
    Rfc1071(s) == 0
  }

  /** Exactly the right checksum verifies, where 0 and 0xffff are alike. */
  lemma VerifiesIff(s: seq<byte>, k: nat, w: word)
    requires k + 2 <= |s| && k % 2 == 0 && Rfc1071(SetField(s, k, 0)) != 0xffff
    ensures Verifies(SetField(s, k, w)) <==> w % 0xffff == Rfc1071(SetField(s, k, 0)) % 0xffff
  {
    hide SetField, Words, PlainSum, OnesSum;
    var ws := Words(BigEndian, SetField(s, k, 0));
    var p := PlainSum(ws);
    PlainSumIsOnesSum(ws);
    FieldAdds(s, k, w);
    PlainSumIsOnesSum(Words(BigEndian, SetField(s, k, w)));
    CanonMod(p);
    CanonMod(p + w);
    Complements(p, w, Canon(p), Canon(p + w));
  }

  lemma Complements(p: nat, w: word, c: word, t: word)
    requires c % 0xffff == p % 0xffff && t % 0xffff == (p + w) % 0xffff && c != 0 && t != 0
    ensures t == 0xffff <==> w % 0xffff == (0xffff - c) % 0xffff
  {
    var q, r := p / 0xffff, p % 0xffff;
    assert p + w == q * 0xffff + (r + w);
    if r + w < 0xffff {
      DivModUnique(p + w, q, r + w);
    } else if r + w < 2 * 0xffff {
      DivModUnique(p + w, q + 1, r + w - 0xffff);
    }
  }

  // ---------------------------------------------------------------- IPv4

  /** Every IPv4 header that set_packet builds verifies (section 3.1 of RFC 791). */
  lemma IpChecksumVerifies(e: Order, ip: IpFields, protocol: byte, payload: seq<byte>)
    requires |ip.src| == 4 && |ip.dst| == 4 && |payload| + 20 < 0x1_0000
    ensures Verifies(Ipv4(e, ip, protocol, payload)[..20])
  {
    hide Rfc1071, IpHeader;
    var length := |payload| + 20;
    var zeroed := IpHeader(e, ip, protocol, length, 0);
    InsertedChecksumVerifies(zeroed, 10);
    IpFieldSet(e, ip, protocol, length, 0);
    IpFieldSet(e, ip, protocol, length, Rfc1071(zeroed));
    assert Ipv4(e, ip, protocol, payload)[..20] == IpHeader(e, ip, protocol, length, Rfc1071(zeroed));
  }

  lemma IpFieldSet(e: Order, ip: IpFields, protocol: byte, length: word, sum: word)
    requires |ip.src| == 4 && |ip.dst| == 4
    ensures SetField(IpHeader(e, ip, protocol, length, 0), 10, sum) == IpHeader(e, ip, protocol, length, sum)
  {
    hide Tos, FragWord, U8, U16;
  }

  // ---------------------------------------------------------------- TCP and UDP

  /** Whether in_cksum2 adds a trailing byte of the segment where it belongs. */
  predicate TrailingByteIsRight(e: Order, segment: seq<byte>) {
    |segment| % 2 == 0 || e.LittleEndian? || segment[|segment| - 1] == 0
  }

  /** in_cksum2 is the checksum of the pseudo-header and the segment, up to its trailing byte;
      otherwise not even congruent to it. */
  lemma SegmentChecksumIs(e: Order, addresses: seq<byte>, protocol: byte, segment: seq<byte>)
    requires |addresses| == 8 && protocol != 0 && |segment| < 0x1_0000
    ensures Rfc1071(Pseudo(addresses, protocol, |segment|) + segment) != 0xffff
    ensures SegmentChecksum(e, addresses, protocol, segment) % 0xffff == Rfc1071(Pseudo(addresses, protocol,
        |segment|) + segment) % 0xffff
            <==> TrailingByteIsRight(e, segment)
  {
    hide Rfc1071, Cksum2Total, FoldTwice, U32, Pseudo, Htons, Store16, Be16;
    var total := Cksum2Total(e, addresses, protocol, Htons(e, |segment|), segment);
    var right := Rfc1071(Pseudo(addresses, protocol, |segment|) + segment);
    Cksum2TotalMeaning(e, addresses, protocol, |segment|, segment);
    TotalIsPositive(e, addresses, protocol, Htons(e, |segment|), segment);
    TwoFoldsAreCanonical(total);
    Small(total);
    RightIsPositive(addresses, protocol, segment);
    var r := 0xffff - FoldTwice(total);
    assert SegmentChecksum(e, addresses, protocol, segment) == Htons(e, r) by {
      assert U16(|segment|) == |segment|;
    }
    StoredRight(e, r, right);
  }

  lemma Small(n: nat)
    requires n < 0x1_0000_0000
    ensures U32(n) == n
  {
  }

  lemma StoredRight(e: Order, r: word, right: word)
    requires r != 0xffff && right != 0xffff
    ensures Store16(e, r) == Be16(right) <==> Htons(e, r) % 0xffff == right % 0xffff
  {
    hide Store16, Be16, Htons;
    StoreHtons(e, right);
    StoreInjective(e, r, Htons(e, right));
    HtonsTwice(e, r);
    HtonsTwice(e, right);
    OnesOnly(e, r);
    assert Htons(e, r) % 0xffff == Htons(e, r) && right % 0xffff == right;
  }

  lemma OnesOnly(e: Order, w: word)
    requires w != 0xffff
    ensures Htons(e, w) != 0xffff
  {
    assert w / 0x100 != 0xff || w % 0x100 != 0xff;
  }

  lemma TotalIsPositive(e: Order, addresses: seq<byte>, protocol: byte, len: word, segment: seq<byte>)
    requires |addresses| == 8 && protocol != 0
    ensures Cksum2Total(e, addresses, protocol, len, segment) > 0
  {
    hide PlainSum, Words;
  }

  lemma RightIsPositive(addresses: seq<byte>, protocol: byte, segment: seq<byte>)
    requires |addresses| == 8 && protocol != 0 && |segment| < 0x1_0000
    ensures Rfc1071(Pseudo(addresses, protocol, |segment|) + segment) != 0xffff
  {
    hide PlainSum, Words, Pseudo, OnesSum;
    var pseudo := Pseudo(addresses, protocol, |segment|);
    PseudoTotal(BigEndian, addresses, protocol, |segment|);
    WordsAppend(BigEndian, pseudo, segment);
    PlainSumIsOnesSum(Words(BigEndian, pseudo + segment));
    CanonMod(PlainSum(Words(BigEndian, pseudo + segment)));
  }

  /** The checksum of a TCP segment verifies over pseudo-header and segment (section 3.1 of
      RFC 793), unless a big-endian host has sent an odd payload whose last byte is not 0. */
  lemma TcpChecksumVerifiesIff(e: Order, ip: IpFields, t: TcpFields, junk: byte, data: seq<byte>)
    requires |ip.src| == 4 && |ip.dst| == 4 && junk < 16 && |data| + 20 < 0x1_0000
    ensures var segment := TcpSegment(e, ip, t, junk, data);
            Verifies(Pseudo(ip.src + ip.dst, IPPROTO_TCP, |segment|) + segment) <==> TrailingByteIsRight(e, data)
  {
    hide Rfc1071, TcpHeader, SegmentChecksum, Pseudo, SetField;
    var zeroed := TcpHeader(t, junk, 0) + data;
    var pseudo := Pseudo(ip.src + ip.dst, IPPROTO_TCP, 20 + |data|);
    var sum := SegmentChecksum(e, ip.src + ip.dst, IPPROTO_TCP, zeroed);
    SegmentChecksumIs(e, ip.src + ip.dst, IPPROTO_TCP, zeroed);
    TcpFieldSet(pseudo, t, junk, data, 0);
    TcpFieldSet(pseudo, t, junk, data, sum);
    VerifiesIff(pseudo + zeroed, 28, sum);
    SameTail(e, TcpHeader(t, junk, 0), data);
  }

  lemma TcpFieldSet(pseudo: seq<byte>, t: TcpFields, junk: byte, data: seq<byte>, sum: word)
    requires |pseudo| == 12 && junk < 16
    ensures SetField(pseudo + (TcpHeader(t, junk, 0) + data), 28, sum) == pseudo + (TcpHeader(t, junk, sum) + data)
  {
    hide TcpHead, U16;
  }

  lemma SameTail(e: Order, header: seq<byte>, data: seq<byte>)
    requires |header| % 2 == 0
    ensures TrailingByteIsRight(e, header + data) <==> TrailingByteIsRight(e, data)
  {
    if |data| > 0 {
      assert (header + data)[|header + data| - 1] == data[|data| - 1];
    }
  }

  /** UDP likewise (RFC 768), and a checksum of 0, which would mean "no checksum", is never
      sent. */
  lemma UdpChecksumVerifiesIff(e: Order, ip: IpFields, u: UdpFields, data: seq<byte>)
    requires |ip.src| == 4 && |ip.dst| == 4 && |data| + 8 < 0x1_0000
    ensures var datagram := UdpDatagram(e, ip, u, data);
            && Net16(datagram, 6) != 0
            && (Verifies(Pseudo(ip.src + ip.dst, IPPROTO_UDP, |datagram|) + datagram) <==> TrailingByteIsRight(e, data))
  {
    hide Rfc1071, UdpHeader, SegmentChecksum, Pseudo, SetField, Net16;
    var zeroed := UdpHeader(u, 8 + |data|, 0) + data;
    var pseudo := Pseudo(ip.src + ip.dst, IPPROTO_UDP, 8 + |data|);
    var sum := NonZero(SegmentChecksum(e, ip.src + ip.dst, IPPROTO_UDP, zeroed));
    SegmentChecksumIs(e, ip.src + ip.dst, IPPROTO_UDP, zeroed);
    UdpFieldSet(pseudo, u, data, 0);
    UdpFieldSet(pseudo, u, data, sum);
    VerifiesIff(pseudo + zeroed, 18, sum);
    SameTail(e, UdpHeader(u, 8 + |data|, 0), data);
  }

  lemma UdpFieldSet(pseudo: seq<byte>, u: UdpFields, data: seq<byte>, sum: word)
    requires |pseudo| == 12 && |data| + 8 < 0x1_0000
    ensures SetField(pseudo + (UdpHeader(u, 8 + |data|, 0) + data), 18, sum) == pseudo + (UdpHeader(u, 8 + |data|,
        sum) + data)
    ensures Net16(UdpHeader(u, 8 + |data|, sum) + data, 6) == sum
  {
    hide UdpHead, U16;
  }
}
