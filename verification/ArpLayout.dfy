/** set_arp writes addresses at fixed offsets, analyze_arp reads them where the lengths in the
    packet say: for which lengths the two agree. */
module ArpLayout {
  import opened Bytes
  import opened Packets
  import opened Builder
  import opened Parser

  /** Addresses of exactly these lengths, as the packet says. */
  ghost predicate Sized(a: ArpFields, hl: byte, pl: byte) {
    a.hlen == hl && a.plen == pl && |a.senderHard| == |a.targetHard| == hl && |a.senderProto| == |a.targetProto| == pl
  }

  /** Read back from the buffer they were written to, the addresses are what they were. */
  ghost predicate Recovers(s: seq<byte>, off: nat, a: ArpFields)
    requires ArpReadable(a) && off + 1028 <= |s|
  {
    var b := AnalyzeArp(ArpWritten(s, off, a), off);
    b.senderHard == a.senderHard && b.senderProto == a.senderProto && b.targetHard == a.targetHard
        && b.targetProto == a.targetProto
  }

  ghost predicate AlwaysRecovers(hl: byte, pl: byte) {
    forall s, off: nat, a | off + 1028 <= |s| && Sized(a, hl, pl) :: Recovers(s, off, a)
  }

  /** The byte that set_arp leaves `k` bytes into the packet, behind the lengths. */
  function Written(s: seq<byte>, off: nat, a: ArpFields, hl: byte, pl: byte, k: nat): byte
    requires Sized(a, hl, pl) && off + 1028 <= |s| && k < 1028
  {
    if 24 <= k < 24 + pl then a.targetProto[k - 24]
    else if 18 <= k < 18 + hl then a.targetHard[k - 18]
    else if 14 <= k < 14 + pl then a.senderProto[k - 14]
    else if 8 <= k < 8 + hl then a.senderHard[k - 8]
    else s[off + k]
  }

  lemma WrittenAt(s: seq<byte>, off: nat, a: ArpFields, hl: byte, pl: byte)
    requires Sized(a, hl, pl) && off + 1028 <= |s|
    ensures forall k | 8 <= k < 1028 :: At(ArpWritten(s, off, a), off + k) == Written(s, off, a, hl, pl, k)
    ensures At(ArpWritten(s, off, a), off + 4) == hl && At(ArpWritten(s, off, a), off + 5) == pl
  {
    hide Be16, U16, Put;
    assert ArpHead(a)[4] == hl && ArpHead(a)[5] == pl;
    hide ArpHead;
    assert a.senderHard[..hl] == a.senderHard && a.senderProto[..pl] == a.senderProto;
    assert a.targetHard[..hl] == a.targetHard && a.targetProto[..pl] == a.targetProto;
  }

  /** A read of `n` bytes, `i` bytes into the packet, yields `bs`. */
  ghost predicate Reads(s: seq<byte>, off: nat, a: ArpFields, hl: byte, pl: byte, i: nat, n: nat, bs: seq<byte>)
    requires Sized(a, hl, pl) && off + 1028 <= |s| && i + n <= 1028 && |bs| == n
  {
    forall k | 0 <= k < n :: Written(s, off, a, hl, pl, i + k) == bs[k]
  }

  lemma ReadIs(s: seq<byte>, off: nat, a: ArpFields, hl: byte, pl: byte, i: nat, n: nat, bs: seq<byte>)
    requires Sized(a, hl, pl) && off + 1028 <= |s| && 8 <= i && i + n <= 1028 && |bs| == n
    ensures Copy(ArpWritten(s, off, a), off + i, n) == bs <==> Reads(s, off, a, hl, pl, i, n, bs)
  {
    hide Written, ArpWritten, At;
    var mem := ArpWritten(s, off, a);
    WrittenAt(s, off, a, hl, pl);
    var c := Copy(mem, off + i, n);
    forall k | 0 <= k < n ensures c[k] == Written(s, off, a, hl, pl, i + k) {
      assert At(mem, off + i + k) == At(mem, off + (i + k));
    }
  }

  lemma RecoversIff(s: seq<byte>, off: nat, a: ArpFields, hl: byte, pl: byte)
    requires Sized(a, hl, pl) && off + 1028 <= |s|
    ensures Recovers(s, off, a) <==>
            && Reads(s, off, a, hl, pl, 8, hl, a.senderHard) && Reads(s, off, a, hl, pl, 8 + hl, pl, a.senderProto)
            && Reads(s, off, a, hl, pl, 8 + hl + pl, hl, a.targetHard)
                && Reads(s, off, a, hl, pl, 8 + hl + pl + hl, pl, a.targetProto)
  {
    hide Reads, ArpWritten, At, Net16, Copy;
    WrittenAt(s, off, a, hl, pl);
    ReadIs(s, off, a, hl, pl, 8, hl, a.senderHard);
    ReadIs(s, off, a, hl, pl, 8 + hl, pl, a.senderProto);
    ReadIs(s, off, a, hl, pl, 8 + hl + pl, hl, a.targetHard);
    ReadIs(s, off, a, hl, pl, 8 + hl + pl + hl, pl, a.targetProto);
  }

  /** Writing and reading agree, for all addresses and whatever the buffer held, exactly for
      six-byte hardware with four-byte protocol addresses -- and, without protocol addresses, for
      ten-byte hardware addresses or none. */
  lemma LayoutsAgreeIff(hl: byte, pl: byte)
    ensures AlwaysRecovers(hl, pl) <==> (hl == 6 && pl == 4) || (pl == 0 && (hl == 0 || hl == 10))
  {
    hide Recovers;
    if (hl == 6 && pl == 4) || (pl == 0 && (hl == 0 || hl == 10)) {
      forall s, off: nat, a | off + 1028 <= |s| && Sized(a, hl, pl) ensures Recovers(s, off, a) {
        RecoversIff(s, off, a, hl, pl);
      }
    } else {
      Disagree(hl, pl);
    }
  }

  /** Addresses of four different bytes show it. */
  lemma Disagree(hl: byte, pl: byte)
    requires !((hl == 6 && pl == 4) || (pl == 0 && (hl == 0 || hl == 10)))
    ensures !AlwaysRecovers(hl, pl)
  {
    hide Recovers, Reads;
    var s := seq<byte>(1028, k => 0);
    var a := ArpFields(1, 2048, hl, pl, 1, seq<byte>(hl, k => 1), seq<byte>(pl, k => 2), seq<byte>(hl, k => 3),
                       seq<byte>(pl, k => 4));
    RecoversIff(s, 0, a, hl, pl);
    if pl > 0 && hl < 6 {
      // the sender's protocol address is read before where it was written
      Misread(s, a, hl, pl, 8 + hl, pl, a.senderProto, 0);
    } else if pl > 0 && hl > 6 {
      // it was written over the sender's hardware address
      Misread(s, a, hl, pl, 8, hl, a.senderHard, 6);
    } else if pl > 4 {
      // the target's hardware address was written over it
      Misread(s, a, hl, pl, 8 + hl, pl, a.senderProto, 4);
    } else if pl > 0 || hl < 10 {
      // the target's hardware address is read before where it was written
      Misread(s, a, hl, pl, 8 + hl + pl, hl, a.targetHard, 0);
    } else {
      // it was written over the sender's
      Misread(s, a, hl, pl, 8, hl, a.senderHard, 10);
    }
    assert !Recovers(s, 0, a);
  }

  lemma Misread(s: seq<byte>, a: ArpFields, hl: byte, pl: byte, i: nat, n: nat, bs: seq<byte>, k: nat)
    requires Sized(a, hl, pl) && 1028 <= |s| && i + n <= 1028 && |bs| == n
    requires k < n && Written(s, 0, a, hl, pl, i + k) != bs[k]
    ensures !Reads(s, 0, a, hl, pl, i, n, bs)
  {
  }
}
