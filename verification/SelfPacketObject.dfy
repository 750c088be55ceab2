/** SelfPacket, Packet and EthernetPacket as the objects they are: setters write through shared
    references, and the packet that is finally sent must show what was set. */
module SelfPacketObject {
  import opened Bytes
  import opened Packets
  import opened StackModel

  /** jpcap.packet.EthernetPacket. */
  class EthernetPacket {
    var dstMac: seq<byte>
    var srcMac: seq<byte>
    var frametype: word

    constructor (dst: seq<byte>, src: seq<byte>, frametype: word)
      ensures View() == Ether(dst, src, frametype)
    {
      dstMac, srcMac, this.frametype := dst, src, frametype;
    }

    function View(): Ether
      reads this
    {
      Ether(dstMac, srcMac, frametype)
    }
  }

  /** jpcap.packet.Packet: `datalink` is null or an EthernetPacket, which is all that
      SelfPacket's constructor accepts; a DatalinkPacket of another class fails its cast. */
  class PacketObject {
    var datalink: EthernetPacket?
    const body: Body
    const header: seq<byte>
    const data: seq<byte>

    constructor (datalink: EthernetPacket?, body: Body, header: seq<byte>, data: seq<byte>)
      ensures this.datalink == datalink && this.body == body && this.header == header && this.data == data
    {
      this.datalink, this.body, this.header, this.data := datalink, body, header, data;
    }

    function View(): Packet
      reads this, datalink
    {
      Packet(if datalink == null then NoDatalink else EthernetLink(datalink.View()), body, header, data)
    }
  }

  class SelfPacket {
    var packet: PacketObject
    var ethData: EthernetPacket
    var macSrc: seq<byte>
    var macDst: seq<byte>
    var etherType: word
    var upDown: bool
    var fakeMacAddress: seq<byte>
    var fakeEthType: word
    var scannedType: bool

    /** The packet refers to no Ethernet header but this one's. */
    ghost predicate Valid()
      reads this, packet
    {
      packet.datalink == null || packet.datalink == ethData
    }

    function View(): SelfPkt
      reads this, packet, ethData, packet.datalink
    {
      SelfPkt(packet.View(), ethData.View(), macSrc, macDst, etherType, upDown, fakeMacAddress, fakeEthType,
              scannedType)
    }

    constructor (p: PacketObject)
      ensures Valid() && packet == p && View() == NewSelf(p.View())
      ensures if p.datalink != null then ethData == p.datalink else fresh(ethData)
    {
      packet := p;
      if p.datalink != null {
        ethData := p.datalink;
        macSrc, macDst, etherType := p.datalink.srcMac, p.datalink.dstMac, p.datalink.frametype;
      } else {
        var e := new EthernetPacket([], [], 0);
        ethData := e;
        macSrc, macDst, etherType := [], [], 0;
      }
      upDown := true;
      fakeMacAddress, fakeEthType := ZERO_MAC, ETHERTYPE_IP;
      scannedType := false;
    }

    method SetMacSrc(mac: seq<byte>)
      requires Valid()
      modifies this`macSrc, ethData`srcMac, packet`datalink
      ensures Valid() && View() == old(View()).SetMacSrc(mac)
    {
      macSrc := mac;
      ethData.srcMac := macSrc;
      packet.datalink := ethData;
    }

    method SetMacDst(mac: seq<byte>)
      requires Valid()
      modifies this`macDst, ethData`dstMac, packet`datalink
      ensures Valid() && View() == old(View()).SetMacDst(mac)
    {
      macDst := mac;
      ethData.dstMac := macDst;
      packet.datalink := ethData;
    }

    method SetEtherType(t: word)
      requires Valid()
      modifies this`etherType, ethData`frametype, packet`datalink
      ensures Valid() && View() == old(View()).SetEtherType(t)
    {
      etherType := t;
      ethData.frametype := etherType;
      packet.datalink := ethData;
    }

    /** How Logical.run rewrites a packet on its way down. */
    method Rewrite(cfg: Config)
      requires Valid()
      modifies this, ethData, packet
      ensures Valid() && packet == old(packet) && View() == Dress(cfg, old(View()))
    {
      SetMacSrc(cfg.mac);
      SetMacDst(BROADCAST);
      if fakeEthType == ETHERTYPE_IP {
        SetEtherType(ETHERTYPE_IP);
      } else if fakeEthType == ETHERTYPE_ARP {
        SetEtherType(ETHERTYPE_ARP);
      }
    }
  }

  /** After the rewriting, what the fields of a SelfPacket say and what the packet it wraps will
      be sent with are the same: our address, broadcast, and the type asked for -- whatever
      Ethernet header the packet had, or none. */
  lemma DressedInStep(cfg: Config, sp: SelfPkt)
    requires sp.fakeType == ETHERTYPE_IP || sp.fakeType == ETHERTYPE_ARP
    ensures var d := Dress(cfg, sp);
            && d.packet.datalink == EthernetLink(Ether(BROADCAST, cfg.mac, sp.fakeType))
            && d.eth == Ether(d.macDst, d.macSrc, d.etherType) == d.packet.datalink.ether
            && d.packet.body == sp.packet.body && d.packet.data == sp.packet.data
  {
  }

  lemma Prefixes(a: seq<byte>, b: seq<byte>, i: nat)
    requires i < |a| && i < |b|
    ensures a[..i + 1] == b[..i + 1] <==> a[..i] == b[..i] && a[i] == b[i]
  {
    assert a[..i + 1] == a[..i] + [a[i]] && b[..i + 1] == b[..i] + [b[i]];
  }

  /** macAddressesFilter, loop by loop.  An address that is null or short throws, and run then
      drops the packet. */
  method MacAddressesFilter(cfg: Config, packetSrc: seq<byte>, packetDst: seq<byte>) returns (r: bool)
    requires |cfg.mac| == 6
    ensures r <==> Accepts(cfg.mac, packetSrc, packetDst)
    ensures r == MacFilter(cfg, packetSrc, packetDst)
  {
    MacFilterIff(cfg, packetSrc, packetDst);
    hide Accepts;
    if |packetSrc| < 6 || |packetDst| < 6 {
      return false;
    }
    var check1, check2, check3 := false, true, true;
    for i := 0 to 6
      invariant check1 <==> packetSrc[..i] != cfg.mac[..i]
    {
      Prefixes(packetSrc, cfg.mac, i);
      if packetSrc[i] != cfg.mac[i] {
        check1 := true;
      }
    }
    for i := 0 to 6
      invariant check2 <==> packetDst[..i] == cfg.mac[..i]
    {
      Prefixes(packetDst, cfg.mac, i);
      if packetDst[i] != cfg.mac[i] {
        check2 := false;
      }
    }
    for i := 0 to 6
      invariant check3 <==> packetDst[..i] == BROADCAST[..i]
    {
      Prefixes(packetDst, BROADCAST, i);
      if packetDst[i] != BROADCAST[i] {
        check3 := false;
      }
    }
    r := check1 && (check2 || check3);
  }
}
