/** The threaded layer stack of src/r0p3 as a step machine: the threads Physical, Logical,
    Network, Arp, Ip and the menu, each a small program over shared queues.  One step is one
    test, poll, delivery, append, acquire or release; any interleaving of steps is a run. */
module StackModel {
  import opened Bytes
  import opened Packets
  import HexText

  /** What the user configures, and how line 42 of Arp.java compares addresses: the code
      compares references to two different arrays, which never agree; its comment asks for a
      comparison of contents.  Every result below holds for both. */
  datatype Config = Config(mac: seq<byte>, ip: seq<byte>, compareContents: bool) {
    ghost predicate Valid() {
      |mac| == 6 && |ip| == 4
    }
  }

  const BROADCAST: seq<byte> := [0xff, 0xff, 0xff, 0xff, 0xff, 0xff]
  const ZERO_MAC: seq<byte> := [0, 0, 0, 0, 0, 0]

  // ---------------------------------------------------------------- SelfPacket

  /** A SelfPacket: `eth` is eth_data, null addresses are empty. */
  datatype SelfPkt = SelfPkt(
    packet: Packet, eth: Ether, macSrc: seq<byte>, macDst: seq<byte>, etherType: word,
    up: bool, fakeMac: seq<byte>, fakeType: word, scanned: bool)
  {
    function SetMacSrc(mac: seq<byte>): SelfPkt {
      var e := eth.(src := mac);
      this.(macSrc := mac, eth := e, packet := packet.(datalink := EthernetLink(e)))
    }

    function SetMacDst(mac: seq<byte>): SelfPkt {
      var e := eth.(dst := mac);
      this.(macDst := mac, eth := e, packet := packet.(datalink := EthernetLink(e)))
    }

    function SetEtherType(t: word): SelfPkt {
      var e := eth.(frametype := t);
      this.(etherType := t, eth := e, packet := packet.(datalink := EthernetLink(e)))
    }
  }

  /** The constructor of SelfPacket. */
  function NewSelf(p: Packet): SelfPkt {
    var e := if p.datalink.EthernetLink? then p.datalink.ether else Ether([], [], 0);
    SelfPkt(p, e, e.src, e.dst, e.frametype, true, ZERO_MAC, ETHERTYPE_IP, false)
  }

  /** A packet of our own making, as requestIP and Arp.run wrap it. */
  function OwnSelf(a: ArpFields): SelfPkt {
    NewSelf(Packet(NoDatalink, Arp(a), [], [])).(scanned := true, fakeType := ETHERTYPE_ARP)
  }

  /** macAddressesFilter: not sent by us, and sent to us or to everybody.  Addresses that are
      missing make it throw, and run then drops the packet. */
  predicate MacFilter(cfg: Config, src: seq<byte>, dst: seq<byte>) {
    |src| >= 6 && |dst| >= 6 && |cfg.mac| >= 6 &&
    src[..6] != cfg.mac[..6] && (dst[..6] == cfg.mac[..6] || dst[..6] == BROADCAST)
  }

  /** The same on the single bytes: some byte of the source is not ours; and every byte of the
      destination is ours, or every one is 0xff. */
  ghost predicate Accepts(mac: seq<byte>, src: seq<byte>, dst: seq<byte>) {
    |src| >= 6 && |dst| >= 6 && |mac| >= 6
    && (exists i | 0 <= i < 6 :: src[i] != mac[i])
    && ((forall i | 0 <= i < 6 :: dst[i] == mac[i]) || (forall i | 0 <= i < 6 :: dst[i] == 0xff))
  }

  lemma MacFilterIff(cfg: Config, src: seq<byte>, dst: seq<byte>)
    ensures MacFilter(cfg, src, dst) <==> Accepts(cfg.mac, src, dst)
  {
    if |src| >= 6 && |dst| >= 6 && |cfg.mac| >= 6 {
      SixBytes(src, cfg.mac);
      SixBytes(dst, cfg.mac);
      SixBytes(dst, BROADCAST);
      assert BROADCAST[..6] == BROADCAST;
    }
  }

  lemma SixBytes(a: seq<byte>, b: seq<byte>)
    requires |a| >= 6 && |b| >= 6
    ensures a[..6] == b[..6] <==> forall i | 0 <= i < 6 :: a[i] == b[i]
  {
    assert forall i | 0 <= i < 6 :: a[..6][i] == a[i] && b[..6][i] == b[i];
  }

  /** How Logical.run rewrites a packet on its way down. */
  function Dress(cfg: Config, sp: SelfPkt): SelfPkt {
    var s := sp.SetMacSrc(cfg.mac).SetMacDst(BROADCAST);
    if sp.fakeType == ETHERTYPE_IP || sp.fakeType == ETHERTYPE_ARP then s.SetEtherType(sp.fakeType) else s
  }

  // ---------------------------------------------------------------- Arp

  function Request(cfg: Config, ip: seq<byte>): ArpFields {
    ArpFields(1, 2048, 6, 4, ARP_REQUEST, cfg.mac, cfg.ip, ZERO_MAC, ip)
  }

  function Reply(a: ArpFields, fakeMac: seq<byte>): ArpFields {
    ArpFields(a.hardtype, a.prototype, a.hlen, a.plen, ARP_REPLY, fakeMac, a.targetProto, a.senderHard, a.senderProto)
  }

  /** The test of lines 42 and 43 of Arp.java. */
  predicate Replies(cfg: Config, a: ArpFields) {
    cfg.compareContents && a.targetHard == ZERO_MAC && a.operation == ARP_REQUEST
  }

  // ---------------------------------------------------------------- state

  datatype Holder = Free | HeldByArp | HeldByMenu

  datatype PhysicalPc = PTest | PCapture | PForward(sp: SelfPkt) | PDrainTest | PDrainPoll | PSend(sp: SelfPkt) | PDone
  datatype LayerPc = LTest | LCheck | LPoll | LDeliver(sp: SelfPkt) | LDone | LCrash
  datatype ArpPc = ATest | ACheck | AAcquire | APoll | AHandle(a: ArpFields, fakeMac: seq<byte>)
      | APut(key: string, val: string) | ARelease | ADone | ACrash
  datatype IpPc = ITest | ICheck | IPoll | IDone | ICrash
  datatype MenuPc = MChoose | MAcquire | MAsk | MIssue(ip: seq<byte>) | MRelease | MExit | MDone

  /** Histories: frames captured, packets of our own issued, frames handed to the sender of
      jpcap, packets the protocols have polled. */
  datatype History = History(
    captured: seq<Packet>, issued: seq<ArpFields>, handed: seq<Packet>, arp: seq<SelfPkt>, ip: seq<SelfPkt>)

  /** The packet_list of each layer and protocol. */
  datatype Queues = Queues(phys: seq<SelfPkt>, log: seq<SelfPkt>, net: seq<SelfPkt>, arp: seq<SelfPkt>,
                           ip: seq<SelfPkt>)

  /** The finish flags. */
  datatype Flags = Flags(phys: bool, log: bool, net: bool, arp: bool, ip: bool)

  /** Where each thread is. */
  datatype Threads = Threads(phys: PhysicalPc, log: LayerPc, net: LayerPc, arp: ArpPc, ip: IpPc, menu: MenuPc)

  /** `table` is the map of Arp, `lock` its semaphore; the semaphores of the layers and of Ip
      are each used by one thread only and are left out. */
  datatype State = State(hist: History, q: Queues, table: map<string, string>, lock: Holder, fin: Flags, pc: Threads)

  const Initial: State := State(
    History([], [], [], [], []), Queues([], [], [], [], []), map[], Free, Flags(false, false, false, false, false),
    Threads(PTest, LTest, LTest, ATest, ITest, MChoose))

  // ---------------------------------------------------------------- steps

  datatype Thread = PhysicalT | LogicalT | NetworkT | ArpT | IpT | MenuT

  /** What the outside supplies at a step: the frame getPacket returns, if any, the menu option
      chosen, the address in a line that the validator accepts, if the user has typed one. */
  datatype Input = Input(frame: Option<Packet>, option: int, address: Option<seq<byte>>)

  datatype Event = Event(thread: Thread, input: Input)

  /** Physical.run.  A poll that yields null throws inside the loop, which catches it. */
  function PhysicalStep(s: State, i: Input): State {
    match s.pc.phys
    case PTest => if s.fin.phys then s.(fin := s.fin.(log := true),
        pc := s.pc.(phys := PDone)) else s.(pc := s.pc.(phys := PCapture))
    case PCapture =>
      (match i.frame
       case None => s.(pc := s.pc.(phys := PDrainTest))
       case Some(p) =>
         // a datalink of another class fails the cast in the constructor of SelfPacket
         s.(hist := s.hist.(captured := s.hist.captured + [p]),
            pc := s.pc.(phys := if p.datalink.OtherDatalink? then PDrainTest else PForward(NewSelf(p)))))
    case PForward(sp) => s.(q := s.q.(log := s.q.log + [sp]), pc := s.pc.(phys := PDrainTest))
    case PDrainTest => s.(pc := s.pc.(phys := if s.q.phys != [] then PDrainPoll else PTest))
    case PDrainPoll =>
      if s.q.phys == [] then s.(pc := s.pc.(phys := PTest))
      else s.(q := s.q.(phys := s.q.phys[1..]), pc := s.pc.(phys := PSend(s.q.phys[0])))
    case PSend(sp) => s.(hist := s.hist.(handed := s.hist.handed + [sp.packet]), pc := s.pc.(phys := PTest))
    case PDone => s
  }

  /** Logical.run.  A poll that yields null goes round the loop again. */
  function LogicalStep(cfg: Config, s: State): State {
    match s.pc.log
    case LTest => if s.fin.log then s.(fin := s.fin.(net := true),
        pc := s.pc.(log := LDone)) else s.(pc := s.pc.(log := LCheck))
    case LCheck => s.(pc := s.pc.(log := if s.q.log != [] then LPoll else LTest))
    case LPoll =>
      if s.q.log == [] then s.(pc := s.pc.(log := LTest))
      else s.(q := s.q.(log := s.q.log[1..]), pc := s.pc.(log := LDeliver(s.q.log[0])))
    case LDeliver(sp) =>
      if !sp.up then s.(q := s.q.(phys := s.q.phys + [Dress(cfg, sp)]), pc := s.pc.(log := LTest))
      else if MacFilter(cfg, sp.macSrc, sp.macDst)
      then s.(q := s.q.(net := s.q.net + [sp.(fakeMac := cfg.mac)]), pc := s.pc.(log := LTest))
      else s.(pc := s.pc.(log := LTest))
    case LDone => s
    case LCrash => s
  }

  /** Network.run.  A poll that yields null is not caught, and the thread dies. */
  function NetworkStep(s: State): State {
    match s.pc.net
    case LTest =>
      if s.fin.net then s.(fin := s.fin.(ip := true, arp := true),
          pc := s.pc.(net := LDone)) else s.(pc := s.pc.(net := LCheck))
    case LCheck => s.(pc := s.pc.(net := if s.q.net != [] then LPoll else LTest))
    case LPoll =>
      if s.q.net == [] then s.(pc := s.pc.(net := LCrash))
      else s.(q := s.q.(net := s.q.net[1..]), pc := s.pc.(net := LDeliver(s.q.net[0])))
    case LDeliver(sp) =>
      if sp.scanned then s.(q := s.q.(log := s.q.log + [sp.(up := false)]), pc := s.pc.(net := LTest))
      else if sp.etherType == ETHERTYPE_IP
      then s.(q := s.q.(ip := s.q.ip + [sp.(scanned := true)]), pc := s.pc.(net := LTest))
      else if sp.etherType == ETHERTYPE_ARP
      then s.(q := s.q.(arp := s.q.arp + [sp.(scanned := true)]), pc := s.pc.(net := LTest))
      else s.(pc := s.pc.(net := LTest))
    case LDone => s
    case LCrash => s
  }

  /** Arp.run.  Null, or a class other than ARPPacket, is not caught, and the thread dies. */
  function ArpStep(cfg: Config, s: State): State {
    match s.pc.arp
    case ATest => s.(pc := s.pc.(arp := if s.fin.arp then ADone else ACheck))
    case ACheck => s.(pc := s.pc.(arp := if s.q.arp != [] then AAcquire else ATest))
    case AAcquire => if s.lock.Free? then s.(lock := HeldByArp, pc := s.pc.(arp := APoll)) else s
    case APoll => if s.q.arp == [] then s.(pc := s.pc.(arp := ACrash)) else ArpPoll(s, s.q.arp[0])
    case AHandle(a, fakeMac) => ArpHandle(cfg, s, a, fakeMac)
    case APut(key, val) => s.(table := s.table[key := val], pc := s.pc.(arp := ARelease))
    case ARelease => s.(lock := Free, pc := s.pc.(arp := ATest))
    case ADone => s
    case ACrash => s
  }

  function ArpPoll(s: State, sp: SelfPkt): State
    requires s.q.arp != []
  {
    s.(q := s.q.(arp := s.q.arp[1..]), hist := s.hist.(arp := s.hist.arp + [sp]),
       pc := s.pc.(arp := if sp.packet.body.Arp? then AHandle(sp.packet.body.arp, sp.fakeMac) else ACrash))
  }

  function ArpHandle(cfg: Config, s: State, a: ArpFields, fakeMac: seq<byte>): State {
    if Replies(cfg, a) then
      var r := Reply(a, fakeMac);
      s.(q := s.q.(net := s.q.net + [OwnSelf(r)]), hist := s.hist.(issued := s.hist.issued + [r]),
          pc := s.pc.(arp := ARelease))
    else if a.operation == ARP_REPLY && HexText.ByteToStr(a.senderProto) !in s.table then
      s.(pc := s.pc.(arp := APut(HexText.ByteToStr(a.senderProto), HexText.ByteToStr(a.senderHard))))
    else s.(pc := s.pc.(arp := ARelease))
  }

  predicate IsIpBody(b: Body) {
    b.Ip? || b.Tcp? || b.Udp? || b.Icmp?
  }

  /** Ip.run.  Null, or a class other than IPPacket, is not caught, and the thread dies. */
  function IpStep(s: State): State {
    match s.pc.ip
    case ITest => s.(pc := s.pc.(ip := if s.fin.ip then IDone else ICheck))
    case ICheck => s.(pc := s.pc.(ip := if s.q.ip != [] then IPoll else ITest))
    case IPoll =>
      if s.q.ip == [] then s.(pc := s.pc.(ip := ICrash))
      else s.(q := s.q.(ip := s.q.ip[1..]), hist := s.hist.(ip := s.hist.ip + [s.q.ip[0]]),
              pc := s.pc.(ip := if IsIpBody(s.q.ip[0].packet.body) then ITest else ICrash))
    case IDone => s
    case ICrash => s
  }

  /** The menu of Main, with requestIP inside it: the address is read, looked up and asked for
      while the semaphore is held. */
  function MenuStep(cfg: Config, s: State, i: Input): State {
    match s.pc.menu
    case MChoose =>
      s.(pc := s.pc.(menu := if i.option == 1 then MAcquire else if i.option == 2 then MExit else MChoose))
    case MAcquire => if s.lock.Free? then s.(lock := HeldByMenu, pc := s.pc.(menu := MAsk)) else s
    case MAsk =>
      // the prompt waits, and repeats, until there is a valid line
      if i.address.None? then s
      else
        var ip := i.address.value;
        s.(pc := s.pc.(menu := if HexText.ByteToStr(ip) in s.table then MRelease else MIssue(ip)))
    case MIssue(ip) =>
      var r := Request(cfg, ip);
      s.(q := s.q.(net := s.q.net + [OwnSelf(r)]), hist := s.hist.(issued := s.hist.issued + [r]),
          pc := s.pc.(menu := MRelease))
    case MRelease => s.(lock := Free, pc := s.pc.(menu := MChoose))
    case MExit => s.(fin := s.fin.(phys := true), pc := s.pc.(menu := MDone))
    case MDone => s
  }

  function Step(cfg: Config, s: State, ev: Event): State {
    match ev.thread
    case PhysicalT => PhysicalStep(s, ev.input)
    case LogicalT => LogicalStep(cfg, s)
    case NetworkT => NetworkStep(s)
    case ArpT => ArpStep(cfg, s)
    case IpT => IpStep(s)
    case MenuT => MenuStep(cfg, s, ev.input)
  }

  /** A run: any schedule of the threads, with any inputs. */
  function Run(cfg: Config, s: State, events: seq<Event>): State
    decreases |events|
  {
    if events == [] then s else Run(cfg, Step(cfg, s, events[0]), events[1..])
  }

  /** What the parser of jpcap guarantees of a captured frame: six-byte addresses, and a packet
      class that goes with the frame type (ParserLaws.FrameTypeFixesClass). */
  predicate WellTyped(p: Packet) {
    p.datalink.EthernetLink? ==>
      && |p.datalink.ether.src| == 6 && |p.datalink.ether.dst| == 6
      && (p.datalink.ether.frametype == ETHERTYPE_ARP ==> p.body.Arp?)
      && (p.datalink.ether.frametype == ETHERTYPE_IP ==> IsIpBody(p.body))
  }

  predicate GoodInput(i: Input) {
    i.frame.Some? ==> WellTyped(i.frame.value)
  }

  ghost predicate GoodSchedule(events: seq<Event>) {
    forall ev | ev in events :: GoodInput(ev.input)
  }

  lemma {:induction false} RunAppend(cfg: Config, s: State, a: seq<Event>, b: seq<Event>)
    ensures Run(cfg, s, a + b) == Run(cfg, Run(cfg, s, a), b)
    decreases |a|
  {
    if a == [] {
      assert a + b == b;
    } else {
      RunAppend(cfg, Step(cfg, s, a[0]), a[1..], b);
      assert (a + b)[1..] == a[1..] + b;
    }
  }
}
