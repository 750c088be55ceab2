/** What every step of every interleaving keeps, beyond the pipeline: who holds the semaphore,
    the shutdown order, the address table.  All of it together is the invariant of the stack. */
module StackLaws {
  import opened Bytes
  import opened Packets
  import opened StackModel
  import opened Pipeline
  import opened PipelineLaws
  import HexText

  // ---------------------------------------------------------------- control

  /** Who holds the semaphore of Arp; no thread has died; and a thread about to poll has
      something to poll, since each queue has one consumer. */
  ghost predicate Control(s: State) {
    && (s.lock.HeldByArp? <==> s.pc.arp.APoll? || s.pc.arp.AHandle? || s.pc.arp.APut? || s.pc.arp.ARelease?)
    && (s.lock.HeldByMenu? <==> s.pc.menu.MAsk? || s.pc.menu.MIssue? || s.pc.menu.MRelease?)
    && !s.pc.log.LCrash? && !s.pc.net.LCrash? && !s.pc.arp.ACrash? && !s.pc.ip.ICrash?
    && (s.pc.phys.PDrainPoll? ==> s.q.phys != [])
    && (s.pc.log.LPoll? ==> s.q.log != [])
    && (s.pc.net.LPoll? ==> s.q.net != [])
    && (s.pc.arp.AAcquire? || s.pc.arp.APoll? ==> s.q.arp != [])
    && (s.pc.ip.IPoll? ==> s.q.ip != [])
  }

  lemma ControlPhysical(s: State, i: Input)
    requires Control(s)
    ensures Control(PhysicalStep(s, i))
  {
    hide NewSelf;
  }

  lemma ControlLogical(cfg: Config, s: State)
    requires Control(s)
    ensures Control(LogicalStep(cfg, s))
  {
    hide Dress, MacFilter;
  }

  lemma ControlNetwork(s: State)
    requires Control(s)
    ensures Control(NetworkStep(s))
  {
  }

  lemma ControlMenu(cfg: Config, s: State, ev: Event)
    requires Control(s) && ev.thread.MenuT?
    ensures Control(Step(cfg, s, ev))
  {
    hide OwnSelf, Request, PhysicalStep, LogicalStep, NetworkStep, ArpStep, IpStep;
  }

  lemma ControlArp(cfg: Config, s: State)
    requires Control(s) && Typed(cfg, FlowOf(s))
    ensures Control(ArpStep(cfg, s))
  {
    hide OwnSelf, Reply, Replies, Typed, FlowOf;
    if s.pc.arp.APoll? {
      ArpInputTyped(cfg, s, s.q.arp[0]);
    }
  }

  lemma ControlIp(cfg: Config, s: State)
    requires Control(s) && Typed(cfg, FlowOf(s))
    ensures Control(IpStep(s))
  {
    hide IsIpBody, Typed, FlowOf;
    if s.pc.ip.IPoll? {
      IpInputTyped(cfg, s, s.q.ip[0]);
    }
  }

  lemma ControlStep(cfg: Config, s: State, ev: Event)
    requires Control(s) && Typed(cfg, FlowOf(s))
    ensures Control(Step(cfg, s, ev))
  {
    hide Control, Typed, FlowOf, PhysicalStep, LogicalStep, NetworkStep, ArpStep, IpStep, MenuStep;
    match ev.thread
    case ArpT => ControlArp(cfg, s);
    case IpT => ControlIp(cfg, s);
    case MenuT => ControlMenu(cfg, s, ev);
    case PhysicalT => ControlPhysical(s, ev.input);
    case LogicalT => ControlLogical(cfg, s);
    case NetworkT => ControlNetwork(s);
  }

  /** The casts in Arp.run and Ip.run succeed. */
  lemma ArpInputTyped(cfg: Config, s: State, sp: SelfPkt)
    requires Typed(cfg, FlowOf(s)) && sp in s.hist.arp + s.q.arp
    ensures sp.packet.body.Arp? && sp.fakeMac == cfg.mac
  {
    assert Dispatched(cfg, ETHERTYPE_ARP, sp);
  }

  lemma IpInputTyped(cfg: Config, s: State, sp: SelfPkt)
    requires Typed(cfg, FlowOf(s)) && sp in s.hist.ip + s.q.ip
    ensures IsIpBody(sp.packet.body)
  {
    assert Dispatched(cfg, ETHERTYPE_IP, sp);
  }

  // ---------------------------------------------------------------- shutdown

  /** A finish flag is up exactly when the thread below has left its loop, in the order menu,
      Physical, Logical, Network, protocols; and no thread leaves before its flag is up. */
  ghost predicate Shutdown(s: State) {
    && (s.fin.phys <==> s.pc.menu.MDone?)
    && (s.fin.log <==> s.pc.phys.PDone?)
    && (s.fin.net <==> s.pc.log.LDone?)
    && (s.fin.arp <==> s.pc.net.LDone?) && (s.fin.ip <==> s.pc.net.LDone?)
    && (s.pc.phys.PDone? ==> s.fin.phys) && (s.pc.log.LDone? ==> s.fin.log) && (s.pc.net.LDone? ==> s.fin.net)
    && (s.pc.arp.ADone? ==> s.fin.arp) && (s.pc.ip.IDone? ==> s.fin.ip)
  }

  lemma ShutdownPhysical(s: State, i: Input)
    requires Shutdown(s)
    ensures Shutdown(PhysicalStep(s, i))
  {
    hide NewSelf;
  }

  lemma ShutdownLogical(cfg: Config, s: State)
    requires Shutdown(s)
    ensures Shutdown(LogicalStep(cfg, s))
  {
    hide Dress, MacFilter;
  }

  lemma ShutdownNetwork(s: State)
    requires Shutdown(s)
    ensures Shutdown(NetworkStep(s))
  {
  }

  lemma ShutdownProtocols(cfg: Config, s: State)
    requires Shutdown(s)
    ensures Shutdown(ArpStep(cfg, s)) && Shutdown(IpStep(s))
  {
    hide OwnSelf, Reply, Replies, IsIpBody, HexText.ByteToStr;
  }

  lemma ShutdownMenu(cfg: Config, s: State, i: Input)
    requires Shutdown(s)
    ensures Shutdown(MenuStep(cfg, s, i))
  {
    hide OwnSelf, Request, HexText.ByteToStr;
  }

  lemma ShutdownStep(cfg: Config, s: State, ev: Event)
    requires Shutdown(s)
    ensures Shutdown(Step(cfg, s, ev))
  {
    hide Shutdown, PhysicalStep, LogicalStep, NetworkStep, ArpStep, IpStep, MenuStep;
    match ev.thread
    case PhysicalT => ShutdownPhysical(s, ev.input);
    case LogicalT => ShutdownLogical(cfg, s);
    case NetworkT => ShutdownNetwork(s);
    case ArpT => ShutdownProtocols(cfg, s);
    case IpT => ShutdownProtocols(cfg, s);
    case MenuT => ShutdownMenu(cfg, s, ev.input);
  }

  // ---------------------------------------------------------------- the address table

  /** What Arp.run does with one packet: the first reply for an address is kept. */
  function Learn(t: map<string, string>, sp: SelfPkt): map<string, string> {
    if sp.packet.body.Arp? && sp.packet.body.arp.operation == ARP_REPLY &&
       HexText.ByteToStr(sp.packet.body.arp.senderProto) !in t
    then t[HexText.ByteToStr(sp.packet.body.arp.senderProto) := HexText.ByteToStr(sp.packet.body.arp.senderHard)]
    else t
  }

  function Learned(q: seq<SelfPkt>): map<string, string> {
    if q == [] then map[] else Learn(Learned(q[..|q| - 1]), q[|q| - 1])
  }

  /** The table is the fold of the packets handled.  Between the test and the insertion it lags
      by the packet in hand, and the semaphore keeps requestIP from looking at it then. */
  ghost predicate TableFor(table: map<string, string>, seen: seq<SelfPkt>, arp: ArpPc, menu: MenuPc) {
    && (match arp
        case AHandle(a, fakeMac) =>
          seen != [] && seen[|seen| - 1].packet.body == Arp(a) && seen[|seen| - 1].fakeMac == fakeMac
          && table == Learned(seen[..|seen| - 1])
        case APut(key, val) => key !in table && Learned(seen) == table[key := val]
        case _ => table == Learned(seen))
    && (menu.MIssue? ==> HexText.ByteToStr(menu.ip) !in table)
  }

  ghost predicate Table(s: State) {
    TableFor(s.table, s.hist.arp, s.pc.arp, s.pc.menu)
  }

  lemma TableArp(cfg: Config, s: State)
    requires Table(s) && Control(s)
    ensures Table(ArpStep(cfg, s))
    ensures forall k | k in s.table :: k in ArpStep(cfg, s).table && ArpStep(cfg, s).table[k] == s.table[k]
  {
    hide OwnSelf, Reply, HexText.ByteToStr;
    match s.pc.arp
    case APoll => TableArpPoll(cfg, s);
    case AHandle(_, _) => TableArpHandle(cfg, s);
    case _ => hide Learned, ArpHandle, ArpPoll;
  }

  lemma TableArpPoll(cfg: Config, s: State)
    requires Table(s) && Control(s) && s.pc.arp.APoll?
    ensures Table(ArpStep(cfg, s)) && ArpStep(cfg, s).table == s.table
  {
    hide ArpHandle, HexText.ByteToStr;
    var t := ArpStep(cfg, s);
    assert t.hist.arp[..|t.hist.arp| - 1] == s.hist.arp;
  }

  lemma TableArpHandle(cfg: Config, s: State)
    requires Table(s) && Control(s) && s.pc.arp.AHandle?
    ensures Table(ArpStep(cfg, s)) && ArpStep(cfg, s).table == s.table
  {
    hide OwnSelf, Reply, HexText.ByteToStr;
    var seen, t := s.hist.arp, ArpStep(cfg, s);
    assert t.hist.arp == seen && t.pc.menu == s.pc.menu;
    assert Learned(seen) == Learn(Learned(seen[..|seen| - 1]), seen[|seen| - 1]);
  }

  lemma TableMenu(cfg: Config, s: State, i: Input)
    requires Table(s)
    ensures Table(MenuStep(cfg, s, i)) && MenuStep(cfg, s, i).table == s.table
  {
    hide OwnSelf, Request, Learned;
  }

  lemma TableStep(cfg: Config, s: State, ev: Event)
    requires Table(s) && Control(s)
    ensures Table(Step(cfg, s, ev))
    ensures forall k | k in s.table :: k in Step(cfg, s, ev).table && Step(cfg, s, ev).table[k] == s.table[k]
  {
    hide TableFor, Control, ArpStep, MenuStep, Dress, MacFilter, NewSelf;
    match ev.thread
    case ArpT => TableArp(cfg, s);
    case MenuT => TableMenu(cfg, s, ev.input);
    case _ =>
  }

  // ---------------------------------------------------------------- together

  ghost predicate Invariant(cfg: Config, s: State) {
    && Typed(cfg, FlowOf(s))
    && UpConserved(cfg, ETHERTYPE_ARP, FlowOf(s)) && UpConserved(cfg, ETHERTYPE_IP, FlowOf(s))
    && DownConserved(FlowOf(s))
    && Control(s) && Shutdown(s) && Table(s)
  }

  lemma InvariantInitially(cfg: Config)
    ensures Invariant(cfg, Initial)
  {
  }

  /** What requestIP and the reply branch put into the pipeline is an ARP packet of our own. */
  lemma MovesAreGood(cfg: Config, s: State, ev: Event)
    requires Typed(cfg, FlowOf(s)) && Table(s) && GoodInput(ev.input)
    ensures GoodMove(cfg, MoveOf(cfg, s, ev))
  {
    if ev.thread.ArpT? && s.pc.arp.AHandle? {
      var sp := s.hist.arp[|s.hist.arp| - 1];
      ArpInputTyped(cfg, s, sp);
    }
  }

  lemma InvariantStep(cfg: Config, s: State, ev: Event)
    requires Invariant(cfg, s) && GoodInput(ev.input)
    ensures Invariant(cfg, Step(cfg, s, ev))
  {
    hide FlowOf, Typed, UpConserved, DownConserved, Control, Shutdown, Table, Step, MoveOf, Apply, Enabled,
        GoodMove, GoodInput;
    StepRefines(cfg, s, ev);
    MovesAreGood(cfg, s, ev);
    TypedMove(cfg, FlowOf(s), MoveOf(cfg, s, ev));
    UpMove(cfg, ETHERTYPE_ARP, FlowOf(s), MoveOf(cfg, s, ev));
    UpMove(cfg, ETHERTYPE_IP, FlowOf(s), MoveOf(cfg, s, ev));
    DownMove(cfg, FlowOf(s), MoveOf(cfg, s, ev));
    ControlStep(cfg, s, ev);
    ShutdownStep(cfg, s, ev);
    TableStep(cfg, s, ev);
  }

  lemma {:induction false} InvariantRun(cfg: Config, s: State, events: seq<Event>)
    requires Invariant(cfg, s) && GoodSchedule(events)
    ensures Invariant(cfg, Run(cfg, s, events))
    decreases |events|
  {
    hide Invariant, Step, GoodInput;
    if events != [] {
      InvariantStep(cfg, s, events[0]);
      InvariantRun(cfg, Step(cfg, s, events[0]), events[1..]);
    }
  }
}
