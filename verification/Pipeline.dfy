/** The stack without its threads: one sequential pipeline of first-in first-out lines.  Every
    step of every thread is a step of this pipeline or leaves it as it is, so what holds of all
    its runs holds of all interleavings. */
module Pipeline {
  import opened Bytes
  import opened Packets
  import opened StackModel

  /** A line is a queue together with the packet its consumer has polled but not delivered;
      `arriving` holds the frame Physical has captured but not appended.  `arpIn` and `ipIn`
      are what the protocols have polled followed by what waits in their queues. */
  datatype Flow = Flow(
    captured: seq<Packet>, issued: seq<ArpFields>, handed: seq<Packet>,
    arriving: seq<SelfPkt>, logLine: seq<SelfPkt>, netLine: seq<SelfPkt>, physLine: seq<SelfPkt>,
    arpIn: seq<SelfPkt>, ipIn: seq<SelfPkt>)

  function InFlight(pc: LayerPc): seq<SelfPkt> {
    if pc.LDeliver? then [pc.sp] else []
  }

  function FlowOf(s: State): Flow {
    Flow(
      s.hist.captured, s.hist.issued, s.hist.handed,
      if s.pc.phys.PForward? then [s.pc.phys.sp] else [],
      InFlight(s.pc.log) + s.q.log,
      InFlight(s.pc.net) + s.q.net,
      (if s.pc.phys.PSend? then [s.pc.phys.sp] else []) + s.q.phys,
      s.hist.arp + s.q.arp,
      s.hist.ip + s.q.ip)
  }

  datatype Move = Stay | Capture(p: Packet) | Arrive | Route | Dispatch | Transmit | Issue(a: ArpFields)

  ghost predicate Enabled(f: Flow, m: Move) {
    match m
    case Capture(p) => f.arriving == []
    case Arrive => |f.arriving| == 1
    case Route => f.logLine != []
    case Dispatch => f.netLine != []
    case Transmit => f.physLine != []
    case _ => true
  }

  /** Logical delivers the head of its line. */
  function RouteHead(cfg: Config, f: Flow): Flow
    requires f.logLine != []
  {
    var sp, g := f.logLine[0], f.(logLine := f.logLine[1..]);
    if !sp.up then g.(physLine := f.physLine + [Dress(cfg, sp)])
    else if MacFilter(cfg, sp.macSrc, sp.macDst) then g.(netLine := f.netLine + [sp.(fakeMac := cfg.mac)])
    else g
  }

  /** Network delivers the head of its line. */
  function DispatchHead(f: Flow): Flow
    requires f.netLine != []
  {
    var sp, g := f.netLine[0], f.(netLine := f.netLine[1..]);
    if sp.scanned then g.(logLine := f.logLine + [sp.(up := false)])
    else if sp.etherType == ETHERTYPE_IP then g.(ipIn := f.ipIn + [sp.(scanned := true)])
    else if sp.etherType == ETHERTYPE_ARP then g.(arpIn := f.arpIn + [sp.(scanned := true)])
    else g
  }

  function Apply(cfg: Config, f: Flow, m: Move): Flow
    requires Enabled(f, m)
  {
    match m
    case Stay => f
    case Capture(p) =>
      f.(captured := f.captured + [p], arriving := if p.datalink.OtherDatalink? then [] else [NewSelf(p)])
    case Arrive => f.(arriving := [], logLine := f.logLine + f.arriving)
    case Route => RouteHead(cfg, f)
    case Dispatch => DispatchHead(f)
    case Transmit => f.(handed := f.handed + [f.physLine[0].packet], physLine := f.physLine[1..])
    case Issue(a) => f.(netLine := f.netLine + [OwnSelf(a)], issued := f.issued + [a])
  }

  // ---------------------------------------------------------------- the threads refine it

  /** The move of the pipeline that a step of a thread is. */
  function MoveOf(cfg: Config, s: State, ev: Event): Move {
    match ev.thread
    case PhysicalT =>
      if s.pc.phys.PCapture? && ev.input.frame.Some? then Capture(ev.input.frame.value)
      else if s.pc.phys.PForward? then Arrive
      else if s.pc.phys.PSend? then Transmit
      else Stay
    case LogicalT => if s.pc.log.LDeliver? then Route else Stay
    case NetworkT => if s.pc.net.LDeliver? then Dispatch else Stay
    case ArpT => if s.pc.arp.AHandle?
        && Replies(cfg, s.pc.arp.a) then Issue(Reply(s.pc.arp.a, s.pc.arp.fakeMac)) else Stay
    case IpT => Stay
    case MenuT => if s.pc.menu.MIssue? then Issue(Request(cfg, s.pc.menu.ip)) else Stay
  }

  lemma PollKeepsLine(done: seq<SelfPkt>, q: seq<SelfPkt>)
    requires q != []
    ensures done + [q[0]] + q[1..] == done + q
    ensures [q[0]] + q[1..] == q
  {
  }

  lemma AppendToLine(a: seq<SelfPkt>, b: seq<SelfPkt>, c: seq<SelfPkt>)
    ensures a + (b + c) == a + b + c
  {
  }

  lemma DeliverHead(sp: SelfPkt, q: seq<SelfPkt>)
    ensures ([sp] + q)[0] == sp && ([sp] + q)[1..] == q && [] + q == q
  {
  }

  lemma PhysicalRefines(cfg: Config, s: State, i: Input)
    ensures Enabled(FlowOf(s), MoveOf(cfg, s, Event(PhysicalT, i)))
    ensures FlowOf(PhysicalStep(s, i)) == Apply(cfg, FlowOf(s), MoveOf(cfg, s, Event(PhysicalT, i)))
  {
    hide NewSelf, InFlight;
    if s.pc.phys.PForward? {
      AppendToLine(InFlight(s.pc.log), s.q.log, [s.pc.phys.sp]);
    } else if s.pc.phys.PDrainPoll? {
      if s.q.phys != [] {
        PollKeepsLine([], s.q.phys);
      }
    } else if s.pc.phys.PSend? {
      DeliverHead(s.pc.phys.sp, s.q.phys);
    }
  }

  lemma LogicalDelivers(cfg: Config, s: State)
    requires s.pc.log.LDeliver?
    ensures FlowOf(s).logLine != []
    ensures FlowOf(LogicalStep(cfg, s)) == RouteHead(cfg, FlowOf(s))
  {
    hide Dress, MacFilter;
    var sp := s.pc.log.sp;
    DeliverHead(sp, s.q.log);
    if !sp.up {
      AppendToLine(if s.pc.phys.PSend? then [s.pc.phys.sp] else [], s.q.phys, [Dress(cfg, sp)]);
    } else {
      AppendToLine(InFlight(s.pc.net), s.q.net, [sp.(fakeMac := cfg.mac)]);
    }
  }

  lemma LogicalStays(cfg: Config, s: State)
    requires !s.pc.log.LDeliver?
    ensures FlowOf(LogicalStep(cfg, s)) == FlowOf(s)
  {
    if s.pc.log.LPoll? && s.q.log != [] {
      PollKeepsLine([], s.q.log);
    }
  }

  lemma NetworkDelivers(s: State)
    requires s.pc.net.LDeliver?
    ensures FlowOf(s).netLine != []
    ensures FlowOf(NetworkStep(s)) == DispatchHead(FlowOf(s))
  {
    var sp := s.pc.net.sp;
    DeliverHead(sp, s.q.net);
    if sp.scanned {
      AppendToLine(InFlight(s.pc.log), s.q.log, [sp.(up := false)]);
    } else if sp.etherType == ETHERTYPE_IP {
      AppendToLine(s.hist.ip, s.q.ip, [sp.(scanned := true)]);
    } else if sp.etherType == ETHERTYPE_ARP {
      AppendToLine(s.hist.arp, s.q.arp, [sp.(scanned := true)]);
    }
  }

  lemma NetworkStays(s: State)
    requires !s.pc.net.LDeliver?
    ensures FlowOf(NetworkStep(s)) == FlowOf(s)
  {
    if s.pc.net.LPoll? && s.q.net != [] {
      PollKeepsLine([], s.q.net);
    }
  }

  lemma ArpReplies(cfg: Config, s: State)
    requires s.pc.arp.AHandle? && Replies(cfg, s.pc.arp.a)
    ensures FlowOf(ArpStep(cfg, s)) == Apply(cfg, FlowOf(s), Issue(Reply(s.pc.arp.a, s.pc.arp.fakeMac)))
  {
    hide OwnSelf, Reply, Replies, InFlight;
    var r := Reply(s.pc.arp.a, s.pc.arp.fakeMac);
    AppendToLine(InFlight(s.pc.net), s.q.net, [OwnSelf(r)]);
  }

  lemma ArpStays(cfg: Config, s: State)
    requires s.pc.arp.AHandle? ==> !Replies(cfg, s.pc.arp.a)
    ensures FlowOf(ArpStep(cfg, s)) == FlowOf(s)
  {
    hide Replies, InFlight;
    if s.pc.arp.APoll? && s.q.arp != [] {
      PollKeepsLine(s.hist.arp, s.q.arp);
    }
  }

  lemma IpStays(s: State)
    ensures FlowOf(IpStep(s)) == FlowOf(s)
  {
    hide IsIpBody, InFlight;
    if s.pc.ip.IPoll? && s.q.ip != [] {
      PollKeepsLine(s.hist.ip, s.q.ip);
    }
  }

  lemma MenuRefines(cfg: Config, s: State, i: Input)
    ensures FlowOf(MenuStep(cfg, s, i)) == Apply(cfg, FlowOf(s), MoveOf(cfg, s, Event(MenuT, i)))
  {
    hide OwnSelf, Request, InFlight;
    if s.pc.menu.MIssue? {
      AppendToLine(InFlight(s.pc.net), s.q.net, [OwnSelf(Request(cfg, s.pc.menu.ip))]);
    }
  }

  /** Every step of every thread is a move of the pipeline. */
  lemma StepRefines(cfg: Config, s: State, ev: Event)
    ensures Enabled(FlowOf(s), MoveOf(cfg, s, ev))
    ensures FlowOf(Step(cfg, s, ev)) == Apply(cfg, FlowOf(s), MoveOf(cfg, s, ev))
  {
    hide FlowOf, PhysicalStep, LogicalStep, NetworkStep, ArpStep, IpStep, MenuStep, RouteHead, DispatchHead,
        Replies, Reply, Request;
    assert ev == Event(ev.thread, ev.input);
    match ev.thread
    case PhysicalT => PhysicalRefines(cfg, s, ev.input);
    case LogicalT => if s.pc.log.LDeliver? { LogicalDelivers(cfg, s); } else { LogicalStays(cfg, s); }
    case NetworkT => if s.pc.net.LDeliver? { NetworkDelivers(s); } else { NetworkStays(s); }
    case ArpT => if s.pc.arp.AHandle? && Replies(cfg, s.pc.arp.a) { ArpReplies(cfg, s); } else { ArpStays(cfg, s); }
    case IpT => IpStays(s);
    case MenuT => MenuRefines(cfg, s, ev.input);
  }
}
