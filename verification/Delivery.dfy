/** Nothing waits for ever: while nobody leaves and the outside is quiet, every fair schedule
    brings every packet in the stack to its end -- up to its protocol and into the table, or
    down to the sender -- within 64 rounds for each packet. */
module Delivery {
  import opened Bytes
  import opened Packets
  import opened StackModel
  import opened Pipeline
  import opened PipelineLaws
  import opened StackLaws
  import opened StackTheorems
  import opened ShutdownLiveness
  import Answers
  import HexText

  // ---------------------------------------------------------------- how much is left to do

  /** Steps of a layer up to and including its next poll, if it has something to poll. */
  function LayerToPoll(pc: LayerPc): (n: nat)
    ensures n <= 4
  {
    match pc
    case LPoll => 1
    case LCheck => 2
    case LTest => 3
    case LDeliver(_) => 4
    case _ => 0
  }

  function PhysicalToPoll(pc: PhysicalPc): (n: nat)
    ensures n <= 5
  {
    match pc
    case PDrainPoll => 1
    case PDrainTest => 2
    case PCapture => 3
    case PForward(_) => 3
    case PTest => 4
    case PSend(_) => 5
    case PDone => 0
  }

  function ArpToPoll(pc: ArpPc): (n: nat)
    ensures n <= 7
  {
    match pc
    case APoll => 1
    case AAcquire => 2
    case ACheck => 3
    case ATest => 4
    case ARelease => 5
    case APut(_, _) => 6
    case AHandle(_, _) => 7
    case _ => 0
  }

  function IpToPoll(pc: IpPc): (n: nat)
    ensures n <= 3
  {
    match pc
    case IPoll => 1
    case ICheck => 2
    case ITest => 3
    case _ => 0
  }

  /** What a packet costs from its place in the queue of Logical or Network, and in the hands of
      the thread: more than all that comes after. */
  function LogicalWeight(sp: SelfPkt): nat { if sp.up then 53 else 15 }

  function NetworkWeight(sp: SelfPkt): nat { if sp.scanned then 23 else 45 }

  function LogicalWeights(q: seq<SelfPkt>): nat {
    if q == [] then 0 else LogicalWeight(q[0]) + LogicalWeights(q[1..])
  }

  function NetworkWeights(q: seq<SelfPkt>): nat {
    if q == [] then 0 else NetworkWeight(q[0]) + NetworkWeights(q[1..])
  }

  function PhysicalWork(pc: PhysicalPc, q: seq<SelfPkt>): nat {
    6 * |q| + (if q != [] then PhysicalToPoll(pc) else if pc.PSend? then 1 else 0) + if pc.PForward? then 58 else 0
  }

  function LogicalWork(pc: LayerPc, q: seq<SelfPkt>): nat {
    LogicalWeights(q) + (if q != [] then LayerToPoll(pc) else if pc.LDeliver? then 1 else 0)
    + if pc.LDeliver? then LogicalWeight(pc.sp) - 4 else 0
  }

  function NetworkWork(pc: LayerPc, q: seq<SelfPkt>): nat {
    NetworkWeights(q) + (if q != [] then LayerToPoll(pc) else if pc.LDeliver? then 1 else 0)
    + if pc.LDeliver? then NetworkWeight(pc.sp) - 4 else 0
  }

  function ArpWork(pc: ArpPc, q: seq<SelfPkt>): nat {
    34 * |q|
    + (if q != [] then ArpToPoll(pc)
       else if pc.AHandle? then 3 else if pc.APut? then 2 else if pc.ARelease? then 1 else 0)
    + if pc.AHandle? then 27 else 0
  }

  function IpWork(pc: IpPc, q: seq<SelfPkt>): nat {
    3 * |q| + if q != [] then IpToPoll(pc) else 0
  }

  function WorkOf(s: State, t: Thread): nat {
    match t
    case PhysicalT => PhysicalWork(s.pc.phys, s.q.phys)
    case LogicalT => LogicalWork(s.pc.log, s.q.log)
    case NetworkT => NetworkWork(s.pc.net, s.q.net)
    case ArpT => ArpWork(s.pc.arp, s.q.arp)
    case IpT => IpWork(s.pc.ip, s.q.ip)
    case MenuT => 0
  }

  function Work(s: State): nat {
    WorkOf(s, PhysicalT) + WorkOf(s, LogicalT) + WorkOf(s, NetworkT) + WorkOf(s, ArpT) + WorkOf(s, IpT)
  }

  // ---------------------------------------------------------------- while nobody leaves

  /** Nobody is leaving, and the menu waits for a choice. */
  ghost predicate Calm(s: State) {
    Control(s) && Shutdown(s) && !s.fin.phys && s.pc.menu.MChoose?
  }

  /** No frame is captured, and the user chooses nothing. */
  ghost predicate QuietEvents(events: seq<Event>) {
    forall ev | ev in events :: QuietInput(ev.input)
  }

  ghost predicate QuietInput(i: StackModel.Input) {
    i.frame.None? && i.option != 1 && i.option != 2
  }

  /** A step of `t` shortens what is left if `t` has something to do, and changes nothing of it
      otherwise; and it takes no work off any other thread. */
  ghost predicate Advances(s: State, u: State, t: Thread) {
    && (WorkOf(s, t) > 0 ==> Work(u) < Work(s))
    && (WorkOf(s, t) == 0 ==> Work(u) == Work(s))
    && (forall o: Thread | o != t :: WorkOf(u, o) >= WorkOf(s, o))
  }

  lemma {:induction false} LogicalWeightsAppend(q: seq<SelfPkt>, sp: SelfPkt)
    ensures LogicalWeights(q + [sp]) == LogicalWeights(q) + LogicalWeight(sp)
  {
    if q == [] {
      assert q + [sp] == [sp];
    } else {
      assert (q + [sp])[1..] == q[1..] + [sp];
      LogicalWeightsAppend(q[1..], sp);
    }
  }

  lemma {:induction false} NetworkWeightsAppend(q: seq<SelfPkt>, sp: SelfPkt)
    ensures NetworkWeights(q + [sp]) == NetworkWeights(q) + NetworkWeight(sp)
  {
    if q == [] {
      assert q + [sp] == [sp];
    } else {
      assert (q + [sp])[1..] == q[1..] + [sp];
      NetworkWeightsAppend(q[1..], sp);
    }
  }

  /** What a packet that is appended costs its consumer. */
  lemma AppendLogical(pc: LayerPc, q: seq<SelfPkt>, sp: SelfPkt)
    ensures LogicalWork(pc, q) <= LogicalWork(pc, q + [sp]) <= LogicalWork(pc, q) + LogicalWeight(sp) + 4
  {
    LogicalWeightsAppend(q, sp);
  }

  lemma AppendNetwork(pc: LayerPc, q: seq<SelfPkt>, sp: SelfPkt)
    ensures NetworkWork(pc, q) <= NetworkWork(pc, q + [sp]) <= NetworkWork(pc, q) + NetworkWeight(sp) + 4
  {
    NetworkWeightsAppend(q, sp);
  }

  lemma AppendPhysical(pc: PhysicalPc, q: seq<SelfPkt>, sp: SelfPkt)
    ensures PhysicalWork(pc, q) <= PhysicalWork(pc, q + [sp]) <= PhysicalWork(pc, q) + 11
  {
  }

  lemma AppendArp(pc: ArpPc, q: seq<SelfPkt>, sp: SelfPkt)
    ensures ArpWork(pc, q) <= ArpWork(pc, q + [sp]) <= ArpWork(pc, q) + 41
  {
  }

  lemma AppendIp(pc: IpPc, q: seq<SelfPkt>, sp: SelfPkt)
    ensures IpWork(pc, q) <= IpWork(pc, q + [sp]) <= IpWork(pc, q) + 6
  {
  }

  lemma PhysicalAdvances(s: State, i: StackModel.Input)
    requires Calm(s) && QuietInput(i) && (s.pc.phys.PForward? ==> s.pc.phys.sp.up)
    ensures Advances(s, PhysicalStep(s, i), PhysicalT)
  {
    hide LogicalWork, NetworkWork, ArpWork, IpWork, Control;
    if s.pc.phys.PForward? {
      AppendLogical(s.pc.log, s.q.log, s.pc.phys.sp);
    }
  }

  lemma LogicalAdvances(cfg: Config, s: State)
    requires Calm(s)
    ensures Advances(s, LogicalStep(cfg, s), LogicalT)
  {
    hide PhysicalWork, NetworkWork, ArpWork, IpWork, Dress, MacFilter;
    if s.pc.log.LDeliver? {
      AppendPhysical(s.pc.phys, s.q.phys, Dress(cfg, s.pc.log.sp));
      AppendNetwork(s.pc.net, s.q.net, s.pc.log.sp.(fakeMac := cfg.mac));
    }
  }

  lemma NetworkAdvances(s: State)
    requires Calm(s)
    ensures Advances(s, NetworkStep(s), NetworkT)
  {
    hide PhysicalWork, LogicalWork, ArpWork, IpWork;
    if s.pc.net.LDeliver? {
      AppendLogical(s.pc.log, s.q.log, s.pc.net.sp.(up := false));
      AppendIp(s.pc.ip, s.q.ip, s.pc.net.sp.(scanned := true));
      AppendArp(s.pc.arp, s.q.arp, s.pc.net.sp.(scanned := true));
    }
  }

  lemma ArpAdvances(cfg: Config, s: State)
    requires Calm(s) && Control(ArpStep(cfg, s))
    ensures Advances(s, ArpStep(cfg, s), ArpT)
  {
    hide PhysicalWork, LogicalWork, NetworkWork, IpWork, OwnSelf, Reply, Replies, HexText.ByteToStr;
    if s.pc.arp.AHandle? {
      var r := Reply(s.pc.arp.a, s.pc.arp.fakeMac);
      AppendNetwork(s.pc.net, s.q.net, OwnSelf(r));
      OwnWeight(r);
    }
  }

  lemma OwnWeight(a: ArpFields)
    ensures NetworkWeight(OwnSelf(a)) == 23
  {
  }

  lemma IpAdvances(s: State)
    requires Calm(s) && Control(IpStep(s))
    ensures Advances(s, IpStep(s), IpT)
  {
    hide PhysicalWork, LogicalWork, NetworkWork, ArpWork, IsIpBody;
  }

  lemma StepAdvances(cfg: Config, s: State, ev: Event)
    requires Invariant(cfg, s) && Calm(s) && QuietInput(ev.input) && GoodInput(ev.input)
    ensures Advances(s, Step(cfg, s, ev), ev.thread) && Calm(Step(cfg, s, ev))
  {
    hide PhysicalStep, LogicalStep, NetworkStep, ArpStep, IpStep, MenuStep, Advances, Work, WorkOf, Typed, UpConserved,
        DownConserved, Control, Shutdown, Table, FlowOf, GoodInput;
    InvariantStep(cfg, s, ev);
    CalmStays(cfg, s, ev);
    match ev.thread
    case PhysicalT =>
      ArrivingRises(cfg, s);
      PhysicalAdvances(s, ev.input);
    case LogicalT => LogicalAdvances(cfg, s);
    case NetworkT => NetworkAdvances(s);
    case ArpT => ArpAdvances(cfg, s);
    case IpT => IpAdvances(s);
    case MenuT => MenuAdvances(cfg, s, ev.input);
  }

  lemma MenuAdvances(cfg: Config, s: State, i: StackModel.Input)
    requires Calm(s) && QuietInput(i)
    ensures Advances(s, MenuStep(cfg, s, i), MenuT)
  {
    hide Work, WorkOf, Control, Shutdown;
    assert MenuStep(cfg, s, i) == s;
    assert WorkOf(s, MenuT) == 0 by {
      NoMenuWork(s);
    }
  }

  lemma NoMenuWork(s: State)
    ensures WorkOf(s, MenuT) == 0
  {
  }

  lemma ArrivingRises(cfg: Config, s: State)
    requires Typed(cfg, FlowOf(s))
    ensures s.pc.phys.PForward? ==> s.pc.phys.sp.up
  {
    if s.pc.phys.PForward? {
      assert s.pc.phys.sp in FlowOf(s).arriving;
    }
  }

  lemma CalmStays(cfg: Config, s: State, ev: Event)
    requires Calm(s) && QuietInput(ev.input) && Control(Step(cfg, s, ev)) && Shutdown(Step(cfg, s, ev))
    ensures Calm(Step(cfg, s, ev)) && Step(cfg, s, ev).hist.captured == s.hist.captured
  {
    hide Control, Shutdown, PhysicalStep, LogicalStep, NetworkStep, ArpStep, IpStep, MenuStep;
    match ev.thread
    case PhysicalT => PhysicalStaysCalm(s, ev.input);
    case ArpT => ProtocolsStayCalm(cfg, s);
    case IpT => ProtocolsStayCalm(cfg, s);
    case MenuT => MenuStaysCalm(cfg, s, ev.input);
    case LogicalT => LogicalStaysCalm(cfg, s);
    case NetworkT => NetworkStaysCalm(s);
  }

  /** The menu and its flag stand still. */
  ghost predicate AsCalm(s: State, u: State) {
    u.fin.phys == s.fin.phys && u.pc.menu == s.pc.menu && u.hist.captured == s.hist.captured
  }

  lemma PhysicalStaysCalm(s: State, i: StackModel.Input)
    requires QuietInput(i)
    ensures AsCalm(s, PhysicalStep(s, i))
  {
    hide NewSelf;
  }

  lemma LogicalStaysCalm(cfg: Config, s: State)
    ensures AsCalm(s, LogicalStep(cfg, s))
  {
    hide Dress, MacFilter;
  }

  lemma NetworkStaysCalm(s: State)
    ensures AsCalm(s, NetworkStep(s))
  {
  }

  lemma ProtocolsStayCalm(cfg: Config, s: State)
    ensures AsCalm(s, ArpStep(cfg, s)) && AsCalm(s, IpStep(s))
  {
    hide OwnSelf, Reply, Replies, IsIpBody, HexText.ByteToStr;
  }

  lemma MenuStaysCalm(cfg: Config, s: State, i: StackModel.Input)
    requires QuietInput(i) && s.pc.menu.MChoose?
    ensures AsCalm(s, MenuStep(cfg, s, i))
  {
    hide OwnSelf, Request;
  }

  // ---------------------------------------------------------------- rounds

  /** What any quiet run keeps. */
  lemma {:induction false} RunAdvances(cfg: Config, s: State, events: seq<Event>)
    requires Invariant(cfg, s) && Calm(s) && GoodSchedule(events) && QuietEvents(events)
    ensures var u := Run(cfg, s, events);
            Invariant(cfg, u) && Calm(u) && Work(u) <= Work(s) && u.hist.captured == s.hist.captured
    decreases |events|
  {
    hide Invariant, Calm, Step, GoodInput, QuietInput, Work, WorkOf;
    if events != [] {
      var ev := events[0];
      assert ev in events;
      QuietStep(cfg, s, ev);
      RunAdvances(cfg, Step(cfg, s, ev), events[1..]);
    }
  }

  lemma QuietStep(cfg: Config, s: State, ev: Event)
    requires Invariant(cfg, s) && Calm(s) && QuietInput(ev.input) && GoodInput(ev.input)
    ensures var u := Step(cfg, s, ev);
            && Invariant(cfg, u) && Calm(u) && Work(u) <= Work(s) && u.hist.captured == s.hist.captured
            && (WorkOf(s, ev.thread) > 0 ==> Work(u) < Work(s))
            && forall o: Thread | o != ev.thread :: WorkOf(u, o) >= WorkOf(s, o)
  {
    hide Step, Typed, UpConserved, DownConserved, Control, Shutdown, Table, Work, WorkOf, GoodInput, QuietInput;
    StepAdvances(cfg, s, ev);
    InvariantStep(cfg, s, ev);
    CalmStays(cfg, s, ev);
  }

  lemma {:induction false} RoundAdvances(cfg: Config, s: State, events: seq<Event>, t: Thread)
    requires Invariant(cfg, s) && Calm(s) && GoodSchedule(events) && QuietEvents(events)
    requires WorkOf(s, t) > 0 && TakesPart(events, t)
    ensures Work(Run(cfg, s, events)) < Work(s)
    decreases |events|
  {
    hide Invariant, Calm, Step, GoodInput, QuietInput, Work, WorkOf;
    var ev := events[0];
    assert ev in events;
    QuietStep(cfg, s, ev);
    var u := Step(cfg, s, ev);
    if ev.thread == t {
      RunAdvances(cfg, u, events[1..]);
    } else {
      var e :| e in events && e.thread == t;
      assert e in events[1..];
      RoundAdvances(cfg, u, events[1..], t);
    }
  }

  lemma SomeoneWorks(s: State) returns (t: Thread)
    requires Work(s) > 0
    ensures WorkOf(s, t) > 0
  {
    hide PhysicalWork, LogicalWork, NetworkWork, ArpWork, IpWork;
    t := if WorkOf(s, PhysicalT) > 0 then PhysicalT
         else if WorkOf(s, LogicalT) > 0 then LogicalT
         else if WorkOf(s, NetworkT) > 0 then NetworkT
         else if WorkOf(s, ArpT) > 0 then ArpT
         else IpT;
  }

  lemma {:induction false} RoundsDeliver(cfg: Config, s: State, rounds: seq<seq<Event>>)
    requires Invariant(cfg, s) && Answers.Answered(cfg, s) && Calm(s) && Work(s) <= |rounds|
    requires forall r | r in rounds :: Round(r) && QuietEvents(r)
    ensures var u := RunRounds(cfg, s, rounds);
            && Invariant(cfg, u) && Answers.Answered(cfg, u) && Calm(u) && Work(u) == 0
            && u.hist.captured == s.hist.captured
    decreases |rounds|
  {
    hide Invariant, Calm, Work, WorkOf, Run, GoodSchedule, QuietEvents, Answers.Answered;
    if rounds != [] {
      var r := rounds[0];
      assert r in rounds;
      RunAdvances(cfg, s, r);
      Answers.AnsweredRun(cfg, s, r);
      if Work(s) > 0 {
        var t := SomeoneWorks(s);
        assert TakesPart(r, t);
        RoundAdvances(cfg, s, r, t);
      }
      RoundsDeliver(cfg, Run(cfg, s, r), rounds[1..]);
    }
  }

  // ---------------------------------------------------------------- the result

  /** The packets in the stack: in a queue, or in the hands of a thread. */
  function InStack(s: State): nat {
    |FlowOf(s).arriving| + |FlowOf(s).logLine| + |FlowOf(s).netLine| + |FlowOf(s).physLine| + |s.q.arp| + |s.q.ip|
    + if s.pc.arp.AHandle? || s.pc.arp.APut? || s.pc.arp.ARelease? then 1 else 0
  }

  lemma {:induction false} WeightsBound(q: seq<SelfPkt>)
    ensures LogicalWeights(q) <= 53 * |q| && NetworkWeights(q) <= 45 * |q|
  {
    if q != [] {
      WeightsBound(q[1..]);
    }
  }

  lemma PhysicalBound(pc: PhysicalPc, q: seq<SelfPkt>)
    ensures PhysicalWork(pc, q) <= 64 * (|q| + (if pc.PForward? then 1 else 0) + if pc.PSend? then 1 else 0)
  {
  }

  lemma LayersBound(pc: LayerPc, q: seq<SelfPkt>)
    ensures LogicalWork(pc, q) <= 64 * (|InFlight(pc)| + |q|) && NetworkWork(pc, q) <= 64 * (|InFlight(pc)| + |q|)
  {
    WeightsBound(q);
  }

  lemma ArpBound(pc: ArpPc, q: seq<SelfPkt>)
    ensures ArpWork(pc, q) <= 64 * (|q| + if pc.AHandle? || pc.APut? || pc.ARelease? then 1 else 0)
  {
  }

  lemma IpBound(pc: IpPc, q: seq<SelfPkt>)
    ensures IpWork(pc, q) <= 64 * |q|
  {
  }

  lemma WorkBound(s: State)
    ensures Work(s) <= 64 * InStack(s)
  {
    hide PhysicalWork, LogicalWork, NetworkWork, ArpWork, IpWork, InFlight;
    PhysicalBound(s.pc.phys, s.q.phys);
    LayersBound(s.pc.log, s.q.log);
    LayersBound(s.pc.net, s.q.net);
    ArpBound(s.pc.arp, s.q.arp);
    IpBound(s.pc.ip, s.q.ip);
  }

  lemma NothingLeft(s: State)
    requires Work(s) == 0
    ensures InStack(s) == 0 && !s.pc.arp.AHandle? && !s.pc.arp.APut?
    ensures FlowOf(s).arriving == FlowOf(s).logLine == FlowOf(s).netLine == FlowOf(s).physLine == []
    ensures s.q.arp == s.q.ip == []
  {
    NoWeightsNoPackets(s.q.log);
    NoWeightsNoPackets(s.q.net);
    hide LogicalWeights, NetworkWeights;
  }

  lemma NoWeightsNoPackets(q: seq<SelfPkt>)
    ensures q != [] ==> LogicalWeights(q) > 0 && NetworkWeights(q) > 0
  {
  }

  /** When there is nothing left to do, everything has arrived. */
  lemma AllDelivered(cfg: Config, s: State)
    requires Invariant(cfg, s) && Answers.Answered(cfg, s) && Work(s) == 0
    ensures PacketsOf(s.hist.arp) == WantedOf(cfg, ETHERTYPE_ARP, s.hist.captured)
    ensures PacketsOf(s.hist.ip) == WantedOf(cfg, ETHERTYPE_IP, s.hist.captured)
    ensures s.hist.handed == OwnFrames(cfg, s.hist.issued)
    ensures s.table == Learned(s.hist.arp)
    ensures Answers.RepliesIn(s.hist.issued) == Answers.AnswersTo(cfg, s.hist.arp)
  {
    hide *;
    NothingLeft(s);
    Parts(cfg, s);
    UpDone(cfg, s);
    DownDone(cfg, s);
    TableDone(cfg, s);
  }

  lemma Parts(cfg: Config, s: State)
    requires Invariant(cfg, s)
    ensures Typed(cfg, FlowOf(s)) && DownConserved(FlowOf(s)) && Table(s)
    ensures UpConserved(cfg, ETHERTYPE_ARP, FlowOf(s)) && UpConserved(cfg, ETHERTYPE_IP, FlowOf(s))
  {
    hide Typed, UpConserved, DownConserved, Control, Shutdown, Table;
  }

  lemma UpDone(cfg: Config, s: State)
    requires UpConserved(cfg, ETHERTYPE_ARP, FlowOf(s)) && UpConserved(cfg, ETHERTYPE_IP, FlowOf(s))
    requires FlowOf(s).arriving == FlowOf(s).logLine == FlowOf(s).netLine == [] && s.q.arp == s.q.ip == []
    ensures PacketsOf(s.hist.arp) == WantedOf(cfg, ETHERTYPE_ARP, s.hist.captured)
    ensures PacketsOf(s.hist.ip) == WantedOf(cfg, ETHERTYPE_IP, s.hist.captured)
  {
    hide PacketsOf, WantedOf, Wanted;
    EmptyLines(cfg, s);
  }

  lemma DownDone(cfg: Config, s: State)
    requires DownConserved(FlowOf(s)) && Typed(cfg, FlowOf(s))
    requires FlowOf(s).physLine == FlowOf(s).logLine == FlowOf(s).netLine == []
    ensures s.hist.handed == OwnFrames(cfg, s.hist.issued)
  {
    hide ArpsOf, OwnFrames, Typed;
    HandedOwn(cfg, s);
    HandedAreOwn(cfg, s.hist.handed);
    assert ArpsOf(s.hist.handed) + [] + [] + [] == ArpsOf(s.hist.handed);
    assert Sinking([]) == [];
  }

  lemma TableDone(cfg: Config, s: State)
    requires Table(s) && Answers.Answered(cfg, s) && !s.pc.arp.AHandle? && !s.pc.arp.APut?
    ensures s.table == Learned(s.hist.arp)
    ensures Answers.RepliesIn(s.hist.issued) == Answers.AnswersTo(cfg, s.hist.arp)
  {
    hide Learned, Answers.RepliesIn, Answers.AnswersTo, HexText.ByteToStr;
  }

  lemma HandedOwn(cfg: Config, s: State)
    requires Typed(cfg, FlowOf(s))
    ensures forall p | p in s.hist.handed :: IsOwnFrame(cfg, p)
  {
    hide IsOwnFrame;
    assert FlowOf(s).handed == s.hist.handed;
  }

  lemma EmptyLines(cfg: Config, s: State)
    requires s.q.arp == s.q.ip == []
    ensures Rising(cfg, ETHERTYPE_ARP, []) == Rising(cfg, ETHERTYPE_IP, []) == [] && Sinking([]) == []
    ensures FlowOf(s).arpIn == s.hist.arp && FlowOf(s).ipIn == s.hist.ip
  {
  }

  /** From every reachable state in which nobody is leaving and the menu waits: whatever was
      captured and issued before, and in whatever order the threads move, after 64 quiet rounds
      for each packet in the stack both protocols have handled exactly the wanted frames, every
      packet issued has been handed to the sender, and every reply is in the table and every
      request answered. */
  lemma EverythingArrives(cfg: Config, events: seq<Event>, rounds: seq<seq<Event>>)
    requires GoodSchedule(events)
    requires var s := Run(cfg, Initial, events);
             !s.fin.phys && s.pc.menu.MChoose? && |rounds| >= 64 * InStack(s)
    requires forall r | r in rounds :: Round(r) && QuietEvents(r)
    ensures var s := Run(cfg, Initial, events);
            var u := RunRounds(cfg, s, rounds);
            && InStack(u) == 0 && u.hist.captured == s.hist.captured
            && PacketsOf(u.hist.arp) == WantedOf(cfg, ETHERTYPE_ARP, s.hist.captured)
            && PacketsOf(u.hist.ip) == WantedOf(cfg, ETHERTYPE_IP, s.hist.captured)
            && u.hist.handed == OwnFrames(cfg, u.hist.issued)
            && u.table == Learned(u.hist.arp)
            && Answers.RepliesIn(u.hist.issued) == Answers.AnswersTo(cfg, u.hist.arp)
  {
    hide Run, Work, InStack, Round, QuietEvents, GoodSchedule, Typed, UpConserved, DownConserved, Table,
        Answers.Answered, Control, Shutdown;
    var s := Reaches(cfg, events);
    assert Answers.Answered(cfg, Initial) by {
      InitiallyAnswered(cfg);
    }
    InvariantInitially(cfg);
    Answers.AnsweredRun(cfg, Initial, events);
    WorkBound(s);
    RoundsDeliver(cfg, s, rounds);
    var u := RunRounds(cfg, s, rounds);
    AllDelivered(cfg, u);
    NothingLeft(u);
  }

  lemma InitiallyAnswered(cfg: Config)
    ensures Answers.Answered(cfg, Initial)
  {
  }
}
