/** Once the user has left the menu, every fair schedule ends all threads: 24 rounds suffice,
    whatever the order within a round, whatever is captured and whatever is still queued.  And
    who waits for whom at the semaphore of Arp before that. */
module ShutdownLiveness {
  import opened StackModel
  import opened Pipeline
  import opened PipelineLaws
  import opened StackLaws
  import HexText

  // ---------------------------------------------------------------- how far a thread has to go

  function PhysicalLeft(pc: PhysicalPc): (n: nat)
    ensures n <= 6
  {
    match pc
    case PDone => 0
    case PTest => 1
    case PSend(_) => 2
    case PDrainPoll => 3
    case PDrainTest => 4
    case PForward(_) => 5
    case PCapture => 6
  }

  function LayerLeft(pc: LayerPc): (n: nat)
    ensures n <= 4
  {
    match pc
    case LDone => 0
    case LTest => 1
    case LDeliver(_) => 2
    case LPoll => 3
    case LCheck => 4
    case LCrash => 4
  }

  function ArpLeft(pc: ArpPc): (n: nat)
    ensures n <= 7
  {
    match pc
    case ADone => 0
    case ATest => 1
    case ARelease => 2
    case APut(_, _) => 3
    case AHandle(_, _) => 4
    case APoll => 5
    case AAcquire => 6
    case ACheck => 7
    case ACrash => 7
  }

  function IpLeft(pc: IpPc): (n: nat)
    ensures n <= 3
  {
    match pc
    case IDone => 0
    case ITest => 1
    case IPoll => 2
    case ICheck => 3
    case ICrash => 3
  }

  /** A thread whose flag is not up yet counts for the longest way round its loop. */
  function Left(s: State): nat {
    PhysicalLeft(s.pc.phys)
    + (if s.fin.log then LayerLeft(s.pc.log) else 4)
    + (if s.fin.net then LayerLeft(s.pc.net) else 4)
    + (if s.fin.arp then ArpLeft(s.pc.arp) else 7)
    + (if s.fin.ip then IpLeft(s.pc.ip) else 3)
  }

  ghost predicate AllDone(s: State) {
    s.pc.menu.MDone? && s.pc.phys.PDone? && s.pc.log.LDone? && s.pc.net.LDone? && s.pc.arp.ADone? && s.pc.ip.IDone?
  }

  /** Leaving, but not yet gone. */
  ghost predicate Leaving(s: State, t: Thread) {
    match t
    case PhysicalT => s.fin.phys && !s.pc.phys.PDone?
    case LogicalT => s.fin.log && !s.pc.log.LDone?
    case NetworkT => s.fin.net && !s.pc.net.LDone?
    case ArpT => s.fin.arp && !s.pc.arp.ADone?
    case IpT => s.fin.ip && !s.pc.ip.IDone?
    case MenuT => false
  }

  ghost predicate Closing(s: State) {
    Control(s) && Shutdown(s) && s.fin.phys
  }

  // ---------------------------------------------------------------- one step

  ghost predicate Shortens(s: State, u: State, t: Thread) {
    && u.fin.phys && Left(u) <= Left(s)
    && (Leaving(s, t) ==> Left(u) < Left(s))
  }

  lemma PhysicalShortens(s: State, i: StackModel.Input)
    requires Closing(s)
    ensures Shortens(s, PhysicalStep(s, i), PhysicalT)
  {
    hide NewSelf, ArpLeft, IpLeft;
  }

  lemma LogicalShortens(cfg: Config, s: State)
    requires Closing(s)
    ensures Shortens(s, LogicalStep(cfg, s), LogicalT)
  {
    hide Dress, MacFilter, ArpLeft, IpLeft, PhysicalLeft;
  }

  lemma NetworkShortens(s: State)
    requires Closing(s) && Control(NetworkStep(s))
    ensures Shortens(s, NetworkStep(s), NetworkT)
  {
    hide PhysicalLeft, ArpLeft, IpLeft;
  }

  /** Arp cannot be held up at the semaphore: the menu is done and has released it. */
  lemma ArpShortens(cfg: Config, s: State)
    requires Closing(s) && Control(ArpStep(cfg, s))
    ensures Shortens(s, ArpStep(cfg, s), ArpT)
  {
    hide OwnSelf, Reply, Replies, PhysicalLeft, LayerLeft, IpLeft;
  }

  lemma IpShortens(s: State)
    requires Closing(s) && Control(IpStep(s))
    ensures Shortens(s, IpStep(s), IpT)
  {
    hide PhysicalLeft, LayerLeft, ArpLeft, IsIpBody;
  }

  /** A step never lengthens the way, and shortens it for a thread that is leaving. */
  lemma StepShortens(cfg: Config, s: State, ev: Event)
    requires Closing(s) && Control(Step(cfg, s, ev))
    ensures Shortens(s, Step(cfg, s, ev), ev.thread)
  {
    hide PhysicalStep, LogicalStep, NetworkStep, ArpStep, IpStep, Shortens, Left;
    match ev.thread
    case PhysicalT => PhysicalShortens(s, ev.input);
    case LogicalT => LogicalShortens(cfg, s);
    case NetworkT => NetworkShortens(s);
    case ArpT => ArpShortens(cfg, s);
    case IpT => IpShortens(s);
    case MenuT => DoneMenuStays(cfg, s, ev.input);
  }

  lemma DoneMenuStays(cfg: Config, s: State, i: StackModel.Input)
    requires Closing(s)
    ensures Shortens(s, MenuStep(cfg, s, i), MenuT)
  {
    assert MenuStep(cfg, s, i) == s;
  }

  /** No other thread moves a thread, and flags stay up. */
  lemma OthersLeaveAlone(cfg: Config, s: State, ev: Event, t: Thread)
    requires Leaving(s, t) && ev.thread != t
    ensures Leaving(Step(cfg, s, ev), t)
  {
    hide PhysicalStep, LogicalStep, NetworkStep, ArpStep, IpStep, MenuStep, Leaving;
    match ev.thread
    case PhysicalT => PhysicalLeavesAlone(s, ev.input, t);
    case LogicalT => LogicalLeavesAlone(cfg, s, t);
    case NetworkT => NetworkLeavesAlone(s, t);
    case ArpT => ArpLeavesAlone(cfg, s, t);
    case IpT => IpLeavesAlone(s, t);
    case MenuT => MenuLeavesAlone(cfg, s, ev.input, t);
  }

  lemma PhysicalLeavesAlone(s: State, i: StackModel.Input, t: Thread)
    requires Leaving(s, t) && !t.PhysicalT?
    ensures Leaving(PhysicalStep(s, i), t)
  {
    hide NewSelf;
  }

  lemma LogicalLeavesAlone(cfg: Config, s: State, t: Thread)
    requires Leaving(s, t) && !t.LogicalT?
    ensures Leaving(LogicalStep(cfg, s), t)
  {
    hide Dress, MacFilter;
  }

  lemma NetworkLeavesAlone(s: State, t: Thread)
    requires Leaving(s, t) && !t.NetworkT?
    ensures Leaving(NetworkStep(s), t)
  {
  }

  lemma ArpLeavesAlone(cfg: Config, s: State, t: Thread)
    requires Leaving(s, t) && !t.ArpT?
    ensures Leaving(ArpStep(cfg, s), t)
  {
    hide OwnSelf, Reply, Replies, HexText.ByteToStr;
  }

  lemma IpLeavesAlone(s: State, t: Thread)
    requires Leaving(s, t) && !t.IpT?
    ensures Leaving(IpStep(s), t)
  {
    hide IsIpBody;
  }

  lemma MenuLeavesAlone(cfg: Config, s: State, i: StackModel.Input, t: Thread)
    requires Leaving(s, t)
    ensures Leaving(MenuStep(cfg, s, i), t)
  {
    hide OwnSelf, Request, HexText.ByteToStr;
  }

  /** If nothing is leaving, everything is done: a flag is up once the thread below is gone. */
  lemma SomeoneLeaves(s: State) returns (t: Thread)
    requires Closing(s) && !AllDone(s)
    ensures Leaving(s, t)
  {
    t := if !s.pc.phys.PDone? then PhysicalT
         else if !s.pc.log.LDone? then LogicalT
         else if !s.pc.net.LDone? then NetworkT
         else if !s.pc.arp.ADone? then ArpT
         else IpT;
  }

  lemma DoneIsZero(s: State)
    requires Closing(s)
    ensures Left(s) <= 24
    ensures Left(s) == 0 <==> AllDone(s)
  {
  }

  // ---------------------------------------------------------------- rounds

  /** A round: every thread takes at least one step, in any order. */
  ghost predicate Round(events: seq<Event>) {
    GoodSchedule(events) && forall t: Thread :: TakesPart(events, t)
  }

  ghost predicate TakesPart(events: seq<Event>, t: Thread) {
    exists ev :: ev in events && ev.thread == t
  }

  lemma {:induction false} RunNeverLengthens(cfg: Config, s: State, events: seq<Event>)
    requires Invariant(cfg, s) && s.fin.phys && GoodSchedule(events)
    ensures Run(cfg, s, events).fin.phys && Left(Run(cfg, s, events)) <= Left(s)
    decreases |events|
  {
    hide Typed, UpConserved, DownConserved, Control, Shutdown, Table, Left, Step, GoodInput;
    if events != [] {
      InvariantStep(cfg, s, events[0]);
      StepShortens(cfg, s, events[0]);
      RunNeverLengthens(cfg, Step(cfg, s, events[0]), events[1..]);
    }
  }

  lemma {:induction false} RoundShortens(cfg: Config, s: State, events: seq<Event>, t: Thread)
    requires Invariant(cfg, s) && s.fin.phys && GoodSchedule(events)
    requires Leaving(s, t) && TakesPart(events, t)
    ensures Left(Run(cfg, s, events)) < Left(s)
    decreases |events|
  {
    hide Typed, UpConserved, DownConserved, Control, Shutdown, Table, Left, Step, GoodInput, Leaving;
    var u := Step(cfg, s, events[0]);
    InvariantStep(cfg, s, events[0]);
    StepShortens(cfg, s, events[0]);
    if events[0].thread == t {
      RunNeverLengthens(cfg, u, events[1..]);
    } else {
      OthersLeaveAlone(cfg, s, events[0], t);
      var ev :| ev in events && ev.thread == t;
      assert ev in events[1..];
      RoundShortens(cfg, u, events[1..], t);
    }
  }

  function RunRounds(cfg: Config, s: State, rounds: seq<seq<Event>>): State
    decreases |rounds|
  {
    if rounds == [] then s else RunRounds(cfg, Run(cfg, s, rounds[0]), rounds[1..])
  }

  lemma {:induction false} RoundsFinish(cfg: Config, s: State, rounds: seq<seq<Event>>)
    requires Invariant(cfg, s) && s.fin.phys
    requires forall r | r in rounds :: Round(r)
    requires Left(s) <= |rounds|
    ensures AllDone(RunRounds(cfg, s, rounds))
    decreases |rounds|
  {
    hide Typed, UpConserved, DownConserved, Table, Left, Run, GoodSchedule, Leaving;
    DoneIsZero(s);
    if rounds != [] {
      var u := Run(cfg, s, rounds[0]);
      assert Round(rounds[0]);
      RunNeverLengthens(cfg, s, rounds[0]);
      InvariantRun(cfg, s, rounds[0]);
      if !AllDone(s) {
        var t := SomeoneLeaves(s);
        RoundShortens(cfg, s, rounds[0], t);
      }
      RoundsFinish(cfg, u, rounds[1..]);
    }
  }

  /** From any reachable state in which the menu has set the first finish flag, 24 rounds of any
      fair schedule end every thread. */
  lemma FairSchedulesFinish(cfg: Config, events: seq<Event>, rounds: seq<seq<Event>>)
    requires GoodSchedule(events) && Run(cfg, Initial, events).fin.phys
    requires |rounds| >= 24 && forall r | r in rounds :: Round(r)
    ensures AllDone(RunRounds(cfg, Run(cfg, Initial, events), rounds))
  {
    hide Run, AllDone, Round, GoodSchedule;
    InvariantInitially(cfg);
    InvariantRun(cfg, Initial, events);
    DoneIsZero(Run(cfg, Initial, events));
    RoundsFinish(cfg, Run(cfg, Initial, events), rounds);
  }

  /** Choosing 2 in the menu, in any reachable state, ends every thread: two steps of the menu, and
      24 fair rounds. */
  lemma ExitEndsEverything(cfg: Config, events: seq<Event>, i: StackModel.Input, rounds: seq<seq<Event>>)
    requires GoodSchedule(events) && Run(cfg, Initial, events).pc.menu.MChoose? && GoodInput(i) && i.option == 2
    requires |rounds| >= 24 && forall r | r in rounds :: Round(r)
    ensures AllDone(RunRounds(cfg, Run(cfg, Initial, events + [Event(MenuT, i), Event(MenuT, i)]), rounds))
  {
    hide AllDone, Round, OwnSelf, Request, HexText.ByteToStr, GoodInput;
    var s, exit := Run(cfg, Initial, events), [Event(MenuT, i), Event(MenuT, i)];
    RunAppend(cfg, Initial, events, exit);
    TwoMenuSteps(cfg, s, i);
    FairSchedulesFinish(cfg, events + exit, rounds);
  }

  lemma TwoMenuSteps(cfg: Config, s: State, i: StackModel.Input)
    requires s.pc.menu.MChoose? && i.option == 2
    ensures Run(cfg, s, [Event(MenuT, i), Event(MenuT, i)]).fin.phys
  {
    hide OwnSelf, Request, HexText.ByteToStr;
    var ev := Event(MenuT, i);
    assert [ev, ev][1..] == [ev] && [ev][1..] == [];
    var t := Step(cfg, Step(cfg, s, ev), ev);
    assert t.fin.phys;
    hide Step;
    assert Run(cfg, s, [ev, ev]) == Run(cfg, Step(cfg, s, ev), [ev]) == Run(cfg, t, []) == t;
  }

  /** And until it is chosen no flag goes up and no thread leaves. */
  lemma NobodyLeavesUnasked(cfg: Config, events: seq<Event>)
    requires GoodSchedule(events) && forall ev | ev in events :: ev.input.option != 2
    ensures Run(cfg, Initial, events).fin == Flags(false, false, false, false, false)
    ensures forall t: Thread :: !Leaving(Run(cfg, Initial, events), t)
  {
    PollsFindPackets(cfg, events);
    StaysUnasked(cfg, Initial, events);
    hide Run, Control;
  }

  lemma {:induction false} StaysUnasked(cfg: Config, s: State, events: seq<Event>)
    requires !s.fin.phys && !s.pc.menu.MExit? && forall ev | ev in events :: ev.input.option != 2
    ensures !Run(cfg, s, events).fin.phys
    decreases |events|
  {
    if events != [] {
      assert events[0] in events;
      UnaskedStep(cfg, s, events[0]);
      hide Step;
      StaysUnasked(cfg, Step(cfg, s, events[0]), events[1..]);
    }
  }

  lemma UnaskedStep(cfg: Config, s: State, ev: Event)
    requires !s.fin.phys && !s.pc.menu.MExit? && ev.input.option != 2
    ensures var u := Step(cfg, s, ev); !u.fin.phys && !u.pc.menu.MExit?
  {
    hide PhysicalStep, LogicalStep, NetworkStep, ArpStep, IpStep, MenuStep;
    match ev.thread
    case MenuT => UnaskedMenu(cfg, s, ev.input);
    case ArpT => ProtocolsRaiseNothing(cfg, s);
    case IpT => ProtocolsRaiseNothing(cfg, s);
    case PhysicalT => PhysicalRaisesNothing(s, ev.input);
    case LogicalT => LogicalRaisesNothing(cfg, s);
    case NetworkT => NetworkRaisesNothing(s);
  }

  lemma UnaskedMenu(cfg: Config, s: State, i: StackModel.Input)
    requires !s.fin.phys && !s.pc.menu.MExit? && i.option != 2
    ensures !MenuStep(cfg, s, i).fin.phys && !MenuStep(cfg, s, i).pc.menu.MExit?
  {
    hide OwnSelf, Request, HexText.ByteToStr;
  }

  lemma PhysicalRaisesNothing(s: State, i: StackModel.Input)
    ensures PhysicalStep(s, i).fin.phys == s.fin.phys && PhysicalStep(s, i).pc.menu == s.pc.menu
  {
    hide NewSelf;
  }

  lemma LogicalRaisesNothing(cfg: Config, s: State)
    ensures LogicalStep(cfg, s).fin.phys == s.fin.phys && LogicalStep(cfg, s).pc.menu == s.pc.menu
  {
    hide Dress, MacFilter;
  }

  lemma NetworkRaisesNothing(s: State)
    ensures NetworkStep(s).fin.phys == s.fin.phys && NetworkStep(s).pc.menu == s.pc.menu
  {
  }

  lemma ProtocolsRaiseNothing(cfg: Config, s: State)
    ensures ArpStep(cfg, s).fin.phys == s.fin.phys && ArpStep(cfg, s).pc.menu == s.pc.menu
    ensures IpStep(s).fin.phys == s.fin.phys && IpStep(s).pc.menu == s.pc.menu
  {
    hide OwnSelf, Reply, Replies, IsIpBody, HexText.ByteToStr;
  }

  /** Before that, a thread never dies, and a poll after a non-empty test never yields null. */
  lemma PollsFindPackets(cfg: Config, events: seq<Event>)
    requires GoodSchedule(events)
    ensures Control(Run(cfg, Initial, events)) && Shutdown(Run(cfg, Initial, events))
  {
    InvariantInitially(cfg);
    InvariantRun(cfg, Initial, events);
  }

  // ---------------------------------------------------------------- the semaphore

  /** Arp never waits while it holds the semaphore: each next step leads it on towards the
      release, unless it dies, which PollsFindPackets excludes. */
  lemma ArpHolderMovesOn(cfg: Config, s: State)
    requires Control(s) && s.lock.HeldByArp? && !ArpStep(cfg, s).pc.arp.ACrash?
    ensures ArpLeft(ArpStep(cfg, s).pc.arp) < ArpLeft(s.pc.arp)
  {
    hide OwnSelf, Reply, Replies;
  }

  /** Inside requestIP, between acquire and release. */
  predicate InRequest(menu: MenuPc) {
    menu.MAsk? || menu.MIssue? || menu.MRelease?
  }

  /** requestIP waits at one point while it holds the semaphore: at the console, for a valid
      line.  Everywhere else its next step leads it on, and a line leads it on there. */
  lemma MenuHolderMovesOn(cfg: Config, s: State, i: StackModel.Input)
    requires Control(s) && s.lock.HeldByMenu?
    ensures MenuStep(cfg, s, i) == s <==> s.pc.menu.MAsk? && i.address.None?
    ensures var u := MenuStep(cfg, s, i);
            u != s ==> u.lock.Free? || (InRequest(u.pc.menu) && !u.pc.menu.MAsk?)
  {
    hide OwnSelf, Request, HexText.ByteToStr;
  }

  /** In every reachable state Arp, having a packet, is held up at the semaphore exactly while
      the menu is inside requestIP. */
  lemma ArpBlockedIff(cfg: Config, events: seq<Event>)
    requires GoodSchedule(events)
    ensures var s := Run(cfg, Initial, events);
            s.pc.arp.AAcquire? ==> (ArpStep(cfg, s) == s <==> InRequest(s.pc.menu))
  {
    hide Run, Shutdown;
    PollsFindPackets(cfg, events);
  }

  /** So while the user types nothing Arp handles nothing: whatever else happens, the table and
      the packets handled stay as they are for as long as the prompt is not answered. */
  lemma {:induction false} UnansweredPromptStopsArp(cfg: Config, s: State, events: seq<Event>)
    requires Invariant(cfg, s) && GoodSchedule(events) && s.pc.menu.MAsk?
    requires forall ev | ev in events :: ev.input.address.None?
    ensures var u := Run(cfg, s, events);
            u.pc.menu.MAsk? && u.lock.HeldByMenu? && u.table == s.table && u.hist.arp == s.hist.arp
                && u.hist.issued == s.hist.issued
    decreases |events|
  {
    hide Typed, UpConserved, DownConserved, Shutdown, Table, GoodInput;
    if events != [] {
      InvariantStep(cfg, s, events[0]);
      UnansweredStep(cfg, s, events[0]);
      hide Step, Control;
      UnansweredPromptStopsArp(cfg, Step(cfg, s, events[0]), events[1..]);
    }
  }

  lemma UnansweredStep(cfg: Config, s: State, ev: Event)
    requires Control(s) && s.pc.menu.MAsk? && ev.input.address.None?
    ensures var u := Step(cfg, s, ev);
            u.pc.menu.MAsk? && u.table == s.table && u.hist.arp == s.hist.arp && u.hist.issued == s.hist.issued
  {
    hide PhysicalStep, LogicalStep, NetworkStep, ArpStep, IpStep;
    match ev.thread
    case PhysicalT => UnansweredPhysical(s, ev.input);
    case ArpT => UnansweredArp(cfg, s);
    case _ => UnansweredOthers(cfg, s);
  }

  lemma UnansweredPhysical(s: State, i: StackModel.Input)
    ensures var u := PhysicalStep(s, i);
            u.pc.menu == s.pc.menu && u.table == s.table && u.hist.arp == s.hist.arp && u.hist.issued == s.hist.issued
  {
    hide NewSelf;
  }

  lemma UnansweredArp(cfg: Config, s: State)
    requires Control(s) && s.pc.menu.MAsk?
    ensures var u := ArpStep(cfg, s);
            u.pc.menu == s.pc.menu && u.table == s.table && u.hist == s.hist
  {
    hide ArpHandle, ArpPoll;
  }

  lemma UnansweredOthers(cfg: Config, s: State)
    ensures var u := LogicalStep(cfg, s); u.pc.menu == s.pc.menu && u.table == s.table && u.hist == s.hist
    ensures var u := NetworkStep(s); u.pc.menu == s.pc.menu && u.table == s.table && u.hist == s.hist
    ensures var u := IpStep(s);
            u.pc.menu == s.pc.menu && u.table == s.table && u.hist.arp == s.hist.arp && u.hist.issued == s.hist.issued
  {
    hide Dress, MacFilter, IsIpBody;
  }

  function MenuSteps(events: seq<Event>): nat {
    if events == [] then 0 else (if events[0].thread.MenuT? then 1 else 0) + MenuSteps(events[1..])
  }

  lemma MenuStandsStill(cfg: Config, s: State, ev: Event)
    requires !ev.thread.MenuT?
    ensures Step(cfg, s, ev).pc.menu == s.pc.menu
  {
    hide Dress, MacFilter, NewSelf, OwnSelf, Reply, Replies;
  }

  /** After a valid line, whatever the other threads do meanwhile, two more steps of the menu see
      the semaphore released: three with the one that takes the line. */
  lemma LineFreesSemaphore(cfg: Config, s: State, line: StackModel.Input, events: seq<Event>)
    requires Invariant(cfg, s) && s.pc.menu.MAsk? && line.address.Some?
    requires GoodInput(line) && GoodSchedule(events) && MenuSteps(events) == 2
    ensures !Run(cfg, Step(cfg, s, Event(MenuT, line)), events).lock.HeldByMenu?
  {
    hide Typed, UpConserved, DownConserved, Shutdown, Table, GoodInput, Run, MenuSteps, GoodSchedule;
    var t := Step(cfg, s, Event(MenuT, line));
    InvariantStep(cfg, s, Event(MenuT, line));
    LeavesRequest(cfg, t, events);
    InvariantRun(cfg, t, events);
  }

  /** How the menu, with `n` steps to take, gets out of requestIP. */
  predicate OnTheWayOut(menu: MenuPc, n: nat) {
    || (menu.MIssue? && n == 2)
    || (menu.MRelease? && 1 <= n <= 2)
    || (menu.MChoose? && n <= 1)
    || (!InRequest(menu) && n == 0)
  }

  lemma {:induction false} LeavesRequest(cfg: Config, s: State, events: seq<Event>)
    requires OnTheWayOut(s.pc.menu, MenuSteps(events))
    ensures !InRequest(Run(cfg, s, events).pc.menu)
    decreases |events|
  {
    if events != [] {
      if events[0].thread.MenuT? {
        hide OwnSelf, Request;
        assert OnTheWayOut(Step(cfg, s, events[0]).pc.menu, MenuSteps(events[1..]));
      } else {
        MenuStandsStill(cfg, s, events[0]);
      }
      hide Step;
      LeavesRequest(cfg, Step(cfg, s, events[0]), events[1..]);
    }
  }
}
