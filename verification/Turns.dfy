/** One thread moving alone: how the single steps of StackModel make up a turn of its loop. */
module Turns {
  import opened Bytes
  import opened Packets
  import opened StackModel
  import HexText

  /** `n` steps of one thread. */
  function Steps(cfg: Config, s: State, ev: Event, n: nat): State
    decreases n
  {
    if n == 0 then s else Steps(cfg, Step(cfg, s, ev), ev, n - 1)
  }

  /** They are a run in which nobody else moves. */
  lemma {:induction false} StepsAreARun(cfg: Config, s: State, ev: Event, n: nat)
    ensures Steps(cfg, s, ev, n) == Run(cfg, s, seq(n, _ => ev))
    decreases n
  {
    if n > 0 {
      assert seq(n, _ => ev)[1..] == seq(n - 1, _ => ev);
      StepsAreARun(cfg, Step(cfg, s, ev), ev, n - 1);
    }
  }

  lemma TwoSteps(cfg: Config, s: State, ev: Event)
    ensures Steps(cfg, s, ev, 1) == Step(cfg, s, ev)
    ensures Steps(cfg, s, ev, 2) == Step(cfg, Step(cfg, s, ev), ev)
  {
    hide Step;
    assert Steps(cfg, Step(cfg, s, ev), ev, 1) == Steps(cfg, Step(cfg, Step(cfg, s, ev), ev), ev, 0);
  }

  lemma FourSteps(cfg: Config, s: State, ev: Event)
    ensures Steps(cfg, s, ev, 3) == Step(cfg, Steps(cfg, s, ev, 2), ev)
    ensures Steps(cfg, s, ev, 4) == Step(cfg, Step(cfg, Steps(cfg, s, ev, 2), ev), ev)
  {
    hide Step;
    var s1 := Step(cfg, s, ev);
    TwoSteps(cfg, s, ev);
    TwoSteps(cfg, Step(cfg, s1, ev), ev);
    assert Steps(cfg, s, ev, 4) == Steps(cfg, s1, ev, 3) == Steps(cfg, Step(cfg, s1, ev), ev, 2);
    assert Steps(cfg, s, ev, 3) == Steps(cfg, s1, ev, 2) == Steps(cfg, Step(cfg, s1, ev), ev, 1);
  }

  lemma {:induction false} StepsSplit(cfg: Config, s: State, ev: Event, a: nat, b: nat)
    ensures Steps(cfg, s, ev, a + b) == Steps(cfg, Steps(cfg, s, ev, a), ev, b)
    decreases a
  {
    hide Step;
    if a > 0 {
      StepsSplit(cfg, Step(cfg, s, ev), ev, a - 1, b);
    }
  }

  /** Whether handling the packet adds an entry to the table. */
  predicate Learns(cfg: Config, directions: map<string, string>, a: ArpFields) {
    !Replies(cfg, a) && a.operation == ARP_REPLY && HexText.ByteToStr(a.senderProto) !in directions
  }

  /** What is left of Arp's turn once it has a packet: the reply, the entry or nothing, and the
      release. */
  lemma ArpRest(cfg: Config, s: State, i: Input, a: ArpFields, fakeMac: seq<byte>)
    requires s.pc.arp == AHandle(a, fakeMac)
    ensures var r, done := Reply(a, fakeMac), s.(lock := Free, pc := s.pc.(arp := ATest));
            && (Replies(cfg, a) ==>
                  Steps(cfg, s, Event(ArpT, i), 2)
                  == done.(q := s.q.(net := s.q.net + [OwnSelf(r)]), hist := s.hist.(issued := s.hist.issued + [r])))
            && (Learns(cfg, s.table, a) ==>
                  Steps(cfg, s, Event(ArpT, i), 3)
                  == done.(table := s.table[HexText.ByteToStr(a.senderProto) := HexText.ByteToStr(a.senderHard)]))
            && (!Replies(cfg, a) && !Learns(cfg, s.table, a) ==> Steps(cfg, s, Event(ArpT, i), 2) == done)
  {
    TwoSteps(cfg, s, Event(ArpT, i));
    FourSteps(cfg, s, Event(ArpT, i));
    hide Steps, OwnSelf, Reply, Replies, HexText.ByteToStr, PhysicalStep, LogicalStep, NetworkStep, IpStep, MenuStep;
  }

  // ---------------------------------------------------------------- turns of an idle stack

  /** Every thread at the head of its loop, nobody leaving, the semaphore free. */
  function Idle(hist: History, q: Queues, table: map<string, string>): State {
    State(hist, q, table, Free, Flags(false, false, false, false, false), Threads(PTest, LTest, LTest, ATest, ITest,
                                                                      MChoose))
  }

  /** requestIP for an address that the table does not know. */
  lemma MenuTurn(cfg: Config, hist: History, q: Queues, table: map<string, string>, i: Input)
    requires i.option == 1 && i.address.Some? && HexText.ByteToStr(i.address.value) !in table
    ensures var r := Request(cfg, i.address.value);
            Steps(cfg, Idle(hist, q, table), Event(MenuT, i), 5)
            == Idle(hist.(issued := hist.issued + [r]), q.(net := q.net + [OwnSelf(r)]), table)
  {
    var s, ev := Idle(hist, q, table), Event(MenuT, i);
    StepsSplit(cfg, s, ev, 4, 1);
    FourSteps(cfg, s, ev);
    TwoSteps(cfg, s, ev);
    TwoSteps(cfg, Steps(cfg, s, ev, 4), ev);
    hide Steps, OwnSelf, Request, HexText.ByteToStr;
  }

  /** Network dispatches a captured ARP packet. */
  lemma NetworkTurnUp(cfg: Config, hist: History, q: Queues, table: map<string, string>, i: Input, sp: SelfPkt)
    requires q.net == [sp] && !sp.scanned && sp.etherType == ETHERTYPE_ARP
    ensures Steps(cfg, Idle(hist, q, table), Event(NetworkT, i), 4)
            == Idle(hist, q.(net := [], arp := q.arp + [sp.(scanned := true)]), table)
  {
    var s, ev := Idle(hist, q, table), Event(NetworkT, i);
    FourSteps(cfg, s, ev);
    TwoSteps(cfg, s, ev);
    hide Steps;
  }

  /** Network sends a packet of our own down. */
  lemma NetworkTurnDown(cfg: Config, hist: History, q: Queues, table: map<string, string>, i: Input, sp: SelfPkt)
    requires q.net == [sp] && sp.scanned
    ensures Steps(cfg, Idle(hist, q, table), Event(NetworkT, i), 4)
            == Idle(hist, q.(net := [], log := q.log + [sp.(up := false)]), table)
  {
    var s, ev := Idle(hist, q, table), Event(NetworkT, i);
    FourSteps(cfg, s, ev);
    TwoSteps(cfg, s, ev);
    hide Steps;
  }

  /** Logical lets a captured packet pass. */
  lemma LogicalTurnUp(cfg: Config, hist: History, q: Queues, table: map<string, string>, i: Input, sp: SelfPkt)
    requires q.log == [sp] && sp.up && MacFilter(cfg, sp.macSrc, sp.macDst)
    ensures Steps(cfg, Idle(hist, q, table), Event(LogicalT, i), 4)
            == Idle(hist, q.(log := [], net := q.net + [sp.(fakeMac := cfg.mac)]), table)
  {
    var s, ev := Idle(hist, q, table), Event(LogicalT, i);
    FourSteps(cfg, s, ev);
    TwoSteps(cfg, s, ev);
    hide Steps, Dress, MacFilter;
  }

  /** Logical dresses a packet of our own. */
  lemma LogicalTurnDown(cfg: Config, hist: History, q: Queues, table: map<string, string>, i: Input, sp: SelfPkt)
    requires q.log == [sp] && !sp.up
    ensures Steps(cfg, Idle(hist, q, table), Event(LogicalT, i), 4)
            == Idle(hist, q.(log := [], phys := q.phys + [Dress(cfg, sp)]), table)
  {
    var s, ev := Idle(hist, q, table), Event(LogicalT, i);
    FourSteps(cfg, s, ev);
    TwoSteps(cfg, s, ev);
    hide Steps, Dress, MacFilter;
  }

  /** Physical captures a frame, with nothing to send. */
  lemma PhysicalTurnUp(cfg: Config, hist: History, q: Queues, table: map<string, string>, i: Input)
    requires q.phys == [] && i.frame.Some? && !i.frame.value.datalink.OtherDatalink?
    ensures Steps(cfg, Idle(hist, q, table), Event(PhysicalT, i), 4)
            == Idle(hist.(captured := hist.captured + [i.frame.value]), q.(log := q.log + [NewSelf(i.frame.value)]),
                    table)
  {
    var s, ev := Idle(hist, q, table), Event(PhysicalT, i);
    FourSteps(cfg, s, ev);
    TwoSteps(cfg, s, ev);
    hide Steps, NewSelf;
  }

  /** Physical captures nothing and sends a packet. */
  lemma PhysicalTurnDown(cfg: Config, hist: History, q: Queues, table: map<string, string>, i: Input, sp: SelfPkt)
    requires q.phys == [sp] && i.frame.None?
    ensures Steps(cfg, Idle(hist, q, table), Event(PhysicalT, i), 5)
            == Idle(hist.(handed := hist.handed + [sp.packet]), q.(phys := []), table)
  {
    var s, ev := Idle(hist, q, table), Event(PhysicalT, i);
    StepsSplit(cfg, s, ev, 4, 1);
    FourSteps(cfg, s, ev);
    TwoSteps(cfg, s, ev);
    TwoSteps(cfg, Steps(cfg, s, ev, 4), ev);
    hide Steps, NewSelf;
  }

  /** Arp polls, semaphore in hand. */
  lemma ArpPolls(cfg: Config, hist: History, q: Queues, table: map<string, string>, i: Input, sp: SelfPkt)
    requires q.arp == [sp] && sp.packet.body.Arp?
    ensures var s := Idle(hist.(arp := hist.arp + [sp]), q.(arp := []), table);
            Steps(cfg, Idle(hist, q, table), Event(ArpT, i), 4)
            == s.(lock := HeldByArp, pc := s.pc.(arp := AHandle(sp.packet.body.arp, sp.fakeMac)))
  {
    var s, ev := Idle(hist, q, table), Event(ArpT, i);
    FourSteps(cfg, s, ev);
    TwoSteps(cfg, s, ev);
    hide Steps, ArpHandle, PhysicalStep, LogicalStep, NetworkStep, IpStep, MenuStep;
  }

  /** Arp answers a request. */
  lemma ArpTurnReply(cfg: Config, hist: History, q: Queues, table: map<string, string>, i: Input, sp: SelfPkt)
    requires q.arp == [sp] && sp.packet.body.Arp? && Replies(cfg, sp.packet.body.arp)
    ensures var r := Reply(sp.packet.body.arp, sp.fakeMac);
            Steps(cfg, Idle(hist, q, table), Event(ArpT, i), 6)
            == Idle(hist.(arp := hist.arp + [sp], issued := hist.issued + [r]), q.(arp := [],
                                                                      net := q.net + [OwnSelf(r)]), table)
  {
    var s, ev := Idle(hist, q, table), Event(ArpT, i);
    ArpPolls(cfg, hist, q, table, i, sp);
    StepsSplit(cfg, s, ev, 4, 2);
    TwoSteps(cfg, Steps(cfg, s, ev, 4), ev);
    hide Steps, OwnSelf, Reply, Replies, HexText.ByteToStr, PhysicalStep, LogicalStep, NetworkStep, IpStep, MenuStep;
  }

  /** Arp keeps the first reply for an address. */
  lemma ArpTurnLearn(cfg: Config, hist: History, q: Queues, table: map<string, string>, i: Input, sp: SelfPkt)
    requires q.arp == [sp] && sp.packet.body.Arp? && sp.packet.body.arp.operation == ARP_REPLY
    requires HexText.ByteToStr(sp.packet.body.arp.senderProto) !in table
    ensures var a := sp.packet.body.arp;
            Steps(cfg, Idle(hist, q, table), Event(ArpT, i), 7)
            == Idle(hist.(arp := hist.arp + [sp]), q.(arp := []),
                    table[HexText.ByteToStr(a.senderProto) := HexText.ByteToStr(a.senderHard)])
  {
    var s, ev := Idle(hist, q, table), Event(ArpT, i);
    ArpPolls(cfg, hist, q, table, i, sp);
    StepsSplit(cfg, s, ev, 4, 3);
    FourSteps(cfg, Steps(cfg, s, ev, 4), ev);
    TwoSteps(cfg, Steps(cfg, s, ev, 4), ev);
    hide Steps, OwnSelf, Reply, HexText.ByteToStr, PhysicalStep, LogicalStep, NetworkStep, IpStep, MenuStep;
  }
}
