/** When an address gets resolved at all: exactly when a host that compares contents shares the
    medium with a host of another hardware address. */
module Resolution {
  import opened Bytes
  import opened Packets
  import opened StackModel
  import opened Turns
  import opened Pipeline
  import opened PipelineLaws
  import opened StackLaws
  import opened StackTheorems
  import opened Hosts
  import opened EndToEnd
  import HexText

  const NoQueues: Queues := Queues([], [], [], [], [])

  function Quiet(): Input {
    Input(None, 0, None)
  }

  // ---------------------------------------------------------------- one host

  function Turn(ev: Event, n: nat): (events: seq<Event>)
    ensures |events| == n && forall x | x in events :: x == ev
  {
    seq(n, _ => ev)
  }

  lemma ThenTurn(cfg: Config, s: State, events: seq<Event>, ev: Event, n: nat)
    ensures Run(cfg, s, events + Turn(ev, n)) == Steps(cfg, Run(cfg, s, events), ev, n)
  {
    RunAppend(cfg, s, events, Turn(ev, n));
    StepsAreARun(cfg, Run(cfg, s, events), ev, n);
  }

  /** The outside supplies no frame other than `p`, and only addresses of four bytes. */
  ghost predicate Supplied(events: seq<Event>, p: Option<Packet>) {
    forall ev | ev in events :: (ev.input.frame.None? || ev.input.frame == p) && FourBytes(ev.input.address)
  }

  lemma DressedOwn(cfg: Config, a: ArpFields)
    ensures Dress(cfg, OwnSelf(a).(up := false)).packet == OwnFrame(cfg, a)
  {
  }

  /** A packet of our own goes all the way down. */
  lemma SendsDown(cfg: Config, hist: History, table: map<string, string>, a: ArpFields) returns (events: seq<Event>)
    ensures Run(cfg, Idle(hist, NoQueues.(net := [OwnSelf(a)]), table), events)
            == Idle(hist.(handed := hist.handed + [OwnFrame(cfg, a)]), NoQueues, table)
    ensures Supplied(events, None)
  {
    hide Steps, Dress, OwnFrame, Run, Idle;
    var s, i := Idle(hist, NoQueues.(net := [OwnSelf(a)]), table), Quiet();
    var sp := OwnSelf(a).(up := false);
    var net, log, phys := Turn(Event(NetworkT, i), 4), Turn(Event(LogicalT, i), 4), Turn(Event(PhysicalT, i), 5);
    Nothing(cfg, s);
    ThenTurn(cfg, s, [], Event(NetworkT, i), 4);
    assert [] + net == net;
    NetworkTurnDown(cfg, hist, NoQueues.(net := [OwnSelf(a)]), table, i, OwnSelf(a));
    assert [] + [sp] == [sp] && [] + [Dress(cfg, sp)] == [Dress(cfg, sp)];
    assert Run(cfg, s, net) == Idle(hist, NoQueues.(log := [sp]), table);
    ThenTurn(cfg, s, net, Event(LogicalT, i), 4);
    LogicalTurnDown(cfg, hist, NoQueues.(log := [sp]), table, i, sp);
    assert Run(cfg, s, net + log) == Idle(hist, NoQueues.(phys := [Dress(cfg, sp)]), table);
    ThenTurn(cfg, s, net + log, Event(PhysicalT, i), 5);
    PhysicalTurnDown(cfg, hist, NoQueues.(phys := [Dress(cfg, sp)]), table, i, Dress(cfg, sp));
    DressedOwn(cfg, a);
    events := net + log + phys;
  }

  lemma Nothing(cfg: Config, s: State)
    ensures Run(cfg, s, []) == s
  {
  }

  /** A captured packet as Arp polls it. */
  function Delivered(cfg: Config, p: Packet): SelfPkt {
    NewSelf(p).(fakeMac := cfg.mac, scanned := true)
  }

  /** An ARP frame that another host has sent, to this one or to all. */
  ghost predicate FromOther(cfg: Config, p: Packet) {
    p.body.Arp? && p.datalink.EthernetLink? && p.datalink.ether.frametype == ETHERTYPE_ARP
    && Accepts(cfg.mac, p.datalink.ether.src, p.datalink.ether.dst)
  }

  lemma PassesFilter(cfg: Config, p: Packet)
    requires FromOther(cfg, p)
    ensures var sp := NewSelf(p);
            && sp.up && !sp.scanned && sp.etherType == ETHERTYPE_ARP && sp.packet == p
                && MacFilter(cfg, sp.macSrc, sp.macDst)
  {
    MacFilterIff(cfg, p.datalink.ether.src, p.datalink.ether.dst);
  }

  lemma OtherBroadcasts(cfg: Config, other: Config, a: ArpFields)
    requires cfg.Valid() && other.Valid() && cfg.mac != other.mac
    ensures FromOther(cfg, OwnFrame(other, a))
  {
    assert cfg.mac[..6] == cfg.mac && other.mac[..6] == other.mac;
    SixBytes(other.mac, cfg.mac);
  }

  /** Such a frame goes all the way up. */
  lemma GetsUp(cfg: Config, hist: History, table: map<string, string>, p: Packet) returns (events: seq<Event>)
    requires FromOther(cfg, p)
    ensures Run(cfg, Idle(hist, NoQueues, table), events)
            == Idle(hist.(captured := hist.captured + [p]), NoQueues.(arp := [Delivered(cfg, p)]), table)
    ensures Supplied(events, Some(p))
  {
    PassesFilter(cfg, p);
    hide Steps, NewSelf, MacFilter, Run, Idle;
    var s, i, j, sp := Idle(hist, NoQueues, table), Input(Some(p), 0, None), Quiet(), NewSelf(p);
    var seen, passed := hist.(captured := hist.captured + [p]), sp.(fakeMac := cfg.mac);
    var phys, log, net := Turn(Event(PhysicalT, i), 4), Turn(Event(LogicalT, j), 4), Turn(Event(NetworkT, j), 4);
    Nothing(cfg, s);
    ThenTurn(cfg, s, [], Event(PhysicalT, i), 4);
    assert [] + phys == phys;
    PhysicalTurnUp(cfg, hist, NoQueues, table, i);
    assert [] + [sp] == [sp] && [] + [passed] == [passed];
    assert Run(cfg, s, phys) == Idle(seen, NoQueues.(log := [sp]), table);
    ThenTurn(cfg, s, phys, Event(LogicalT, j), 4);
    LogicalTurnUp(cfg, seen, NoQueues.(log := [sp]), table, j, sp);
    assert Run(cfg, s, phys + log) == Idle(seen, NoQueues.(net := [passed]), table);
    ThenTurn(cfg, s, phys + log, Event(NetworkT, j), 4);
    NetworkTurnUp(cfg, seen, NoQueues.(net := [passed]), table, j, passed);
    events := phys + log + net;
  }

  /** The user asks for an address. */
  lemma HostAsks(cfg: Config, hist: History, table: map<string, string>, ip: seq<byte>) returns (events: seq<Event>)
    requires HexText.ByteToStr(ip) !in table && |ip| == 4
    ensures var r := Request(cfg, ip);
            Run(cfg, Idle(hist, NoQueues, table), events)
            == Idle(hist.(issued := hist.issued + [r], handed := hist.handed + [OwnFrame(cfg, r)]), NoQueues, table)
    ensures Supplied(events, None)
  {
    hide Steps, OwnSelf, OwnFrame, Request, Run, Idle, HexText.ByteToStr;
    var s, i, r := Idle(hist, NoQueues, table), Input(None, 1, Some(ip)), Request(cfg, ip);
    var menu := Turn(Event(MenuT, i), 5);
    Nothing(cfg, s);
    ThenTurn(cfg, s, [], Event(MenuT, i), 5);
    assert [] + menu == menu;
    MenuTurn(cfg, hist, NoQueues, table, i);
    assert [] + [OwnSelf(r)] == [OwnSelf(r)];
    assert Run(cfg, s, menu) == Idle(hist.(issued := hist.issued + [r]), NoQueues.(net := [OwnSelf(r)]), table);
    var down := SendsDown(cfg, hist.(issued := hist.issued + [r]), table, r);
    RunAppend(cfg, s, menu, down);
    events := menu + down;
  }

  /** A host answers a request. */
  lemma HostAnswers(cfg: Config, hist: History, table: map<string, string>, p: Packet) returns (events: seq<Event>)
    requires FromOther(cfg, p) && Replies(cfg, p.body.arp)
    ensures var r := Reply(p.body.arp, cfg.mac);
            Run(cfg, Idle(hist, NoQueues, table), events)
            == Idle(hist.(captured := hist.captured + [p], arp := hist.arp + [Delivered(cfg, p)],
                          issued := hist.issued + [r],
                          handed := hist.handed + [OwnFrame(cfg, r)]), NoQueues, table)
    ensures Supplied(events, Some(p))
  {
    hide Steps, OwnSelf, OwnFrame, Reply, Replies, Run, Idle;
    var s, j, sp, r := Idle(hist, NoQueues, table), Quiet(), Delivered(cfg, p), Reply(p.body.arp, cfg.mac);
    var seen := hist.(captured := hist.captured + [p]);
    var heard := seen.(arp := seen.arp + [sp], issued := seen.issued + [r]);
    var up := GetsUp(cfg, hist, table, p);
    ThenTurn(cfg, s, up, Event(ArpT, j), 6);
    ArpTurnReply(cfg, seen, NoQueues.(arp := [sp]), table, j, sp);
    var answered := up + Turn(Event(ArpT, j), 6);
    assert [] + [OwnSelf(r)] == [OwnSelf(r)];
    assert Run(cfg, s, answered) == Idle(heard, NoQueues.(net := [OwnSelf(r)]), table);
    var down := SendsDown(cfg, heard, table, r);
    RunAppend(cfg, s, answered, down);
    events := answered + down;
  }

  /** A host learns from a reply. */
  lemma HostLearns(cfg: Config, hist: History, table: map<string, string>, p: Packet) returns (events: seq<Event>)
    requires FromOther(cfg, p) && p.body.arp.operation == ARP_REPLY
        && HexText.ByteToStr(p.body.arp.senderProto) !in table
    ensures Run(cfg, Idle(hist, NoQueues, table), events)
            == Idle(hist.(captured := hist.captured + [p], arp := hist.arp + [Delivered(cfg, p)]), NoQueues,
                    table[HexText.ByteToStr(p.body.arp.senderProto) := HexText.ByteToStr(p.body.arp.senderHard)])
    ensures Supplied(events, Some(p))
  {
    hide Steps, Run, HexText.ByteToStr;
    var s, j, sp := Idle(hist, NoQueues, table), Quiet(), Delivered(cfg, p);
    var up := GetsUp(cfg, hist, table, p);
    ThenTurn(cfg, s, up, Event(ArpT, j), 7);
    ArpTurnLearn(cfg, hist.(captured := hist.captured + [p]), NoQueues.(arp := [sp]), table, j, sp);
    events := up + Turn(Event(ArpT, j), 7);
  }

  /** A reply that is addressed to this host alone gets up to Arp and into the table. */
  lemma UnicastReplyIsLearned(cfg: Config, p: Packet) returns (events: seq<Event>)
    requires cfg.Valid() && WellTyped(p) && p.datalink.EthernetLink? && p.datalink.ether.frametype == 0x0806
    requires p.datalink.ether.dst == cfg.mac != p.datalink.ether.src && p.body.Arp? && p.body.arp.operation == 2
    ensures GoodSchedule(events)
    ensures var s, a := Run(cfg, Initial, events), p.body.arp;
            && s.hist.captured == PacketsOf(s.hist.arp) == [p]
            && s.table == map[HexText.ByteToStr(a.senderProto) := HexText.ByteToStr(a.senderHard)]
  {
    hide HexText.ByteToStr, Run, Supplied, GoodSchedule, Delivered;
    assert p.datalink.ether.src[..6] == p.datalink.ether.src && cfg.mac[..6] == cfg.mac;
    SixBytes(p.datalink.ether.src, cfg.mac);
    assert Idle(Initial.hist, NoQueues, map[]) == Initial;
    events := HostLearns(cfg, Initial.hist, map[], p);
    SuppliedIsGood(events, p);
    assert [] + [Delivered(cfg, p)] == [Delivered(cfg, p)] && [] + [p] == [p];
    OneDelivered(cfg, p);
  }

  lemma OneDelivered(cfg: Config, p: Packet)
    ensures PacketsOf([Delivered(cfg, p)]) == [p]
  {
    assert PacketsOf([Delivered(cfg, p)]) == [p] + PacketsOf([]);
  }

  lemma SuppliedIsGood(events: seq<Event>, p: Packet)
    requires Supplied(events, Some(p)) && WellTyped(p)
    ensures GoodSchedule(events) && OnlyCaptures(events, p)
  {
  }

  /** No frame other than `p` is captured. */
  ghost predicate OnlyCaptures(events: seq<Event>, p: Packet) {
    forall ev | ev in events :: ev.input.frame.None? || ev.input.frame == Some(p)
  }

  lemma {:induction false} CapturedIsSupplied(cfg: Config, s: State, events: seq<Event>, p: Packet)
    requires OnlyCaptures(events, p) && forall q | q in s.hist.captured :: q == p
    ensures forall q | q in Run(cfg, s, events).hist.captured :: q == p
    decreases |events|
  {
    hide Step;
    if events != [] {
      assert events[0] in events;
      ArpHistoryGrows(cfg, s, events[0]);
      CapturedIsSupplied(cfg, Step(cfg, s, events[0]), events[1..], p);
    }
  }

  /** A reply that is captured, with nothing else, is learned in some run of the host exactly if
      it comes from another and is addressed to this host or to all. */
  lemma CapturedReplyIsLearnedIff(cfg: Config, p: Packet)
    requires cfg.Valid() && WellTyped(p) && p.datalink.EthernetLink? && p.datalink.ether.frametype == 0x0806
    requires p.body.Arp? && p.body.arp.operation == 2
    ensures var src, dst := p.datalink.ether.src, p.datalink.ether.dst;
            (exists events ::
               OnlyCaptures(events, p) && HexText.ByteToStr(p.body.arp.senderProto) in Run(cfg, Initial, events).table)
            <==> (exists i | 0 <= i < 6 :: src[i] != cfg.mac[i])
                 && ((forall i | 0 <= i < 6 :: dst[i] == cfg.mac[i]) || (forall i | 0 <= i < 6 :: dst[i] == 0xff))
  {
    hide HexText.ByteToStr, Run, Supplied;
    var k := HexText.ByteToStr(p.body.arp.senderProto);
    if Accepts(cfg.mac, p.datalink.ether.src, p.datalink.ether.dst) {
      var events := HostLearns(cfg, Initial.hist, map[], p);
      assert Idle(Initial.hist, NoQueues, map[]) == Initial;
      SuppliedIsGood(events, p);
      assert k in Run(cfg, Initial, events).table;
    }
    if events :| OnlyCaptures(events, p) && k in Run(cfg, Initial, events).table {
      EntryNeedsAcceptance(cfg, p, events, k);
    }
  }

  lemma EntryNeedsAcceptance(cfg: Config, p: Packet, events: seq<Event>, k: string)
    requires WellTyped(p) && p.datalink.EthernetLink?
    requires OnlyCaptures(events, p) && k in Run(cfg, Initial, events).table
    ensures Accepts(cfg.mac, p.datalink.ether.src, p.datalink.ether.dst)
  {
    hide Run, Invariant, Accepts;
    assert GoodSchedule(events);
    var s := Reaches(cfg, events);
    var i := EntryFromReply(cfg, s, k);
    HandledWasCaptured(cfg, s, i);
    CapturedIsSupplied(cfg, Initial, events, p);
  }

  /** A host answers exactly if it compares contents: in some run of the code it issues a reply,
      or in none. */
  lemma RepliesIff(cfg: Config)
    requires cfg.Valid()
    ensures (exists events, a :: GoodSchedule(events) && a in Run(cfg, Initial, events).hist.issued
                                 && a.operation == ARP_REPLY)
            <==> cfg.compareContents
  {
    if cfg.compareContents {
      var asker := Config(if cfg.mac == ZERO_MAC then BROADCAST else ZERO_MAC, [0, 0, 0, 0], false);
      var p := OwnFrame(asker, Request(asker, [0, 0, 0, 0]));
      OtherBroadcasts(cfg, asker, Request(asker, [0, 0, 0, 0]));
      var events := HostAnswers(cfg, Initial.hist, map[], p);
      assert Idle(Initial.hist, NoQueues, map[]) == Initial;
      hide Run;
      assert WellTyped(p);
      assert GoodSchedule(events);
      assert Reply(p.body.arp, cfg.mac) in Run(cfg, Initial, events).hist.issued;
    } else {
      forall events, a | GoodSchedule(events) && a in Run(cfg, Initial, events).hist.issued
        ensures a.operation != ARP_REPLY
      {
        NoReplyAsWritten(cfg, Initial, events);
      }
    }
  }

  // ---------------------------------------------------------------- the network

  lemma {:induction false} NetRunAppend(cfgs: seq<Config>, hosts: seq<State>, a: seq<HostEvent>, mid: seq<State>,
                                        b: seq<HostEvent>, final: seq<State>)
    requires |cfgs| == |hosts| == |mid| && NetRun(cfgs, hosts, a, mid) && NetRun(cfgs, mid, b, final)
    ensures NetRun(cfgs, hosts, a + b, final)
    decreases |a|
  {
    hide Possible, NetStep;
    if a == [] {
      assert a + b == b;
    } else {
      assert Possible(hosts, a[0]) ==> a[0].host < |hosts| by { HostInNetwork(hosts, a[0]); }
      NetRunAppend(cfgs, NetStep(cfgs, hosts, a[0]), a[1..], mid, b, final);
      assert (a + b)[1..] == a[1..] + b;
    }
  }

  lemma HostInNetwork(hosts: seq<State>, he: HostEvent)
    ensures Possible(hosts, he) ==> he.host < |hosts|
  {
  }

  /** The steps of one host. */
  function At(h: nat, events: seq<Event>): (hes: seq<HostEvent>)
    ensures |hes| == |events| && forall i | 0 <= i < |events| :: hes[i] == HostEvent(h, events[i])
    ensures forall he | he in hes :: he.event in events
  {
    seq(|events|, i requires 0 <= i < |events| => HostEvent(h, events[i]))
  }

  lemma {:induction false} HostMoves(cfgs: seq<Config>, hosts: seq<State>, h: nat, events: seq<Event>,
                                     p: Option<Packet>)
    requires |cfgs| == |hosts| && h < |hosts| && Supplied(events, p) && (p.Some? ==> OnMedium(hosts, p.value))
    ensures NetRun(cfgs, hosts, At(h, events), hosts[h := Run(cfgs[h], hosts[h], events)])
    decreases |events|
  {
    hide Step, OnMedium;
    if events == [] {
      assert hosts[h := hosts[h]] == hosts;
    } else {
      var he := At(h, events)[0];
      var next := NetStep(cfgs, hosts, he);
      assert events[0] in events && Possible(hosts, he);
      if p.Some? {
        MediumGrows(cfgs, hosts, he, p.value);
      }
      HostMoves(cfgs, next, h, events[1..], p);
      assert At(h, events)[1..] == At(h, events[1..]);
      assert next[h := Run(cfgs[h], next[h], events[1..])] == hosts[h := Run(cfgs[h], hosts[h], events)];
    }
  }

  lemma HandedIsOnMedium(hosts: seq<State>, h: nat, p: Packet)
    requires h < |hosts| && p in hosts[h].hist.handed
    ensures OnMedium(hosts, p)
  {
    assert SentBy(hosts[h].hist.handed, p);
  }

  /** A run in which host `j` asks for an address, host `g` answers and host `j` learns. */
  lemma Exchange(cfgs: seq<Config>, g: nat, j: nat, ip: seq<byte>) returns (events: seq<HostEvent>, final: seq<State>)
    requires (forall c | c in cfgs :: c.Valid()) && Resolves(cfgs, g, j) && |ip| == 4
    ensures NetRun(cfgs, AllInitial(|cfgs|), events, final) && |final| == |cfgs| && FourBytesTyped(events)
    ensures final[j].table == map[HexText.ByteToStr(ip) := HexText.ByteToStr(cfgs[g].mac)]
  {
    assert cfgs[g] in cfgs && cfgs[j] in cfgs;
    var start := AllInitial(|cfgs|);
    assert Idle(Initial.hist, NoQueues, map[]) == Initial;
    var request := OwnFrame(cfgs[j], Request(cfgs[j], ip));
    var reply := OwnFrame(cfgs[g], Reply(Request(cfgs[j], ip), cfgs[g].mac));

    var asks := HostAsks(cfgs[j], Initial.hist, map[], ip);
    HostMoves(cfgs, start, j, asks, None);
    var asked := start[j := Run(cfgs[j], Initial, asks)];
    HandedIsOnMedium(asked, j, request);

    OtherBroadcasts(cfgs[g], cfgs[j], Request(cfgs[j], ip));
    OtherBroadcasts(cfgs[j], cfgs[g], Reply(Request(cfgs[j], ip), cfgs[g].mac));
    hide FromOther;
    var answers := HostAnswers(cfgs[g], Initial.hist, map[], request);
    HostMoves(cfgs, asked, g, answers, Some(request));
    var answered := asked[g := Run(cfgs[g], Initial, answers)];
    HandedIsOnMedium(answered, g, reply);
    NetRunAppend(cfgs, start, At(j, asks), asked, At(g, answers), answered);

    var learns := HostLearns(cfgs[j], answered[j].hist, map[], reply);
    HostMoves(cfgs, answered, j, learns, Some(reply));
    final := answered[j := Run(cfgs[j], answered[j], learns)];
    events := At(j, asks) + At(g, answers) + At(j, learns);
    NetRunAppend(cfgs, start, At(j, asks) + At(g, answers), answered, At(j, learns), final);
  }

  /** Some run of the network gives some host an entry. */
  ghost predicate SomethingIsResolved(cfgs: seq<Config>) {
    exists events: seq<HostEvent>, final: seq<State>, h: nat ::
      NetRun(cfgs, AllInitial(|cfgs|), events, final) && |final| == |cfgs| && h < |cfgs| && final[h].table != map[]
  }

  /** Some address gets resolved in some run exactly if there are a host that compares contents
      and a host with another hardware address.  (So with line 42 as written no address is ever
      resolved.) */
  lemma AddressesResolveIff(cfgs: seq<Config>)
    requires forall c | c in cfgs :: c.Valid()
    ensures SomethingIsResolved(cfgs) <==> exists g: nat, j: nat :: Resolves(cfgs, g, j)
  {
    hide NetRun, Resolves;
    if g: nat, j: nat :| Resolves(cfgs, g, j) {
      InRange(cfgs, g, j);
      var events, final := Exchange(cfgs, g, j, [0, 0, 0, 0]);
      assert HexText.ByteToStr([0, 0, 0, 0]) in final[j].table;
    }
    if SomethingIsResolved(cfgs) {
      var events: seq<HostEvent>, final: seq<State>, h: nat :|
        NetRun(cfgs, AllInitial(|cfgs|), events, final) && |final| == |cfgs| && h < |cfgs| && final[h].table != map[];
      assert final[h].table.Keys != {};
      var k :| k in final[h].table;
      EntriesComeFromReplies(cfgs, events, final, h, k);
    }
  }

  lemma InRange(cfgs: seq<Config>, g: nat, j: nat)
    requires Resolves(cfgs, g, j)
    ensures g < |cfgs| && j < |cfgs|
  {
  }

  /** The entry names the hardware address of a host configured with the address. */
  ghost predicate Owner(cfgs: seq<Config>, k: string, v: string) {
    exists o: nat :: o < |cfgs| && k == HexText.ByteToStr(cfgs[o].ip) && v == HexText.ByteToStr(cfgs[o].mac)
  }

  /** In every run every entry is its owner's. */
  ghost predicate EntriesAreOwners(cfgs: seq<Config>) {
    forall events: seq<HostEvent>, final: seq<State>, h: nat, k: string |
      NetRun(cfgs, AllInitial(|cfgs|), events, final) && FourBytesTyped(events) && |final| == |cfgs| && h < |cfgs|
          && k in final[h].table ::
      Owner(cfgs, k, final[h].table[k])
  }

  /** The hardware address of host `g` is that of a host configured with `ip`. */
  ghost predicate RightFor(cfgs: seq<Config>, g: nat, ip: seq<byte>) {
    g < |cfgs| && exists o: nat :: o < |cfgs| && cfgs[o].ip == ip && cfgs[o].mac == cfgs[g].mac
  }

  /** Hosts answer for any address, so the tables are right in every run exactly if every host
      that replies to another has, for every address there is, the hardware address of a host
      with that address: not just if each replies for its own. */
  lemma EntriesAreOwnersIff(cfgs: seq<Config>)
    requires forall c | c in cfgs :: c.Valid()
    ensures EntriesAreOwners(cfgs) <==>
            forall g: nat, j: nat, ip: seq<byte> | Resolves(cfgs, g, j) && |ip| == 4 ::
              RightFor(cfgs, g, ip)
  {
    hide NetRun, Resolves;
    if EntriesAreOwners(cfgs) {
      forall g: nat, j: nat, ip: seq<byte> | Resolves(cfgs, g, j) && |ip| == 4
        ensures RightFor(cfgs, g, ip)
      {
        InRange(cfgs, g, j);
        var events, final := Exchange(cfgs, g, j, ip);
        var k := HexText.ByteToStr(ip);
        assert k in final[j].table && Owner(cfgs, k, final[j].table[k]);
        var o: nat :| o < |cfgs| && k == HexText.ByteToStr(cfgs[o].ip)
            && final[j].table[k] == HexText.ByteToStr(cfgs[o].mac);
        HexText.ByteToStrInjective(ip, cfgs[o].ip);
        HexText.ByteToStrInjective(cfgs[g].mac, cfgs[o].mac);
      }
    } else {
      var events: seq<HostEvent>, final: seq<State>, h: nat, k: string :|
        NetRun(cfgs, AllInitial(|cfgs|), events, final) && FourBytesTyped(events) && |final| == |cfgs|
            && h < |cfgs| && k in final[h].table
        && !Owner(cfgs, k, final[h].table[k]);
      var v := final[h].table[k];
      var g, j, r := EntrySource(cfgs, events, final, h, k);
      assert RightFor(cfgs, g, r.senderProto) ==> Owner(cfgs, k, v);
    }
  }

  lemma EntrySource(cfgs: seq<Config>, events: seq<HostEvent>, final: seq<State>, h: nat, k: string)
      returns (g: nat, j: nat, r: ArpFields)
    requires forall c | c in cfgs :: c.Valid()
    requires NetRun(cfgs, AllInitial(|cfgs|), events, final) && FourBytesTyped(events)
    requires |final| == |cfgs| && h < |cfgs| && k in final[h].table
    ensures Resolves(cfgs, g, j) && |r.senderProto| == 4 && k == HexText.ByteToStr(r.senderProto)
    ensures g < |cfgs| && final[h].table[k] == HexText.ByteToStr(cfgs[g].mac)
  {
    hide NetRun, Resolves;
    EntriesComeFromReplies(cfgs, events, final, h, k);
    var a: ArpFields;
    g, j, r, a :|
      && g < |cfgs| && r in final[g].hist.issued && r.operation == ARP_REPLY && r.senderHard == cfgs[g].mac
      && final[h].table[k] == HexText.ByteToStr(cfgs[g].mac) && k == HexText.ByteToStr(r.senderProto)
      && j < |cfgs| && a in final[j].hist.issued && a == Request(cfgs[j], r.senderProto)
      && Resolves(cfgs, g, j);
    NetOkInitially(cfgs);
    InitiallyPrepared(|cfgs|);
    PreparedRun(cfgs, AllInitial(|cfgs|), events, final);
    assert Prepared(final[g]);
  }
}
