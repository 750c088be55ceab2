/** Any number of hosts running the stack on one broadcast medium.  The medium may lose, repeat
    and reorder: a host may capture, at any time, any frame that any host has handed over. */
module Hosts {
  import opened Bytes
  import opened Packets
  import opened StackModel
  import opened Pipeline
  import opened PipelineLaws
  import opened StackLaws
  import opened StackTheorems
  import HexText

  datatype HostEvent = HostEvent(host: nat, event: Event)

  /** A frame arrives with the header and the packet fields it left with
      (RoundTrip.ArpFrameRoundTrip); the raw `header` and `data` are filled in on arrival. */
  ghost predicate SentBy(sent: seq<Packet>, p: Packet) {
    exists q :: q in sent && p.datalink == q.datalink && p.body == q.body
  }

  ghost predicate OnMedium(hosts: seq<State>, p: Packet) {
    exists g: nat :: g < |hosts| && SentBy(hosts[g].hist.handed, p)
  }

  ghost predicate Possible(hosts: seq<State>, he: HostEvent) {
    he.host < |hosts| && (he.event.input.frame.Some? ==> OnMedium(hosts, he.event.input.frame.value))
  }

  function NetStep(cfgs: seq<Config>, hosts: seq<State>, he: HostEvent): (r: seq<State>)
    requires |cfgs| == |hosts| && he.host < |hosts|
    ensures |r| == |hosts|
  {
    hosts[he.host := Step(cfgs[he.host], hosts[he.host], he.event)]
  }

  /** The states of the hosts after a run in which every capture is of a frame on the medium. */
  ghost predicate NetRun(cfgs: seq<Config>, hosts: seq<State>, events: seq<HostEvent>, final: seq<State>)
    requires |cfgs| == |hosts|
    decreases |events|
  {
    if events == [] then final == hosts
    else Possible(hosts, events[0]) && NetRun(cfgs, NetStep(cfgs, hosts, events[0]), events[1..], final)
  }

  function AllInitial(n: nat): (r: seq<State>)
    ensures |r| == n
  {
    seq(n, i => Initial)
  }

  // ---------------------------------------------------------------- causes within one host

  /** A request that made the reply `r`. */
  ghost predicate CausedBy(cfg: Config, q: seq<SelfPkt>, r: ArpFields) {
    exists sp :: sp in q && sp.packet.body.Arp? && Replies(cfg, sp.packet.body.arp)
        && r == Reply(sp.packet.body.arp, cfg.mac)
  }

  /** Every reply issued answers a request handled. */
  ghost predicate RepliesHaveCauses(cfg: Config, s: State) {
    forall r | r in s.hist.issued && r.operation == ARP_REPLY :: CausedBy(cfg, s.hist.arp, r)
  }

  lemma ArpHistoryGrows(cfg: Config, s: State, ev: Event)
    ensures s.hist.arp <= Step(cfg, s, ev).hist.arp
    ensures s.hist.handed <= Step(cfg, s, ev).hist.handed
    ensures s.hist.issued <= Step(cfg, s, ev).hist.issued
    ensures Step(cfg, s, ev).hist.captured == s.hist.captured ||
            (ev.input.frame.Some? && Step(cfg, s, ev).hist.captured == s.hist.captured + [ev.input.frame.value])
  {
    hide PhysicalStep, LogicalStep, NetworkStep, ArpStep, IpStep, MenuStep;
    match ev.thread
    case PhysicalT => PhysicalHistory(s, ev.input);
    case LogicalT => LayersHistory(cfg, s);
    case NetworkT => LayersHistory(cfg, s);
    case _ => ProtocolsHistory(cfg, s, ev.input);
  }

  lemma PhysicalHistory(s: State, i: StackModel.Input)
    ensures var h := PhysicalStep(s, i).hist;
            && h.arp == s.hist.arp && s.hist.handed <= h.handed && h.issued == s.hist.issued
            && (h.captured == s.hist.captured || (i.frame.Some? && h.captured == s.hist.captured + [i.frame.value]))
  {
    hide NewSelf;
  }

  lemma LayersHistory(cfg: Config, s: State)
    ensures LogicalStep(cfg, s).hist == s.hist && NetworkStep(s).hist == s.hist
  {
    hide Dress, MacFilter;
  }

  lemma ProtocolsHistory(cfg: Config, s: State, i: StackModel.Input)
    ensures s.hist.arp <= ArpStep(cfg, s).hist.arp && s.hist.issued <= ArpStep(cfg, s).hist.issued
    ensures ArpStep(cfg, s).hist.captured == s.hist.captured && ArpStep(cfg, s).hist.handed == s.hist.handed
    ensures var h, g := IpStep(s).hist, s.hist;
            h.arp == g.arp && h.captured == g.captured && h.handed == g.handed && h.issued == g.issued
    ensures var h, g := MenuStep(cfg, s, i).hist, s.hist;
            h.arp == g.arp && h.captured == g.captured && h.handed == g.handed && g.issued <= h.issued
  {
    hide OwnSelf, Request, Reply, Replies, IsIpBody;
  }

  lemma IssuedStep(cfg: Config, s: State, ev: Event)
    ensures var u := Step(cfg, s, ev);
            || u.hist.issued == s.hist.issued
            || (ev.thread.MenuT? && s.pc.menu.MIssue? && u.hist.issued == s.hist.issued + [Request(cfg, s.pc.menu.ip)])
            || (ev.thread.ArpT? && s.pc.arp.AHandle? && Replies(cfg, s.pc.arp.a) &&
                u.hist.issued == s.hist.issued + [Reply(s.pc.arp.a, s.pc.arp.fakeMac)])
  {
    hide Dress, MacFilter, NewSelf, OwnSelf;
  }

  lemma CausesStep(cfg: Config, s: State, ev: Event)
    requires RepliesHaveCauses(cfg, s) && Typed(cfg, FlowOf(s)) && Table(s)
    ensures RepliesHaveCauses(cfg, Step(cfg, s, ev))
  {
    hide Step, Typed, FlowOf, Replies, Reply, Learned;
    var u := Step(cfg, s, ev);
    ArpHistoryGrows(cfg, s, ev);
    IssuedStep(cfg, s, ev);
    forall r | r in u.hist.issued && r.operation == ARP_REPLY
      ensures CausedBy(cfg, u.hist.arp, r)
    {
      if r in s.hist.issued {
        assert CausedBy(cfg, s.hist.arp, r);
      } else {
        var sp := s.hist.arp[|s.hist.arp| - 1];
        ArpInputTyped(cfg, s, sp);
        assert sp in u.hist.arp;
      }
    }
  }

  // ---------------------------------------------------------------- the invariant of the network

  ghost predicate HostOk(cfg: Config, hosts: seq<State>, h: nat)
    requires h < |hosts|
  {
    Invariant(cfg, hosts[h]) && RepliesHaveCauses(cfg, hosts[h]) &&
    forall p | p in hosts[h].hist.captured :: OnMedium(hosts, p)
  }

  ghost predicate NetOk(cfgs: seq<Config>, hosts: seq<State>) {
    |cfgs| == |hosts| && (forall c | c in cfgs :: c.Valid()) && forall h: nat | h < |hosts| :: HostOk(cfgs[h], hosts, h)
  }

  lemma MediumGrows(cfgs: seq<Config>, hosts: seq<State>, he: HostEvent, p: Packet)
    requires |cfgs| == |hosts| && he.host < |hosts| && OnMedium(hosts, p)
    ensures OnMedium(NetStep(cfgs, hosts, he), p)
  {
    hide Step;
    ArpHistoryGrows(cfgs[he.host], hosts[he.host], he.event);
    var g: nat :| g < |hosts| && SentBy(hosts[g].hist.handed, p);
    var q :| q in hosts[g].hist.handed && p.datalink == q.datalink && p.body == q.body;
    assert q in NetStep(cfgs, hosts, he)[g].hist.handed;
    assert SentBy(NetStep(cfgs, hosts, he)[g].hist.handed, p);
  }

  /** A frame on the medium is an ARP frame of some host's own. */
  lemma MediumIsOwn(cfgs: seq<Config>, hosts: seq<State>, p: Packet) returns (g: nat)
    requires NetOk(cfgs, hosts) && OnMedium(hosts, p)
    ensures g < |hosts| && p.body.Arp? && OwnArp(cfgs[g], p.body.arp)
    ensures p.datalink == EthernetLink(Ether(BROADCAST, cfgs[g].mac, ETHERTYPE_ARP))
    ensures p.body.arp in hosts[g].hist.issued
    ensures WellTyped(p)
  {
    hide UpConserved, Control, Shutdown, Table, OwnArp;
    g :| g < |hosts| && SentBy(hosts[g].hist.handed, p);
    assert HostOk(cfgs[g], hosts, g) && cfgs[g] in cfgs;
    var q :| q in hosts[g].hist.handed && p.datalink == q.datalink && p.body == q.body;
    assert IsOwnFrame(cfgs[g], q);
    HandedAreIssued(cfgs[g], hosts[g], q);
  }

  lemma HandedAreIssued(cfg: Config, s: State, q: Packet)
    requires Typed(cfg, FlowOf(s)) && DownConserved(FlowOf(s)) && q in s.hist.handed
    ensures q.body.Arp? && q.body.arp in s.hist.issued
  {
    HandedAreOwn(cfg, s.hist.handed);
    assert IsOwnFrame(cfg, q);
    ArpsContain(s.hist.handed, q);
    assert q.body.arp in DownChain(FlowOf(s));
  }

  lemma {:induction false} ArpsContain(ps: seq<Packet>, q: Packet)
    requires q in ps && q.body.Arp?
    ensures q.body.arp in ArpsOf(ps)
  {
    if ps[0] != q {
      ArpsContain(ps[1..], q);
    }
  }

  lemma NetOkStep(cfgs: seq<Config>, hosts: seq<State>, he: HostEvent)
    requires NetOk(cfgs, hosts) && Possible(hosts, he)
    ensures NetOk(cfgs, NetStep(cfgs, hosts, he))
  {
    hide Invariant, Step, RepliesHaveCauses, OnMedium;
    var next := NetStep(cfgs, hosts, he);
    forall h: nat | h < |hosts|
      ensures HostOk(cfgs[h], next, h)
    {
      assert HostOk(cfgs[h], hosts, h);
      forall p | OnMedium(hosts, p)
        ensures OnMedium(next, p)
      {
        MediumGrows(cfgs, hosts, he, p);
      }
      if h == he.host {
        HostStep(cfgs, hosts, he);
      }
    }
  }

  lemma HostStep(cfgs: seq<Config>, hosts: seq<State>, he: HostEvent)
    requires NetOk(cfgs, hosts) && Possible(hosts, he)
    ensures var u := Step(cfgs[he.host], hosts[he.host], he.event);
            && Invariant(cfgs[he.host], u) && RepliesHaveCauses(cfgs[he.host], u)
            && forall p | p in u.hist.captured :: OnMedium(hosts, p)
  {
    hide Step, OnMedium, RepliesHaveCauses, UpConserved, DownConserved, Control, Shutdown, Typed, Table;
    var h := he.host;
    assert HostOk(cfgs[h], hosts, h);
    if he.event.input.frame.Some? {
      var g := MediumIsOwn(cfgs, hosts, he.event.input.frame.value);
    }
    InvariantStep(cfgs[h], hosts[h], he.event);
    CausesStep(cfgs[h], hosts[h], he.event);
    ArpHistoryGrows(cfgs[h], hosts[h], he.event);
  }

  lemma {:induction false} NetOkRun(cfgs: seq<Config>, hosts: seq<State>, events: seq<HostEvent>, final: seq<State>)
    requires NetOk(cfgs, hosts) && NetRun(cfgs, hosts, events, final)
    ensures NetOk(cfgs, final)
    decreases |events|
  {
    hide NetOk, NetStep, OnMedium;
    if events != [] {
      assert |cfgs| == |hosts| by {
        NetOkShape(cfgs, hosts);
      }
      NetOkStep(cfgs, hosts, events[0]);
      NetOkRun(cfgs, NetStep(cfgs, hosts, events[0]), events[1..], final);
    }
  }

  lemma NetOkShape(cfgs: seq<Config>, hosts: seq<State>)
    requires NetOk(cfgs, hosts)
    ensures |cfgs| == |hosts|
  {
  }

  lemma NetOkInitially(cfgs: seq<Config>)
    requires forall c | c in cfgs :: c.Valid()
    ensures NetOk(cfgs, AllInitial(|cfgs|))
  {
    hide Invariant;
    var hosts := AllInitial(|cfgs|);
    forall h: nat | h < |hosts|
      ensures HostOk(cfgs[h], hosts, h)
    {
      InvariantInitially(cfgs[h]);
    }
  }

  // ---------------------------------------------------------------- where entries come from

  /** Host `g` replies to what host `j` asks. */
  predicate Resolves(cfgs: seq<Config>, g: nat, j: nat) {
    g < |cfgs| && j < |cfgs| && cfgs[g].compareContents && cfgs[g].mac != cfgs[j].mac
  }

  lemma {:induction false} WantedIsCaptured(cfg: Config, k: word, ps: seq<Packet>, p: Packet)
    requires p in WantedOf(cfg, k, ps)
    ensures p in ps && Wanted(cfg, k, p)
  {
    hide Wanted;
    if !(Wanted(cfg, k, ps[0]) && p == ps[0]) {
      WantedIsCaptured(cfg, k, ps[1..], p);
    }
  }

  lemma {:induction false} PacketIn(q: seq<SelfPkt>, i: nat)
    requires i < |q|
    ensures q[i].packet in PacketsOf(q)
  {
    if i > 0 {
      PacketIn(q[1..], i - 1);
    }
  }

  lemma HandledWasCaptured(cfg: Config, s: State, i: nat)
    requires Invariant(cfg, s) && i < |s.hist.arp|
    ensures s.hist.arp[i].packet in s.hist.captured && Wanted(cfg, ETHERTYPE_ARP, s.hist.arp[i].packet)
  {
    hide Typed, DownConserved, Control, Shutdown, Table, Rising, WantedOf, PacketsOf;
    var p := s.hist.arp[i].packet;
    PacketIn(s.hist.arp + s.q.arp, i);
    assert p in UpChain(cfg, ETHERTYPE_ARP, FlowOf(s));
    WantedIsCaptured(cfg, ETHERTYPE_ARP, s.hist.captured, p);
  }

  lemma EntryFromReply(cfg: Config, s: State, k: string) returns (i: nat)
    requires Invariant(cfg, s) && k in s.table
    ensures ReplyFor(s.hist.arp, i, k)
    ensures s.table[k] == HexText.ByteToStr(s.hist.arp[i].packet.body.arp.senderHard)
  {
    hide Typed, UpConserved, DownConserved, Control, Shutdown;
    var q := s.hist.arp;
    FirstReplyWins(q, k);
    assert k in Learned(q) && Learned(q)[k] == s.table[k];
    i :| ReplyFor(q, i, k);
    i := FirstOne(q, i, k);
  }

  lemma FirstOne(q: seq<SelfPkt>, i: nat, k: string) returns (j: nat)
    requires ReplyFor(q, i, k)
    ensures FirstReplyFor(q, j, k)
  {
    j := 0;
    while !ReplyFor(q, j, k)
      invariant j <= i && forall m: nat | m < j :: !ReplyFor(q, m, k)
      decreases i - j
    {
      j := j + 1;
    }
  }

  /** Among any number of hosts, every entry of every table maps an address that some host asked
      for to the hardware address of a host that replied for it: one that compares contents, and
      whose hardware address is not the asker's. */
  lemma EntriesComeFromReplies(cfgs: seq<Config>, events: seq<HostEvent>, final: seq<State>, h: nat, k: string)
    requires (forall c | c in cfgs :: c.Valid()) && NetRun(cfgs, AllInitial(|cfgs|), events, final)
    requires |final| == |cfgs| && h < |cfgs| && k in final[h].table
    ensures exists g: nat, j: nat, r, a ::
              && g < |cfgs| && r in final[g].hist.issued && r.operation == ARP_REPLY && r.senderHard == cfgs[g].mac
              && final[h].table[k] == HexText.ByteToStr(cfgs[g].mac) && k == HexText.ByteToStr(r.senderProto)
              && j < |cfgs| && a in final[j].hist.issued && a == Request(cfgs[j], r.senderProto)
              && Resolves(cfgs, g, j)
  {
    hide Invariant, NetRun, RepliesHaveCauses;
    NetOkInitially(cfgs);
    NetOkRun(cfgs, AllInitial(|cfgs|), events, final);
    assert HostOk(cfgs[h], final, h);
    var i := EntryFromReply(cfgs[h], final[h], k);
    var r := final[h].hist.arp[i].packet.body.arp;
    HandledWasCaptured(cfgs[h], final[h], i);
    var g := MediumIsOwn(cfgs, final, final[h].hist.arp[i].packet);
    var j := ReplyAnswersRequest(cfgs, final, g, r);
    assert Request(cfgs[j], r.senderProto) in final[j].hist.issued;
  }

  lemma ReplyAnswersRequest(cfgs: seq<Config>, hosts: seq<State>, g: nat, r: ArpFields) returns (j: nat)
    requires NetOk(cfgs, hosts) && g < |hosts| && r in hosts[g].hist.issued && r.operation == ARP_REPLY
    ensures j < |hosts| && Request(cfgs[j], r.senderProto) in hosts[j].hist.issued && Resolves(cfgs, g, j)
  {
    hide Invariant;
    assert HostOk(cfgs[g], hosts, g);
    assert CausedBy(cfgs[g], hosts[g].hist.arp, r);
    var sp :| sp in hosts[g].hist.arp && sp.packet.body.Arp? && Replies(cfgs[g], sp.packet.body.arp)
              && r == Reply(sp.packet.body.arp, cfgs[g].mac);
    var i :| 0 <= i < |hosts[g].hist.arp| && hosts[g].hist.arp[i] == sp;
    HandledWasCaptured(cfgs[g], hosts[g], i);
    j := MediumIsOwn(cfgs, hosts, sp.packet);
  }

  /** Which host replies is not decided by the address asked for: every host that compares
      contents answers every request, whatever address it is configured with. */
  lemma AnswersForAnyAddress(cfg: Config, asker: Config, ip: seq<byte>)
    requires cfg.compareContents
    ensures Replies(cfg, Request(asker, ip))
    ensures Reply(Request(asker, ip), cfg.mac).senderProto == ip
    ensures Reply(Request(asker, ip), cfg.mac).targetHard == asker.mac
  {
  }

  // ---------------------------------------------------------------- the code as written

  ghost predicate OnlyRequests(hosts: seq<State>) {
    forall h: nat, a | h < |hosts| && a in hosts[h].hist.issued :: a.operation == ARP_REQUEST
  }

  lemma {:induction false} OnlyRequestsRun(cfgs: seq<Config>, hosts: seq<State>, events: seq<HostEvent>,
      final: seq<State>)
    requires |cfgs| == |hosts| && (forall c | c in cfgs :: !c.compareContents)
    requires OnlyRequests(hosts) && NetRun(cfgs, hosts, events, final)
    ensures OnlyRequests(final)
    decreases |events|
  {
    hide Step, OnMedium;
    if events != [] {
      var he := events[0];
      assert cfgs[he.host] in cfgs;
      IssuedStep(cfgs[he.host], hosts[he.host], he.event);
      OnlyRequestsRun(cfgs, NetStep(cfgs, hosts, he), events[1..], final);
    }
  }

  /** With line 42 as it is written no host ever replies, and among hosts that all run this code
      every table stays empty: no address is ever resolved. */
  lemma AsWrittenNothingIsResolved(cfgs: seq<Config>, events: seq<HostEvent>, final: seq<State>, h: nat)
    requires forall c | c in cfgs :: c.Valid() && !c.compareContents
    requires NetRun(cfgs, AllInitial(|cfgs|), events, final)
    requires |final| == |cfgs| && h < |cfgs|
    ensures final[h].table == map[]
  {
    hide NetRun;
    assert OnlyRequests(final) by {
      OnlyRequestsRun(cfgs, AllInitial(|cfgs|), events, final);
    }
    if k :| k in final[h].table {
      EntriesComeFromReplies(cfgs, events, final, h, k);
    }
  }
}
