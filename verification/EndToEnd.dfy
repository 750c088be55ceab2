/** The stack on top of the codec: what the hosts of Hosts exchange as packets does get across
    as bytes. */
module EndToEnd {
  import opened Bytes
  import opened Packets
  import opened StackModel
  import opened Pipeline
  import opened PipelineLaws
  import opened StackLaws
  import opened Hosts
  import Builder
  import Parser
  import RoundTrip

  /** Lengths of an Ethernet/IPv4 ARP packet, and numbers that fit their fields. */
  ghost predicate Wireable(a: ArpFields) {
    && a.hlen == 6 && a.plen == 4
    && |a.senderHard| == 6 && |a.senderProto| == 4 && |a.targetHard| == 6 && |a.targetProto| == 4
    && S16(a.hardtype) == a.hardtype && S16(a.prototype) == a.prototype && S16(a.operation) == a.operation
  }

  ghost predicate Prepared(s: State) {
    (forall a | a in s.hist.issued :: Wireable(a)) && (s.pc.menu.MIssue? ==> |s.pc.menu.ip| == 4)
  }

  ghost predicate AllPrepared(hosts: seq<State>) {
    forall h: nat | h < |hosts| :: Prepared(hosts[h])
  }

  /** The address handed to requestIP has four bytes, as parsing an accepted line gives. */
  ghost predicate FourBytesTyped(events: seq<HostEvent>) {
    forall he | he in events :: FourBytes(he.event.input.address)
  }

  predicate FourBytes(address: Option<seq<byte>>) {
    address.Some? ==> |address.value| == 4
  }

  /** The packet in Arp's hands came over the medium: some host has issued it. */
  lemma InHandWasIssued(cfgs: seq<Config>, hosts: seq<State>, h: nat)
    requires NetOk(cfgs, hosts) && AllPrepared(hosts) && h < |hosts| && hosts[h].pc.arp.AHandle?
    ensures Wireable(hosts[h].pc.arp.a) && hosts[h].pc.arp.fakeMac == cfgs[h].mac
  {
    hide UpConserved, DownConserved, Control, Shutdown, Wireable, Typed, RepliesHaveCauses, OnMedium;
    assert HostOk(cfgs[h], hosts, h);
    var s := hosts[h];
    var i := |s.hist.arp| - 1;
    ArpInputTyped(cfgs[h], s, s.hist.arp[i]);
    HandledWasCaptured(cfgs[h], s, i);
    var g := MediumIsOwn(cfgs, hosts, s.hist.arp[i].packet);
    assert Prepared(hosts[g]);
  }

  lemma MenuStepPrepared(cfg: Config, s: State, ev: Event)
    requires Prepared(s) && FourBytes(ev.input.address)
    ensures var u := Step(cfg, s, ev); u.pc.menu.MIssue? ==> |u.pc.menu.ip| == 4
  {
    hide Wireable, Dress, MacFilter, NewSelf, OwnSelf, Request, Reply;
  }

  lemma RequestWireable(cfg: Config, ip: seq<byte>)
    requires cfg.Valid() && |ip| == 4
    ensures Wireable(Request(cfg, ip))
  {
  }

  lemma ReplyWireable(a: ArpFields, mac: seq<byte>)
    requires Wireable(a) && |mac| == 6
    ensures Wireable(Reply(a, mac))
  {
  }

  lemma PreparedStep(cfgs: seq<Config>, hosts: seq<State>, he: HostEvent)
    requires NetOk(cfgs, hosts) && AllPrepared(hosts) && Possible(hosts, he) && FourBytes(he.event.input.address)
    ensures AllPrepared(NetStep(cfgs, hosts, he))
  {
    hide Wireable, HostOk, Step, Request, Reply, Replies;
    var h := he.host;
    var cfg, s := cfgs[h], hosts[h];
    assert cfg in cfgs && Prepared(s);
    IssuedStep(cfg, s, he.event);
    MenuStepPrepared(cfg, s, he.event);
    if he.event.thread.MenuT? && s.pc.menu.MIssue? {
      RequestWireable(cfg, s.pc.menu.ip);
    } else if he.event.thread.ArpT? && s.pc.arp.AHandle? {
      InHandWasIssued(cfgs, hosts, h);
      ReplyWireable(s.pc.arp.a, s.pc.arp.fakeMac);
    }
  }

  lemma {:induction false} PreparedRun(cfgs: seq<Config>, hosts: seq<State>, events: seq<HostEvent>, final: seq<State>)
    requires NetOk(cfgs, hosts) && AllPrepared(hosts) && FourBytesTyped(events) && NetRun(cfgs, hosts, events, final)
    ensures AllPrepared(final)
    decreases |events|
  {
    hide NetOk, AllPrepared, NetStep, OnMedium;
    NetOkShape(cfgs, hosts);
    if events != [] {
      assert events[0] in events;
      PreparedNext(cfgs, hosts, events[0]);
      PreparedRun(cfgs, NetStep(cfgs, hosts, events[0]), events[1..], final);
    }
  }

  lemma PreparedNext(cfgs: seq<Config>, hosts: seq<State>, he: HostEvent)
    requires NetOk(cfgs, hosts) && AllPrepared(hosts) && Possible(hosts, he) && FourBytes(he.event.input.address)
    ensures |cfgs| == |hosts| && NetOk(cfgs, NetStep(cfgs, hosts, he)) && AllPrepared(NetStep(cfgs, hosts, he))
  {
    hide AllPrepared, NetStep;
    PreparedStep(cfgs, hosts, he);
    NetOkStep(cfgs, hosts, he);
  }

  /** In every run of any number of hosts, whatever a host hands to the sender of jpcap, built
      into a frame, padded and captured by any other host, is parsed into the packet it was:
      same Ethernet header, same ARP fields.  The byte orders of the two hosts, the
      uninitialised bits of the buffer and of the parser's stack make no difference. */
  lemma HandedFramesArrive(cfgs: seq<Config>, events: seq<HostEvent>, final: seq<State>, g: nat, p: Packet,
                           e: Order, r: Order, junk: byte, stale: word)
    requires (forall c | c in cfgs :: c.Valid()) && FourBytesTyped(events)
        && NetRun(cfgs, AllInitial(|cfgs|), events, final)
    requires |final| == |cfgs| && g < |cfgs| && p in final[g].hist.handed && junk < 16
    ensures RoundTrip.Survives(p)
    ensures var wire := Builder.Pad60(Builder.Frame(e, p, junk));
            Parser.Parse(r, Parser.Ethernet, wire, |wire|, stale) == Parser.Parsed(p.(header := wire[..42]))
  {
    hide NetRun, NetOk, AllPrepared, Parser.Parse, Builder.Frame, RoundTrip.Survives;
    NetOkInitially(cfgs);
    InitiallyPrepared(|cfgs|);
    NetOkRun(cfgs, AllInitial(|cfgs|), events, final);
    PreparedRun(cfgs, AllInitial(|cfgs|), events, final);
    HandedIsSendable(cfgs, final, g, p);
    RoundTrip.ArpFrameRoundTrip(e, r, p, junk, stale);
  }

  lemma InitiallyPrepared(n: nat)
    ensures AllPrepared(AllInitial(n))
  {
  }

  lemma HandedIsSendable(cfgs: seq<Config>, hosts: seq<State>, g: nat, p: Packet)
    requires NetOk(cfgs, hosts) && AllPrepared(hosts) && g < |hosts| && p in hosts[g].hist.handed
    ensures RoundTrip.Survives(p) && p.body.Arp? && Wireable(p.body.arp)
  {
    hide UpConserved, DownConserved, Control, Shutdown, Table, RepliesHaveCauses, OnMedium, Wireable, IsOwnFrame,
        RoundTrip.Survives;
    assert HostOk(cfgs[g], hosts, g) && cfgs[g] in cfgs && Prepared(hosts[g]);
    HandedAreIssued(cfgs[g], hosts[g], p);
    assert IsOwnFrame(cfgs[g], p);
    OwnFrameSurvives(cfgs[g], p);
  }

  lemma OwnFrameSurvives(cfg: Config, p: Packet)
    requires cfg.Valid() && IsOwnFrame(cfg, p) && Wireable(p.body.arp)
    ensures RoundTrip.Survives(p)
  {
  }

  /** The 60 bytes of a request for `ip` on the wire, as RFC 826 lays them out for Ethernet and
      IPv4: broadcast, our address, type 0x0806; hardware 1, protocol 0x0800, lengths 6 and 4,
      operation 1; our two addresses, zeros, the address asked for; padding. */
  lemma RequestOnTheWire(cfg: Config, ip: seq<byte>, e: Order, junk: byte)
    requires cfg.Valid() && |ip| == 4 && junk < 16
    ensures RoundTrip.Survives(OwnFrame(cfg, Request(cfg, ip)))
    ensures Builder.Pad60(Builder.Frame(e, OwnFrame(cfg, Request(cfg, ip)), junk)) ==
            [0xff, 0xff, 0xff, 0xff, 0xff, 0xff] + cfg.mac + [0x08, 0x06]
            + [0x00, 0x01, 0x08, 0x00, 6, 4, 0x00, 0x01] + cfg.mac + cfg.ip + [0, 0, 0, 0, 0, 0] + ip
            + [0, 0, 0, 0, 0, 0, 0, 0, 0, 0, 0, 0, 0, 0, 0, 0, 0, 0]
  {
    var p := OwnFrame(cfg, Request(cfg, ip));
    OwnFrameSurvives(cfg, p);
    RequestHead(cfg, ip);
    assert Builder.EtherHeader(p.datalink) == [0xff, 0xff, 0xff, 0xff, 0xff, 0xff] + cfg.mac + [0x08, 0x06];
    hide Builder.ArpHead;
    var frame := Builder.Frame(e, p, junk);
    assert frame == [0xff, 0xff, 0xff, 0xff, 0xff, 0xff] + cfg.mac + [0x08, 0x06]
                    + ([0x00, 0x01, 0x08, 0x00, 6, 4, 0x00, 0x01] + cfg.mac + cfg.ip + [0, 0, 0, 0, 0, 0] + ip);
  }

  lemma RequestHead(cfg: Config, ip: seq<byte>)
    ensures Builder.ArpHead(Request(cfg, ip)) == [0x00, 0x01, 0x08, 0x00, 6, 4, 0x00, 0x01]
  {
  }

  /** The 60 bytes of the reply to it, by whatever host answers: operation 2; the answering
      address and the address asked for; the two addresses of the asker. */
  lemma ReplyOnTheWire(cfg: Config, asker: Config, ip: seq<byte>, e: Order, junk: byte)
    requires cfg.Valid() && asker.Valid() && |ip| == 4 && junk < 16
    ensures var p := OwnFrame(cfg, Reply(Request(asker, ip), cfg.mac));
            RoundTrip.Survives(p)
            && Builder.Pad60(Builder.Frame(e, p, junk)) ==
               [0xff, 0xff, 0xff, 0xff, 0xff, 0xff] + cfg.mac + [0x08, 0x06]
               + [0x00, 0x01, 0x08, 0x00, 6, 4, 0x00, 0x02] + cfg.mac + ip + asker.mac + asker.ip
               + [0, 0, 0, 0, 0, 0, 0, 0, 0, 0, 0, 0, 0, 0, 0, 0, 0, 0]
  {
    var r := Reply(Request(asker, ip), cfg.mac);
    var p := OwnFrame(cfg, r);
    OwnFrameSurvives(cfg, p);
    assert Builder.ArpHead(r) == [0x00, 0x01, 0x08, 0x00, 6, 4, 0x00, 0x02];
    assert Builder.EtherHeader(p.datalink) == [0xff, 0xff, 0xff, 0xff, 0xff, 0xff] + cfg.mac + [0x08, 0x06];
    hide Builder.ArpHead;
    var frame := Builder.Frame(e, p, junk);
    assert frame == [0xff, 0xff, 0xff, 0xff, 0xff, 0xff] + cfg.mac + [0x08, 0x06]
                    + ([0x00, 0x01, 0x08, 0x00, 6, 4, 0x00, 0x02] + cfg.mac + ip + asker.mac + asker.ip);
  }
}
