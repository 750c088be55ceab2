/** Results over whole runs: any number of steps of the threads in any order, with any frames
    captured and any input from the user. */
module StackTheorems {
  import opened Bytes
  import opened Packets
  import opened StackModel
  import opened Pipeline
  import opened PipelineLaws
  import opened StackLaws
  import HexText

  lemma Reaches(cfg: Config, events: seq<Event>) returns (s: State)
    requires GoodSchedule(events)
    ensures s == Run(cfg, Initial, events) && Invariant(cfg, s)
  {
    InvariantInitially(cfg);
    InvariantRun(cfg, Initial, events);
    s := Run(cfg, Initial, events);
  }

  // ---------------------------------------------------------------- upward

  /** No loss, no duplication, no reordering: in every reachable state, what a protocol has
      handled, then what waits in its queue, then what is still on its way through Network,
      Logical and Physical, is the captured sequence filtered by "source not ours, destination
      ours or broadcast, this frame type". */
  lemma UpwardConservation(cfg: Config, events: seq<Event>)
    requires GoodSchedule(events)
    ensures var s := Run(cfg, Initial, events);
            PacketsOf(s.hist.arp) + PacketsOf(s.q.arp) + Rising(cfg, ETHERTYPE_ARP, InFlight(s.pc.net) + s.q.net)
            + Rising(cfg, ETHERTYPE_ARP, InFlight(s.pc.log) + s.q.log) + Rising(cfg, ETHERTYPE_ARP, FlowOf(s).arriving)
            == WantedOf(cfg, ETHERTYPE_ARP, s.hist.captured)
    ensures var s := Run(cfg, Initial, events);
            PacketsOf(s.hist.ip) + PacketsOf(s.q.ip) + Rising(cfg, ETHERTYPE_IP, InFlight(s.pc.net) + s.q.net)
            + Rising(cfg, ETHERTYPE_IP, InFlight(s.pc.log) + s.q.log) + Rising(cfg, ETHERTYPE_IP, FlowOf(s).arriving)
            == WantedOf(cfg, ETHERTYPE_IP, s.hist.captured)
  {
    hide Typed, DownConserved, Control, Shutdown, Table, Rising, WantedOf, Run;
    var s := Reaches(cfg, events);
    PacketsConcat(s.hist.arp, s.q.arp);
    PacketsConcat(s.hist.ip, s.q.ip);
  }

  lemma {:induction false} PacketsConcat(a: seq<SelfPkt>, b: seq<SelfPkt>)
    ensures PacketsOf(a + b) == PacketsOf(a) + PacketsOf(b)
  {
    if a == [] {
      assert a + b == b;
    } else {
      assert (a + b)[1..] == a[1..] + b;
      PacketsConcat(a[1..], b);
    }
  }

  /** What a protocol has handled is always a prefix of what it should handle, and all of it
      once nothing is on its way. */
  lemma HandledIsPrefix(cfg: Config, events: seq<Event>)
    requires GoodSchedule(events)
    ensures var s := Run(cfg, Initial, events);
            && PacketsOf(s.hist.arp) <= WantedOf(cfg, ETHERTYPE_ARP, s.hist.captured)
            && PacketsOf(s.hist.ip) <= WantedOf(cfg, ETHERTYPE_IP, s.hist.captured)
            && (FlowOf(s).arriving == FlowOf(s).logLine == FlowOf(s).netLine == s.q.arp == s.q.ip == [] ==>
                  PacketsOf(s.hist.arp) == WantedOf(cfg, ETHERTYPE_ARP, s.hist.captured) &&
                  PacketsOf(s.hist.ip) == WantedOf(cfg, ETHERTYPE_IP, s.hist.captured))
  {
    hide WantedOf, Run, Wanted;
    UpwardConservation(cfg, events);
  }

  // ---------------------------------------------------------------- downward

  function OwnFrames(cfg: Config, arps: seq<ArpFields>): seq<Packet> {
    if arps == [] then [] else [OwnFrame(cfg, arps[0])] + OwnFrames(cfg, arps[1..])
  }

  /** In every reachable state the frames handed to the sender, then what is on its way down,
      are the ARP packets issued by requestIP and Arp.run, in that order: nothing captured is
      ever sent, nothing issued is lost, doubled or overtaken before it is handed over. */
  lemma DownwardConservation(cfg: Config, events: seq<Event>)
    requires GoodSchedule(events)
    ensures var s := Run(cfg, Initial, events);
            ArpsOf(s.hist.handed) + Sinking(FlowOf(s).physLine) + Sinking(FlowOf(s).logLine)
            + Sinking(FlowOf(s).netLine) == s.hist.issued
    ensures var s := Run(cfg, Initial, events);
            |s.hist.handed| <= |s.hist.issued| &&
            s.hist.handed == OwnFrames(cfg, s.hist.issued[..|s.hist.handed|])
  {
    hide UpConserved, Control, Shutdown, Table, Run, Sinking, IsOwnFrame;
    var s := Reaches(cfg, events);
    HandedAreOwn(cfg, s.hist.handed);
    var rest := Sinking(FlowOf(s).physLine) + Sinking(FlowOf(s).logLine) + Sinking(FlowOf(s).netLine);
    assert s.hist.issued == ArpsOf(s.hist.handed) + rest;
    assert s.hist.issued[..|s.hist.handed|] == ArpsOf(s.hist.handed);
  }

  lemma {:induction false} HandedAreOwn(cfg: Config, ps: seq<Packet>)
    requires forall p | p in ps :: IsOwnFrame(cfg, p)
    ensures |ArpsOf(ps)| == |ps| && ps == OwnFrames(cfg, ArpsOf(ps))
  {
    if ps != [] {
      assert ps[0] in ps;
      assert forall p | p in ps[1..] :: p in ps;
      HandedAreOwn(cfg, ps[1..]);
      assert ArpsOf(ps) == [ps[0].body.arp] + ArpsOf(ps[1..]);
      assert ps == [ps[0]] + ps[1..];
    }
  }

  /** Every frame handed to the medium carries our address as source, broadcast as destination
      and the ARP type; captured again, it is not wanted, so no run reacts to its own traffic. */
  lemma OwnTrafficIsIgnored(cfg: Config, events: seq<Event>, p: Packet)
    requires cfg.Valid() && GoodSchedule(events) && p in Run(cfg, Initial, events).hist.handed
    ensures p.datalink == EthernetLink(Ether(BROADCAST, cfg.mac, ETHERTYPE_ARP))
    ensures forall k :: !Wanted(cfg, k, p)
    ensures forall k, ps :: WantedOf(cfg, k, ps + [p]) == WantedOf(cfg, k, ps)
  {
    hide UpConserved, DownConserved, Control, Shutdown, Table, Run;
    var s := Reaches(cfg, events);
    assert IsOwnFrame(cfg, p);
    forall k, ps
      ensures WantedOf(cfg, k, ps + [p]) == WantedOf(cfg, k, ps)
    {
      WantedAppend(cfg, k, ps, p);
    }
  }

  // ---------------------------------------------------------------- the address table

  /** The packet at `i` is a reply for the address text `k`. */
  predicate ReplyFor(q: seq<SelfPkt>, i: nat, k: string) {
    i < |q| && q[i].packet.body.Arp? && q[i].packet.body.arp.operation == ARP_REPLY &&
    HexText.ByteToStr(q[i].packet.body.arp.senderProto) == k
  }

  predicate FirstReplyFor(q: seq<SelfPkt>, i: nat, k: string) {
    ReplyFor(q, i, k) && forall j: nat | j < i :: !ReplyFor(q, j, k)
  }

  /** The first reply wins: the table has an entry for an address exactly if a reply for it has
      been handled, and the entry is that of the first one. */
  lemma {:induction false} FirstReplyWins(q: seq<SelfPkt>, k: string)
    ensures k in Learned(q) <==> exists i: nat :: ReplyFor(q, i, k)
    ensures forall i: nat | FirstReplyFor(q, i, k) ::
              Learned(q)[k] == HexText.ByteToStr(q[i].packet.body.arp.senderHard)
  {
    if q != [] {
      var init, last := q[..|q| - 1], |q| - 1;
      FirstReplyWins(init, k);
      assert forall i: nat | i < last :: ReplyFor(q, i, k) == ReplyFor(init, i, k);
      if k in Learned(init) {
        var i: nat :| ReplyFor(init, i, k);
        assert ReplyFor(q, i, k);
        assert forall i: nat | FirstReplyFor(q, i, k) :: i != last && FirstReplyFor(init, i, k);
      } else {
        assert forall i: nat | ReplyFor(q, i, k) :: i == last by {
          assert forall i: nat | i < last :: !ReplyFor(init, i, k);
        }
        if k in Learned(q) {
          assert ReplyFor(q, last, k);
        }
      }
    }
  }

  /** Whenever no reply is in hand, the table is the first-reply-wins fold of what Arp handled. */
  lemma TableIsFirstReplyFold(cfg: Config, events: seq<Event>, ip: seq<byte>)
    requires GoodSchedule(events)
    ensures var s := Run(cfg, Initial, events);
            !s.pc.arp.AHandle? && !s.pc.arp.APut? ==>
              && (HexText.ByteToStr(ip) in s.table <==>
                  exists i: nat :: ReplyFor(s.hist.arp, i, HexText.ByteToStr(ip)))
              && (forall i: nat | FirstReplyFor(s.hist.arp, i, HexText.ByteToStr(ip)) ::
                    s.hist.arp[i].packet.body.arp.senderProto == ip &&
                    s.table[HexText.ByteToStr(ip)] == HexText.ByteToStr(s.hist.arp[i].packet.body.arp.senderHard))
  {
    hide Typed, UpConserved, DownConserved, Control, Shutdown, Run, Learned;
    var s := Reaches(cfg, events);
    var k := HexText.ByteToStr(ip);
    FirstReplyWins(s.hist.arp, k);
    forall i: nat | FirstReplyFor(s.hist.arp, i, k)
      ensures s.hist.arp[i].packet.body.arp.senderProto == ip
    {
      HexText.ByteToStrInjective(s.hist.arp[i].packet.body.arp.senderProto, ip);
    }
  }

  /** Entries never change and never vanish. */
  lemma {:induction false} TablePersists(cfg: Config, s: State, events: seq<Event>)
    requires Invariant(cfg, s) && GoodSchedule(events)
    ensures forall k | k in s.table :: k in Run(cfg, s, events).table && Run(cfg, s, events).table[k] == s.table[k]
    decreases |events|
  {
    hide Typed, UpConserved, DownConserved, Shutdown, Step, GoodInput, Control, Table;
    if events != [] {
      InvariantStep(cfg, s, events[0]);
      TableStep(cfg, s, events[0]);
      TablePersists(cfg, Step(cfg, s, events[0]), events[1..]);
    }
  }

  predicate AsksFor(a: ArpFields, k: string) {
    a.operation == ARP_REQUEST && HexText.ByteToStr(a.targetProto) == k
  }

  lemma KnownIsNotAskedStep(cfg: Config, s: State, ev: Event, k: string)
    requires Table(s) && k in s.table
    ensures |Step(cfg, s, ev).hist.issued| >= |s.hist.issued|
    ensures forall i | |s.hist.issued| <= i < |Step(cfg, s, ev).hist.issued| :: !AsksFor(Step(cfg, s,
        ev).hist.issued[i], k)
  {
    hide Dress, MacFilter, NewSelf, OwnSelf, Learned;
  }

  /** Once an address is in the table, no requestIP asks for it, in any continuation of the run:
      the semaphore covers the look-up and the request, and the handling and the insertion. */
  lemma {:induction false} KnownIsNotAsked(cfg: Config, s: State, events: seq<Event>, k: string)
    requires Invariant(cfg, s) && GoodSchedule(events) && k in s.table
    ensures var t := Run(cfg, s, events);
            |t.hist.issued| >= |s.hist.issued| &&
            forall i | |s.hist.issued| <= i < |t.hist.issued| :: !AsksFor(t.hist.issued[i], k)
    decreases |events|
  {
    hide Typed, UpConserved, DownConserved, Shutdown, Step, GoodInput, Control, TableFor, AsksFor;
    if events != [] {
      var u := Step(cfg, s, events[0]);
      InvariantStep(cfg, s, events[0]);
      TableStep(cfg, s, events[0]);
      KnownIsNotAskedStep(cfg, s, events[0], k);
      KnownIsNotAsked(cfg, u, events[1..], k);
      IssuedGrows(cfg, u, events[1..]);
    }
  }

  lemma {:induction false} IssuedGrows(cfg: Config, s: State, events: seq<Event>)
    ensures s.hist.issued <= Run(cfg, s, events).hist.issued
    decreases |events|
  {
    if events != [] {
      IssuedGrowsStep(cfg, s, events[0]);
      IssuedGrows(cfg, Step(cfg, s, events[0]), events[1..]);
    }
  }

  lemma IssuedGrowsStep(cfg: Config, s: State, ev: Event)
    ensures s.hist.issued <= Step(cfg, s, ev).hist.issued
  {
    hide Dress, MacFilter, NewSelf, OwnSelf, Request, Reply;
  }

  /** Line 42 as written never replies: no run of the code as it stands issues a reply. */
  lemma {:induction false} NoReplyAsWritten(cfg: Config, s: State, events: seq<Event>)
    requires !cfg.compareContents && forall a | a in s.hist.issued :: a.operation == ARP_REQUEST
    ensures forall a | a in Run(cfg, s, events).hist.issued :: a.operation == ARP_REQUEST
    decreases |events|
  {
    if events != [] {
      assert forall a | a in Step(cfg, s, events[0]).hist.issued :: a.operation == ARP_REQUEST by {
        hide Dress, MacFilter, NewSelf, OwnSelf;
      }
      hide Step;
      NoReplyAsWritten(cfg, Step(cfg, s, events[0]), events[1..]);
    }
  }
}
