/** What every move of the pipeline keeps: the kind of every packet in every line, and two
    conservation laws, one for each direction. */
module PipelineLaws {
  import opened Bytes
  import opened Packets
  import opened StackModel
  import opened Pipeline

  // ---------------------------------------------------------------- the kinds of packets

  /** An ARP packet of our own: our hardware address as sender, and either a reply or the
      request that requestIP builds. */
  ghost predicate OwnArp(cfg: Config, a: ArpFields) {
    a.senderHard == cfg.mac && (a.operation == ARP_REPLY || a == Request(cfg, a.targetProto))
  }

  ghost predicate Raw(sp: SelfPkt) {
    sp == NewSelf(sp.packet) && WellTyped(sp.packet) && !sp.packet.datalink.OtherDatalink?
  }

  ghost predicate Passed(cfg: Config, sp: SelfPkt) {
    sp == NewSelf(sp.packet).(fakeMac := cfg.mac) && WellTyped(sp.packet) && MacFilter(cfg, sp.macSrc, sp.macDst)
  }

  ghost predicate Dispatched(cfg: Config, k: word, sp: SelfPkt) {
    sp.scanned && sp.etherType == k && Passed(cfg, sp.(scanned := false))
  }

  ghost predicate Own(cfg: Config, sp: SelfPkt) {
    sp.packet.body.Arp? && sp == OwnSelf(sp.packet.body.arp) && OwnArp(cfg, sp.packet.body.arp)
  }

  ghost predicate OwnDown(cfg: Config, sp: SelfPkt) {
    !sp.up && Own(cfg, sp.(up := true))
  }

  /** The frame that leaves for an ARP packet of our own. */
  function OwnFrame(cfg: Config, a: ArpFields): Packet {
    Packet(EthernetLink(Ether(BROADCAST, cfg.mac, ETHERTYPE_ARP)), Arp(a), [], [])
  }

  ghost predicate IsOwnFrame(cfg: Config, p: Packet) {
    p.body.Arp? && p == OwnFrame(cfg, p.body.arp) && OwnArp(cfg, p.body.arp)
  }

  /** The fields of the SelfPacket agree with the datalink header of its packet. */
  ghost predicate InStep(sp: SelfPkt) {
    sp.packet.datalink == EthernetLink(Ether(sp.macDst, sp.macSrc, sp.etherType))
  }

  ghost predicate Dressed(cfg: Config, sp: SelfPkt) {
    sp.scanned && InStep(sp) && IsOwnFrame(cfg, sp.packet)
  }

  ghost predicate Typed(cfg: Config, f: Flow) {
    && (forall sp | sp in f.arriving :: Raw(sp))
    && (forall sp | sp in f.logLine :: Raw(sp) || OwnDown(cfg, sp))
    && (forall sp | sp in f.netLine :: Passed(cfg, sp) || Own(cfg, sp))
    && (forall sp | sp in f.physLine :: Dressed(cfg, sp))
    && (forall sp | sp in f.arpIn :: Dispatched(cfg, ETHERTYPE_ARP, sp))
    && (forall sp | sp in f.ipIn :: Dispatched(cfg, ETHERTYPE_IP, sp))
    && (forall p | p in f.handed :: IsOwnFrame(cfg, p))
    && (forall a | a in f.issued :: OwnArp(cfg, a))
  }

  /** What the outside and the protocols may put in. */
  ghost predicate GoodMove(cfg: Config, m: Move) {
    && (m.Capture? ==> WellTyped(m.p))
    && (m.Issue? ==> OwnArp(cfg, m.a))
  }

  lemma DressOwn(cfg: Config, sp: SelfPkt)
    requires OwnDown(cfg, sp)
    ensures Dressed(cfg, Dress(cfg, sp))
    ensures Dress(cfg, sp).packet == OwnFrame(cfg, sp.packet.body.arp)
  {
  }

  lemma TypedRoute(cfg: Config, f: Flow)
    requires Typed(cfg, f) && f.logLine != []
    ensures Typed(cfg, RouteHead(cfg, f))
  {
    hide Dress, OwnArp, MacFilter;
    var sp := f.logLine[0];
    assert sp in f.logLine;
    if !sp.up {
      DressOwn(cfg, sp);
    }
  }

  lemma TypedDispatch(cfg: Config, f: Flow)
    requires Typed(cfg, f) && f.netLine != []
    ensures Typed(cfg, DispatchHead(f))
  {
    hide OwnArp, MacFilter;
    var sp := f.netLine[0];
    assert sp in f.netLine;
  }

  lemma TypedMove(cfg: Config, f: Flow, m: Move)
    requires Typed(cfg, f) && Enabled(f, m) && GoodMove(cfg, m)
    ensures Typed(cfg, Apply(cfg, f, m))
  {
    hide RouteHead, DispatchHead, OwnArp, MacFilter, WellTyped;
    match m
    case Route => TypedRoute(cfg, f);
    case Dispatch => TypedDispatch(cfg, f);
    case Transmit => assert f.physLine[0] in f.physLine;
    case _ =>
  }

  // ---------------------------------------------------------------- upward conservation

  /** The filter of the whole stack on a captured frame: source not ours, destination ours or
      broadcast, frame type `k`. */
  ghost predicate Wanted(cfg: Config, k: word, p: Packet) {
    p.datalink.EthernetLink? && p.datalink.ether.frametype == k
        && Accepts(cfg.mac, p.datalink.ether.src, p.datalink.ether.dst)
  }

  ghost function WantedOf(cfg: Config, k: word, ps: seq<Packet>): seq<Packet> {
    if ps == [] then [] else (if Wanted(cfg, k, ps[0]) then [ps[0]] else []) + WantedOf(cfg, k, ps[1..])
  }

  function PacketsOf(q: seq<SelfPkt>): (ps: seq<Packet>)
    ensures |ps| == |q|
  {
    if q == [] then [] else [q[0].packet] + PacketsOf(q[1..])
  }

  /** The wanted frames of a line that are still on their way up. */
  ghost function Rising(cfg: Config, k: word, q: seq<SelfPkt>): seq<Packet> {
    if q == [] then []
    else (if !q[0].scanned && Wanted(cfg, k, q[0].packet) then [q[0].packet] else []) + Rising(cfg, k, q[1..])
  }

  function Received(f: Flow, k: word): seq<SelfPkt> {
    if k == ETHERTYPE_ARP then f.arpIn else f.ipIn
  }

  /** The packets of protocol `k`, from the first one it polled to the frame just captured. */
  ghost function UpChain(cfg: Config, k: word, f: Flow): seq<Packet> {
    PacketsOf(Received(f, k)) + Rising(cfg, k, f.netLine) + Rising(cfg, k, f.logLine) + Rising(cfg, k, f.arriving)
  }

  ghost predicate UpConserved(cfg: Config, k: word, f: Flow) {
    UpChain(cfg, k, f) == WantedOf(cfg, k, f.captured)
  }

  lemma {:induction false} WantedAppend(cfg: Config, k: word, a: seq<Packet>, p: Packet)
    ensures WantedOf(cfg, k, a + [p]) == WantedOf(cfg, k, a) + (if Wanted(cfg, k, p) then [p] else [])
  {
    if a == [] {
      assert a + [p] == [p];
    } else {
      assert (a + [p])[1..] == a[1..] + [p];
      WantedAppend(cfg, k, a[1..], p);
    }
  }

  lemma {:induction false} RisingAppend(cfg: Config, k: word, a: seq<SelfPkt>, sp: SelfPkt)
    ensures Rising(cfg, k, a + [sp]) == Rising(cfg, k, a) + (if !sp.scanned
        && Wanted(cfg, k, sp.packet) then [sp.packet] else [])
  {
    if a == [] {
      assert a + [sp] == [sp];
    } else {
      assert (a + [sp])[1..] == a[1..] + [sp];
      RisingAppend(cfg, k, a[1..], sp);
    }
  }

  lemma {:induction false} PacketsAppend(a: seq<SelfPkt>, sp: SelfPkt)
    ensures PacketsOf(a + [sp]) == PacketsOf(a) + [sp.packet]
  {
    if a == [] {
      assert a + [sp] == [sp];
    } else {
      assert (a + [sp])[1..] == a[1..] + [sp];
      PacketsAppend(a[1..], sp);
    }
  }

  /** An element may move from the head of one part of a chain to the end of the part before. */
  lemma MoveUp<T>(a: seq<T>, x: seq<T>, b: seq<T>)
    ensures a + x + b == a + (x + b)
  {
  }

  /** The same in the middle of a chain of four, or of three. */
  lemma MoveInChain<T>(a: seq<T>, b: seq<T>, x: seq<T>, c: seq<T>, d: seq<T>)
    ensures a + b + (x + c) + d == a + (b + x) + c + d
    ensures a + (x + b) + c + d == (a + x) + b + c + d
    ensures a + b + (x + c) == a + (b + x) + c
  {
    assert a + b + (x + c) == a + (b + x) + c;
    assert a + (x + b) == (a + x) + b;
  }

  lemma UpCapture(cfg: Config, k: word, f: Flow, p: Packet)
    requires UpConserved(cfg, k, f) && f.arriving == []
    ensures UpConserved(cfg, k, Apply(cfg, f, Capture(p)))
  {
    var g := Apply(cfg, f, Capture(p));
    RisingOfArrival(cfg, k, f, p);
    hide Wanted, Rising, PacketsOf, WantedOf, Apply, Received;
    WantedAppend(cfg, k, f.captured, p);
    assert UpChain(cfg, k, g) == UpChain(cfg, k, f) + Rising(cfg, k, g.arriving);
  }

  lemma RisingOfArrival(cfg: Config, k: word, f: Flow, p: Packet)
    requires f.arriving == []
    ensures var g := Apply(cfg, f, Capture(p));
            && g.captured == f.captured + [p] && Received(g, k) == Received(f, k) && g.netLine == f.netLine
                && g.logLine == f.logLine
            && Rising(cfg, k, f.arriving) == []
            && Rising(cfg, k, g.arriving) == if Wanted(cfg, k, p) then [p] else []
  {
    hide Accepts;
  }

  lemma UpArrive(cfg: Config, k: word, f: Flow)
    requires UpConserved(cfg, k, f) && |f.arriving| == 1
    ensures UpConserved(cfg, k, Apply(cfg, f, Arrive))
  {
    var sp := f.arriving[0];
    assert f.arriving == [sp];
    OneRising(cfg, k, sp);
    hide Wanted, Rising, PacketsOf, WantedOf;
    RisingAppend(cfg, k, f.logLine, sp);
    MoveUp(PacketsOf(Received(f, k)) + Rising(cfg, k, f.netLine), Rising(cfg, k, f.logLine),
           Rising(cfg, k, f.arriving));
  }

  lemma OneRising(cfg: Config, k: word, sp: SelfPkt)
    ensures Rising(cfg, k, []) == []
    ensures Rising(cfg, k, [sp]) == if !sp.scanned && Wanted(cfg, k, sp.packet) then [sp.packet] else []
  {
    hide Wanted;
    assert [sp][1..] == [];
  }

  /** Logical lets exactly the frames through that the filter wants, in order. */
  lemma UpRoute(cfg: Config, k: word, f: Flow)
    requires UpConserved(cfg, k, f) && Typed(cfg, f) && f.logLine != []
    ensures UpConserved(cfg, k, RouteHead(cfg, f))
  {
    hide Rising, PacketsOf, RouteHead, Wanted, WantedOf, Typed, Received;
    var g := RouteHead(cfg, f);
    RouteKeeps(cfg, k, f);
    var x := RouteTakes(cfg, k, f);
    MoveInChain(PacketsOf(Received(f, k)), Rising(cfg, k, f.netLine), x, Rising(cfg, k, g.logLine),
                Rising(cfg, k, f.arriving));
  }

  lemma RouteKeeps(cfg: Config, k: word, f: Flow)
    requires f.logLine != []
    ensures var g := RouteHead(cfg, f);
            g.arriving == f.arriving && g.captured == f.captured && Received(g, k) == Received(f, k)
  {
    hide Dress, MacFilter;
  }

  lemma RouteTakes(cfg: Config, k: word, f: Flow) returns (x: seq<Packet>)
    requires Typed(cfg, f) && f.logLine != []
    ensures Rising(cfg, k, f.logLine) == x + Rising(cfg, k, RouteHead(cfg, f).logLine)
    ensures Rising(cfg, k, RouteHead(cfg, f).netLine) == Rising(cfg, k, f.netLine) + x
  {
    var sp := f.logLine[0];
    assert Raw(sp) || OwnDown(cfg, sp) by {
      assert sp in f.logLine;
    }
    MacFilterIff(cfg, sp.macSrc, sp.macDst);
    hide Dress, MacFilter, Accepts, WellTyped, OwnArp, Typed;
    x := if !sp.scanned && Wanted(cfg, k, sp.packet) then [sp.packet] else [];
    RisingAppend(cfg, k, f.netLine, sp.(fakeMac := cfg.mac));
  }

  /** Network gives each wanted packet of type `k` to protocol `k`, once, in order. */
  lemma UpDispatch(cfg: Config, k: word, f: Flow)
    requires UpConserved(cfg, k, f) && Typed(cfg, f) && f.netLine != []
    requires k == ETHERTYPE_ARP || k == ETHERTYPE_IP
    ensures UpConserved(cfg, k, DispatchHead(f))
  {
    hide Rising, PacketsOf, DispatchHead, Wanted, WantedOf, Typed, Received;
    var g := DispatchHead(f);
    var x := DispatchTakes(cfg, k, f);
    DispatchGives(cfg, k, f, x);
    MoveInChain(PacketsOf(Received(f, k)), Rising(cfg, k, g.netLine), x, Rising(cfg, k, f.logLine),
           Rising(cfg, k, f.arriving));
  }

  lemma DispatchTakes(cfg: Config, k: word, f: Flow) returns (x: seq<Packet>)
    requires f.netLine != []
    ensures x == if !f.netLine[0].scanned && Wanted(cfg, k, f.netLine[0].packet) then [f.netLine[0].packet] else []
    ensures Rising(cfg, k, f.netLine) == x + Rising(cfg, k, DispatchHead(f).netLine)
    ensures Rising(cfg, k, DispatchHead(f).logLine) == Rising(cfg, k, f.logLine)
    ensures DispatchHead(f).arriving == f.arriving && DispatchHead(f).captured == f.captured
  {
    hide Wanted;
    RisingAppend(cfg, k, f.logLine, f.netLine[0].(up := false));
    x := if !f.netLine[0].scanned && Wanted(cfg, k, f.netLine[0].packet) then [f.netLine[0].packet] else [];
  }

  lemma DispatchGives(cfg: Config, k: word, f: Flow, x: seq<Packet>)
    requires Typed(cfg, f) && f.netLine != []
    requires k == ETHERTYPE_ARP || k == ETHERTYPE_IP
    requires x == if !f.netLine[0].scanned && Wanted(cfg, k, f.netLine[0].packet) then [f.netLine[0].packet] else []
    ensures PacketsOf(Received(DispatchHead(f), k)) == PacketsOf(Received(f, k)) + x
  {
    hide MacFilter, Accepts, WellTyped, OwnArp;
    var sp := f.netLine[0];
    MacFilterIff(cfg, sp.macSrc, sp.macDst);
    assert Passed(cfg, sp) || Own(cfg, sp) by {
      assert sp in f.netLine;
    }
    PacketsAppend(Received(f, k), sp.(scanned := true));
  }

  lemma UpMove(cfg: Config, k: word, f: Flow, m: Move)
    requires UpConserved(cfg, k, f) && Typed(cfg, f) && Enabled(f, m)
    requires k == ETHERTYPE_ARP || k == ETHERTYPE_IP
    ensures UpConserved(cfg, k, Apply(cfg, f, m))
  {
    hide RouteHead, DispatchHead, Wanted, WantedOf, Typed, UpConserved, Received;
    match m
    case Capture(p) => UpCapture(cfg, k, f, p);
    case Arrive => UpArrive(cfg, k, f);
    case Route => UpRoute(cfg, k, f);
    case Dispatch => UpDispatch(cfg, k, f);
    case Issue(a) => UpIssue(cfg, k, f, a);
    case Transmit => UpTransmit(cfg, k, f);
    case Stay =>
  }

  lemma UpIssue(cfg: Config, k: word, f: Flow, a: ArpFields)
    requires UpConserved(cfg, k, f)
    ensures UpConserved(cfg, k, Apply(cfg, f, Issue(a)))
  {
    RisingAppend(cfg, k, f.netLine, OwnSelf(a));
    assert OwnSelf(a).scanned;
    hide Rising, PacketsOf, WantedOf, OwnSelf, Wanted;
    assert Rising(cfg, k, f.netLine) + [] == Rising(cfg, k, f.netLine);
  }

  lemma UpTransmit(cfg: Config, k: word, f: Flow)
    requires UpConserved(cfg, k, f) && f.physLine != []
    ensures UpConserved(cfg, k, Apply(cfg, f, Transmit))
  {
    hide Rising, PacketsOf, WantedOf, Wanted;
  }

  // ---------------------------------------------------------------- downward conservation

  function ArpOf(p: Packet): seq<ArpFields> {
    if p.body.Arp? then [p.body.arp] else []
  }

  /** The ARP packets of a line that are on their way down. */
  function Sinking(q: seq<SelfPkt>): seq<ArpFields> {
    if q == [] then [] else (if q[0].scanned then ArpOf(q[0].packet) else []) + Sinking(q[1..])
  }

  function ArpsOf(ps: seq<Packet>): seq<ArpFields> {
    if ps == [] then [] else ArpOf(ps[0]) + ArpsOf(ps[1..])
  }

  function DownChain(f: Flow): seq<ArpFields> {
    ArpsOf(f.handed) + Sinking(f.physLine) + Sinking(f.logLine) + Sinking(f.netLine)
  }

  ghost predicate DownConserved(f: Flow) {
    DownChain(f) == f.issued
  }

  lemma {:induction false} SinkingAppend(a: seq<SelfPkt>, sp: SelfPkt)
    ensures Sinking(a + [sp]) == Sinking(a) + (if sp.scanned then ArpOf(sp.packet) else [])
  {
    if a == [] {
      assert a + [sp] == [sp];
    } else {
      assert (a + [sp])[1..] == a[1..] + [sp];
      SinkingAppend(a[1..], sp);
    }
  }

  lemma {:induction false} ArpsAppend(a: seq<Packet>, p: Packet)
    ensures ArpsOf(a + [p]) == ArpsOf(a) + ArpOf(p)
  {
    if a == [] {
      assert a + [p] == [p];
    } else {
      assert (a + [p])[1..] == a[1..] + [p];
      ArpsAppend(a[1..], p);
    }
  }

  lemma DownArrive(cfg: Config, f: Flow)
    requires DownConserved(f) && Typed(cfg, f) && |f.arriving| == 1
    ensures DownConserved(Apply(cfg, f, Arrive))
  {
    assert f.arriving[0] in f.arriving && f.arriving == [f.arriving[0]];
    SinkingAppend(f.logLine, f.arriving[0]);
  }

  lemma DownRoute(cfg: Config, f: Flow)
    requires DownConserved(f) && Typed(cfg, f) && f.logLine != []
    ensures DownConserved(RouteHead(cfg, f))
  {
    hide Sinking, ArpsOf, RouteHead, Typed;
    var g := RouteHead(cfg, f);
    var x := RouteSinks(cfg, f);
    MoveInChain(ArpsOf(f.handed), Sinking(f.physLine), x, Sinking(g.logLine), Sinking(f.netLine));
  }

  lemma RouteSinks(cfg: Config, f: Flow) returns (x: seq<ArpFields>)
    requires Typed(cfg, f) && f.logLine != []
    ensures var g := RouteHead(cfg, f);
            && Sinking(f.logLine) == x + Sinking(g.logLine) && Sinking(g.physLine) == Sinking(f.physLine) + x
            && Sinking(g.netLine) == Sinking(f.netLine) && g.handed == f.handed && g.issued == f.issued
  {
    var sp := f.logLine[0];
    assert Raw(sp) || OwnDown(cfg, sp) by {
      assert sp in f.logLine;
    }
    hide Dress, MacFilter, OwnArp, WellTyped, Typed;
    x := if sp.scanned then ArpOf(sp.packet) else [];
    if sp.up {
      SinkingAppend(f.netLine, sp.(fakeMac := cfg.mac));
    } else {
      DressOwn(cfg, sp);
      SinkingAppend(f.physLine, Dress(cfg, sp));
    }
  }

  lemma DownDispatch(cfg: Config, f: Flow)
    requires DownConserved(f) && Typed(cfg, f) && f.netLine != []
    ensures DownConserved(DispatchHead(f))
  {
    hide Sinking, ArpsOf, DispatchHead, Typed;
    var g := DispatchHead(f);
    var x := DispatchSinks(f);
    MoveInChain(ArpsOf(f.handed) + Sinking(f.physLine), Sinking(f.logLine), x, Sinking(g.netLine), []);
  }

  lemma DispatchSinks(f: Flow) returns (x: seq<ArpFields>)
    requires f.netLine != []
    ensures var g := DispatchHead(f);
            && Sinking(f.netLine) == x + Sinking(g.netLine) && Sinking(g.logLine) == Sinking(f.logLine) + x
            && g.physLine == f.physLine && g.handed == f.handed && g.issued == f.issued
  {
    var sp := f.netLine[0];
    x := if sp.scanned then ArpOf(sp.packet) else [];
    SinkingAppend(f.logLine, sp.(up := false));
  }

  lemma DownTransmit(cfg: Config, f: Flow)
    requires DownConserved(f) && Typed(cfg, f) && f.physLine != []
    ensures DownConserved(Apply(cfg, f, Transmit))
  {
    var sp := f.physLine[0];
    assert sp in f.physLine;
    ArpsAppend(f.handed, sp.packet);
    MoveUp(ArpsOf(f.handed), ArpOf(sp.packet), Sinking(f.physLine[1..]));
  }

  lemma DownIssue(cfg: Config, f: Flow, a: ArpFields)
    requires DownConserved(f)
    ensures DownConserved(Apply(cfg, f, Issue(a)))
  {
    SinkingAppend(f.netLine, OwnSelf(a));
    MoveUp(ArpsOf(f.handed) + Sinking(f.physLine) + Sinking(f.logLine), Sinking(f.netLine), [a]);
  }

  lemma DownMove(cfg: Config, f: Flow, m: Move)
    requires DownConserved(f) && Typed(cfg, f) && Enabled(f, m)
    ensures DownConserved(Apply(cfg, f, m))
  {
    match m
    case Arrive => DownArrive(cfg, f);
    case Route => DownRoute(cfg, f);
    case Dispatch => DownDispatch(cfg, f);
    case Transmit => DownTransmit(cfg, f);
    case Issue(a) => DownIssue(cfg, f, a);
    case _ =>
  }
}
