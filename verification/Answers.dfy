/** Which replies a host issues: one for each request handled, in order, and no others. */
module Answers {
  import opened Bytes
  import opened Packets
  import opened StackModel
  import opened Pipeline
  import opened PipelineLaws
  import opened StackLaws
  import opened StackTheorems
  import HexText

  /** What a host that compares contents answers to one packet: a packet of operation 1 whose
      target hardware address is six zeros gets a reply of operation 2, with the address asked
      for, our hardware address, and the sender as target. */
  ghost function AnswerTo(cfg: Config, sp: SelfPkt): seq<ArpFields> {
    if cfg.compareContents && sp.packet.body.Arp? && sp.packet.body.arp.operation == 1
       && sp.packet.body.arp.targetHard == [0, 0, 0, 0, 0, 0]
    then
      var a := sp.packet.body.arp;
      [ArpFields(a.hardtype, a.prototype, a.hlen, a.plen, 2, cfg.mac, a.targetProto, a.senderHard, a.senderProto)]
    else []
  }

  ghost function AnswersTo(cfg: Config, q: seq<SelfPkt>): seq<ArpFields> {
    if q == [] then [] else AnswersTo(cfg, q[..|q| - 1]) + AnswerTo(cfg, q[|q| - 1])
  }

  ghost function RepliesIn(issued: seq<ArpFields>): seq<ArpFields> {
    if issued == [] then []
    else
      var last := issued[|issued| - 1];
      RepliesIn(issued[..|issued| - 1]) + if last.operation == 2 then [last] else []
  }

  /** The packets Arp is done with: all but the one in its hands. */
  ghost function DoneWith(s: State): seq<SelfPkt> {
    if s.pc.arp.AHandle? && s.hist.arp != [] then s.hist.arp[..|s.hist.arp| - 1] else s.hist.arp
  }

  ghost predicate Answered(cfg: Config, s: State) {
    RepliesIn(s.hist.issued) == AnswersTo(cfg, DoneWith(s))
  }

  lemma RepliesAppend(issued: seq<ArpFields>, a: ArpFields)
    ensures RepliesIn(issued + [a]) == RepliesIn(issued) + if a.operation == 2 then [a] else []
  {
    assert (issued + [a])[..|issued|] == issued;
  }

  lemma AnswersAppend(cfg: Config, q: seq<SelfPkt>, sp: SelfPkt)
    ensures AnswersTo(cfg, q + [sp]) == AnswersTo(cfg, q) + AnswerTo(cfg, sp)
  {
    assert (q + [sp])[..|q|] == q;
  }

  // ---------------------------------------------------------------- step by step

  ghost predicate SameForArp(s: State, u: State) {
    u.hist.issued == s.hist.issued && u.hist.arp == s.hist.arp && u.pc.arp == s.pc.arp
  }

  lemma OthersDoNotReply(cfg: Config, s: State, i: StackModel.Input)
    ensures SameForArp(s, PhysicalStep(s, i)) && SameForArp(s, LogicalStep(cfg, s))
    ensures SameForArp(s, NetworkStep(s)) && SameForArp(s, IpStep(s))
  {
    hide Dress, MacFilter, NewSelf, IsIpBody;
  }

  lemma MenuAsksOnly(cfg: Config, s: State, i: StackModel.Input)
    ensures var u := MenuStep(cfg, s, i);
            && u.hist.arp == s.hist.arp && u.pc.arp == s.pc.arp
            && RepliesIn(u.hist.issued) == RepliesIn(s.hist.issued)
  {
    hide OwnSelf, RepliesIn, HexText.ByteToStr;
    if s.pc.menu.MIssue? {
      RepliesAppend(s.hist.issued, Request(cfg, s.pc.menu.ip));
      assert RepliesIn(s.hist.issued) + [] == RepliesIn(s.hist.issued);
    }
  }

  lemma ArpAnswers(cfg: Config, s: State)
    requires Answered(cfg, s) && Table(s) && Control(s) && Typed(cfg, FlowOf(s))
    ensures Answered(cfg, ArpStep(cfg, s))
  {
    hide OwnSelf, Reply, Replies, RepliesIn, AnswersTo, Typed, FlowOf, HexText.ByteToStr, Learned, AnswerTo;
    match s.pc.arp
    case APoll =>
      var sp := s.q.arp[0];
      ArpInputTyped(cfg, s, sp) by {
        InQueue(s.hist.arp, s.q.arp);
      }
      assert (s.hist.arp + [sp])[..|s.hist.arp|] == s.hist.arp;
    case AHandle(a, fakeMac) =>
      var q, n := s.hist.arp, |s.hist.arp| - 1;
      ArpInputTyped(cfg, s, q[n]);
      assert q == q[..n] + [q[n]];
      AnswersAppend(cfg, q[..n], q[n]);
      HandledIsAnswered(cfg, q[n]);
      RepliesAppend(s.hist.issued, Reply(a, cfg.mac));
      assert AnswersTo(cfg, q[..n]) + [] == AnswersTo(cfg, q[..n]);
    case _ =>
  }

  lemma InQueue(a: seq<SelfPkt>, b: seq<SelfPkt>)
    ensures b != [] ==> b[0] in a + b
  {
    assert b != [] ==> (a + b)[|a|] == b[0];
  }

  lemma HandledIsAnswered(cfg: Config, sp: SelfPkt)
    requires sp.packet.body.Arp?
    ensures var a := sp.packet.body.arp;
            AnswerTo(cfg, sp) == (if Replies(cfg, a) then [Reply(a, cfg.mac)] else [])
            && Reply(a, cfg.mac).operation == 2
  {
  }

  lemma AnsweredStep(cfg: Config, s: State, ev: Event)
    requires Answered(cfg, s) && Invariant(cfg, s)
    ensures Answered(cfg, Step(cfg, s, ev))
  {
    hide PhysicalStep, LogicalStep, NetworkStep, ArpStep, IpStep, MenuStep, RepliesIn, AnswersTo, Typed, Control, Table,
        UpConserved, DownConserved, Shutdown;
    match ev.thread
    case ArpT => ArpAnswers(cfg, s);
    case MenuT => MenuAsksOnly(cfg, s, ev.input);
    case _ => OthersDoNotReply(cfg, s, ev.input);
  }

  lemma {:induction false} AnsweredRun(cfg: Config, s: State, events: seq<Event>)
    requires Answered(cfg, s) && Invariant(cfg, s) && GoodSchedule(events)
    ensures Answered(cfg, Run(cfg, s, events))
    decreases |events|
  {
    hide Answered, Invariant, Step, GoodInput;
    if events != [] {
      AnsweredStep(cfg, s, events[0]);
      InvariantStep(cfg, s, events[0]);
      AnsweredRun(cfg, Step(cfg, s, events[0]), events[1..]);
    }
  }

  /** In every reachable state the replies issued are exactly the answers to the packets that Arp
      is done with, in that order: every request is answered once, whatever address it asks for,
      and nothing else is. */
  lemma RepliesAreAnswers(cfg: Config, events: seq<Event>)
    requires GoodSchedule(events)
    ensures var s := Run(cfg, Initial, events); RepliesIn(s.hist.issued) == AnswersTo(cfg, DoneWith(s))
  {
    hide Invariant, Run;
    InvariantInitially(cfg);
    assert Answered(cfg, Initial);
    AnsweredRun(cfg, Initial, events);
  }
}
