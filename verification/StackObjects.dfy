/** The layers and protocols as objects: queues and flags that methods change in place.  Each
    method below is one turn of a thread's loop with no other thread in between, and leaves
    the objects in the state that so many steps of that thread lead to in StackModel. */
module StackObjects {
  import opened Bytes
  import opened Packets
  import opened StackModel
  import opened Turns
  import SelfPacketObject
  import HexText

  /** How many steps one turn of Logical's or Network's loop takes. */
  function LayerTurn(finish: bool, queue: seq<SelfPkt>): nat {
    if finish then 1 else if queue == [] then 2 else 4
  }

  // ---------------------------------------------------------------- the objects

  class Layer {
    var packetList: seq<SelfPkt>
    var finish: bool

    constructor ()
      ensures packetList == [] && !finish
    {
      packetList, finish := [], false;
    }

    method AppendPacket(p: SelfPkt)
      modifies this`packetList
      ensures packetList == old(packetList) + [p]
    {
      packetList := packetList + [p];
    }

    /** getPacketDiscarding: LinkedList.poll, null if the list is empty. */
    method GetPacketDiscarding() returns (p: Option<SelfPkt>)
      modifies this`packetList
      ensures old(packetList) == [] ==> p == None && packetList == []
      ensures old(packetList) != [] ==> p == Some(old(packetList)[0]) && packetList == old(packetList)[1..]
    {
      if packetList == [] {
        return None;
      }
      p := Some(packetList[0]);
      packetList := packetList[1..];
    }

    method SetFinish(f: bool)
      modifies this`finish
      ensures finish == f
    {
      finish := f;
    }
  }

  /** SelfProtocol has the same two fields and methods. */
  type SelfProtocol = Layer

  /** The objects that Main wires together, Arp's table and semaphore, and where the threads
      are. */
  class Stack {
    const cfg: Config
    const physical: Layer
    const logical: Layer
    const network: Layer
    const arp: SelfProtocol
    const ip: SelfProtocol
    var directions: map<string, string>
    ghost var lock: Holder
    ghost var hist: History
    ghost var pc: Threads

    ghost predicate Valid()
      reads this
    {
      && cfg.Valid()
      && physical != logical && physical != network && physical != arp && physical != ip
      && logical != network && logical != arp && logical != ip
      && network != arp && network != ip && arp != ip
    }

    ghost function View(): State
      reads this, physical, logical, network, arp, ip
    {
      State(hist, Queues(physical.packetList, logical.packetList, network.packetList, arp.packetList, ip.packetList),
            directions, lock, Flags(physical.finish, logical.finish, network.finish, arp.finish, ip.finish), pc)
    }

    /** Main: five objects with empty queues, every thread at the head of its loop. */
    constructor (cfg: Config)
      requires cfg.Valid()
      ensures Valid() && this.cfg == cfg && View() == Initial
      ensures fresh(physical) && fresh(logical) && fresh(network) && fresh(arp) && fresh(ip)
    {
      this.cfg := cfg;
      physical := new Layer();
      logical := new Layer();
      network := new Layer();
      arp := new Layer();
      ip := new Layer();
      directions := map[];
      lock, hist, pc := Initial.lock, Initial.hist, Initial.pc;
    }

    /** One turn of Logical.run. */
    method LogicalRun(ghost i: Input)
      requires Valid() && pc.log.LTest?
      modifies this`pc, physical`packetList, logical`packetList, network`packetList, network`finish
      ensures View() == Steps(cfg, old(View()), Event(LogicalT, i), LayerTurn(old(logical.finish),
          old(logical.packetList)))
      ensures pc.log.LTest? || pc.log.LDone?
    {
      ghost var s, ev := View(), Event(LogicalT, i);
      TwoSteps(cfg, s, ev);
      if logical.finish {
        network.SetFinish(true);
        pc := pc.(log := LDone);
        return;
      }
      if logical.packetList == [] {
        return;
      }
      FourSteps(cfg, s, ev);
      hide Steps, Dress;
      var polled := logical.GetPacketDiscarding();
      var sp := polled.value;
      if sp.up {
        var pass := SelfPacketObject.MacAddressesFilter(cfg, sp.macSrc, sp.macDst);
        hide MacFilter;
        if pass {
          network.AppendPacket(sp.(fakeMac := cfg.mac));
        }
      } else {
        physical.AppendPacket(Dress(cfg, sp));
      }
    }

    /** One turn of Network.run. */
    method NetworkRun(ghost i: Input)
      requires Valid() && pc.net.LTest?
      modifies this`pc, logical`packetList, network`packetList, arp, ip
      ensures View() == Steps(cfg, old(View()), Event(NetworkT, i), LayerTurn(old(network.finish),
          old(network.packetList)))
      ensures pc.net.LTest? || pc.net.LDone?
    {
      ghost var s, ev := View(), Event(NetworkT, i);
      TwoSteps(cfg, s, ev);
      if network.finish {
        ip.SetFinish(true);
        arp.SetFinish(true);
        pc := pc.(net := LDone);
        return;
      }
      if network.packetList == [] {
        return;
      }
      FourSteps(cfg, s, ev);
      hide Steps;
      var polled := network.GetPacketDiscarding();
      var sp := polled.value;
      if !sp.scanned {
        sp := sp.(scanned := true);
        if sp.etherType == ETHERTYPE_IP {
          ip.AppendPacket(sp);
        } else if sp.etherType == ETHERTYPE_ARP {
          arp.AppendPacket(sp);
        }
        return;
      }
      sp := sp.(up := false);
      logical.AppendPacket(sp);
    }

    /** The first half of a turn of Physical.run: getPacket, and forwarding what it returned. */
    method Capture(ghost i: Input, frame: Option<Packet>)
      requires Valid() && pc.phys.PTest? && !physical.finish && i.frame == frame
      modifies this`pc, this`hist, logical`packetList
      ensures View() == Steps(cfg, old(View()), Event(PhysicalT, i), CaptureSteps(frame)) && pc.phys.PDrainTest?
    {
      ghost var s, ev := View(), Event(PhysicalT, i);
      TwoSteps(cfg, s, ev);
      FourSteps(cfg, s, ev);
      hide Steps, NewSelf;
      if frame.Some? {
        hist := hist.(captured := hist.captured + [frame.value]);
        if !frame.value.datalink.OtherDatalink? {
          logical.AppendPacket(NewSelf(frame.value));
        }
      }
      pc := pc.(phys := PDrainTest);
    }

    /** The second half: one packet handed to the sender of jpcap. */
    method Drain(ghost i: Input)
      requires Valid() && pc.phys.PDrainTest?
      modifies this`pc, this`hist, physical`packetList
      ensures View() == Steps(cfg, old(View()), Event(PhysicalT, i),
          if old(physical.packetList) == [] then 1 else 3) && pc.phys.PTest?
    {
      ghost var s, ev := View(), Event(PhysicalT, i);
      TwoSteps(cfg, s, ev);
      FourSteps(cfg, s, ev);
      hide Steps;
      if physical.packetList != [] {
        var polled := physical.GetPacketDiscarding();
        hist := hist.(handed := hist.handed + [polled.value.packet]);
      }
      pc := pc.(phys := PTest);
    }

    /** One turn of Physical.run, for a capture that returns `frame` (null on a timeout). */
    method PhysicalRun(ghost i: Input, frame: Option<Packet>)
      requires Valid() && pc.phys.PTest? && i.frame == frame
      modifies this`pc, this`hist, physical`packetList, logical
      ensures View() == Steps(cfg, old(View()), Event(PhysicalT, i), PhysicalTurn(old(physical.finish), frame,
          old(physical.packetList)))
      ensures pc.phys.PTest? || pc.phys.PDone?
    {
      ghost var s, ev := View(), Event(PhysicalT, i);
      if physical.finish {
        TwoSteps(cfg, s, ev);
        logical.SetFinish(true);
        pc := pc.(phys := PDone);
        return;
      }
      hide Steps;
      Capture(i, frame);
      StepsSplit(cfg, s, ev, CaptureSteps(frame), if physical.packetList == [] then 1 else 3);
      Drain(i);
    }

    /** Arp.run up to the poll, semaphore in hand. */
    method ArpPoll(ghost i: Input) returns (sp: SelfPkt)
      requires Valid() && pc.arp.ATest? && lock.Free? && !arp.finish && arp.packetList != []
      modifies this`pc, this`lock, this`hist, arp`packetList
      ensures sp == old(arp.packetList)[0] && lock == HeldByArp
      ensures pc.arp == if sp.packet.body.Arp? then AHandle(sp.packet.body.arp, sp.fakeMac) else ACrash
      ensures View() == Steps(cfg, old(View()), Event(ArpT, i), 4)
    {
      ghost var s, ev := View(), Event(ArpT, i);
      TwoSteps(cfg, s, ev);
      FourSteps(cfg, s, ev);
      hide Steps, PhysicalStep, LogicalStep, NetworkStep, IpStep, MenuStep, ArpHandle;
      lock := HeldByArp;
      var polled := arp.GetPacketDiscarding();
      sp := polled.value;
      hist := hist.(arp := hist.arp + [sp]);
      pc := pc.(arp := if sp.packet.body.Arp? then AHandle(sp.packet.body.arp, sp.fakeMac) else ACrash);
    }

    /** The rest of the turn: a reply, a new entry, or nothing; then the semaphore is released. */
    method ArpAnswer(ghost i: Input, a: ArpFields, fakeMac: seq<byte>)
      requires Valid() && pc.arp == AHandle(a, fakeMac) && lock.HeldByArp?
      modifies this`pc, this`lock, this`hist, this`directions, network`packetList
      ensures View() == Steps(cfg, old(View()), Event(ArpT, i), if Learns(cfg, old(directions), a) then 3 else 2)
      ensures pc.arp.ATest? && lock.Free?
    {
      ghost var s, ev := View(), Event(ArpT, i);
      ArpRest(cfg, s, i, a, fakeMac);
      hide Steps, HexText.ByteToStr, OwnSelf, Reply;
      if cfg.compareContents && a.targetHard == ZERO_MAC && a.operation == ARP_REQUEST {
        var arpPacket := Reply(a, fakeMac);
        network.AppendPacket(OwnSelf(arpPacket));
        hist := hist.(issued := hist.issued + [arpPacket]);
      } else if a.operation == ARP_REPLY {
        var senderProtoaddr := HexText.ByteToStrLoop(a.senderProto);
        if senderProtoaddr !in directions {
          var senderHardaddr := HexText.ByteToStrLoop(a.senderHard);
          directions := directions[senderProtoaddr := senderHardaddr];
        }
      }
      lock, pc := Free, pc.(arp := ATest);
    }

    /** One turn of Arp.run.  A packet of another class fails its cast and kills the thread,
        semaphore in hand. */
    method ArpRun(ghost i: Input)
      requires Valid() && pc.arp.ATest? && lock.Free?
      modifies this, network`packetList, arp`packetList
      ensures View() == Steps(cfg, old(View()), Event(ArpT, i), ArpTurn(cfg, old(arp.finish), old(directions),
          old(arp.packetList)))
      ensures pc.arp.ATest? || pc.arp.ADone? || pc.arp.ACrash?
      ensures lock.HeldByArp? <==> pc.arp.ACrash?
    {
      ghost var s, ev := View(), Event(ArpT, i);
      if arp.finish || arp.packetList == [] {
        TwoSteps(cfg, s, ev);
        if arp.finish {
          pc := pc.(arp := ADone);
        }
        return;
      }
      hide Steps, Learns;
      var sp := ArpPoll(i);
      if sp.packet.body.Arp? {
        StepsSplit(cfg, s, ev, 4, if Learns(cfg, directions, sp.packet.body.arp) then 3 else 2);
        ArpAnswer(i, sp.packet.body.arp, sp.fakeMac);
      }
    }

    /** One turn of Ip.run. */
    method IpRun(ghost i: Input)
      requires Valid() && pc.ip.ITest?
      modifies this`pc, this`hist, ip`packetList
      ensures View() == Steps(cfg, old(View()), Event(IpT, i),
          if old(ip.finish) then 1 else if old(ip.packetList) == [] then 2 else 3)
      ensures pc.ip.ITest? || pc.ip.IDone? || pc.ip.ICrash?
    {
      ghost var s, ev := View(), Event(IpT, i);
      TwoSteps(cfg, s, ev);
      FourSteps(cfg, s, ev);
      hide Steps;
      if ip.finish {
        pc := pc.(ip := IDone);
      } else if ip.packetList != [] {
        var polled := ip.GetPacketDiscarding();
        hist := hist.(ip := hist.ip + [polled.value]);
        if !IsIpBody(polled.value.packet.body) {
          pc := pc.(ip := ICrash);
        }
      }
    }

    /** requestIP, for an address the user has typed: a request if the table does not know it. */
    method RequestIP(ghost i: Input, address: seq<byte>)
      requires Valid() && pc.menu.MAcquire? && lock.Free? && i.address == Some(address)
      modifies this`pc, this`lock, this`hist, network`packetList
      ensures View() == Steps(cfg, old(View()), Event(MenuT, i),
          if HexText.ByteToStr(address) in directions then 3 else 4)
      ensures pc.menu.MChoose? && lock.Free?
    {
      ghost var s, ev := View(), Event(MenuT, i);
      TwoSteps(cfg, s, ev);
      FourSteps(cfg, s, ev);
      hide Steps, HexText.ByteToStr, OwnSelf, Request;
      var text := HexText.ByteToStrLoop(address);
      if text !in directions {
        var sendArp := Request(cfg, address);
        network.AppendPacket(OwnSelf(sendArp));
        hist := hist.(issued := hist.issued + [sendArp]);
      }
      pc := pc.(menu := MChoose);
    }

    /** Main after the menu: the first finish. */
    method Finish(ghost i: Input)
      requires Valid() && pc.menu.MExit?
      modifies this`pc, physical`finish
      ensures View() == Steps(cfg, old(View()), Event(MenuT, i), 1) && physical.finish
    {
      TwoSteps(cfg, View(), Event(MenuT, i));
      physical.SetFinish(true);
      pc := pc.(menu := MDone);
    }
  }

  function CaptureSteps(frame: Option<Packet>): nat {
    if frame.Some? && !frame.value.datalink.OtherDatalink? then 3 else 2
  }

  function PhysicalTurn(finish: bool, frame: Option<Packet>, queue: seq<SelfPkt>): nat {
    if finish then 1 else CaptureSteps(frame) + if queue == [] then 1 else 3
  }

  function ArpTurn(cfg: Config, finish: bool, directions: map<string, string>, queue: seq<SelfPkt>): nat {
    if finish then 1
    else if queue == [] then 2
    else
      var b := queue[0].packet.body;
      if !b.Arp? then 4 else if Learns(cfg, directions, b.arp) then 7 else 6
  }
}
