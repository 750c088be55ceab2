/** Instance slots: the flags of JpcapInstance, the native table `pcds[]`, and the opens and
    closes of JpcapSender and JpcapCaptor that use both. */
module Allocator {

  const MAX_NUMBER_OF_INSTANCE := 255

  /** An instance that has been opened and not closed: its ID and the handle that libpcap gave
      it. */
  datatype Instance = Instance(id: nat, handle: nat)

  /** The two tables, with the open instances and the number of opens that have thrown after
      reserving.  A handle of 0 is NULL. */
  datatype Table = Table(flags: seq<bool>, pcds: seq<nat>, open: seq<Instance>, failed: nat)

  datatype Result = Opened(id: nat) | AllTaken | AnotherInstance | NotOpened

  /** The tables when the classes are loaded. */
  function Fresh(): (t: Table)
    ensures Owned(t)
  {
    var flags := seq(MAX_NUMBER_OF_INSTANCE, _ => false);
    NoneTaken(flags);
    Table(flags, seq(MAX_NUMBER_OF_INSTANCE, _ => 0), [], 0)
  }

  /** The least free slot, or the length. */
  function LeastFree(flags: seq<bool>): (i: nat)
    ensures i <= |flags| && (i < |flags| ==> !flags[i])
    ensures forall k | 0 <= k < i :: flags[k]
  {
    if flags == [] || !flags[0] then 0
    else
      var r := LeastFree(flags[1..]);
      assert forall k | 1 <= k < r + 1 :: flags[k] == flags[1..][k - 1];
      r + 1
  }

  /** openDevice or openFile: reserve a slot, then open natively.  `handle` is what libpcap
      returns, 0 if it fails or no device is named. */
  function Open(t: Table, handle: nat): (Table, Result)
    requires |t.pcds| == |t.flags|
  {
    var id := LeastFree(t.flags);
    if id == |t.flags| then (t, AllTaken)
    else
      var u := t.(flags := t.flags[id := true]);
      if t.pcds[id] != 0 then (u.(failed := t.failed + 1), AnotherInstance)
      else if handle == 0 then (u.(failed := t.failed + 1), NotOpened)
      else (u.(pcds := t.pcds[id := handle], open := t.open + [Instance(id, handle)]), Opened(id))
  }

  /** close on an instance with this ID. */
  function Release(t: Table, id: nat): Table
    requires id < |t.pcds| == |t.flags|
  {
    t.(flags := t.flags[id := false], pcds := t.pcds[id := 0])
  }

  /** close of the `k`-th of the open instances. */
  function Close(t: Table, k: nat): Table
    requires k < |t.open| && t.open[k].id < |t.pcds| == |t.flags|
  {
    Release(t, t.open[k].id).(open := t.open[..k] + t.open[k + 1..])
  }

  function Count(flags: seq<bool>): (n: nat)
    ensures n <= |flags|
  {
    if flags == [] then 0 else (if flags[0] then 1 else 0) + Count(flags[1..])
  }

  lemma {:induction false} CountUpdate(flags: seq<bool>, i: nat, b: bool)
    requires i < |flags| && flags[i] != b
    ensures Count(flags[i := b]) == if b then Count(flags) + 1 else Count(flags) - 1
  {
    if i == 0 {
      assert flags[i := b][1..] == flags[1..];
    } else {
      assert flags[i := b][1..] == flags[1..][i - 1 := b];
      CountUpdate(flags[1..], i - 1, b);
    }
  }

  lemma {:induction false} CountIsFullIff(flags: seq<bool>)
    ensures Count(flags) == |flags| <==> LeastFree(flags) == |flags|
  {
    if flags != [] {
      CountIsFullIff(flags[1..]);
    }
  }

  // ---------------------------------------------------------------- every run

  /** Open instances hold distinct IDs, each with its own handle in `pcds`; there is no other
      handle; and the reserved slots are the open instances and the failed opens. */
  ghost predicate Owned(t: Table) {
    && |t.flags| == |t.pcds| == MAX_NUMBER_OF_INSTANCE
    && (forall k | 0 <= k < |t.open| :: t.open[k].id < MAX_NUMBER_OF_INSTANCE && t.flags[t.open[k].id])
    && (forall k | 0 <= k < |t.open| :: t.pcds[t.open[k].id] == t.open[k].handle != 0)
    && (forall j, k | 0 <= j < k < |t.open| :: t.open[j].id != t.open[k].id)
    && (forall i | 0 <= i < MAX_NUMBER_OF_INSTANCE && t.pcds[i] != 0 :: Instance(i, t.pcds[i]) in t.open)
    && Count(t.flags) == |t.open| + t.failed
  }

  /** What a program may do: open, or close an instance that is open (once). */
  datatype Event = DoOpen(handle: nat) | DoClose(k: nat)

  function Step(t: Table, ev: Event): Table
    requires Owned(t)
  {
    match ev
    case DoOpen(handle) => Open(t, handle).0
    case DoClose(k) => if k < |t.open| then Close(t, k) else t
  }

  lemma {:induction false} NoneTaken(flags: seq<bool>)
    requires forall i | 0 <= i < |flags| :: !flags[i]
    ensures Count(flags) == 0
  {
    if flags != [] {
      NoneTaken(flags[1..]);
    }
  }

  /** In an owned table a free slot has no handle. */
  lemma FreeIsNull(t: Table, id: nat)
    requires Owned(t) && id < MAX_NUMBER_OF_INSTANCE && !t.flags[id]
    ensures t.pcds[id] == 0
  {
  }

  lemma OpenKeepsOwned(t: Table, handle: nat)
    requires Owned(t)
    ensures Owned(Open(t, handle).0)
  {
    var id := LeastFree(t.flags);
    if id < MAX_NUMBER_OF_INSTANCE {
      FreeIsNull(t, id);
      CountUpdate(t.flags, id, true);
      var u := Open(t, handle).0;
      forall i | 0 <= i < MAX_NUMBER_OF_INSTANCE && u.pcds[i] != 0 ensures Instance(i, u.pcds[i]) in u.open {
        if i == id {
          assert u.open[|t.open|] == Instance(id, handle);
        } else {
          assert Instance(i, t.pcds[i]) in t.open;
        }
      }
    }
  }

  lemma CloseKeepsOwned(t: Table, k: nat)
    requires Owned(t) && k < |t.open|
    ensures Owned(Close(t, k))
  {
    hide Count;
    var id, u := t.open[k].id, Close(t, k);
    CountUpdate(t.flags, id, false);
    OthersRemain(t.open, k, u.open);
    forall i | 0 <= i < MAX_NUMBER_OF_INSTANCE && u.pcds[i] != 0 ensures Instance(i, u.pcds[i]) in u.open {
      assert Instance(i, t.pcds[i]) in t.open && i != id;
    }
  }

  lemma OthersRemain(open: seq<Instance>, k: nat, rest: seq<Instance>)
    requires k < |open| && rest == open[..k] + open[k + 1..]
    requires forall j, l | 0 <= j < l < |open| :: open[j].id != open[l].id
    ensures forall j | 0 <= j < |rest| :: rest[j] in open && rest[j].id != open[k].id
    ensures forall j, l | 0 <= j < l < |rest| :: rest[j].id != rest[l].id
    ensures forall x | x in open && x.id != open[k].id :: x in rest
  {
    assert forall j | 0 <= j < |rest| :: rest[j] == open[if j < k then j else j + 1];
    forall x | x in open && x.id != open[k].id ensures x in rest {
      var j :| 0 <= j < |open| && open[j] == x;
      assert rest[if j < k then j else j - 1] == x;
    }
  }

  function Run(t: Table, events: seq<Event>): (u: Table)
    requires Owned(t)
    ensures Owned(u)
    decreases |events|
  {
    if events == [] then t
    else
      assert Owned(Step(t, events[0])) by { StepKeepsOwned(t, events[0]); }
      Run(Step(t, events[0]), events[1..])
  }

  lemma StepKeepsOwned(t: Table, ev: Event)
    requires Owned(t)
    ensures Owned(Step(t, ev))
  {
    hide Owned;
    match ev {
      case DoOpen(handle) => OpenKeepsOwned(t, handle);
      case DoClose(k) => if k < |t.open| { CloseKeepsOwned(t, k); }
    }
  }

  /** In every state that any run reaches, an open takes the least free slot and gets its own
      handle; it fails exactly if all slots are taken or libpcap fails; the branch "Another
      Jpcap instance is being used" is never taken. */
  lemma OpenMeans(events: seq<Event>, handle: nat)
    ensures var t := Run(Fresh(), events);
            var (u, r) := Open(t, handle);
            && !r.AnotherInstance?
            && (r.AllTaken? <==> |t.open| + t.failed == MAX_NUMBER_OF_INSTANCE)
            && (r.AllTaken? ==> u == t)
            && (r.NotOpened? <==> |t.open| + t.failed < MAX_NUMBER_OF_INSTANCE && handle == 0)
            && (r.NotOpened? ==> u.failed == t.failed + 1 && u.flags == t.flags[LeastFree(t.flags) := true]
                                 && u.open == t.open && u.pcds == t.pcds)
            && (r.Opened? ==> r.id < MAX_NUMBER_OF_INSTANCE && !t.flags[r.id]
                              && (forall i | 0 <= i < r.id :: t.flags[i])
                              && u.open == t.open + [Instance(r.id, handle)] && u.pcds == t.pcds[r.id := handle])
  {
    hide Run;
    var t := Run(Fresh(), events);
    CountIsFullIff(t.flags);
    var id := LeastFree(t.flags);
    if id < MAX_NUMBER_OF_INSTANCE {
      FreeIsNull(t, id);
    }
  }

  // ---------------------------------------------------------------- counted from the events

  /** How many instances are open and how many opens have failed natively, after `events`, from
      `open` and `failed`: an open counts for nothing if 255 slots are gone, as failed if libpcap
      gives no handle, and as open otherwise. */
  function Counted(open: nat, failed: nat, events: seq<Event>): (nat, nat)
    decreases |events|
  {
    if events == [] then (open, failed)
    else
      match events[0]
      case DoOpen(handle) =>
        if open + failed == 255 then Counted(open, failed, events[1..])
        else if handle == 0 then Counted(open, failed + 1, events[1..])
        else Counted(open + 1, failed, events[1..])
      case DoClose(k) => Counted(if k < open then open - 1 else open, failed, events[1..])
  }

  lemma {:induction false} CountedFrom(t: Table, events: seq<Event>)
    requires Owned(t)
    ensures (|Run(t, events).open|, Run(t, events).failed) == Counted(|t.open|, t.failed, events)
    decreases |events|
  {
    hide Owned, Step;
    if events != [] {
      StepKeepsOwned(t, events[0]);
      StepCounts(t, events[0]);
      CountedFrom(Step(t, events[0]), events[1..]);
    }
  }

  lemma StepCounts(t: Table, ev: Event)
    requires Owned(t)
    ensures var u := Step(t, ev);
            && (ev.DoOpen? && (|t.open| + t.failed == 255) ==> |u.open| == |t.open| && u.failed == t.failed)
            && (ev.DoOpen? && |t.open| + t.failed != 255 && ev.handle == 0 ==>
                  |u.open| == |t.open| && u.failed == t.failed + 1)
            && (ev.DoOpen? && |t.open| + t.failed != 255 && ev.handle != 0 ==>
                  |u.open| == |t.open| + 1 && u.failed == t.failed)
            && (ev.DoClose? ==>
                  |u.open| == (if ev.k < |t.open| then |t.open| - 1 else |t.open|) && u.failed == t.failed)
  {
    if ev.DoOpen? {
      hide Count;
      CountIsFullIff(t.flags);
      if LeastFree(t.flags) < MAX_NUMBER_OF_INSTANCE {
        FreeIsNull(t, LeastFree(t.flags));
      }
    }
  }

  /** From the start of the program: the numbers of open instances and of failed opens are those
      counted from the events alone; and so is what the next open does. */
  lemma CountsAreOfEvents(events: seq<Event>, handle: nat)
    ensures var (open, failed) := Counted(0, 0, events);
            var t := Run(Fresh(), events);
            var r := Open(t, handle).1;
            && |t.open| == open && t.failed == failed && open + failed <= 255
            && (r.AllTaken? <==> open + failed == 255)
            && (r.NotOpened? <==> open + failed < 255 && handle == 0)
            && (r.Opened? <==> open + failed < 255 && handle != 0)
  {
    CountedFrom(Fresh(), events);
    assert |Fresh().open| == 0 && Fresh().failed == 0;
    hide Run, Counted, Open, Owned;
    OpenMeans(events, handle);
    SlotsSuffice(Run(Fresh(), events));
  }

  lemma SlotsSuffice(t: Table)
    requires Owned(t)
    ensures |t.open| + t.failed <= 255
  {
  }

  function Opens(handles: seq<nat>): (events: seq<Event>)
    ensures |events| == |handles| && forall i | 0 <= i < |handles| :: events[i] == DoOpen(handles[i])
  {
    seq(|handles|, i requires 0 <= i < |handles| => DoOpen(handles[i]))
  }

  /** The first opens of a program get the IDs 0, 1, 2 and so on, up to all 255. */
  lemma FirstOpensAreInOrder(handles: seq<nat>)
    requires |handles| <= 255 && 0 !in handles
    ensures var t := Run(Fresh(), Opens(handles));
            && |t.open| == |handles| && t.failed == 0
            && forall i | 0 <= i < |handles| :: t.open[i] == Instance(i, handles[i])
  {
    FreshIsEmpty();
    OpensFrom(Fresh(), 0, handles);
  }

  /** A table in which the first `n` slots are taken, by the open instances in order. */
  ghost predicate InOrder(t: Table, n: nat) {
    && Owned(t) && |t.open| == n <= 255 && t.failed == 0
    && (forall i | 0 <= i < n :: t.open[i].id == i)
    && forall i | 0 <= i < 255 :: t.flags[i] <==> i < n
  }

  lemma FreshIsEmpty()
    ensures InOrder(Fresh(), 0)
  {
  }

  lemma OpenInOrder(t: Table, n: nat, handle: nat)
    requires InOrder(t, n) && n < 255 && handle != 0
    ensures var u := Step(t, DoOpen(handle)); InOrder(u, n + 1) && u.open == t.open + [Instance(n, handle)]
  {
    hide Count;
    OpenKeepsOwned(t, handle);
    LeastFreeIs(t.flags, n);
    FreeIsNull(t, n);
  }

  lemma {:induction false} OpensFrom(t: Table, n: nat, handles: seq<nat>)
    requires InOrder(t, n) && n + |handles| <= 255 && 0 !in handles
    ensures var u := Run(t, Opens(handles));
            && InOrder(u, n + |handles|) && |u.open| == n + |handles|
            && (forall i | 0 <= i < n :: u.open[i] == t.open[i])
            && forall i | 0 <= i < |handles| :: u.open[n + i] == Instance(n + i, handles[i])
    decreases |handles|
  {
    hide Owned, Step, Fresh;
    if handles != [] {
      var events := Opens(handles);
      OpenInOrder(t, n, handles[0]);
      var u := Step(t, events[0]);
      OpensFrom(u, n + 1, handles[1..]);
      assert events[1..] == Opens(handles[1..]);
      assert Run(t, events) == Run(u, events[1..]);
      forall i | 0 <= i < |handles| ensures Run(t, events).open[n + i] == Instance(n + i, handles[i]) {
        if i > 0 {
          assert Run(t, events).open[n + 1 + (i - 1)] == Instance(n + i, handles[1..][i - 1]);
        }
      }
    }
  }

  /** A handle is non-null exactly for the IDs of open instances, in every state of every run. */
  lemma HandlesAreOwned(events: seq<Event>, id: nat)
    requires id < MAX_NUMBER_OF_INSTANCE
    ensures var t := Run(Fresh(), events);
            t.pcds[id] != 0 <==> exists k :: 0 <= k < |t.open| && t.open[k].id == id
  {
    hide Run;
    var t := Run(Fresh(), events);
    if t.pcds[id] != 0 {
      var k :| 0 <= k < |t.open| && t.open[k] == Instance(id, t.pcds[id]);
      assert t.open[k].id == id;
    }
  }

  /** Slots of failed opens are never given back: `failed` never falls, and when it reaches 255
      nothing changes any more: every later open fails. */
  lemma {:induction false} FailedSlotsAreLost(t: Table, events: seq<Event>)
    requires Owned(t)
    ensures Run(t, events).failed >= t.failed
    ensures t.failed == MAX_NUMBER_OF_INSTANCE ==> Run(t, events) == t
    decreases |events|
  {
    hide Owned, Step;
    if events != [] {
      StepKeepsOwned(t, events[0]);
      FailedStep(t, events[0]);
      FailedSlotsAreLost(Step(t, events[0]), events[1..]);
    }
  }

  lemma FailedStep(t: Table, ev: Event)
    requires Owned(t)
    ensures Step(t, ev).failed >= t.failed
    ensures t.failed == MAX_NUMBER_OF_INSTANCE ==> Step(t, ev) == t
  {
    CountIsFullIff(t.flags);
  }

  /** The events that close all open instances, first one first. */
  function CloseAll(n: nat): (events: seq<Event>)
    ensures |events| == n && forall ev | ev in events :: ev == DoClose(0)
  {
    if n == 0 then [] else [DoClose(0)] + CloseAll(n - 1)
  }

  lemma {:induction false} ClosedAll(t: Table)
    requires Owned(t)
    ensures Run(t, CloseAll(|t.open|)).open == [] && Run(t, CloseAll(|t.open|)).failed == t.failed
    decreases |t.open|
  {
    hide Owned;
    if t.open != [] {
      StepKeepsOwned(t, DoClose(0));
      InBounds(t);
      var events := CloseAll(|t.open|);
      assert Step(t, events[0]) == Close(t, 0);
      assert events[1..] == CloseAll(|Close(t, 0).open|);
      ClosedAll(Close(t, 0));
    }
  }

  lemma InBounds(t: Table)
    requires Owned(t) && t.open != []
    ensures t.open[0].id < |t.pcds| == |t.flags|
  {
  }

  /** A device can be opened again, possibly after some closes, exactly as long as fewer than 255
      opens have failed since the program began. */
  lemma CanOpenAgainIff(t: Table, handle: nat)
    requires Owned(t) && handle != 0
    ensures (exists events :: Open(Run(t, events), handle).1.Opened?) <==> t.failed < MAX_NUMBER_OF_INSTANCE
  {
    hide Run, Step;
    if t.failed < MAX_NUMBER_OF_INSTANCE {
      ClosedAll(t);
      OpensIf(Run(t, CloseAll(|t.open|)), handle);
    } else {
      forall events ensures !Open(Run(t, events), handle).1.Opened? {
        FailedSlotsAreLost(t, events);
        CountIsFullIff(t.flags);
      }
    }
  }

  lemma OpensIf(t: Table, handle: nat)
    requires Owned(t) && handle != 0 && |t.open| + t.failed < MAX_NUMBER_OF_INSTANCE
    ensures Open(t, handle).1.Opened?
  {
    CountIsFullIff(t.flags);
    FreeIsNull(t, LeastFree(t.flags));
  }

  // ---------------------------------------------------------------- closing twice

  /** A close by an instance that has been closed before is harmless exactly if its slot is free
      at that moment; then it changes nothing. */
  lemma StaleCloseIsHarmlessIff(t: Table, id: nat)
    requires Owned(t) && id < MAX_NUMBER_OF_INSTANCE
    ensures !t.flags[id] ==> Release(t, id) == t
    ensures Owned(Release(t, id)) <==> !t.flags[id]
  {
    if t.flags[id] {
      CountUpdate(t.flags, id, false);
    } else {
      FreeIsNull(t, id);
      assert t.flags[id := false] == t.flags && t.pcds[id := 0] == t.pcds;
    }
  }

  /** The input that shows it, from any state with a free slot: open, close, open, and close the
      first instance a second time.  The second instance got the slot of the first; it stays
      open without its handle, and the next open takes the slot away from it. */
  lemma SecondCloseStealsHandle(t: Table, first: nat, second: nat, third: nat)
    requires Owned(t) && |t.open| + t.failed < MAX_NUMBER_OF_INSTANCE && first != 0 && second != 0 && third != 0
    ensures var n := |t.open|;
            var afterOpen := Run(t, [DoOpen(first)]);
            var afterReopen := Run(t, [DoOpen(first), DoClose(n), DoOpen(second)]);
            && |afterOpen.open| == n + 1 && |afterReopen.open| == n + 1
            && afterOpen.open[n] == Instance(LeastFree(t.flags), first)
            && afterReopen.open[n] == Instance(LeastFree(t.flags), second)
            && afterOpen.open[n].id < |afterReopen.pcds|
            && (var afterStale := Release(afterReopen, afterOpen.open[n].id);
                && afterStale.open[n] == afterReopen.open[n] && afterStale.pcds[afterReopen.open[n].id] == 0
                && Open(afterStale, third).1 == Opened(afterReopen.open[n].id)
                && !Owned(afterStale))
  {
    var n, id := |t.open|, LeastFree(t.flags);
    OpensIf(t, first);
    var afterOpen := Step(t, DoOpen(first));
    StepKeepsOwned(t, DoOpen(first));
    ReopenedSlot(t, first);
    var afterClose := Step(afterOpen, DoClose(n));
    StepKeepsOwned(afterOpen, DoClose(n));
    OpensIf(afterClose, second);
    var afterReopen := Step(afterClose, DoOpen(second));
    StepKeepsOwned(afterClose, DoOpen(second));
    ThreeSteps(t, DoOpen(first), DoClose(n), DoOpen(second));
    StaleCloseIsHarmlessIff(afterReopen, id);
    assert Release(afterReopen, id).flags == t.flags;
  }

  /** Opening and closing again gives the slot back. */
  lemma ReopenedSlot(t: Table, handle: nat)
    requires Owned(t) && Open(t, handle).1.Opened?
    ensures var u := Open(t, handle).0;
            && Owned(u) && |u.open| == |t.open| + 1
                && u.open[|t.open|].id == LeastFree(t.flags) < MAX_NUMBER_OF_INSTANCE
            && Close(u, |t.open|) == t
  {
    OpenKeepsOwned(t, handle);
    FreeIsNull(t, LeastFree(t.flags));
    var u, id := Open(t, handle).0, LeastFree(t.flags);
    assert u.open[..|t.open|] + u.open[|t.open| + 1..] == t.open;
    assert u.flags[id := false] == t.flags && u.pcds[id := 0] == t.pcds;
  }

  lemma ThreeSteps(t: Table, a: Event, b: Event, c: Event)
    requires Owned(t) && Owned(Step(t, a)) && Owned(Step(Step(t, a), b))
    ensures Run(t, [a]) == Step(t, a)
    ensures Run(t, [a, b, c]) == Step(Step(Step(t, a), b), c)
  {
    hide Owned, Step;
    StepKeepsOwned(Step(Step(t, a), b), c);
    var u := Step(t, a);
    assert [a][1..] == [] && [a, b, c][1..] == [b, c] && [b, c][1..] == [c] && [c][1..] == [];
    assert Run(t, [a, b, c]) == Run(u, [b, c]) == Run(Step(u, b), [c]) == Run(Step(Step(u, b), c), []);
  }

  // ---------------------------------------------------------------- the objects

  /** The static tables. */
  class Instances {
    const instanciatedFlag: array<bool>
    const pcds: array<nat>
    ghost var open: seq<Instance>
    ghost var failed: nat

    ghost function View(): Table
      reads this, instanciatedFlag, pcds
    {
      Table(instanciatedFlag[..], pcds[..], open, failed)
    }

    constructor ()
      ensures fresh(instanciatedFlag) && fresh(pcds) && View() == Fresh() && Owned(View())
    {
      instanciatedFlag := new bool[MAX_NUMBER_OF_INSTANCE](_ => false);
      pcds := new nat[MAX_NUMBER_OF_INSTANCE](_ => 0);
      open, failed := [], 0;
      new;
      hide Owned;
      assert instanciatedFlag[..] == Fresh().flags && pcds[..] == Fresh().pcds;
    }

    /** reserveID: the least free slot is taken, or -1. */
    method ReserveID() returns (id: int)
      requires instanciatedFlag.Length == MAX_NUMBER_OF_INSTANCE
      modifies instanciatedFlag
      ensures var free := LeastFree(old(instanciatedFlag[..]));
              if free == MAX_NUMBER_OF_INSTANCE then id == -1 && instanciatedFlag[..] == old(instanciatedFlag[..])
              else id == free && instanciatedFlag[..] == old(instanciatedFlag[..])[free := true]
    {
      id := -1;
      for i := 0 to MAX_NUMBER_OF_INSTANCE
        invariant instanciatedFlag[..] == old(instanciatedFlag[..]) && id == -1
        invariant forall k | 0 <= k < i :: instanciatedFlag[k]
      {
        if !instanciatedFlag[i] {
          id := i;
          LeastFreeIs(instanciatedFlag[..], i);
          instanciatedFlag[i] := true;
          return;
        }
      }
      LeastFreeIs(instanciatedFlag[..], MAX_NUMBER_OF_INSTANCE);
    }

    /** openDevice and openFile; `handle` is what libpcap would return. */
    method OpenDevice(handle: nat) returns (r: Result)
      requires Owned(View()) && instanciatedFlag.Length == pcds.Length == MAX_NUMBER_OF_INSTANCE
      modifies this, instanciatedFlag, pcds
      ensures (View(), r) == Open(old(View()), handle) && Owned(View())
    {
      hide Owned, LeastFree;
      OpenKeepsOwned(View(), handle);
      var id := ReserveID();
      if id < 0 {
        return AllTaken;
      }
      if pcds[id] != 0 {
        failed := failed + 1;
        return AnotherInstance;
      }
      if handle == 0 {
        failed := failed + 1;
        return NotOpened;
      }
      pcds[id] := handle;
      open := open + [Instance(id, handle)];
      return Opened(id);
    }

    /** close: of the `k`-th open instance, or, with an ID that the instance no longer holds, a
        stale one. */
    method CloseDevice(id: nat, ghost k: int)
      requires Owned(View()) && instanciatedFlag.Length == pcds.Length == MAX_NUMBER_OF_INSTANCE
      requires id < MAX_NUMBER_OF_INSTANCE && (0 <= k < |open| ==> open[k].id == id)
      modifies this, instanciatedFlag, pcds
      ensures 0 <= k < |old(open)| ==> View() == Close(old(View()), k) && Owned(View())
      ensures !(0 <= k < |old(open)|) ==> View() == Release(old(View()), id)
    {
      if 0 <= k < |open| {
        CloseKeepsOwned(View(), k);
      }
      hide Owned;
      pcds[id] := 0;
      instanciatedFlag[id] := false;
      if 0 <= k < |open| {
        open := open[..k] + open[k + 1..];
      }
    }
  }

  lemma {:induction false} LeastFreeIs(flags: seq<bool>, i: nat)
    requires i <= |flags| && (i < |flags| ==> !flags[i]) && forall k | 0 <= k < i :: flags[k]
    ensures LeastFree(flags) == i
  {
  }
}
