/** The park/wake bookkeeping of tools/netpollsm/sm.go: what every step does, the conservation
    laws over every interleaving of steps, and the object that performs the steps. */
module Netpoll {
  import opened FiniteSets
  import opened Words

  datatype DescState = Nil | Wait | Ready

  type int32 = x: int | -0x8000_0000 <= x < 0x8000_0000

  type Mode = m: int | 0 <= m < 256
  const READ: Mode := 0x72

  datatype Error = NotRegistered | DoubleWait | InvalidFd

  /** The value of one descriptor object. */
  datatype DescVal = DescVal(fd: int32, state: DescState, rg: Mode, wg: Mode, closing: bool)

  /** The poller: every descriptor object ever made, and the table from fd to the registered
      one. A caller can keep a descriptor that is no longer registered. */
  datatype Poll = Poll(heap: seq<DescVal>, descs: map<int32, nat>, waiters: int, wakes: int, broken: bool, closed: bool)

  const NEW: Poll := Poll([], map[], 0, 0, false, false)

  ghost predicate WellFormed(s: Poll) {
    forall fd :: fd in s.descs ==> fd > 0 && s.descs[fd] < |s.heap| && s.heap[s.descs[fd]].fd == fd
  }

  // ---- the steps ----

  datatype Opened = OpenOk(id: nat) | OpenErr(error: Error)

  function OpenResult(s: Poll, fd: int32): Opened {
    if fd <= 0 then OpenErr(InvalidFd)
    else if s.closed then OpenErr(NotRegistered)
    else if fd in s.descs then OpenOk(s.descs[fd])
    else OpenOk(|s.heap|)
  }

  function OpenStep(s: Poll, fd: int32): Poll {
    if fd <= 0 || s.closed || fd in s.descs then s
    else s.(heap := s.heap + [DescVal(fd, Nil, 0, 0, false)], descs := s.descs[fd := |s.heap|])
  }

  /** Whether a Close or a Ready of this fd finds somebody parked. */
  ghost predicate Wakes(s: Poll, fd: int32)
    requires WellFormed(s)
  {
    fd in s.descs && s.heap[s.descs[fd]].state == Wait
  }

  ghost function CloseStep(s: Poll, fd: int32): Poll
    requires WellFormed(s)
  {
    if fd !in s.descs then s
    else
      var id := s.descs[fd];
      s.(heap := s.heap[id := s.heap[id].(state := Nil, closing := true)],
         descs := s.descs - {fd},
         wakes := if Wakes(s, fd) then Wrap64(s.wakes + 1) else s.wakes)
  }

  datatype Waited = Park | Proceed | WaitErr(error: Error)

  /** `id` is the descriptor object the caller holds, registered or not. */
  function WaitResult(s: Poll, id: nat): Waited
    requires id < |s.heap|
  {
    if s.closed || s.heap[id].fd !in s.descs then WaitErr(NotRegistered)
    else match s.heap[id].state
      case Ready => Proceed
      case Wait => WaitErr(DoubleWait)
      case Nil => Park
  }

  function WaitStep(s: Poll, id: nat, m: Mode): Poll
    requires id < |s.heap|
  {
    var d := s.heap[id];
    match WaitResult(s, id)
    case WaitErr(_) => s
    case Proceed => s.(heap := s.heap[id := d.(state := Nil)])
    case Park =>
      var armed := if m == READ then d.(state := Wait, rg := m) else d.(state := Wait, wg := m);
      s.(heap := s.heap[id := armed], waiters := Wrap32(s.waiters + 1))
  }

  ghost function ReadyStep(s: Poll, fd: int32): Poll
    requires WellFormed(s)
  {
    if !Wakes(s, fd) then s
    else
      var id := s.descs[fd];
      s.(heap := s.heap[id := s.heap[id].(state := Ready)], wakes := Wrap64(s.wakes + 1))
  }

  /** The descriptor object is the one registered for its fd. */
  predicate IsRegistered(s: Poll, id: nat)
    requires id < |s.heap|
  {
    s.heap[id].fd in s.descs && s.descs[s.heap[id].fd] == id
  }

  /** The registered descriptors with readiness to collect. */
  ghost function ReadyIds(s: Poll): (ids: set<nat>)
    ensures forall i :: i in ids ==> i < |s.heap|
  {
    set i: nat | i < |s.heap| && s.heap[i].state == Ready && IsRegistered(s, i)
  }

  function Reset(d: DescVal): DescVal { d.(state := Nil, rg := 0, wg := 0) }

  /** The heap once the descriptors `ids` have been collected. */
  ghost function Collected(heap: seq<DescVal>, ids: set<nat>): (r: seq<DescVal>)
    ensures |r| == |heap|
    ensures forall i :: 0 <= i < |heap| ==> r[i] == if i in ids then Reset(heap[i]) else heap[i]
  {
    seq(|heap|, i requires 0 <= i < |heap| => if i in ids then Reset(heap[i]) else heap[i])
  }

  ghost function DrainStep(s: Poll): Poll
    requires WellFormed(s)
  {
    var n := |ReadyIds(s)|;
    if n == 0 then s
    else
      var left := Wrap32(s.waiters - n);
      s.(heap := Collected(s.heap, ReadyIds(s)), waiters := if left < 0 then 0 else left)
  }

  datatype Op =
    | Open(fd: int32) | Close(fd: int32) | WaitOn(id: nat, m: Mode) | MarkReady(fd: int32) | Drain | Break | ClearBreak
              | Shutdown

  ghost function Step(s: Poll, op: Op): Poll
    requires WellFormed(s)
  {
    match op
    case Open(fd) => OpenStep(s, fd)
    case Close(fd) => CloseStep(s, fd)
    case WaitOn(id, m) => if id < |s.heap| then WaitStep(s, id, m) else s
    case MarkReady(fd) => ReadyStep(s, fd)
    case Drain => DrainStep(s)
    case Break => s.(broken := true)
    case ClearBreak => s.(broken := false)
    case Shutdown => s.(closed := true, descs := map[])
  }

  /** Parks granted, and wakes consumed by a Wait, by a Drain and by a Close. */
  datatype Tally = Tally(parks: nat, byWait: nat, byDrain: nat, byClose: nat)

  ghost function Count(s: Poll, t: Tally, op: Op): Tally
    requires WellFormed(s)
  {
    match op
    case WaitOn(id, _) =>
      if id < |s.heap| && WaitResult(s, id) == Park then t.(parks := t.parks + 1)
      else if id < |s.heap| && WaitResult(s, id) == Proceed then t.(byWait := t.byWait + 1)
      else t
    case Close(fd) =>
      if fd in s.descs && s.heap[s.descs[fd]].state != Nil then t.(byClose := t.byClose + 1) else t
    case Drain => t.(byDrain := t.byDrain + |ReadyIds(s)|)
    case _ => t
  }

  // ---- every step keeps the laws ----

  ghost function InState(heap: seq<DescVal>, st: DescState): set<nat> {
    set i: nat | i < |heap| && heap[i].state == st
  }

  ghost function Waiting(s: Poll): nat { |InState(s.heap, Wait)| }

  ghost function Awake(s: Poll): nat { |InState(s.heap, Ready)| }

  /** Every park granted is still waiting, or was woken; every wake is still to be collected or
      was consumed once. `wakes` is the number of parks that were woken, kept in 64 bits. */
  ghost predicate Conserved(s: Poll, t: Tally) {
    && t.parks == Waiting(s) + Awake(s) + t.byWait + t.byDrain + t.byClose
    && s.wakes == Wrap64(Awake(s) + t.byWait + t.byDrain + t.byClose)
  }

  lemma SameElsewhere(heap: seq<DescVal>, id: nat, d: DescVal, st: DescState)
    requires id < |heap|
    ensures InState(heap, st) - {id} == InState(heap[id := d], st) - {id}
    ensures id in InState(heap, st) <==> heap[id].state == st
    ensures id in InState(heap[id := d], st) <==> d.state == st
  {
  }

  /** How one descriptor's change of state moves the two counts. */
  lemma Moved(heap: seq<DescVal>, id: nat, d: DescVal, st: DescState)
    requires id < |heap|
    ensures |InState(heap[id := d], st)|
         == |InState(heap, st)| + (if d.state == st then 1 else 0) - (if heap[id].state == st then 1 else 0)
  {
    hide InState;
    SameElsewhere(heap, id, d, st);
    WithOrWithout(InState(heap, st), id);
    WithOrWithout(InState(heap[id := d], st), id);
  }

  lemma Registered(heap: seq<DescVal>, d: DescVal, st: DescState)
    requires d.state == Nil && st != Nil
    ensures InState(heap + [d], st) == InState(heap, st)
  {
  }

  lemma CollectedStates(s: Poll)
    requires WellFormed(s)
    ensures InState(Collected(s.heap, ReadyIds(s)), Wait) == InState(s.heap, Wait)
    ensures InState(Collected(s.heap, ReadyIds(s)), Ready) == InState(s.heap, Ready) - ReadyIds(s)
    ensures ReadyIds(s) <= InState(s.heap, Ready)
  {
    hide Collected;
  }

  /** Collecting takes exactly the registered ready descriptors out of the ready state. */
  lemma CollectCounts(s: Poll)
    requires WellFormed(s)
    ensures InState(Collected(s.heap, ReadyIds(s)), Wait) == InState(s.heap, Wait)
    ensures |InState(Collected(s.heap, ReadyIds(s)), Ready)| == |InState(s.heap, Ready)| - |ReadyIds(s)|
  {
    hide Collected, InState, ReadyIds;
    CollectedStates(s);
    SplitSize(InState(s.heap, Ready), ReadyIds(s));
  }

  lemma StepWellFormed(s: Poll, op: Op)
    requires WellFormed(s)
    ensures WellFormed(Step(s, op))
  {
  }

  lemma CloseConserves(s: Poll, t: Tally, fd: int32)
    requires WellFormed(s) && Conserved(s, t)
    ensures Conserved(CloseStep(s, fd), Count(s, t, Close(fd)))
  {
    hide InState, Wrap64;
    if fd in s.descs {
      var id := s.descs[fd];
      var d := s.heap[id].(state := Nil, closing := true);
      Moved(s.heap, id, d, Wait);
      Moved(s.heap, id, d, Ready);
      NextWake(Awake(s) + t.byWait + t.byDrain + t.byClose);
    }
  }

  lemma WaitConserves(s: Poll, t: Tally, id: nat, m: Mode)
    requires WellFormed(s) && Conserved(s, t) && id < |s.heap|
    ensures Conserved(WaitStep(s, id, m), Count(s, t, WaitOn(id, m)))
  {
    hide InState, Wrap64, Wrap32;
    var d := WaitStep(s, id, m).heap[id];
    assert WaitStep(s, id, m).heap == s.heap[id := d];
    Moved(s.heap, id, d, Wait);
    Moved(s.heap, id, d, Ready);
  }

  lemma ReadyConserves(s: Poll, t: Tally, fd: int32)
    requires WellFormed(s) && Conserved(s, t)
    ensures Conserved(ReadyStep(s, fd), t)
  {
    hide InState, Wrap64;
    if Wakes(s, fd) {
      var id := s.descs[fd];
      Moved(s.heap, id, s.heap[id].(state := Ready), Wait);
      Moved(s.heap, id, s.heap[id].(state := Ready), Ready);
      NextWake(Awake(s) + t.byWait + t.byDrain + t.byClose);
    }
  }

  /** Every step, in any order, on any descriptor the caller may still hold. */
  lemma StepConserves(s: Poll, t: Tally, op: Op)
    requires WellFormed(s) && Conserved(s, t)
    ensures Conserved(Step(s, op), Count(s, t, op))
  {
    hide InState, Wrap64, Wrap32, CloseStep, WaitStep, ReadyStep, Collected, ReadyIds;
    match op {
      case Open(fd) =>
        Registered(s.heap, DescVal(fd, Nil, 0, 0, false), Wait);
        Registered(s.heap, DescVal(fd, Nil, 0, 0, false), Ready);
      case Close(fd) => CloseConserves(s, t, fd);
      case WaitOn(id, m) => if id < |s.heap| { WaitConserves(s, t, id, m); }
      case MarkReady(fd) => ReadyConserves(s, t, fd);
      case Drain => CollectCounts(s);
      case _ =>
    }
  }

  lemma NextWake(x: int)
    ensures Wrap64(Wrap64(x) + 1) == Wrap64(x + 1)
  {
  }

  // ---- whole runs ----

  ghost function Run(ops: seq<Op>): (r: (Poll, Tally))
    ensures WellFormed(r.0)
  {
    if ops == [] then (NEW, Tally(0, 0, 0, 0))
    else
      var (s, t) := Run(ops[..|ops| - 1]);
      StepWellFormed(s, ops[|ops| - 1]);
      (Step(s, ops[|ops| - 1]), Count(s, t, ops[|ops| - 1]))
  }

  /** The conservation laws hold after every interleaving of steps whatsoever. */
  lemma {:induction false} RunConserves(ops: seq<Op>)
    ensures Conserved(Run(ops).0, Run(ops).1)
  {
    hide Step, Count;
    if ops != [] {
      RunConserves(ops[..|ops| - 1]);
      var (s, t) := Run(ops[..|ops| - 1]);
      StepConserves(s, t, ops[|ops| - 1]);
    }
  }

  /** Parks not yet drained stay within the 32 bits of the waiter counter all along the run. */
  ghost predicate CounterFits(ops: seq<Op>) {
    forall n :: 0 <= n <= |ops| ==> Run(ops[..n]).1.parks - Run(ops[..n]).1.byDrain < 0x8000_0000
  }

  lemma StepWaiters(s: Poll, t: Tally, op: Op)
    requires WellFormed(s) && s.waiters == t.parks - t.byDrain
    requires Count(s, t, op).parks - Count(s, t, op).byDrain < 0x8000_0000
    requires 0 <= s.waiters < 0x8000_0000 && |ReadyIds(s)| <= s.waiters
    ensures Step(s, op).waiters == Count(s, t, op).parks - Count(s, t, op).byDrain
  {
    hide Collected, ReadyIds, Wakes;
  }

  /** The waiter counter is the parks granted minus the descriptors drained, so the clamp in
      Drain never fires; it counts those still waiting or ready and, on top of them, exactly the
      wakes a Wait or a Close consumed. */
  lemma {:induction false} WaitersExactly(ops: seq<Op>)
    requires CounterFits(ops)
    ensures var (s, t) := Run(ops);
            && s.waiters == t.parks - t.byDrain == Waiting(s) + Awake(s) + t.byWait + t.byClose
            && |ReadyIds(s)| <= s.waiters
    decreases |ops|
  {
    hide InState, Step, Count, ReadyIds, Collected, WellFormed;
    RunConserves(ops);
    var (s, t) := Run(ops);
    CollectCounts(s);
    if ops != [] {
      var n := |ops| - 1;
      FitsBefore(ops);
      WaitersExactly(ops[..n]);
      assert ops[..n + 1] == ops;
      assert t.parks - t.byDrain < 0x8000_0000;
      StepWaiters(Run(ops[..n]).0, Run(ops[..n]).1, ops[n]);
    }
  }

  lemma FitsBefore(ops: seq<Op>)
    requires CounterFits(ops) && ops != []
    ensures CounterFits(ops[..|ops| - 1])
    ensures Run(ops[..|ops| - 1]).1.parks - Run(ops[..|ops| - 1]).1.byDrain < 0x8000_0000
  {
    hide Run;
    var before := ops[..|ops| - 1];
    forall n | 0 <= n <= |before| ensures Run(before[..n]).1.parks - Run(before[..n]).1.byDrain < 0x8000_0000 {
      assert before[..n] == ops[..n];
    }
  }

  /** Registered descriptors that are waiting or ready. */
  ghost function ActiveIds(s: Poll): set<nat> {
    set i: nat | i < |s.heap| && s.heap[i].state != Nil && IsRegistered(s, i)
  }

  lemma ActiveBound(s: Poll)
    ensures |ActiveIds(s)| <= Waiting(s) + Awake(s)
  {
    var a, b := InState(s.heap, Wait), InState(s.heap, Ready);
    assert a * b == {} && ActiveIds(s) <= a + b;
    SubsetSize(ActiveIds(s), a + b);
  }

  /** The counter never drops below the registered descriptors that are waiting or ready. */
  lemma WaitersCoverActive(ops: seq<Op>)
    requires CounterFits(ops)
    ensures |ActiveIds(Run(ops).0)| <= Run(ops).0.waiters
  {
    WaitersExactly(ops);
    ActiveBound(Run(ops).0);
  }

  /** The counter is the parks granted minus the descriptors drained. */
  ghost predicate CounterAgrees(ops: seq<Op>) {
    Run(ops).0.waiters == Run(ops).1.parks - Run(ops).1.byDrain
  }

  lemma {:induction false} CounterIs32Bit(ops: seq<Op>)
    ensures -0x8000_0000 <= Run(ops).0.waiters < 0x8000_0000
  {
    hide Count, ReadyIds, Collected, Wakes, WaitResult, Wrap32, Wrap64;
    if ops != [] { CounterIs32Bit(ops[..|ops| - 1]); }
  }

  /** All along a run the counter agrees if and only if the difference never outgrows its 32 bits. */
  lemma WaitersAgreeExactly(ops: seq<Op>)
    ensures (forall n :: 0 <= n <= |ops| ==> CounterAgrees(ops[..n])) <==> CounterFits(ops)
  {
    hide Run;
    if forall n :: 0 <= n <= |ops| ==> CounterAgrees(ops[..n]) {
      forall n | 0 <= n <= |ops|
        ensures Run(ops[..n]).1.parks - Run(ops[..n]).1.byDrain < 0x8000_0000
      {
        assert CounterAgrees(ops[..n]);
        CounterIs32Bit(ops[..n]);
      }
    }
    if CounterFits(ops) {
      forall n | 0 <= n <= |ops|
        ensures CounterAgrees(ops[..n])
      {
        FitsPrefix(ops, n);
        WaitersExactly(ops[..n]);
      }
    }
  }

  lemma FitsPrefix(ops: seq<Op>, n: nat)
    requires CounterFits(ops) && n <= |ops|
    ensures CounterFits(ops[..n])
  {
    hide Run;
    forall m | 0 <= m <= n
      ensures Run(ops[..n][..m]).1.parks - Run(ops[..n][..m]).1.byDrain < 0x8000_0000
    {
      assert ops[..n][..m] == ops[..m];
    }
  }

  /** One descriptor, parked and woken over and over, each wake taken by the next Wait. */
  function BusyRun(n: nat): seq<Op> {
    if n == 0 then [Open(1)] else BusyRun(n - 1) + [WaitOn(0, READ)] + [MarkReady(1)] + [WaitOn(0, READ)]
  }

  function BusyPoll(n: nat): Poll {
    Poll([DescVal(1, Nil, if n == 0 then 0 else READ, 0, false)], map[1 := 0], Wrap32(n), Wrap64(n), false, false)
  }

  lemma BusyRound(n: nat)
    ensures WellFormed(BusyPoll(n))
    ensures var (s, t) := (BusyPoll(n), Tally(n, n, 0, 0));
            var (s1, t1) := (Step(s, WaitOn(0, READ)), Count(s, t, WaitOn(0, READ)));
            && WellFormed(s1)
            && var (s2, t2) := (Step(s1, MarkReady(1)), Count(s1, t1, MarkReady(1)));
            && WellFormed(s2)
            && Step(s2, WaitOn(0, READ)) == BusyPoll(n + 1)
            && Count(s2, t2, WaitOn(0, READ)) == Tally(n + 1, n + 1, 0, 0)
  {
    hide Wrap32, Wrap64;
    var s := BusyPoll(n);
    assert s.heap[0].fd == 1 && 1 in s.descs && s.descs[1] == 0;
    NextPark(n);
    NextWake(n);
  }

  lemma NextPark(x: int)
    ensures Wrap32(Wrap32(x) + 1) == Wrap32(x + 1)
  {
  }

  lemma {:induction false} RunsBusy(n: nat)
    ensures Run(BusyRun(n)) == (BusyPoll(n), Tally(n, n, 0, 0))
  {
    hide Step, Count, BusyPoll;
    if n == 0 {
      RunsNone();
      TallyOn([], Open(1));
      OpensBusy();
      assert [] + [Open(1)] == [Open(1)];
    } else {
      RunsBusy(n - 1);
      BusyRound(n - 1);
      var ops := BusyRun(n - 1);
      TallyOn(ops, WaitOn(0, READ));
      TallyOn(ops + [WaitOn(0, READ)], MarkReady(1));
      TallyOn(ops + [WaitOn(0, READ)] + [MarkReady(1)], WaitOn(0, READ));
    }
  }

  lemma OpensBusy()
    ensures WellFormed(NEW) && Step(NEW, Open(1)) == BusyPoll(0)
    ensures Count(NEW, Tally(0, 0, 0, 0), Open(1)) == Tally(0, 0, 0, 0)
  {
    hide Wrap32, Wrap64;
    assert OpenStep(NEW, 1) == Poll([DescVal(1, Nil, 0, 0, false)], map[1 := 0], 0, 0, false, false);
  }

  lemma TallyOn(ops: seq<Op>, op: Op)
    ensures Run(ops + [op]) == (Step(Run(ops).0, op), Count(Run(ops).0, Run(ops).1, op))
  {
    assert (ops + [op])[..|ops|] == ops;
  }

  /** The counter can wrap: after 2^31 such rounds nobody is parked and it reads -2^31. */
  lemma CounterCanWrap()
    ensures var (s, t) := Run(BusyRun(0x8000_0000));
            t.parks == 0x8000_0000 && t.byDrain == 0 && s.waiters == -0x8000_0000
  {
    hide Run, BusyRun;
    RunsBusy(0x8000_0000);
  }

  // ---- who can still be reached ----

  /** Some descriptor is in this state although its fd no longer leads to it. */
  ghost predicate Lost(s: Poll, st: DescState) {
    exists i :: 0 <= i < |s.heap| && s.heap[i].state == st && !IsRegistered(s, i)
  }

  ghost predicate Held(s: Poll, st: DescState) {
    exists i :: 0 <= i < |s.heap| && s.heap[i].state == st && IsRegistered(s, i)
  }

  /** The two ways to lose one: a Wait that parks on a descriptor not registered for its fd, and a
      Shutdown while a registered one is in that state. */
  ghost predicate Strands(s: Poll, op: Op, st: DescState) {
    match op
    case WaitOn(id, _) => st == Wait && id < |s.heap| && WaitResult(s, id) == Park && !IsRegistered(s, id)
    case Shutdown => Held(s, st)
    case _ => false
  }

  /** A closed poller has no registrations; an open one has no unregistered readiness. */
  ghost predicate Settled(s: Poll) { if s.closed then s.descs == map[] else !Lost(s, Ready) }

  lemma StepSettled(s: Poll, op: Op)
    requires WellFormed(s) && Settled(s)
    ensures Settled(Step(s, op))
  {
    hide Wrap32, Wrap64;
    var r := Step(s, op);
    if !r.closed {
      forall i | 0 <= i < |r.heap| && r.heap[i].state == Ready
        ensures IsRegistered(r, i)
      {
        if i < |s.heap| && s.heap[i].state == Ready { assert IsRegistered(s, i); }
      }
    }
  }

  /** What is lost stays lost, and only a stranding step loses anything. */
  lemma StepStrands(s: Poll, op: Op, st: DescState)
    requires WellFormed(s) && Settled(s) && st != Nil
    ensures Lost(Step(s, op), st) <==> Lost(s, st) || Strands(s, op, st)
  {
    StepSettled(s, op);
    if Lost(s, st) {
      var i :| 0 <= i < |s.heap| && s.heap[i].state == st && !IsRegistered(s, i);
      StaysLost(s, op, i);
    }
    if Strands(s, op, st) { BecomesLost(s, op, st); }
    if Lost(Step(s, op), st) {
      var i :| 0 <= i < |Step(s, op).heap| && Step(s, op).heap[i].state == st && !IsRegistered(Step(s, op), i);
      WasLost(s, op, st, i);
    }
  }

  lemma StaysLost(s: Poll, op: Op, i: nat)
    requires WellFormed(s) && Settled(s) && i < |s.heap| && s.heap[i].state != Nil && !IsRegistered(s, i)
    ensures i < |Step(s, op).heap| && Step(s, op).heap[i].state == s.heap[i].state && !IsRegistered(Step(s, op), i)
  {
    hide Wrap32, Wrap64;
  }

  lemma BecomesLost(s: Poll, op: Op, st: DescState)
    requires WellFormed(s) && st != Nil && Strands(s, op, st)
    ensures Lost(Step(s, op), st)
  {
    match op
    case WaitOn(id, m) =>
      var r := WaitStep(s, id, m);
      assert r.heap[id].state == Wait && !IsRegistered(r, id);
    case Shutdown =>
      var i :| 0 <= i < |s.heap| && s.heap[i].state == st && IsRegistered(s, i);
      assert !IsRegistered(Step(s, op), i);
  }

  lemma WasLost(s: Poll, op: Op, st: DescState, i: nat)
    requires WellFormed(s) && st != Nil
    requires i < |Step(s, op).heap| && Step(s, op).heap[i].state == st && !IsRegistered(Step(s, op), i)
    ensures Lost(s, st) || Strands(s, op, st)
  {
    hide Wrap32, Wrap64, Collected, ReadyIds, Lost, Held;
    if i < |s.heap| && s.heap[i].state == st {
      if !IsRegistered(s, i) {
        IsLost(s, st, i);
      } else {
        IsHeld(s, st, i);
        StaysRegistered(s, op, i);
      }
    } else {
      assert op.WaitOn? && op.id == i;
    }
  }

  /** A registered descriptor loses its registration to a Shutdown, or to a Close that leaves it idle. */
  lemma StaysRegistered(s: Poll, op: Op, i: nat)
    requires WellFormed(s) && i < |s.heap| && IsRegistered(s, i)
    ensures var r := Step(s, op);
            i < |r.heap| && (op.Shutdown? || IsRegistered(r, i) || r.heap[i].state == Nil)
  {
    hide Wrap32, Wrap64, Collected, ReadyIds;
  }

  lemma IsHeld(s: Poll, st: DescState, i: nat)
    requires i < |s.heap| && s.heap[i].state == st && IsRegistered(s, i)
    ensures Held(s, st)
  {
  }

  lemma IsLost(s: Poll, st: DescState, i: nat)
    requires i < |s.heap| && s.heap[i].state == st && !IsRegistered(s, i)
    ensures Lost(s, st)
  {
  }

  lemma {:induction false} RunSettled(ops: seq<Op>)
    ensures Settled(Run(ops).0)
  {
    hide Step;
    if ops != [] {
      RunSettled(ops[..|ops| - 1]);
      StepSettled(Run(ops[..|ops| - 1]).0, ops[|ops| - 1]);
    }
  }

  /** Some step of the run, taken in the state the run had reached, stranded a descriptor. */
  ghost predicate StrandedAt(ops: seq<Op>, k: nat, st: DescState)
    requires k < |ops|
  {
    Strands(Run(ops[..k]).0, ops[k], st)
  }

  /** Over every run somebody is parked, or ready, out of reach if and only if a step stranded it. */
  lemma {:induction false} StrandedExactly(ops: seq<Op>, st: DescState)
    requires st != Nil
    ensures Lost(Run(ops).0, st) <==> exists k :: 0 <= k < |ops| && StrandedAt(ops, k, st)
    decreases |ops|
  {
    hide Step, Lost, Strands;
    if ops == [] {
      NothingLost(st);
    } else {
      var n := |ops| - 1;
      var front := ops[..n];
      StrandedExactly(front, st);
      RunSettled(front);
      StepStrands(Run(front).0, ops[n], st);
      forall k | 0 <= k < n
        ensures StrandedAt(ops, k, st) <==> StrandedAt(front, k, st)
      {
        assert front[..k] == ops[..k];
      }
      assert StrandedAt(ops, n, st) <==> Strands(Run(front).0, ops[n], st);
    }
  }

  lemma NothingLost(st: DescState)
    ensures !Lost(Run([]).0, st)
  {
  }

  /** A parked goroutine is woken by a Ready of its fd, and observes a Close of it, exactly when its
      descriptor is the registered one; and it is woken once. */
  lemma WokenExactly(s: Poll, i: nat)
    requires WellFormed(s) && i < |s.heap| && s.heap[i].state == Wait
    ensures var fd := s.heap[i].fd;
            && (ReadyStep(s, fd).heap[i].state == Ready <==> IsRegistered(s, i))
            && (CloseStep(s, fd).heap[i].state == Nil <==> IsRegistered(s, i))
            && (CloseStep(s, fd).heap[i].closing != s.heap[i].closing ==> IsRegistered(s, i))
            && (IsRegistered(s, i) ==> WellFormed(ReadyStep(s, fd)) && Wakes(s, fd) && !Wakes(ReadyStep(s, fd), fd)
                                       && CloseStep(s, fd).heap[i].closing && fd !in CloseStep(s, fd).descs)
  {
    StepWellFormed(s, MarkReady(s.heap[i].fd));
  }

  /** So over every run without a stranding step no parked goroutine is lost (I5). */
  lemma NoLostWaiter(ops: seq<Op>, i: nat)
    ensures var s := Run(ops).0;
            i < |s.heap| && s.heap[i].state == Wait && (forall k :: 0 <= k < |ops| ==> !StrandedAt(ops, k, Wait)) ==>
              var fd := s.heap[i].fd;
              ReadyStep(s, fd).heap[i].state == Ready && CloseStep(s, fd).heap[i].state == Nil
              && CloseStep(s, fd).heap[i].closing
  {
    hide ReadyStep, CloseStep, StrandedAt, Run;
    var s := Run(ops).0;
    if i < |s.heap| && s.heap[i].state == Wait {
      StrandedExactly(ops, Wait);
      WokenExactly(s, i);
    }
  }

  const STALE_WAIT: seq<Op> := [Open(1), Close(1), Open(1), WaitOn(0, READ)]
  const SHUT_WAITER: seq<Op> := [Open(1), WaitOn(0, READ), Shutdown]

  /** Both ways happen: a Wait on a descriptor whose fd was reopened, and a Shutdown under a waiter. */
  lemma WaitersCanBeLost()
    ensures Lost(Run(STALE_WAIT).0, Wait) && Lost(Run(SHUT_WAITER).0, Wait)
  {
    hide Run, Lost, Step;
    RunsNone();
    RunsOn([], Open(1));
    RunsOn([Open(1)], Close(1));
    RunsOn([Open(1), Close(1)], Open(1));
    RunsOn([Open(1), Close(1), Open(1)], WaitOn(0, READ));
    RunsOn([Open(1)], WaitOn(0, READ));
    RunsOn([Open(1), WaitOn(0, READ)], Shutdown);
    assert [] + [Open(1)] == [Open(1)] && [Open(1)] + [Close(1)] == [Open(1), Close(1)];
    assert [Open(1), Close(1)] + [Open(1)] == [Open(1), Close(1), Open(1)];
    assert [Open(1), Close(1), Open(1)] + [WaitOn(0, READ)] == STALE_WAIT;
    assert [Open(1)] + [WaitOn(0, READ)] == [Open(1), WaitOn(0, READ)];
    assert [Open(1), WaitOn(0, READ)] + [Shutdown] == SHUT_WAITER;
    StaleSteps();
    ShutSteps();
  }

  lemma StaleSteps()
    ensures WellFormed(NEW) && WellFormed(Step(NEW, Open(1))) && WellFormed(Step(Step(NEW, Open(1)), Close(1)))
    ensures WellFormed(Step(Step(Step(NEW, Open(1)), Close(1)), Open(1)))
    ensures Lost(Step(Step(Step(Step(NEW, Open(1)), Close(1)), Open(1)), WaitOn(0, READ)), Wait)
  {
    hide Wrap32, Wrap64;
    var a, b := DescVal(1, Nil, 0, 0, false), DescVal(1, Nil, 0, 0, true);
    assert Step(NEW, Open(1)) == Poll([a], map[1 := 0], 0, 0, false, false);
    assert Step(Step(NEW, Open(1)), Close(1)) == Poll([b], map[], 0, 0, false, false);
    var s := Poll([b, a], map[1 := 1], 0, 0, false, false);
    assert Step(Step(Step(NEW, Open(1)), Close(1)), Open(1)) == s;
    var r := Step(s, WaitOn(0, READ));
    assert r.heap[0].state == Wait && !IsRegistered(r, 0);
  }

  lemma ShutSteps()
    ensures WellFormed(NEW) && WellFormed(Step(NEW, Open(1))) && WellFormed(Step(Step(NEW, Open(1)), WaitOn(0, READ)))
    ensures Lost(Step(Step(Step(NEW, Open(1)), WaitOn(0, READ)), Shutdown), Wait)
  {
    hide Wrap32, Wrap64;
    var s := Poll([DescVal(1, Nil, 0, 0, false)], map[1 := 0], 0, 0, false, false);
    assert Step(NEW, Open(1)) == s;
    var r := Step(Step(s, WaitOn(0, READ)), Shutdown);
    assert r.heap[0].state == Wait && !IsRegistered(r, 0);
  }

  lemma RunsNone()
    ensures Run([]) == (NEW, Tally(0, 0, 0, 0))
  {
  }

  lemma RunsOn(ops: seq<Op>, op: Op)
    ensures Run(ops + [op]).0 == Step(Run(ops).0, op)
  {
    TallyOn(ops, op);
  }

  // ---- the poller object ----

  class Desc {
    const fd: int32
    var state: DescState
    var rg: Mode
    var wg: Mode
    var closing: bool
    ghost const id: nat

    constructor (fd: int32, ghost id: nat)
      ensures Val() == DescVal(fd, Nil, 0, 0, false) && this.fd == fd && this.id == id
    {
      this.fd, state, rg, wg, closing := fd, Nil, 0, 0, false;
      this.id := id;
    }

    ghost function Val(): DescVal
      reads this
    {
      DescVal(fd, state, rg, wg, closing)
    }
  }

  datatype WakeUp = WakeUp(fd: int32, mode: Mode)

  /** The registered descriptors a list of wake-ups names. */
  ghost function IdsOf(out: seq<WakeUp>, descs: map<int32, nat>): set<nat> {
    if out == [] then {}
    else
      var fd := out[|out| - 1].fd;
      IdsOf(out[..|out| - 1], descs) + if fd in descs then {descs[fd]} else {}
  }

  /** One entry per descriptor of `ids`, with the direction its waiter asked for. */
  ghost predicate Reports(out: seq<WakeUp>, s: Poll, ids: set<nat>)
    requires WellFormed(s)
  {
    && |out| == |ids| && IdsOf(out, s.descs) == ids
    && forall k :: 0 <= k < |out| ==> out[k].fd in s.descs && out[k].mode == Asked(s.heap[s.descs[out[k].fd]])
  }

  function Asked(d: DescVal): Mode { if d.rg != 0 then d.rg else d.wg }

  lemma ReportsMore(out: seq<WakeUp>, s: Poll, ids: set<nat>, w: WakeUp)
    requires WellFormed(s) && Reports(out, s, ids)
    requires w.fd in s.descs && s.descs[w.fd] !in ids && w.mode == Asked(s.heap[s.descs[w.fd]])
    ensures Reports(out + [w], s, ids + {s.descs[w.fd]})
  {
    assert (out + [w])[..|out|] == out;
  }

  ghost function IdMap(descs: map<int32, Desc>): (t: map<int32, nat>)
    ensures t.Keys == descs.Keys && forall fd :: fd in descs ==> t[fd] == descs[fd].id
  {
    map fd | fd in descs :: descs[fd].id
  }

  lemma IdMapChanges(descs: map<int32, Desc>, fd: int32, d: Desc)
    ensures IdMap(descs[fd := d]) == IdMap(descs)[fd := d.id]
    ensures IdMap(descs - {fd}) == IdMap(descs) - {fd}
  {
  }

  lemma NothingYet(s: Poll)
    requires WellFormed(s)
    ensures Collected(s.heap, {}) == s.heap && Reports([], s, {})
  {
  }

  /** The ready descriptors whose fd is no longer to be visited. */
  ghost function Visited(s: Poll, todo: set<int32>): set<nat> {
    set i | i in ReadyIds(s) && s.heap[i].fd !in todo
  }

  lemma VisitedEnds(s: Poll)
    ensures Visited(s, s.descs.Keys) == {} && Visited(s, {}) == ReadyIds(s)
  {
  }

  lemma VisitsNext(s: Poll, todo: set<int32>, fd: int32, now: seq<DescVal>)
    requires WellFormed(s) && fd in s.descs && fd in todo && now == Collected(s.heap, Visited(s, todo))
    ensures s.descs[fd] !in Visited(s, todo) && now[s.descs[fd]] == s.heap[s.descs[fd]]
    ensures Visited(s, todo - {fd})
         == Visited(s, todo) + if s.heap[s.descs[fd]].state == Ready then {s.descs[fd]} else {}
  {
    assert IsRegistered(s, s.descs[fd]);
  }

  lemma AskedIs(d: DescVal)
    ensures Asked(d) == if d.rg != 0 then d.rg else d.wg
  {
  }

  lemma ReportsCount(out: seq<WakeUp>, s: Poll, ids: set<nat>)
    requires WellFormed(s) && Reports(out, s, ids)
    ensures |out| == |ids|
  {
  }

  lemma ClosesOne(s: Poll, fd: int32, id: nat)
    requires WellFormed(s) && fd in s.descs && s.descs[fd] == id
    ensures Wakes(s, fd) == (s.heap[id].state == Wait)
    ensures CloseStep(s, fd)
         == Poll(s.heap[id := s.heap[id].(state := Nil, closing := true)], s.descs - {fd}, s.waiters,
                 if s.heap[id].state == Wait then Wrap64(s.wakes + 1) else s.wakes, s.broken, s.closed)
  {
    hide Wrap64;
  }

  lemma ClosesNone(s: Poll, fd: int32)
    requires WellFormed(s) && fd !in s.descs
    ensures CloseStep(s, fd) == s && !Wakes(s, fd)
  {
  }

  class Poller {
    var descs: map<int32, Desc>
    var waiters: int
    var wakes: int
    var broken: bool
    var closed: bool
    ghost var all: seq<Desc>

    ghost predicate Valid()
      reads this, all
    {
      && (forall i :: 0 <= i < |all| ==> all[i].id == i)
      && (forall fd :: fd in descs ==>
            fd > 0 && descs[fd].id < |all| && all[descs[fd].id] == descs[fd] && descs[fd].fd == fd)
    }

    ghost function Heap(): (h: seq<DescVal>)
      reads this, all
      ensures |h| == |all|
    {
      seq(|all|, i requires 0 <= i < |all| reads this, all => all[i].Val())
    }

    ghost function Now(): (s: Poll)
      requires Valid()
      reads this, all
      ensures WellFormed(s)
    {
      Poll(Heap(), IdMap(descs), waiters, wakes, broken, closed)
    }

    lemma HeapAt(d: Desc)
      requires Valid() && d.id < |all| && all[d.id] == d
      ensures Heap()[d.id] == d.Val()
    {
    }

    lemma DescThere(fd: int32)
      requires Valid() && fd in descs
      ensures fd > 0 && descs[fd].fd == fd && descs[fd].id < |all| && all[descs[fd].id] == descs[fd]
      ensures descs[fd] in all
    {
    }

    /** Registrations that go away leave the poller valid. */
    twostate lemma StaysValid()
      requires old(Valid()) && all == old(all)
      requires forall fd :: fd in descs ==> fd in old(descs) && descs[fd] == old(descs[fd])
      ensures Valid()
    {
    }

    /** A change to one descriptor is a change to one entry of the heap. */
    twostate lemma OneMoved(d: Desc)
      requires old(Valid()) && Valid() && all == old(all) && d.id < |all| && all[d.id] == d
      requires forall e :: e in all && e != d ==> e.Val() == old(e.Val())
      ensures Heap() == old(Heap())[d.id := d.Val()]
    {
    }

    twostate lemma OneMade(new d: Desc)
      requires all == old(all) + [d] && forall i :: 0 <= i < |old(all)| ==> all[i].Val() == old(all[i].Val())
      ensures Heap() == old(Heap()) + [d.Val()]
    {
    }

    twostate lemma NoneMoved()
      requires all == old(all) && forall i :: 0 <= i < |all| ==> all[i].Val() == old(all[i].Val())
      ensures Heap() == old(Heap())
    {
    }

    constructor ()
      ensures Valid() && Now() == NEW
    {
      descs := map[];
      waiters, wakes, broken, closed := 0, 0, false, false;
      all := [];
    }

    method OpenFd(fd: int32) returns (d: Desc?, error: Error)
      requires Valid()
      modifies this
      ensures Valid() && Now() == OpenStep(old(Now()), fd)
      ensures forall i :: 0 <= i < |old(all)| ==> i < |all| && all[i] == old(all)[i]
      ensures match OpenResult(old(Now()), fd)
              case OpenOk(id) => id < |all| && d == all[id]
              case OpenErr(e) => d == null && error == e
    {
      hide Heap, IdMap;
      error := NotRegistered;
      if fd <= 0 { return null, InvalidFd; }
      if closed { return null, NotRegistered; }
      if fd in descs { return descs[fd], error; }
      var made := new Desc(fd, |all|);
      IdMapChanges(descs, fd, made);
      descs := descs[fd := made];
      all := all + [made];
      d := made;
      OneMade(made);
    }

    method CloseFd(fd: int32) returns (woke: bool, ok: bool)
      requires Valid()
      modifies this, all
      ensures Valid() && all == old(all) && Now() == CloseStep(old(Now()), fd)
      ensures ok == (fd in old(descs)) && woke == Wakes(old(Now()), fd)
    {
      hide Heap, Wrap64, IdMap, Valid, CloseStep, Wakes, WellFormed;
      if fd !in descs {
        ClosesNone(Now(), fd);
        return false, false;
      }
      DescThere(fd);
      var d := descs[fd];
      HeapAt(d);
      ghost var was := Now();
      ClosesOne(was, fd, d.id);
      woke := false;
      if d.state == Wait {
        d.closing := true;
        d.state := Ready;
        wakes := Wrap64(wakes + 1);
        woke := true;
      }
      d.state := Nil;
      d.closing := true;
      IdMapChanges(descs, fd, d);
      descs := descs - {fd};
      ok := true;
      StaysValid();
      OneMoved(d);
    }

    method WaitFor(d: Desc?, m: Mode) returns (r: Waited)
      requires Valid() && (d != null ==> d.id < |all| && all[d.id] == d)
      modifies this, all
      ensures Valid() && all == old(all)
      ensures d == null ==> r == WaitErr(NotRegistered) && Now() == old(Now())
      ensures d != null ==> r == WaitResult(old(Now()), d.id) && Now() == WaitStep(old(Now()), d.id, m)
    {
      hide Heap, Wrap32, Valid, IdMap, WellFormed;
      if d == null { return WaitErr(NotRegistered); }
      HeapAt(d);
      if closed { return WaitErr(NotRegistered); }
      if d.fd !in descs { return WaitErr(NotRegistered); }
      match d.state {
        case Ready =>
          d.state := Nil;
          r := Proceed;
          StaysValid();
          OneMoved(d);
        case Wait =>
          r := WaitErr(DoubleWait);
        case Nil =>
          d.state := Wait;
          if m == READ { d.rg := m; } else { d.wg := m; }
          waiters := Wrap32(waiters + 1);
          r := Park;
          StaysValid();
          OneMoved(d);
      }
    }

    method DeliverReady(fd: int32, m: Mode) returns (w: WakeUp, woke: bool)
      requires Valid()
      modifies this, all
      ensures Valid() && all == old(all) && Now() == ReadyStep(old(Now()), fd)
      ensures woke == Wakes(old(Now()), fd) && (woke ==> w == WakeUp(fd, m))
    {
      hide Heap, Wrap64;
      w := WakeUp(0, 0);
      if fd !in descs { return w, false; }
      var d := descs[fd];
      HeapAt(d);
      if d.state != Wait { return w, false; }
      d.state := Ready;
      wakes := Wrap64(wakes + 1);
      w, woke := WakeUp(fd, m), true;
      OneMoved(d);
    }

    method ResetDesc(d: Desc, ghost heap: seq<DescVal>, ghost done: set<nat>)
      requires Valid() && Heap() == Collected(heap, done)
      requires d.id < |all| && all[d.id] == d && d.id !in done
      modifies d
      ensures Heap() == Collected(heap, done + {d.id})
    {
      hide Heap;
      HeapAt(d);
      d.state := Nil;
      d.rg, d.wg := 0, 0;
      OneMoved(d);
      assert Heap() == Collected(heap, done + {d.id});
    }

    /** The loop of Drain: every registered ready descriptor is reported once, in some order, and reset. */
    method CollectReady() returns (out: seq<WakeUp>)
      requires Valid()
      modifies all
      ensures Valid() && Heap() == Collected(old(Heap()), ReadyIds(old(Now())))
      ensures Reports(out, old(Now()), ReadyIds(old(Now())))
    {
      hide Heap, Collected, Reports, Asked, WellFormed, ReadyIds, Visited, IdMap;
      out := [];
      ghost var was := Now();
      ghost var done: set<nat> := {};
      NothingYet(was);
      VisitedEnds(was);
      var todo := descs.Keys;
      while todo != {}
        invariant Valid() && todo <= descs.Keys
        invariant done == Visited(was, todo)
        invariant Heap() == Collected(was.heap, done)
        invariant Reports(out, was, done)
        decreases todo
      {
        var fd :| fd in todo;
        var d := descs[fd];
        HeapAt(d);
        VisitsNext(was, todo, fd, Heap());
        if d.state == Ready {
          var m := d.rg;
          if m == 0 { m := d.wg; }
          AskedIs(d.Val());
          ReportsMore(out, was, done, WakeUp(fd, m));
          out := out + [WakeUp(d.fd, m)];
          ResetDesc(d, was.heap, done);
          done := done + {d.id};
        }
        todo := todo - {fd};
      }
    }

    method DrainAll() returns (out: seq<WakeUp>, delta: int)
      requires Valid()
      modifies this, all
      ensures Valid() && all == old(all) && Now() == DrainStep(old(Now()))
      ensures Reports(out, old(Now()), ReadyIds(old(Now()))) && delta == -|out|
    {
      hide Heap, Collected, Reports, Wrap32, ReadyIds, IdMap;
      ghost var was := Now();
      out := CollectReady();
      ReportsCount(out, was, ReadyIds(was));
      if |out| == 0 {
        delta := 0;
        assert ReadyIds(was) == {};
        NothingYet(was);
        return;
      }
      label Collecting:
      waiters := Wrap32(waiters - |out|);
      if waiters < 0 { waiters := 0; }
      delta := -|out|;
      NoneMoved@Collecting();
    }

    method BreakPoll() returns (first: bool)
      requires Valid()
      modifies this
      ensures Valid() && all == old(all) && Now() == old(Now()).(broken := true) && first == !old(broken)
    {
      first := !broken;
      broken := true;
    }

    method ClearBreakFlag()
      requires Valid()
      modifies this
      ensures Valid() && all == old(all) && Now() == old(Now()).(broken := false)
    {
      broken := false;
    }

    method ShutDown()
      requires Valid()
      modifies this
      ensures Valid() && all == old(all) && Now() == old(Now()).(closed := true, descs := map[])
    {
      closed := true;
      descs := map[];
    }
  }
}
