/** The counting event protocol: any number of CPUs send and wait on one event, one atomic memory
    access or instruction at a time, under sequentially consistent memory. */
module Events {
  import opened Wrappers

  const COUNTS: nat := 0x1_0000_0000

  /** Where a CPU is in sending (raise the count by `inc`) or waiting. */
  datatype Pc =
    | Idle
    | SendLock(inc: nat)
    | SendLoad(inc: nat)
    | SendStore(inc: nat, seen: nat)
    | SendUnlock
    | SendSev
    | WaitCheck
    | WaitSleep
    | WaitLock
    | WaitTest
    | WaitLoad
    | WaitStore(seen: nat)
    | WaitUnlock(got: bool)

  /** Shared state, and the totals so far: raised, taken, and calls to wait. */
  datatype State = State(pcs: seq<Pc>, regs: seq<bool>, lock: Option<nat>, cnt: nat, sent: nat, received: nat, waits: nat)

  /** A CPU takes its next step, starts a call, or has its event register set by something else. */
  datatype Action = Run(cpu: nat) | BeginSend(cpu: nat, inc: nat) | BeginWait(cpu: nat) | Stray(cpu: nat)

  function Init(n: nat, regs: seq<bool>): State
    requires |regs| == n
  {
    State(seq(n, _ => Idle), regs, None, 0, 0, 0, 0)
  }

  predicate Sized(s: State) {
    |s.pcs| == |s.regs|
  }

  function Goto(s: State, c: nat, pc: Pc): State
    requires c < |s.pcs|
  {
    s.(pcs := s.pcs[c := pc])
  }

  /** Taking the lock may use up the CPU's event register, for the lock itself waits for events. */
  function Acquire(s: State, c: nat, pc: Pc): Option<State>
    requires Sized(s) && c < |s.pcs|
  {
    if s.lock.Some? then None else Some(Goto(s.(lock := Some(c), regs := s.regs[c := false]), c, pc))
  }

  /** The next step of CPU `c`; none when it waits for the lock, sleeps, or has nothing to do. */
  function StepOf(s: State, c: nat): Option<State>
    requires Sized(s) && c < |s.pcs|
  {
    match s.pcs[c]
    case Idle => None
    case SendLock(inc) => Acquire(s, c, SendLoad(inc))
    case SendLoad(inc) => Some(Goto(s, c, SendStore(inc, s.cnt)))
    case SendStore(inc, seen) => Some(Goto(s.(cnt := (seen + inc) % COUNTS, sent := s.sent + inc), c, SendUnlock))
    case SendUnlock => Some(Goto(s.(lock := None), c, SendSev))
    case SendSev => Some(Goto(s.(regs := seq(|s.regs|, _ => true)), c, Idle))
    case WaitCheck => Some(Goto(s, c, if s.cnt == 0 then WaitSleep else WaitLock))
    case WaitSleep => if s.regs[c] then Some(Goto(s.(regs := s.regs[c := false]), c, WaitCheck)) else None
    case WaitLock => Acquire(s, c, WaitTest)
    case WaitTest => Some(Goto(s, c, if s.cnt != 0 then WaitLoad else WaitUnlock(false)))
    case WaitLoad => Some(Goto(s, c, WaitStore(s.cnt)))
    case WaitStore(seen) => Some(Goto(s.(cnt := (seen + COUNTS - 1) % COUNTS, received := s.received + 1), c, WaitUnlock(true)))
    case WaitUnlock(got) => Some(Goto(s.(lock := None), c, if got then Idle else WaitCheck))
  }

  function Apply(s: State, a: Action): Option<State>
    requires Sized(s)
  {
    if a.cpu >= |s.pcs| then None else
    match a
    case Run(c) => StepOf(s, c)
    case BeginSend(c, inc) => if s.pcs[c].Idle? then Some(Goto(s, c, SendLock(inc))) else None
    case BeginWait(c) => if s.pcs[c].Idle? then Some(Goto(s.(waits := s.waits + 1), c, WaitCheck)) else None
    case Stray(c) => Some(s.(regs := s.regs[c := true]))
  }

  predicate Holding(pc: Pc) {
    pc.SendLoad? || pc.SendStore? || pc.SendUnlock? || pc.WaitTest? || pc.WaitLoad? || pc.WaitStore? || pc.WaitUnlock?
  }

  /** A sender that has raised the count and not yet signalled. */
  predicate Signalling(pc: Pc) {
    pc.SendUnlock? || pc.SendSev?
  }

  /** What one CPU's place says about the shared state. */
  predicate CpuOK(s: State, c: nat)
    requires Sized(s) && c < |s.pcs|
  {
    && (Holding(s.pcs[c]) <==> s.lock == Some(c))
    && (s.pcs[c].SendStore? ==> s.pcs[c].seen == s.cnt)
    && (s.pcs[c].WaitLoad? ==> s.cnt > 0)
    && (s.pcs[c].WaitStore? ==> s.pcs[c].seen == s.cnt > 0)
  }

  predicate LostWakeup(s: State, c: nat)
    requires Sized(s) && c < |s.pcs|
  {
    s.pcs[c].WaitSleep? && !s.regs[c] && s.cnt > 0
  }

  ghost predicate SignalDue(s: State) {
    exists d :: 0 <= d < |s.pcs| && Signalling(s.pcs[d])
  }

  /** A call to wait that has not taken its event yet. */
  predicate Unserved(pc: Pc) {
    pc.WaitCheck? || pc.WaitSleep? || pc.WaitLock? || pc.WaitTest? || pc.WaitLoad? || pc.WaitStore? || pc == WaitUnlock(false)
  }

  function CountUnserved(pcs: seq<Pc>): nat {
    if pcs == [] then 0 else (if Unserved(pcs[0]) then 1 else 0) + CountUnserved(pcs[1..])
  }

  lemma {:induction false} CountGoto(pcs: seq<Pc>, c: nat, pc: Pc)
    requires c < |pcs|
    ensures CountUnserved(pcs[c := pc]) ==
            CountUnserved(pcs) - (if Unserved(pcs[c]) then 1 else 0) + (if Unserved(pc) then 1 else 0)
  {
    if c > 0 {
      CountGoto(pcs[1..], c - 1, pc);
      assert pcs[c := pc][1..] == pcs[1..][c - 1 := pc];
    } else {
      assert pcs[0 := pc][1..] == pcs[1..];
    }
  }

  lemma {:induction false} CountNone(pcs: seq<Pc>)
    ensures CountUnserved(pcs) == 0 <==> forall c | 0 <= c < |pcs| :: !Unserved(pcs[c])
  {
    if pcs != [] {
      CountNone(pcs[1..]);
      assert forall c | 0 < c < |pcs| :: pcs[c] == pcs[1..][c - 1];
    }
  }

  ghost predicate CpusOK(s: State)
    requires Sized(s)
  {
    && (s.lock.Some? ==> s.lock.value < |s.pcs|)
    && forall c: nat {:trigger CpuOK(s, c)} | c < |s.pcs| :: CpuOK(s, c)
  }

  /** No CPU sleeps past an event unless a signal is still to come. */
  ghost predicate Awake(s: State)
    requires Sized(s)
  {
    forall c: nat {:trigger LostWakeup(s, c)} | c < |s.pcs| && LostWakeup(s, c) :: SignalDue(s)
  }

  /** The count is what was sent less what was received, and each call to wait takes one. */
  predicate Counts(s: State) {
    && s.received <= s.sent && s.cnt == (s.sent - s.received) % COUNTS
    && s.waits == s.received + CountUnserved(s.pcs)
  }

  ghost predicate Inv(s: State) {
    Sized(s) && CpusOK(s) && Awake(s) && Counts(s)
  }

  lemma {:induction false} InitInv(n: nat, regs: seq<bool>)
    requires |regs| == n
    ensures Inv(Init(n, regs))
  {
    CountNone(Init(n, regs).pcs);
  }

  lemma CpusStep(s: State, a: Action)
    requires Sized(s) && CpusOK(s) && Apply(s, a).Some?
    ensures Sized(Apply(s, a).value) && CpusOK(Apply(s, a).value)
  {
    var t := Apply(s, a).value;
    assert CpuOK(s, a.cpu);
    forall c: nat | c < |t.pcs| ensures CpuOK(t, c) { assert CpuOK(s, c); }
  }

  lemma AwakeStep(s: State, a: Action)
    requires Sized(s) && CpusOK(s) && Awake(s) && Apply(s, a).Some?
    ensures Sized(Apply(s, a).value) && Awake(Apply(s, a).value)
  {
    hide CpuOK;
    var t, e := Apply(s, a).value, a.cpu;
    forall c: nat | c < |t.pcs| && LostWakeup(t, c) ensures SignalDue(t) {
      if Signalling(t.pcs[e]) {
      } else {
        assert LostWakeup(s, c) by { assert CpuOK(s, e) && CpuOK(s, c); NotRaised(s, a, c); }
        var d :| 0 <= d < |s.pcs| && Signalling(s.pcs[d]);
        assert t.pcs[d] == s.pcs[d];
      }
    }
  }

  /** Only a sender's own step can leave a sleeper behind. */
  lemma NotRaised(s: State, a: Action, c: nat)
    requires Sized(s) && Apply(s, a).Some? && c < |s.pcs| && CpuOK(s, a.cpu)
    requires LostWakeup(Apply(s, a).value, c) && !Signalling(Apply(s, a).value.pcs[a.cpu])
    ensures LostWakeup(s, c) && !Signalling(s.pcs[a.cpu])
  {
  }

  lemma CountsStep(s: State, a: Action)
    requires Sized(s) && CpusOK(s) && Counts(s) && Apply(s, a).Some?
    ensures Counts(Apply(s, a).value)
  {
    hide CountUnserved;
    var t, e := Apply(s, a).value, a.cpu;
    assert CpuOK(s, e);
    CountGoto(s.pcs, e, t.pcs[e]);
    assert t.pcs == s.pcs[e := t.pcs[e]];
    RaisedStep(s, a);
  }

  lemma RaisedStep(s: State, a: Action)
    requires Sized(s) && Counts(s) && Apply(s, a).Some? && CpuOK(s, a.cpu)
    ensures var t := Apply(s, a).value; t.received <= t.sent && t.cnt == (t.sent - t.received) % COUNTS
  {
    hide CountUnserved;
    if a.Run? && s.pcs[a.cpu].SendStore? { ModPlus(s.sent - s.received, s.pcs[a.cpu].inc); }
    if a.Run? && s.pcs[a.cpu].WaitStore? { ModPlus(s.sent - s.received, COUNTS - 1); ModShift(s.sent - s.received - 1); }
  }

  lemma ModPlus(x: int, y: int)
    ensures (x % COUNTS + y) % COUNTS == (x + y) % COUNTS
  {
  }

  lemma ModShift(x: int)
    ensures (x + COUNTS) % COUNTS == x % COUNTS
  {
  }

  /** Every step of every CPU keeps the count right and no wake-up lost. */
  lemma StepInv(s: State, a: Action)
    requires Inv(s) && Apply(s, a).Some?
    ensures Inv(Apply(s, a).value)
  {
    hide Apply, CpusOK, Awake, Counts;
    CpusStep(s, a);
    AwakeStep(s, a);
    CountsStep(s, a);
  }

  // ----- Whole runs

  /** The state after a run; none when some action was not possible. */
  function Exec(s: State, run: seq<Action>): Option<State>
    requires Sized(s)
    decreases |run|
  {
    if run == [] then Some(s) else
    var t := Apply(s, run[0]);
    if t.Some? && Sized(t.value) then Exec(t.value, run[1..]) else None
  }

  lemma {:induction false} ExecInv(s: State, run: seq<Action>)
    requires Inv(s) && Exec(s, run).Some?
    ensures Inv(Exec(s, run).value)
    decreases |run|
  {
    hide Apply, CpusOK, Awake, Counts;
    if run != [] {
      StepInv(s, run[0]);
      ExecInv(Apply(s, run[0]).value, run[1..]);
    }
  }

  /** What a CPU is still to raise the count by. */
  function Unsent(pc: Pc): nat {
    if pc.SendLock? || pc.SendLoad? || pc.SendStore? then pc.inc else 0
  }

  function SumUnsent(pcs: seq<Pc>): nat {
    if pcs == [] then 0 else Unsent(pcs[0]) + SumUnsent(pcs[1..])
  }

  lemma {:induction false} UnsentGoto(pcs: seq<Pc>, c: nat, pc: Pc)
    requires c < |pcs|
    ensures SumUnsent(pcs[c := pc]) == SumUnsent(pcs) - Unsent(pcs[c]) + Unsent(pc)
  {
    if c > 0 {
      UnsentGoto(pcs[1..], c - 1, pc);
      assert pcs[c := pc][1..] == pcs[1..][c - 1 := pc];
    } else {
      assert pcs[0 := pc][1..] == pcs[1..];
    }
  }

  lemma {:induction false} UnsentNone(pcs: seq<Pc>)
    requires forall c | 0 <= c < |pcs| :: Unsent(pcs[c]) == 0
    ensures SumUnsent(pcs) == 0
  {
    if pcs != [] { UnsentNone(pcs[1..]); }
  }

  /** The events asked for by the calls to send in a run, and the calls to wait. */
  function Requested(run: seq<Action>): nat {
    if run == [] then 0 else (if run[0].BeginSend? then run[0].inc else 0) + Requested(run[1..])
  }

  function Waiting(run: seq<Action>): nat {
    if run == [] then 0 else (if run[0].BeginWait? then 1 else 0) + Waiting(run[1..])
  }

  lemma StepTotals(s: State, a: Action)
    requires Sized(s) && Apply(s, a).Some?
    ensures var t := Apply(s, a).value;
            && t.sent + SumUnsent(t.pcs) == s.sent + SumUnsent(s.pcs) + (if a.BeginSend? then a.inc else 0)
            && t.waits == s.waits + (if a.BeginWait? then 1 else 0)
  {
    var t := Apply(s, a).value;
    if a.Stray? {
      assert t.pcs == s.pcs;
    } else {
      UnsentGoto(s.pcs, a.cpu, t.pcs[a.cpu]);
      assert t.pcs == s.pcs[a.cpu := t.pcs[a.cpu]];
    }
  }

  lemma {:induction false} RunTotals(s: State, run: seq<Action>)
    requires Sized(s) && Exec(s, run).Some?
    ensures var t := Exec(s, run).value;
            t.sent + SumUnsent(t.pcs) == s.sent + SumUnsent(s.pcs) + Requested(run) && t.waits == s.waits + Waiting(run)
    decreases |run|
  {
    hide Apply, SumUnsent;
    if run != [] {
      StepTotals(s, run[0]);
      RunTotals(Apply(s, run[0]).value, run[1..]);
    }
  }

  /** Of every run: what was sent is what was asked for, less what the sends still on their way will raise, and every
      call to wait is accounted for. */
  lemma NothingInvented(n: nat, regs: seq<bool>, run: seq<Action>)
    requires |regs| == n && Exec(Init(n, regs), run).Some?
    ensures var s := Exec(Init(n, regs), run).value;
            && s.sent + SumUnsent(s.pcs) == Requested(run) && s.waits == Waiting(run)
            && (Sized(s) && Quiet(s) ==> s.sent == Requested(run))
  {
    RunTotals(Init(n, regs), run);
    UnsentNone(Init(n, regs).pcs);
    var s := Exec(Init(n, regs), run).value;
    if Sized(s) && Quiet(s) {
      QuietMeansServed(n, regs, run);
      UnsentNone(s.pcs);
    }
  }

  /** On every run, of any number of CPUs: no more is received than sent, the count is the difference exactly while
      fewer than 2^32 are outstanding, and no CPU sleeps past an event unless a signal is still to come. */
  lemma EveryRun(n: nat, regs: seq<bool>, run: seq<Action>)
    requires |regs| == n && Exec(Init(n, regs), run).Some?
    ensures var s := Exec(Init(n, regs), run).value;
            && Sized(s) && s.received <= s.waits && s.received <= s.sent
            && (s.cnt == s.sent - s.received <==> s.sent - s.received < COUNTS)
            && forall c: nat {:trigger LostWakeup(s, c)} | c < |s.pcs| && LostWakeup(s, c) :: SignalDue(s)
  {
    InitInv(n, regs);
    ExecInv(Init(n, regs), run);
  }

  /** No CPU can move without a new call. */
  ghost predicate Quiet(s: State)
    requires Sized(s)
  {
    forall c: nat {:trigger s.pcs[c]} | c < |s.pcs| :: StepOf(s, c).None?
  }

  /** The protocol never deadlocks: when no CPU can move, the lock is free, every send is over, and if any
      call to wait has not returned then, below 2^32 outstanding, every event sent has been received. */
  lemma QuietMeansServed(n: nat, regs: seq<bool>, run: seq<Action>)
    requires |regs| == n && Exec(Init(n, regs), run).Some?
    requires var s := Exec(Init(n, regs), run).value; Sized(s) && Quiet(s)
    ensures var s := Exec(Init(n, regs), run).value;
            && s.lock == None
            && (forall c | 0 <= c < |s.pcs| :: s.pcs[c].Idle? || s.pcs[c].WaitSleep?)
            && (s.waits > s.received && s.sent - s.received < COUNTS ==> s.sent == s.received)
  {
    var s := Exec(Init(n, regs), run).value;
    InitInv(n, regs);
    ExecInv(Init(n, regs), run);
    forall c: nat | c < |s.pcs| ensures !Holding(s.pcs[c]) { assert StepOf(s, c).None? && CpuOK(s, c); }
    assert s.lock.Some? ==> CpuOK(s, s.lock.value);
    forall c: nat | c < |s.pcs| ensures s.pcs[c].Idle? || (s.pcs[c].WaitSleep? && !s.regs[c]) { assert StepOf(s, c).None? && CpuOK(s, c); }
    CountNone(s.pcs);
    if s.waits > s.received {
      var c :| 0 <= c < |s.pcs| && Unserved(s.pcs[c]);
      assert LostWakeup(s, c) <==> s.cnt > 0;
    }
  }
}
