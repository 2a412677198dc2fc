/** The reference count of a process handle under any number of concurrent calls of
    Wait, Signal and Release, each taken apart into its atomic steps. */
module ProcHandle {

  type Thread = nat

  datatype Status = StatusOK | StatusDone | StatusReleased

  datatype Op = Wait | Signal | Release | Cleanup

  /** Where a thread is. The names follow the steps of handleTransientAcquire, acquire,
      the use of the handle, doRelease and release; owner marks the release of the
      reference that the process was created with. */
  datatype Pc =
    | Idle
    | CheckStatus(op: Op)
    | LoadRefs(op: Op)
    | SwapUp(op: Op, r: int)
    | Recheck(op: Op)
    | Using(op: Op)
    | LoadStatus(op: Op)
    | SwapStatus(op: Op)
    | StopCleanup(op: Op)
    | LoadDown(op: Op, owner: bool)
    | SwapDown(op: Op, owner: bool, r: int)
    | Close(op: Op, owner: bool)
    | Panicked

  /** Who must still release the reference the process was created with. */
  datatype Owner = WithProcess | WithThread(t: Thread) | Gone

  datatype Closer = NoOne | Someone(t: Thread)

  /** refs, status, stopped and the program counters are the machine; closes counts
      the calls of closeHandle; collected says that the process is unreachable. The
      last two fields record who owes a release and who is about to close. */
  datatype State = State(refs: int, status: Status, stopped: bool, collected: bool, closes: nat, pcs: map<Thread, Pc>,
                         owner: Owner, closer: Closer)

  /** Start begins a call, Run takes a thread one step further, Done ends the use of the
      handle with or without success, Collect is the garbage collector's cleanup. */
  datatype Step = Start(t: Thread, op: Op) | Run(t: Thread) | Done(t: Thread, ok: bool) | Collect(t: Thread)

  predicate Quiet(pcs: map<Thread, Pc>) { forall t :: t in pcs ==> pcs[t].Idle? }

  /** The thread only needs the handle, no longer the process: it may still be releasing
      a reference when the process is collected. */
  predicate Detached(pc: Pc) { pc.Idle? || pc.LoadDown? || pc.SwapDown? || pc.Close? }

  predicate Enabled(s: State, step: Step) {
    match step
    case Start(t, op) => !s.collected && op != Cleanup && (t in s.pcs ==> s.pcs[t].Idle?)
    case Run(t) => t in s.pcs && !s.pcs[t].Idle? && !s.pcs[t].Using? && !s.pcs[t].Panicked?
    case Done(t, ok) => t in s.pcs && s.pcs[t].Using?
    case Collect(t) =>
      && !s.collected && !s.stopped && (t in s.pcs ==> s.pcs[t].Idle?)
      && forall u :: u in s.pcs ==> Detached(s.pcs[u])
  }

  /** What follows the release of a reference: a successful Wait has its transient one
      left to release. */
  function Behind(op: Op, owner: bool): Pc { if owner && op == Wait then LoadDown(op, false) else Idle }

  function After(s: State, step: Step): State
    requires Enabled(s, step)
  {
    match step
    case Start(t, op) => s.(pcs := s.pcs[t := if op == Release then LoadStatus(op) else CheckStatus(op)])
    case Done(t, ok) =>
      var op := s.pcs[t].op;
      s.(pcs := s.pcs[t := if op == Wait && ok then LoadStatus(op) else LoadDown(op, false)])
    case Collect(t) => s.(collected := true, pcs := s.pcs[t := LoadDown(Cleanup, true)], owner := WithThread(t))
    case Run(t) => RunOne(s, t)
  }

  function RunOne(s: State, t: Thread): State
    requires Enabled(s, Run(t))
  {
    match s.pcs[t]
    case CheckStatus(op) => s.(pcs := s.pcs[t := if s.status != StatusOK then Idle else LoadRefs(op)])
    case LoadRefs(op) =>
      s.(pcs := s.pcs[t := if s.refs < 0 then Panicked else if s.refs == 0 then Recheck(op) else SwapUp(op, s.refs)])
    case SwapUp(op, r) =>
      if s.refs == r then s.(refs := r + 1, pcs := s.pcs[t := Using(op)]) else s.(pcs := s.pcs[t := LoadRefs(op)])
    case Recheck(op) => s.(pcs := s.pcs[t := if s.status == StatusOK then Panicked else Idle])
    case LoadStatus(op) =>
      s.(pcs := s.pcs[t := if s.status != StatusOK then (if op == Wait then LoadDown(op, false) else Idle) else SwapStatus(op)])
    case SwapStatus(op) =>
      if s.status == StatusOK
      then s.(status := if op == Wait then StatusDone else StatusReleased, pcs := s.pcs[t := StopCleanup(op)], owner := WithThread(t))
      else s.(pcs := s.pcs[t := LoadStatus(op)])
    case StopCleanup(op) => s.(stopped := true, pcs := s.pcs[t := LoadDown(op, true)])
    case LoadDown(op, owner) => s.(pcs := s.pcs[t := if s.refs <= 0 then Panicked else SwapDown(op, owner, s.refs)])
    case SwapDown(op, owner, r) =>
      if s.refs == r then
        s.(refs := r - 1, owner := if owner then Gone else s.owner,
           closer := if r == 1 then Someone(t) else s.closer,
           pcs := s.pcs[t := if r == 1 then Close(op, owner) else Behind(op, owner)])
      else s.(pcs := s.pcs[t := LoadDown(op, owner)])
    case Close(op, owner) => s.(closes := s.closes + 1, closer := NoOne, pcs := s.pcs[t := Behind(op, owner)])
    case Idle => s
    case Using(_) => s
    case Panicked => s
  }

  // ----------------------------------------------------------------- the invariant

  /** The thread has a transient reference. */
  predicate Holds(pc: Pc) {
    match pc
    case Using(_) => true
    case LoadStatus(op) => op == Wait
    case SwapStatus(op) => op == Wait
    case StopCleanup(op) => op == Wait
    case LoadDown(op, owner) => owner ==> op == Wait
    case SwapDown(op, owner, _) => owner ==> op == Wait
    case Close(op, owner) => owner && op == Wait
    case _ => false
  }

  /** The thread has taken over the reference of the process. */
  predicate Owes(pc: Pc) {
    match pc
    case StopCleanup(_) => true
    case LoadDown(_, owner) => owner
    case SwapDown(_, owner, _) => owner
    case _ => false
  }

  function Holders(pcs: map<Thread, Pc>): set<Thread> { set t | t in pcs && Holds(pcs[t]) }

  /** The steps that each kind of call can be at. */
  predicate InProgram(pc: Pc) {
    match pc
    case Idle => true
    case CheckStatus(op) => op in {Wait, Signal}
    case LoadRefs(op) => op in {Wait, Signal}
    case SwapUp(op, r) => op in {Wait, Signal} && r >= 1
    case Recheck(op) => op in {Wait, Signal}
    case Using(op) => op in {Wait, Signal}
    case LoadStatus(op) => op in {Wait, Release}
    case SwapStatus(op) => op in {Wait, Release}
    case StopCleanup(op) => op in {Wait, Release}
    case LoadDown(op, owner) => if owner then op != Signal else op in {Wait, Signal}
    case SwapDown(op, owner, r) => r >= 1 && if owner then op != Signal else op in {Wait, Signal}
    case Close(op, owner) => if owner then op != Signal else op in {Wait, Signal}
    case Panicked => false
  }

  /** What a thread's place tells about the shared fields. */
  predicate ThreadOk(s: State, t: Thread, pc: Pc) {
    && InProgram(pc)
    && (Owes(pc) <==> s.owner == WithThread(t))
    && (pc.Close? <==> s.closer == Someone(t))
    && (pc.Recheck? ==> s.status != StatusOK)
    && (Owes(pc) && !pc.StopCleanup? && !s.stopped ==> pc.op == Cleanup)
    && (s.collected ==> Detached(pc))
    && (!pc.Idle? && pc.op == Cleanup ==> s.collected)
  }

  ghost predicate AllOk(s: State) { forall t :: t in s.pcs ==> ThreadOk(s, t, s.pcs[t]) }

  /** The references are the holders' and the one that the process was created with. */
  predicate Counted(s: State) {
    && s.refs == |Holders(s.pcs)| + (if s.owner.Gone? then 0 else 1)
    && s.closes + (if s.closer.Someone? then 1 else 0) == (if s.refs == 0 then 1 else 0)
  }

  predicate Owned(s: State) {
    && (s.owner.WithProcess? <==> s.status == StatusOK && !s.collected)
    && (s.owner.WithThread? ==> s.owner.t in s.pcs)
    && (s.closer.Someone? ==> s.closer.t in s.pcs)
    && (s.owner.Gone? ==> s.stopped || s.collected)
    && (s.collected ==> !s.stopped)
  }

  ghost predicate Inv(s: State) { Counted(s) && Owned(s) && AllOk(s) }

  function Fresh(): State { State(1, StatusOK, false, false, 0, map[], WithProcess, NoOne) }

  lemma FreshInv()
    ensures Inv(Fresh())
  {
    assert Holders(map[]) == {};
  }

  // ------------------------------------------------------------ one step at a time

  /** One thread moves on. */
  lemma HoldersStep(pcs: map<Thread, Pc>, t: Thread, pc: Pc)
    ensures |Holders(pcs[t := pc])|
         == |Holders(pcs)| + (if Holds(pc) then 1 else 0) - (if t in pcs && Holds(pcs[t]) then 1 else 0)
  {
    hide Holds;
    var more := pcs[t := pc];
    if Holds(pc) {
      assert Holders(more) == Holders(pcs) + {t};
    } else {
      assert Holders(more) == Holders(pcs) - {t};
    }
  }

  lemma HolderCounts(pcs: map<Thread, Pc>, t: Thread)
    requires t in pcs && Holds(pcs[t])
    ensures |Holders(pcs)| >= 1
  {
    assert t in Holders(pcs);
  }

  /** What the step of thread t may change for a thread u that it is not. */
  predicate SameFor(s: State, n: State, u: Thread) {
    && (s.owner == WithThread(u) <==> n.owner == WithThread(u))
    && (s.closer == Someone(u) <==> n.closer == Someone(u))
    && (s.status != StatusOK ==> n.status != StatusOK)
    && (s.stopped ==> n.stopped)
    && s.collected == n.collected
  }

  lemma OthersOk(s: State, n: State, t: Thread, pc: Pc)
    requires AllOk(s) && n.pcs == s.pcs[t := pc] && ThreadOk(n, t, pc)
    requires forall u :: u in s.pcs && u != t ==> SameFor(s, n, u)
    ensures AllOk(n)
  {
    forall u | u in n.pcs ensures ThreadOk(n, u, n.pcs[u]) {
      if u != t { assert ThreadOk(s, u, s.pcs[u]) && SameFor(s, n, u); }
    }
  }

  lemma PcOnly(s: State, t: Thread, pc: Pc)
    requires Inv(s) && ThreadOk(s, t, pc)
    requires Holds(pc) == (t in s.pcs && Holds(s.pcs[t]))
    ensures Inv(s.(pcs := s.pcs[t := pc]))
  {
    hide Holders, Holds;
    HoldersStep(s.pcs, t, pc);
    OthersOk(s, s.(pcs := s.pcs[t := pc]), t, pc);
  }

  lemma Acquired(s: State, t: Thread)
    requires Inv(s) && t in s.pcs && s.pcs[t].SwapUp? && s.refs == s.pcs[t].r
    ensures Inv(RunOne(s, t))
  {
    hide Holders;
    assert ThreadOk(s, t, s.pcs[t]);
    var n := RunOne(s, t);
    HoldersStep(s.pcs, t, n.pcs[t]);
    OthersOk(s, n, t, n.pcs[t]);
  }

  lemma StatusSet(s: State, t: Thread)
    requires Inv(s) && t in s.pcs && s.pcs[t].SwapStatus? && s.status == StatusOK
    ensures Inv(RunOne(s, t))
  {
    hide Holders;
    assert ThreadOk(s, t, s.pcs[t]);
    var n := RunOne(s, t);
    HoldersStep(s.pcs, t, n.pcs[t]);
    OthersOk(s, n, t, n.pcs[t]);
  }

  lemma Stopped(s: State, t: Thread)
    requires Inv(s) && t in s.pcs && s.pcs[t].StopCleanup?
    ensures Inv(RunOne(s, t))
  {
    hide Holders;
    assert ThreadOk(s, t, s.pcs[t]);
    var n := RunOne(s, t);
    HoldersStep(s.pcs, t, n.pcs[t]);
    OthersOk(s, n, t, n.pcs[t]);
  }

  lemma Dropped(s: State, t: Thread)
    requires Inv(s) && t in s.pcs && s.pcs[t].SwapDown? && s.refs == s.pcs[t].r
    ensures Inv(RunOne(s, t))
  {
    hide Holders;
    assert ThreadOk(s, t, s.pcs[t]);
    var n := RunOne(s, t);
    HoldersStep(s.pcs, t, n.pcs[t]);
    if Holds(n.pcs[t]) { HolderCounts(n.pcs, t); }
    OthersOk(s, n, t, n.pcs[t]);
  }

  lemma Closed(s: State, t: Thread)
    requires Inv(s) && t in s.pcs && s.pcs[t].Close?
    ensures Inv(RunOne(s, t))
  {
    hide Holders;
    assert ThreadOk(s, t, s.pcs[t]);
    var n := RunOne(s, t);
    HoldersStep(s.pcs, t, n.pcs[t]);
    OthersOk(s, n, t, n.pcs[t]);
  }

  /** All other steps change no shared field. */
  lemma Moved(s: State, t: Thread)
    requires Inv(s) && Enabled(s, Run(t))
    requires RunOne(s, t) == s.(pcs := RunOne(s, t).pcs)
    requires !s.pcs[t].StopCleanup?
    ensures Inv(RunOne(s, t))
  {
    hide Holders;
    assert ThreadOk(s, t, s.pcs[t]);
    if Holds(s.pcs[t]) { HolderCounts(s.pcs, t); }
    PcOnly(s, t, RunOne(s, t).pcs[t]);
  }

  lemma RunKeeps(s: State, t: Thread)
    requires Inv(s) && Enabled(s, Run(t))
    ensures Inv(RunOne(s, t))
  {
    hide Inv, ThreadOk, Holds, Holders;
    var pc := s.pcs[t];
    match pc {
      case SwapUp(_, r) => { if s.refs == r { Acquired(s, t); } else { Moved(s, t); } }
      case SwapStatus(_) => { if s.status == StatusOK { StatusSet(s, t); } else { Moved(s, t); } }
      case StopCleanup(_) => { Stopped(s, t); }
      case SwapDown(_, _, r) => { if s.refs == r { Dropped(s, t); } else { Moved(s, t); } }
      case Close(_, _) => { Closed(s, t); }
      case _ => { Moved(s, t); }
    }
  }

  /** The cleanup of a process that was neither waited for nor released. */
  lemma CleanupStarts(s: State, t: Thread)
    requires Inv(s) && Enabled(s, Collect(t))
    ensures Inv(After(s, Collect(t)))
  {
    hide Holders;
    var n := After(s, Collect(t));
    HoldersStep(s.pcs, t, n.pcs[t]);
    forall u | u in n.pcs ensures ThreadOk(n, u, n.pcs[u]) {
      if u in s.pcs { assert ThreadOk(s, u, s.pcs[u]); }
    }
  }

  /** Every step of every thread keeps the invariant. */
  lemma StepKeeps(s: State, step: Step)
    requires Inv(s) && Enabled(s, step)
    ensures Inv(After(s, step))
  {
    match step {
      case Start(t, op) => {
        hide Holders;
        if t in s.pcs { assert ThreadOk(s, t, s.pcs[t]); }
        PcOnly(s, t, After(s, step).pcs[t]);
      }
      case Done(t, ok) => {
        hide Holders;
        assert ThreadOk(s, t, s.pcs[t]);
        PcOnly(s, t, After(s, step).pcs[t]);
      }
      case Run(t) => { hide Inv, RunOne; RunKeeps(s, t); }
      case Collect(t) => { hide Inv; CleanupStarts(s, t); }
    }
  }

  // -------------------------------------------------------------------- whole runs

  predicate Legal(s: State, steps: seq<Step>)
    decreases |steps|
  {
    steps == [] || (Enabled(s, steps[0]) && Legal(After(s, steps[0]), steps[1..]))
  }

  function RunAll(s: State, steps: seq<Step>): State
    requires Legal(s, steps)
    decreases |steps|
  {
    if steps == [] then s else RunAll(After(s, steps[0]), steps[1..])
  }

  lemma {:induction false} RunsKeep(s: State, steps: seq<Step>)
    requires Inv(s) && Legal(s, steps)
    ensures Inv(RunAll(s, steps))
    decreases |steps|
  {
    hide Inv, Enabled, After;
    if steps != [] {
      StepKeeps(s, steps[0]);
      RunsKeep(After(s, steps[0]), steps[1..]);
    }
  }

  /** In every interleaving of any number of calls: no panic is reached, the references
      are those of the holders and of the process itself, the handle is closed at most
      once, and not while a thread uses it or the process keeps its own reference. */
  lemma HandleSafe(steps: seq<Step>)
    requires Legal(Fresh(), steps)
    ensures var s := RunAll(Fresh(), steps);
            && (forall t :: t in s.pcs ==> !s.pcs[t].Panicked?)
            && s.refs == |Holders(s.pcs)| + (if s.owner.Gone? then 0 else 1)
            && s.closes <= 1
            && (forall t :: t in s.pcs && Holds(s.pcs[t]) ==> s.closes == 0 && s.refs >= 1)
            && (s.status == StatusOK && !s.collected ==> s.closes == 0 && s.refs >= 1)
  {
    hide Holders, RunAll, Legal, Holds;
    FreshInv();
    RunsKeep(Fresh(), steps);
    var s := RunAll(Fresh(), steps);
    forall t | t in s.pcs ensures !s.pcs[t].Panicked? { assert ThreadOk(s, t, s.pcs[t]); }
    forall t | t in s.pcs && Holds(s.pcs[t]) ensures s.refs >= 1 { HolderCounts(s.pcs, t); }
  }

  /** No leak: once all calls have returned, the handle is closed exactly if the process
      was waited for, released or collected. */
  lemma NoLeak(steps: seq<Step>)
    requires Legal(Fresh(), steps) && Quiet(RunAll(Fresh(), steps).pcs)
    ensures var s := RunAll(Fresh(), steps);
            if s.status == StatusOK && !s.collected then s.refs == 1 && s.closes == 0 else s.refs == 0 && s.closes == 1
  {
    hide RunAll, Legal;
    FreshInv();
    RunsKeep(Fresh(), steps);
    var s := RunAll(Fresh(), steps);
    forall t | t in s.pcs ensures ThreadOk(s, t, s.pcs[t]) && s.pcs[t].Idle? {}
    assert Holders(s.pcs) == {};
  }

  /** The status is set once: the first Wait or Release to get there decides it. */
  lemma {:induction false} StatusOnce(s: State, steps: seq<Step>)
    requires Legal(s, steps) && s.status != StatusOK
    ensures RunAll(s, steps).status == s.status
    decreases |steps|
  {
    if steps != [] { StatusOnce(After(s, steps[0]), steps[1..]); }
  }
}
