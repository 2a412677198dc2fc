/** What becomes of a process handle, from the calls alone: who set its status, that a
    release or a successful wait does set it, and that nothing uses the handle later. */
module ProcEnds {
  import opened ProcHandle

  predicate Begins(step: Step, t: Thread, op: Op) { step == Start(t, op) }

  /** Some Wait was begun by a thread that has ended its use of the handle with success
      since. */
  ghost predicate WaitEnded(calls: seq<Step>) {
    exists t, i, j :: 0 <= i < j < |calls| && Begins(calls[i], t, Wait) && Succeeds(calls[j], t)
  }

  predicate Succeeds(step: Step, t: Thread) { step == Done(t, true) }

  ghost predicate Begun(calls: seq<Step>, t: Thread, op: Op) { exists i :: 0 <= i < |calls| && Begins(calls[i], t, op) }

  ghost predicate ReleaseBegun(calls: seq<Step>) { exists t :: Begun(calls, t, Release) }

  /** What a thread's place tells about the calls so far. */
  ghost predicate Reached(calls: seq<Step>, t: Thread, pc: Pc) {
    match pc
    case CheckStatus(op) => op == Wait ==> Begun(calls, t, op)
    case LoadRefs(op) => op == Wait ==> Begun(calls, t, op)
    case SwapUp(op, _) => op == Wait ==> Begun(calls, t, op)
    case Using(op) => op == Wait ==> Begun(calls, t, op)
    case LoadStatus(op) => if op == Wait then WaitEnded(calls) else ReleaseBegun(calls)
    case SwapStatus(op) => if op == Wait then WaitEnded(calls) else ReleaseBegun(calls)
    case _ => true
  }

  ghost predicate Recorded(s: State, calls: seq<Step>) {
    && (s.status == StatusDone ==> WaitEnded(calls))
    && (s.status == StatusReleased ==> ReleaseBegun(calls))
    && forall t :: t in s.pcs ==> Reached(calls, t, s.pcs[t])
  }

  lemma MoreCalls(calls: seq<Step>, step: Step)
    ensures WaitEnded(calls) ==> WaitEnded(calls + [step])
    ensures ReleaseBegun(calls) ==> ReleaseBegun(calls + [step])
    ensures forall t, op :: Begun(calls, t, op) || Begins(step, t, op) ==> Begun(calls + [step], t, op)
    ensures forall t :: Begun(calls, t, Wait) && Succeeds(step, t) ==> WaitEnded(calls + [step])
  {
    var all := calls + [step];
    assert all[|calls|] == step;
    forall t, op | Begun(calls, t, op) ensures Begun(all, t, op) {
      var i :| 0 <= i < |calls| && Begins(calls[i], t, op);
      assert Begins(all[i], t, op);
    }
    if t, i, j :| 0 <= i < j < |calls| && Begins(calls[i], t, Wait) && Succeeds(calls[j], t) {
      assert Begins(all[i], t, Wait) && Succeeds(all[j], t);
    }
    forall t | Begun(calls, t, Wait) && Succeeds(step, t) ensures WaitEnded(all) {
      var i :| 0 <= i < |calls| && Begins(calls[i], t, Wait);
      assert Begins(all[i], t, Wait) && Succeeds(all[|calls|], t);
    }
    if t :| Begun(calls, t, Release) { assert Begun(all, t, Release); }
  }

  lemma ReachedMore(calls: seq<Step>, step: Step, t: Thread, pc: Pc)
    requires Reached(calls, t, pc)
    ensures Reached(calls + [step], t, pc)
  {
    hide WaitEnded, ReleaseBegun, Begun;
    MoreCalls(calls, step);
  }

  /** The place that a step takes its thread to. */
  lemma ReachedNext(s: State, calls: seq<Step>, step: Step)
    requires Recorded(s, calls) && Enabled(s, step)
    ensures var n, t := After(s, step), step.t; t in n.pcs && Reached(calls + [step], t, n.pcs[t])
  {
    hide WaitEnded, Begun;
    var t := step.t;
    MoreCalls(calls, step);
    match step
    case Start(_, op) => assert Begins(step, t, op) && Begun(calls + [step], t, op);
    case Done(_, ok) => assert Reached(calls, t, s.pcs[t]) && (ok ==> Succeeds(step, t));
    case Run(_) => RunReaches(s, calls, step);
    case Collect(_) =>
  }

  lemma RunReaches(s: State, calls: seq<Step>, step: Step)
    requires Recorded(s, calls) && Enabled(s, step) && step.Run?
    ensures var t := step.t; t in s.pcs && Reached(calls + [step], t, RunOne(s, t).pcs[t])
  {
    hide WaitEnded, Begun, ReleaseBegun;
    var t := step.t;
    assert Reached(calls, t, s.pcs[t]);
    ReachedMore(calls, step, t, s.pcs[t]);
  }

  lemma OthersStay(s: State, step: Step)
    requires Enabled(s, step)
    ensures var n := After(s, step);
            && n.pcs.Keys == s.pcs.Keys + {step.t} && (forall u :: u in s.pcs && u != step.t ==> n.pcs[u] == s.pcs[u])
            && (n.status == s.status
                || (s.status == StatusOK && step.t in s.pcs && s.pcs[step.t].SwapStatus?
                    && n.status == if s.pcs[step.t].op == Wait then StatusDone else StatusReleased))
  {
  }

  lemma RecordedStep(s: State, calls: seq<Step>, step: Step)
    requires Recorded(s, calls) && Enabled(s, step)
    ensures Recorded(After(s, step), calls + [step])
  {
    ReachedNext(s, calls, step);
    OthersStay(s, step);
    if step.t in s.pcs { assert Reached(calls, step.t, s.pcs[step.t]); }
    hide WaitEnded, ReleaseBegun, Begun, After, Enabled;
    MoreCalls(calls, step);
    var n := After(s, step);
    forall u | u in n.pcs ensures Reached(calls + [step], u, n.pcs[u]) {
      if u != step.t { ReachedMore(calls, step, u, s.pcs[u]); }
    }
  }

  lemma {:induction false} RecordedRun(s: State, calls: seq<Step>, steps: seq<Step>)
    requires Recorded(s, calls) && Legal(s, steps)
    ensures Recorded(RunAll(s, steps), calls + steps)
    decreases |steps|
  {
    hide Recorded, After, Enabled;
    if steps == [] {
      assert calls + steps == calls;
    } else {
      RecordedStep(s, calls, steps[0]);
      RecordedRun(After(s, steps[0]), calls + [steps[0]], steps[1..]);
      assert calls + [steps[0]] + steps[1..] == calls + steps;
    }
  }

  /** The process is done only after a Wait has succeeded, and released only after a
      Release was begun. */
  lemma StatusOrigin(steps: seq<Step>)
    requires Legal(Fresh(), steps)
    ensures var s := RunAll(Fresh(), steps);
            (s.status == StatusDone ==> WaitEnded(steps)) && (s.status == StatusReleased ==> ReleaseBegun(steps))
  {
    hide RunAll, Legal, WaitEnded, ReleaseBegun;
    RecordedRun(Fresh(), [], steps);
    assert [] + steps == steps;
  }

  // ------------------------------------------------------------- the status is set

  predicate Settling(pc: Pc) { pc.LoadStatus? || pc.SwapStatus? }

  ghost predicate Ending(s: State) { s.status != StatusOK || exists t :: t in s.pcs && Settling(s.pcs[t]) }

  lemma EndingStep(s: State, step: Step)
    requires Ending(s) && Enabled(s, step)
    ensures Ending(After(s, step))
  {
    var n := After(s, step);
    if s.status == StatusOK {
      var t :| t in s.pcs && Settling(s.pcs[t]);
      if t != step.t { assert n.pcs[t] == s.pcs[t]; } else { assert n.status != StatusOK || Settling(n.pcs[t]); }
    }
  }

  lemma {:induction false} EndingRun(s: State, steps: seq<Step>)
    requires Ending(s) && Legal(s, steps)
    ensures Ending(RunAll(s, steps))
    decreases |steps|
  {
    hide Ending, After, Enabled;
    if steps != [] {
      EndingStep(s, steps[0]);
      EndingRun(After(s, steps[0]), steps[1..]);
    }
  }

  /** Once all calls have returned after a Release, or after a Wait that succeeded, the
      status is set. */
  lemma EndsFor(s: State, step: Step, steps: seq<Step>)
    requires Enabled(s, step) && Legal(After(s, step), steps) && Quiet(RunAll(After(s, step), steps).pcs)
    requires (step.Start? && step.op == Release) || (step.Done? && step.ok && s.pcs[step.t] == Using(Wait))
    ensures RunAll(After(s, step), steps).status != StatusOK
  {
    hide RunAll, Legal;
    var n := After(s, step);
    assert n.pcs[step.t].LoadStatus?;
    EndingRun(n, steps);
  }

  // ------------------------------------------------------------------ no later use

  predicate NotUsing(pc: Pc) { !pc.LoadRefs? && !pc.SwapUp? && !pc.Using? }

  ghost predicate Over(s: State) { s.status != StatusOK && forall t :: t in s.pcs ==> NotUsing(s.pcs[t]) }

  lemma OverStep(s: State, step: Step)
    requires Over(s) && Enabled(s, step)
    ensures Over(After(s, step))
  {
    var n := After(s, step);
    forall t | t in n.pcs ensures NotUsing(n.pcs[t]) {
      if t in s.pcs { assert NotUsing(s.pcs[t]); }
    }
  }

  /** Calls that begin when the status is set do not use the handle any more. */
  lemma {:induction false} NeverAgain(s: State, steps: seq<Step>)
    requires Over(s) && Legal(s, steps)
    ensures Over(RunAll(s, steps))
    decreases |steps|
  {
    hide Over, After, Enabled;
    if steps != [] {
      OverStep(s, steps[0]);
      NeverAgain(After(s, steps[0]), steps[1..]);
    }
  }
}
