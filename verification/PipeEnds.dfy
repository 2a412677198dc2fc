/** How calls on a pipe end, from the calls alone: which errors the closes leave, when the
    own side's close wins, and what can still happen after a close. */
module PipeEnds {
  import opened Pipe

  // ------------------------------------------------------- where errors come from

  /** Some call closed the writer with f; without an error that is EOF. */
  ghost predicate WriterClosed(calls: seq<Step>, f: Fault) {
    exists i :: 0 <= i < |calls| && ClosesWriter(calls[i], f)
  }

  predicate ClosesWriter(step: Step, f: Fault) {
    step.Start? && (step.call == CloseWrite(f) || (step.call == CloseWrite(Nil) && f == EOF)) && f != Nil
  }

  /** Some call closed the reader with f; without an error that is ErrClosedPipe. */
  ghost predicate ReaderClosed(calls: seq<Step>, f: Fault) {
    exists i :: 0 <= i < |calls| && ClosesReader(calls[i], f)
  }

  predicate ClosesReader(step: Step, f: Fault) {
    step.Start? && (step.call == CloseRead(f) || (step.call == CloseRead(Nil) && f == ErrClosedPipe)) && f != Nil
  }

  ghost predicate Origin(calls: seq<Step>, pc: Pc) {
    match pc
    case StoreR(e) => ReaderClosed(calls, e)
    case StoreW(e) => WriterClosed(calls, e)
    case _ => true
  }

  ghost predicate Origins(s: State, calls: seq<Step>) {
    && (s.werr != Nil ==> WriterClosed(calls, s.werr)) && (s.rerr != Nil ==> ReaderClosed(calls, s.rerr))
    && forall t: Thread :: t < |s.pcs| ==> Origin(calls, s.pcs[t])
  }

  lemma MoreCalls(calls: seq<Step>, step: Step, f: Fault)
    ensures WriterClosed(calls, f) || ClosesWriter(step, f) ==> WriterClosed(calls + [step], f)
    ensures ReaderClosed(calls, f) || ClosesReader(step, f) ==> ReaderClosed(calls + [step], f)
  {
    var all := calls + [step];
    if i :| 0 <= i < |calls| && ClosesWriter(calls[i], f) { assert ClosesWriter(all[i], f); }
    if i :| 0 <= i < |calls| && ClosesReader(calls[i], f) { assert ClosesReader(all[i], f); }
    assert all[|calls|] == step;
  }

  /** How a thread comes to look at the errors, or to store one. */
  lemma PcAfter(s: State, step: Step, t: Thread)
    requires Enabled(s, step) && t < |s.pcs|
    ensures var n := After(s, step);
            && |n.pcs| == |s.pcs|
            && (n.pcs[t].ReadLoadW? ==> n.pcs[t] == s.pcs[t] || n.pcs[t].seen == s.rerr)
            && (n.pcs[t].WriteLoadR? ==> n.pcs[t] == s.pcs[t] || n.pcs[t].seen == s.werr)
            && (n.pcs[t].StoreR? ==> n.pcs[t] == s.pcs[t] || ClosesReader(step, n.pcs[t].e))
            && (n.pcs[t].StoreW? ==> n.pcs[t] == s.pcs[t] || ClosesWriter(step, n.pcs[t].e))
  {
    hide Prefix, Rest, CloseError;
    match step
    case Start(u, call) =>
    case One(u) => OtherPcs(s, u, t);
    case Meet(w, r) =>
    case Ack(w, r) =>
  }

  lemma OtherPcs(s: State, u: Thread, t: Thread)
    requires Enabled(s, One(u)) && t < |s.pcs|
    ensures var n := GoOne(s, u); |n.pcs| == |s.pcs| && (t != u ==> n.pcs[t] == s.pcs[t])
  {
    hide Prefix, Rest, CloseError;
  }

  lemma CellsAfter(s: State, step: Step)
    requires Enabled(s, step)
    ensures var n := After(s, step);
            && (n.rerr == s.rerr || (s.rerr == Nil && step.One? && s.pcs[step.t] == StoreR(n.rerr)))
            && (n.werr == s.werr || (s.werr == Nil && step.One? && s.pcs[step.t] == StoreW(n.werr)))
            && |n.pcs| == |s.pcs|
  {
    hide Prefix, Rest, CloseError;
  }

  lemma OriginsStep(s: State, calls: seq<Step>, step: Step)
    requires Origins(s, calls) && Enabled(s, step)
    ensures Origins(After(s, step), calls + [step])
  {
    hide WriterClosed, ReaderClosed, ClosesReader, ClosesWriter, After;
    var n, all := After(s, step), calls + [step];
    CellsAfter(s, step);
    MoreCalls(calls, step, n.rerr);
    MoreCalls(calls, step, n.werr);
    if step.One? { OriginAt(s, calls, step.t) by { EnabledOne(s, step); } }
    forall t: Thread | t < |n.pcs| ensures Origin(all, n.pcs[t]) {
      PcAfter(s, step, t);
      OriginAt(s, calls, t);
      OriginMore(calls, step, s.pcs[t], n.pcs[t]);
    }
  }

  lemma EnabledOne(s: State, step: Step)
    requires Enabled(s, step) && step.One?
    ensures step.t < |s.pcs|
  {
  }

  lemma OriginAt(s: State, calls: seq<Step>, t: Thread)
    requires Origins(s, calls) && t < |s.pcs|
    ensures Origin(calls, s.pcs[t])
  {
  }

  lemma OriginMore(calls: seq<Step>, step: Step, was: Pc, pc: Pc)
    requires Origin(calls, was)
    requires pc.StoreR? ==> pc == was || ClosesReader(step, pc.e)
    requires pc.StoreW? ==> pc == was || ClosesWriter(step, pc.e)
    ensures Origin(calls + [step], pc)
  {
    hide WriterClosed, ReaderClosed, ClosesReader, ClosesWriter;
    match pc
    case StoreR(e) => MoreCalls(calls, step, e);
    case StoreW(e) => MoreCalls(calls, step, e);
    case _ =>
  }

  lemma {:induction false} OriginsRun(s: State, calls: seq<Step>, steps: seq<Step>)
    requires Origins(s, calls) && Legal(s, steps)
    ensures Origins(RunAll(s, steps), calls + steps)
    decreases |steps|
  {
    hide Origins, After, Enabled;
    if steps == [] {
      assert calls + steps == calls;
    } else {
      OriginsStep(s, calls, steps[0]);
      OriginsRun(After(s, steps[0]), calls + [steps[0]], steps[1..]);
      assert calls + [steps[0]] + steps[1..] == calls + steps;
    }
  }

  /** The error cells hold what a close was called with, or what stands for no error. */
  lemma CloseOrigins(threads: nat, steps: seq<Step>)
    requires Legal(Fresh(threads), steps)
    ensures var s := RunAll(Fresh(threads), steps);
            (s.werr != Nil ==> WriterClosed(steps, s.werr)) && (s.rerr != Nil ==> ReaderClosed(steps, s.rerr))
  {
    hide RunAll, Legal, WriterClosed, ReaderClosed;
    OriginsRun(Fresh(threads), [], steps);
    assert [] + steps == steps;
  }

  predicate Closes(step: Step) { step.Start? && (step.call.CloseRead? || step.call.CloseWrite?) }

  /** Where only the writer is closed, and without an error, every read that fails gives
      EOF. */
  lemma ReadsEndWithEOF(threads: nat, steps: seq<Step>, i: nat)
    requires Legal(Fresh(threads), steps) && forall k :: 0 <= k < |steps| && Closes(steps[k]) ==> steps[k].call == CloseWrite(Nil)
    requires i < |RunAll(Fresh(threads), steps).log|
    ensures var ret := RunAll(Fresh(threads), steps).log[i]; ret.ReadDone? && ret.err != Nil ==> ret.err == EOF && ret.data == []
  {
    hide RunAll, Legal;
    CloseOrigins(threads, steps);
    ReturnsRight(threads, steps, i);
  }

  /** Where only the reader is closed, and without an error, every write that fails gives
      ErrClosedPipe. */
  lemma WritesEndWithClosed(threads: nat, steps: seq<Step>, i: nat)
    requires Legal(Fresh(threads), steps) && forall k :: 0 <= k < |steps| && Closes(steps[k]) ==> steps[k].call == CloseRead(Nil)
    requires i < |RunAll(Fresh(threads), steps).log|
    ensures var ret := RunAll(Fresh(threads), steps).log[i]; ret.WriteDone? && ret.err != Nil ==> ret.err == ErrClosedPipe
  {
    hide RunAll, Legal;
    CloseOrigins(threads, steps);
    ReturnsRight(threads, steps, i);
  }

  // ------------------------------------------------------------- the own side first

  /** The reader's side is closed, and every read that looks for its error knows. */
  ghost predicate ReaderGone(s: State) {
    s.rerr != Nil && forall t: Thread :: t < |s.pcs| && s.pcs[t].ReadLoadW? ==> s.pcs[t].seen != Nil
  }

  ghost predicate WriterGone(s: State) {
    s.werr != Nil && forall t: Thread :: t < |s.pcs| && s.pcs[t].WriteLoadR? ==> s.pcs[t].seen != Nil
  }

  predicate ReadClosed(ret: Return) { ret.ReadDone? && ret.err != Nil ==> ret.err == ErrClosedPipe }

  predicate WriteClosed(ret: Return) { ret.WriteDone? && ret.err != Nil ==> ret.err == ErrClosedPipe }

  lemma GoneStep(s: State, step: Step)
    requires Enabled(s, step)
    ensures ReaderGone(s) ==> ReaderGone(After(s, step))
    ensures WriterGone(s) ==> WriterGone(After(s, step))
  {
    hide After, Enabled;
    var n := After(s, step);
    CellsAfter(s, step);
    forall t: Thread | t < |n.pcs|
      ensures ReaderGone(s) && n.pcs[t].ReadLoadW? ==> n.pcs[t].seen != Nil
      ensures WriterGone(s) && n.pcs[t].WriteLoadR? ==> n.pcs[t].seen != Nil
    {
      PcAfter(s, step, t);
    }
  }

  lemma OneReturn(s: State, step: Step)
    requires Enabled(s, step)
    ensures var n := After(s, step); |s.log| <= |n.log| <= |s.log| + 1 && n.log[..|s.log|] == s.log
  {
    hide Prefix, Rest, CloseError;
  }

  lemma OwnStep(s: State, step: Step)
    requires Enabled(s, step) && |After(s, step).log| > |s.log|
    ensures var n := After(s, step);
            (ReaderGone(s) ==> ReadClosed(n.log[|s.log|])) && (WriterGone(s) ==> WriteClosed(n.log[|s.log|]))
  {
    hide Prefix, Rest;
    if step.One? {
      assert ReaderGone(s) && s.pcs[step.t].ReadLoadW? ==> s.pcs[step.t].seen != Nil;
      assert WriterGone(s) && s.pcs[step.t].WriteLoadR? ==> s.pcs[step.t].seen != Nil;
      hide ReaderGone, WriterGone;
    }
  }

  /** Once a side is closed, its own calls that fail give ErrClosedPipe, whatever the other
      side is closed with. */
  lemma {:induction false} OwnSideFirst(s: State, steps: seq<Step>)
    requires Legal(s, steps)
    ensures var n := RunAll(s, steps);
            && |s.log| <= |n.log|
            && (ReaderGone(s) ==> forall i :: |s.log| <= i < |n.log| ==> ReadClosed(n.log[i]))
            && (WriterGone(s) ==> forall i :: |s.log| <= i < |n.log| ==> WriteClosed(n.log[i]))
            && n.log[..|s.log|] == s.log
    decreases |steps|
  {
    hide ReaderGone, WriterGone, After, Enabled, ReadClosed, WriteClosed;
    if steps != [] {
      var m := After(s, steps[0]);
      OneReturn(s, steps[0]);
      GoneStep(s, steps[0]);
      if |m.log| > |s.log| { OwnStep(s, steps[0]); }
      OwnSideFirst(m, steps[1..]);
      var n := RunAll(m, steps[1..]);
      assert n.log[..|s.log|] == n.log[..|m.log|][..|s.log|];
      assert |m.log| > |s.log| ==> n.log[|s.log|] == n.log[..|m.log|][|s.log|];
    }
  }

  // ----------------------------------------------------------------- after a close

  /** No call is at a place where it can still transfer bytes. */
  predicate NoTransfer(pc: Pc) {
    match pc
    case ReadWait(_) => false
    case ReadCopy(_, _) => false
    case ReadAck(_, _) => false
    case WriteLock(_) => false
    case WriteSend(_, _) => false
    case WriteAck(_, _) => false
    case WriteReturn(_, _) => false
    case WriteLoadW(_, n, _) => n == 0
    case WriteLoadR(_, n, _, _) => n == 0
    case _ => true
  }

  ghost predicate Over(s: State) { s.done && forall t: Thread :: t < |s.pcs| ==> NoTransfer(s.pcs[t]) }

  predicate Refused(ret: Return) {
    (ret.ReadDone? ==> ret.err != Nil && ret.data == []) && (ret.WriteDone? ==> ret.err != Nil && ret.n == 0)
  }

  lemma OverStep(s: State, step: Step)
    requires Enabled(s, step) && Over(s)
    ensures var n := After(s, step);
            && Over(n) && |s.log| <= |n.log| <= |s.log| + 1 && n.log[..|s.log|] == s.log
            && (|n.log| > |s.log| ==> Refused(n.log[|s.log|]))
  {
    hide Prefix, Rest;
    NoMeeting(s, step);
    if step.One? { assert NoTransfer(s.pcs[step.t]); }
  }

  lemma NoMeeting(s: State, step: Step)
    requires Enabled(s, step) && Over(s)
    ensures step.Start? || step.One?
  {
    hide NoTransfer, Over;
    match step
    case Meet(w, r) => OverAt(s, w);
    case Ack(w, r) => OverAt(s, w);
    case _ =>
  }

  lemma OverAt(s: State, t: Thread)
    requires Over(s) && t < |s.pcs|
    ensures !s.pcs[t].WriteSend? && !s.pcs[t].WriteAck?
  {
    assert NoTransfer(s.pcs[t]);
  }

  /** Calls that start on a closed pipe fail, and move no byte. */
  lemma {:induction false} ClosedRefuses(s: State, steps: seq<Step>)
    requires Legal(s, steps) && Over(s)
    ensures var n := RunAll(s, steps);
            && Over(n) && |s.log| <= |n.log| && n.log[..|s.log|] == s.log
            && forall i :: |s.log| <= i < |n.log| ==> Refused(n.log[i])
    decreases |steps|
  {
    hide Over, After, Enabled, Refused;
    if steps != [] {
      var m := After(s, steps[0]);
      OverStep(s, steps[0]);
      ClosedRefuses(m, steps[1..]);
      var n := RunAll(m, steps[1..]);
      assert n.log[..|s.log|] == n.log[..|m.log|][..|s.log|];
      assert |m.log| > |s.log| ==> n.log[|s.log|] == n.log[..|m.log|][|s.log|];
    }
  }

  // ------------------------------------------------------------- what a read takes

  /** A read that succeeds takes as much as its buffer holds and the write has left, from
      where the write stands. */
  lemma ReadTakes(threads: nat, steps: seq<Step>, w: Thread, r: Thread)
    requires Legal(Fresh(threads), steps) && Enabled(RunAll(Fresh(threads), steps), Ack(w, r))
    ensures var s := RunAll(Fresh(threads), steps);
            var b, n, m, data := s.pcs[w].b, s.pcs[w].n, s.pcs[r].m, s.pcs[r].data;
            && n <= |b| && |data| == (if m <= |b| - n then m else |b| - n)
            && forall i :: 0 <= i < |data| ==> data[i] == b[n + i]
  {
    hide RunAll, Legal, Given, Taken, Current;
    FreshInv(threads);
    RunsKeep(Fresh(threads), steps);
    var s := RunAll(Fresh(threads), steps);
    assert PlaceOk(s, w, s.pcs[w]) && PlaceOk(s, r, s.pcs[r]);
  }

  function Reads(log: seq<Return>): nat {
    if log == [] then 0
    else var last := log[|log| - 1]; Reads(log[..|log| - 1]) + if last.ReadDone? && last.err == Nil then 1 else 0
  }

  function Writes(log: seq<Return>): nat {
    if log == [] then 0
    else var last := log[|log| - 1]; Writes(log[..|log| - 1]) + if last.WriteDone? && last.err == Nil then 1 else 0
  }

  lemma CountMore(log: seq<Return>, ret: Return)
    ensures Reads(log + [ret]) == Reads(log) + if ret.ReadDone? && ret.err == Nil then 1 else 0
    ensures Writes(log + [ret]) == Writes(log) + if ret.WriteDone? && ret.err == Nil then 1 else 0
  {
    assert (log + [ret])[..|log|] == log;
  }

  /** A write that has only to return has been met by a read. */
  ghost predicate Matched(s: State) {
    Writes(s.log) + (if s.lock.Held? && s.lock.t < |s.pcs| && s.pcs[s.lock.t].WriteReturn? then 1 else 0) <= Reads(s.log)
  }

  lemma MatchedStep(s: State, step: Step)
    requires Inv(s) && Matched(s) && Enabled(s, step)
    ensures Matched(After(s, step))
  {
    hide Prefix, Rest, Given, Taken, PairOk, LogOk, StreamOk, CountsOk, FaultsOk, Reads, Writes, GoOne, Matched, PlacesOk;
    match step
    case One(t) => MatchedOne(s, t);
    case Meet(w, r) => MatchedMeet(s, w, r);
    case Ack(w, r) => MatchedAck(s, w, r);
    case Start(t, call) => MatchedStart(s, t, call);
  }

  lemma MatchedOne(s: State, t: Thread)
    requires PlacesOk(s) && Matched(s) && Enabled(s, One(t))
    ensures Matched(GoOne(s, t))
  {
    hide Prefix, Rest, Reads, Writes;
    var n := GoOne(s, t);
    if n.log != s.log { CountMore(s.log, n.log[|s.log|]); }
    assert PlaceOk(s, t, s.pcs[t]);
  }

  lemma MatchedMeet(s: State, w: Thread, r: Thread)
    requires PlacesOk(s) && Matched(s) && Enabled(s, Meet(w, r))
    ensures Matched(GoMeet(s, w, r))
  {
    hide Prefix, Rest, Reads, Writes;
    assert PlaceOk(s, w, s.pcs[w]) && PlaceOk(s, r, s.pcs[r]);
  }

  lemma MatchedAck(s: State, w: Thread, r: Thread)
    requires PlacesOk(s) && Matched(s) && Enabled(s, Ack(w, r))
    ensures Matched(GoAck(s, w, r))
  {
    hide Prefix, Rest, Reads, Writes;
    CountMore(s.log, ReadDone(s.pcs[r].m, s.pcs[r].data, Nil));
    assert PlaceOk(s, w, s.pcs[w]) && PlaceOk(s, r, s.pcs[r]);
  }

  lemma MatchedStart(s: State, t: Thread, call: Call)
    requires PlacesOk(s) && Matched(s) && Enabled(s, Start(t, call))
    ensures Matched(After(s, Start(t, call)))
  {
    hide Reads, Writes;
    assert PlaceOk(s, t, s.pcs[t]);
  }

  lemma {:induction false} MatchedRun(s: State, steps: seq<Step>)
    requires Inv(s) && Matched(s) && Legal(s, steps)
    ensures Matched(RunAll(s, steps))
    decreases |steps|
  {
    hide Inv, Matched, After, Enabled;
    if steps != [] {
      StepKeeps(s, steps[0]);
      MatchedStep(s, steps[0]);
      MatchedRun(After(s, steps[0]), steps[1..]);
    }
  }

  /** There are never more writes without an error, empty ones included, than reads: each
      has waited for a read. */
  lemma WritesMeetReads(threads: nat, steps: seq<Step>)
    requires Legal(Fresh(threads), steps)
    ensures var log := RunAll(Fresh(threads), steps).log; Writes(log) <= Reads(log)
  {
    hide RunAll, Legal;
    FreshInv(threads);
    MatchedRun(Fresh(threads), steps);
  }
}
