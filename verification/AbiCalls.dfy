/** Whole calls: a method called through a function value, which must translate one
    layout of the arguments into another, and a call through Values of a function made
    of Values. */
module AbiCalls {
  import opened AbiTypes
  import opened AbiSequence
  import opened AbiMemory

  // ------------------------------------------------------- laws of the assignment

  ghost predicate Below(l: Layout, l': Layout) {
    l.stackBytes <= l'.stackBytes && l.iregs <= l'.iregs && l.fregs <= l'.fregs
  }

  ghost predicate InMachine(m: Machine, l: Layout) { l.iregs <= m.intArgRegs && l.fregs <= m.floatArgRegs }

  /** A step takes its place between two layouts: registers that exist and were free,
      or a slot aligned for its type. */
  ghost predicate Placed(m: Machine, l: Layout, l': Layout, alignment: nat, st: AbiStep)
    requires alignment > 0
  {
    match st
    case StackStep(_, size, off) => l.stackBytes <= off && off + size <= l'.stackBytes && off % alignment == 0
    case IntRegStep(_, _, i) => l.iregs <= i < l'.iregs <= m.intArgRegs
    case PointerStep(_, _, i) => l.iregs <= i < l'.iregs <= m.intArgRegs
    case FloatRegStep(_, _, f) => l.fregs <= f < l'.fregs <= m.floatArgRegs
  }

  lemma AssignedPlaced(m: Machine, l: Layout, t: Type)
    requires WellFormed(t) && InMachine(m, l)
    ensures t.align > 0 && InMachine(m, Next(m, l, t)) && Below(l, Next(m, l, t))
    ensures forall k :: 0 <= k < |Assigned(m, l, t)| ==> Placed(m, l, Next(m, l, t), t.align, Assigned(m, l, t)[k])
  {
    hide Registrable, Parts, Ints, Floats, Align, Numbered, StepFor;
    HasAlign(t);
    if t.size > 0 && Fits(m, t, l.iregs, l.fregs) {
      var ps := Parts(t, 0);
      forall k | 0 <= k < |ps| ensures Placed(m, l, Next(m, l, t), t.align, Numbered(ps, l.iregs, l.fregs)[k]) {
        NumberedPlaced(m, l, ps, t.align, k);
      }
    }
  }

  lemma NumberedPlaced(m: Machine, l: Layout, ps: seq<Part>, alignment: nat, k: nat)
    requires k < |ps| && Room(m, ps, l.iregs, l.fregs) && alignment > 0
    ensures Placed(m, l, Layout(l.stackBytes, l.iregs + Ints(ps), l.fregs + Floats(ps)), alignment, Numbered(ps, l.iregs, l.fregs)[k])
  {
    hide Ints, Floats, Numbered;
    NumberedAt(ps, l.iregs, l.fregs, k);
  }

  ghost predicate AllWellFormed(ts: seq<Type>) { forall i :: 0 <= i < |ts| ==> WellFormed(ts[i]) && ts[i].align > 0 }

  lemma {:induction false} LayoutMono(m: Machine, l: Layout, ts: seq<Type>, i: nat, j: nat)
    requires i <= j <= |ts| && AllWellFormed(ts) && InMachine(m, l)
    ensures Below(LayoutAt(m, l, ts, i), LayoutAt(m, l, ts, j)) && InMachine(m, LayoutAt(m, l, ts, j))
    decreases j
  {
    hide Next;
    if j > i {
      LayoutMono(m, l, ts, i, j - 1);
      AssignedPlaced(m, LayoutAt(m, l, ts, j - 1), ts[j - 1]);
    } else if j > 0 {
      LayoutMono(m, l, ts, i - 1, j - 1);
      AssignedPlaced(m, LayoutAt(m, l, ts, j - 1), ts[j - 1]);
    }
  }

  /** Two steps claim the same register, or stack slots that overlap. */
  ghost predicate Clash(a: AbiStep, b: AbiStep) {
    || ((a.IntRegStep? || a.PointerStep?) && (b.IntRegStep? || b.PointerStep?) && a.ireg == b.ireg)
    || (a.FloatRegStep? && b.FloatRegStep? && a.freg == b.freg)
    || (a.StackStep? && b.StackStep? && a.stkOff < b.stkOff + b.size && b.stkOff < a.stkOff + a.size)
  }

  /** For every signature: a value is wholly in registers or in one stack slot, and no
      two steps, of one argument or of two, ever claim the same place. */
  lemma NoClash(m: Machine, l: Layout, ts: seq<Type>, i: nat, j: nat, k: nat, n: nat)
    requires AllWellFormed(ts) && InMachine(m, l) && i <= j < |ts|
    requires k < |Assigned(m, LayoutAt(m, l, ts, i), ts[i])| && n < |Assigned(m, LayoutAt(m, l, ts, j), ts[j])|
    requires i != j || k < n
    ensures var a, b := Assigned(m, LayoutAt(m, l, ts, i), ts[i]), Assigned(m, LayoutAt(m, l, ts, j), ts[j]);
            && !Clash(a[k], b[n])
            && (a[k].StackStep? ==> |a| == 1 && a[k].offset == 0 && a[k].size == ts[i].size)
  {
    hide WellFormed, Align, Clash, Placed, Assigned, Next, Fits, LayoutAt;
    var li, lj := LayoutAt(m, l, ts, i), LayoutAt(m, l, ts, j);
    LayoutMono(m, l, ts, 0, i);
    LayoutMono(m, l, ts, 0, j);
    Whole(m, li, ts[i], k);
    if i < j {
      AssignedPlaced(m, li, ts[i]);
      AssignedPlaced(m, lj, ts[j]);
      LayoutMono(m, l, ts, i + 1, j);
      LayoutNext(m, l, ts, i);
      Ordered(m, li, Next(m, li, ts[i]), ts[i].align, Assigned(m, li, ts[i])[k], lj, Next(m, lj, ts[j]), ts[j].align, Assigned(m, lj, ts[j])[n]);
    } else {
      WithinOne(m, li, ts[i], k, n);
    }
  }

  lemma LayoutNext(m: Machine, l: Layout, ts: seq<Type>, i: nat)
    requires i < |ts| && AllWellFormed(ts)
    ensures LayoutAt(m, l, ts, i + 1) == Next(m, LayoutAt(m, l, ts, i), ts[i]) && LayoutAt(m, l, ts, 0) == l
  {
    hide Next;
  }

  lemma Whole(m: Machine, l: Layout, t: Type, k: nat)
    requires t.align > 0 && k < |Assigned(m, l, t)|
    ensures var a := Assigned(m, l, t); a[k].StackStep? ==> |a| == 1 && a[k].offset == 0 && a[k].size == t.size
  {
    hide Fits, Align;
    if t.size > 0 && Fits(m, t, l.iregs, l.fregs) { NoStackPart(Parts(t, 0), l.iregs, l.fregs, k); }
  }

  lemma WithinOne(m: Machine, l: Layout, t: Type, k: nat, n: nat)
    requires t.align > 0 && k < n < |Assigned(m, l, t)|
    ensures !Clash(Assigned(m, l, t)[k], Assigned(m, l, t)[n])
  {
    hide Fits, Align, Parts, Numbered, Ints, Floats;
    var ps := Parts(t, 0);
    NumberedAt(ps, l.iregs, l.fregs, k);
    NumberedAt(ps, l.iregs, l.fregs, n);
    NumberedDistinct(ps, k, n);
  }

  lemma Ordered(m: Machine, l: Layout, l': Layout, al: nat, a: AbiStep, k: Layout, k': Layout, bl: nat, b: AbiStep)
    requires al > 0 && bl > 0 && Placed(m, l, l', al, a) && Placed(m, k, k', bl, b) && Below(l', k)
    ensures !Clash(a, b)
  {
  }

  lemma NoStackPart(ps: seq<Part>, i: nat, f: nat, k: nat)
    requires k < |ps|
    ensures !Numbered(ps, i, f)[k].StackStep?
  {
    NumberedAt(ps, i, f, k);
  }

  // -------------------------------------------------------------- building a call

  predicate IsPtr(st: AbiStep, j: nat) { st.PointerStep? && st.ireg == j }

  ghost predicate HasPtr(steps: seq<AbiStep>, j: nat) { exists k :: 0 <= k < |steps| && IsPtr(steps[k], j) }

  ghost predicate SomePtr(values: seq<seq<AbiStep>>, j: nat) { exists i :: 0 <= i < |values| && HasPtr(values[i], j) }

  /** The bitmap says exactly which registers hold pointers. */
  ghost predicate Marked(m: Machine, regPtrs: seq<bool>, values: seq<seq<AbiStep>>) {
    |regPtrs| == m.intArgRegs && forall j :: 0 <= j < m.intArgRegs ==> (regPtrs[j] <==> SomePtr(values, j))
  }

  /** The first part of newAbiDesc: the steps of the arguments, behind a receiver if
      there is one, and without one the bitmap of the registers that hold pointers. */
  method BuildCall(m: Machine, hasRcvr: bool, rcvrIsPtr: bool, ts: seq<Type>) returns (a: AbiSeq, regPtrs: seq<bool>)
    requires AllWellFormed(ts)
    ensures a.Valid() && fresh(a) && a.m == m
    ensures var r := if hasRcvr then 1 else 0;
            var l := if hasRcvr then AfterReceiver(m) else Layout(0, 0, 0);
            && |a.values| == r + |ts|
            && a.Taken() == LayoutAt(m, l, ts, |ts|)
            && (hasRcvr ==> a.values[0] == [ReceiverStep(m, rcvrIsPtr)])
            && forall i :: 0 <= i < |ts| ==> a.values[r + i] == Assigned(m, LayoutAt(m, l, ts, i), ts[i])
    ensures !hasRcvr ==> Marked(m, regPtrs, a.values)
  {
    hide WellFormed, Registrable, Parts, Numbered, Align, Flat, Next, Assigned, LayoutAt, Fits, SomePtr, HasPtr;
    a := new AbiSeq(m, 0);
    regPtrs := seq(m.intArgRegs, _ => false);
    if hasRcvr {
      WordSlot();
      a.AddRcvr(rcvrIsPtr);
    }
    ghost var r := if hasRcvr then 1 else 0;
    ghost var l := if hasRcvr then AfterReceiver(m) else Layout(0, 0, 0);
    var i := 0;
    LayoutZero(m, l, ts);
    NoPtr();
    InStart(m);
    while i < |ts|
      invariant i <= |ts| && a.Valid() && fresh(a) && a.m == m && |a.values| == r + i
      invariant a.Taken() == LayoutAt(m, l, ts, i)
      invariant hasRcvr ==> a.values[0] == [ReceiverStep(m, rcvrIsPtr)]
      invariant forall j :: 0 <= j < i ==> a.values[r + j] == Assigned(m, LayoutAt(m, l, ts, j), ts[j])
      invariant !hasRcvr ==> Marked(m, regPtrs, a.values)
    {
      LayoutNext(m, l, ts, i);
      LayoutMono(m, l, ts, 0, i);
      ghost var before := a.values;
      var onStack := a.AddArg(ts[i]);
      if !hasRcvr {
        var steps := a.StepsForValue(i);
        AssignedPlaced(m, LayoutAt(m, l, ts, i), ts[i]);
        PtrsInMachine(m, LayoutAt(m, l, ts, i), ts[i]);
        var marked := MarkPtrs(m, if onStack then [] else steps, regPtrs);
        if onStack { StackNoPtr(m, LayoutAt(m, l, ts, i), ts[i]); }
        MorePtrs(m, regPtrs, marked, before, steps);
        regPtrs := marked;
      }
      i := i + 1;
    }
  }

  method MarkPtrs(m: Machine, steps: seq<AbiStep>, regPtrs0: seq<bool>) returns (regPtrs: seq<bool>)
    requires |regPtrs0| == m.intArgRegs && forall k :: 0 <= k < |steps| && steps[k].PointerStep? ==> steps[k].ireg < m.intArgRegs
    ensures |regPtrs| == m.intArgRegs
    ensures forall j :: 0 <= j < m.intArgRegs ==> (regPtrs[j] <==> regPtrs0[j] || HasPtr(steps, j))
  {
    regPtrs := regPtrs0;
    for k := 0 to |steps|
      invariant |regPtrs| == m.intArgRegs
      invariant forall j :: 0 <= j < m.intArgRegs ==> (regPtrs[j] <==> regPtrs0[j] || exists i :: 0 <= i < k && IsPtr(steps[i], j))
    {
      if steps[k].PointerStep? {
        regPtrs := regPtrs[steps[k].ireg := true];
        assert IsPtr(steps[k], steps[k].ireg);
      }
    }
  }

  lemma NoPtr()
    ensures forall j: nat :: !SomePtr([], j)
  {
  }

  lemma InStart(m: Machine)
    ensures InMachine(m, Layout(0, 0, 0)) && InMachine(m, AfterReceiver(m))
  {
  }

  lemma PtrsInMachine(m: Machine, l: Layout, t: Type)
    requires t.align > 0
    requires forall k :: 0 <= k < |Assigned(m, l, t)| ==> Placed(m, l, Next(m, l, t), t.align, Assigned(m, l, t)[k])
    ensures forall k :: 0 <= k < |Assigned(m, l, t)| && Assigned(m, l, t)[k].PointerStep? ==> Assigned(m, l, t)[k].ireg < m.intArgRegs
  {
    hide Assigned, Next;
  }

  lemma StackNoPtr(m: Machine, l: Layout, t: Type)
    requires t.align > 0 && t.size > 0 && !Fits(m, t, l.iregs, l.fregs)
    ensures forall j: nat :: HasPtr(Assigned(m, l, t), j) <==> HasPtr([], j)
  {
    hide Fits, Align;
  }

  lemma MorePtrs(m: Machine, regPtrs: seq<bool>, marked: seq<bool>, values: seq<seq<AbiStep>>, steps: seq<AbiStep>)
    requires Marked(m, regPtrs, values) && |marked| == m.intArgRegs
    requires forall j :: 0 <= j < m.intArgRegs ==> (marked[j] <==> regPtrs[j] || HasPtr(steps, j))
    ensures Marked(m, marked, values + [steps])
  {
    hide HasPtr;
    var all := values + [steps];
    forall j | 0 <= j < m.intArgRegs ensures marked[j] <==> SomePtr(all, j) {
      if HasPtr(steps, j) { assert all[|values|] == steps; }
      if i :| 0 <= i < |values| && HasPtr(values[i], j) { assert all[i] == values[i]; }
    }
  }

  lemma LayoutZero(m: Machine, l: Layout, ts: seq<Type>)
    requires AllWellFormed(ts)
    ensures LayoutAt(m, l, ts, 0) == l
  {
  }

  function ReceiverStep(m: Machine, isPtr: bool): AbiStep {
    if m.intArgRegs == 0 then StackStep(0, PTR_SIZE, 0)
    else if isPtr then PointerStep(0, PTR_SIZE, 0) else IntRegStep(0, PTR_SIZE, 0)
  }

  lemma WordSlot()
    ensures Align(0, PTR_SIZE) == 0
  {
  }

  // -------------------------------------------------------- what an argument holds

  /** Frame and registers, read as the steps say, hold the value b of type t; bytes of
      padding do not matter. */
  ghost predicate Holds(t: Type, steps: seq<AbiStep>, frame: seq<Byte>, regs: Regs, b: seq<Byte>) {
    && |b| == t.size
    && if |steps| == 1 && steps[0].StackStep?
       then SlotHolds(t, steps[0].stkOff, frame, b)
       else AllHold(steps, |steps|, regs, b)
  }

  ghost predicate SlotHolds(t: Type, off: nat, frame: seq<Byte>, b: seq<Byte>) {
    off + t.size <= |frame| && |b| == t.size && forall i: nat :: i < t.size && DataByte(t, 0, i) ==> frame[off + i] == b[i]
  }

  /** What the steps of an argument are when it fits registers. */
  lemma InRegs(m: Machine, l: Layout, t: Type)
    requires WellFormed(t) && InMachine(m, l) && t.size > 0 && Fits(m, t, l.iregs, l.fregs)
    ensures t.align > 0 && RegSteps(m, Parts(t, 0), l.iregs, l.fregs, t.size, Assigned(m, l, t))
    ensures Assigned(m, l, t) != [] && !Assigned(m, l, t)[0].StackStep?
  {
    hide WellFormed, Registrable, Parts, Numbered, StepFor;
    HasAlign(t);
    PartsWithin(m, t, 0);
    NoStackPart(Parts(t, 0), l.iregs, l.fregs, 0);
  }

  /** A value found in a slot is a value whose every part is there. */
  lemma SlotParts(m: Machine, t: Type, off: nat, frame: seq<Byte>, b: seq<Byte>, steps: seq<AbiStep>, r: Regs, iregs: nat, fregs: nat)
    requires WellFormed(t) && Registrable(m, t) && SlotHolds(t, off, frame, b)
    requires RegSteps(m, Parts(t, 0), iregs, fregs, t.size, steps) && AllHold(steps, |steps|, r, frame[off..off + t.size])
    ensures AllHold(steps, |steps|, r, b)
  {
    hide WellFormed, Registrable, Parts, DataByte, RegSteps, StepFor, Ints, Floats, Covered, InRange, Other, AtLeast;
    var ps := Parts(t, 0);
    StepCount(m, ps, iregs, fregs, t.size, steps);
    forall k | 0 <= k < |steps| ensures RegHolds(steps[k], r, b) {
      StepIs(m, ps, iregs, fregs, t.size, steps, k);
      StepPlace(ps[k], iregs + Ints(ps[..k]), fregs + Floats(ps[..k]));
      var st := steps[k];
      assert RegHolds(st, r, frame[off..off + t.size]);
      forall i: nat | st.offset <= i < st.offset + st.size ensures frame[off..off + t.size][i] == b[i] {
        PartByte(m, t, k, i);
      }
      assert frame[off..off + t.size][st.offset..st.offset + st.size] == b[st.offset..st.offset + st.size];
    }
  }

  lemma PartByte(m: Machine, t: Type, k: nat, i: nat)
    requires WellFormed(t) && Registrable(m, t) && k < |Parts(t, 0)| && Covers(Parts(t, 0)[k], i)
    ensures DataByte(t, 0, i) && i < t.size
  {
    hide WellFormed, Registrable, Parts, DataByte;
    assert Covered(Parts(t, 0), i);
    PartsCover(m, t, 0, i);
    PartsWithin(m, t, 0);
    assert Within(Parts(t, 0)[k], 0, t.size);
  }

  /** A value whose every part is at its place in a slot is a value in the slot. */
  lemma PartsSlot(m: Machine, t: Type, off: nat, frame: seq<Byte>, b: seq<Byte>)
    requires WellFormed(t) && Registrable(m, t) && off + t.size <= |frame| && |b| == t.size
    requires forall i :: 0 <= i < |b| && Covered(Parts(t, 0), i) ==> frame[off + i] == b[i]
    ensures SlotHolds(t, off, frame, b)
  {
    hide WellFormed, Registrable, Parts, DataByte, Covered;
    forall i: nat | i < t.size && DataByte(t, 0, i) ensures frame[off + i] == b[i] {
      PartsCover(m, t, 0, i);
    }
  }

  /** What the layout before an argument promises is not touched. */
  ghost predicate Kept(l: Layout, frame: seq<Byte>, frame': seq<Byte>, regs: Regs, regs': Regs) {
    && |frame'| == |frame| && RegsKept(regs, regs', l.iregs, l.fregs)
    && forall i :: 0 <= i < l.stackBytes && i < |frame| ==> frame'[i] == frame[i]
  }

  /** An argument placed before l still holds after changes that keep what l promises. */
  lemma StillHolds(m: Machine, l0: Layout, l: Layout, t: Type, frame: seq<Byte>, frame': seq<Byte>, regs: Regs, regs': Regs, b: seq<Byte>)
    requires WellFormed(t) && InMachine(m, l0) && t.align > 0 && Below(Next(m, l0, t), l)
    requires RegsOk(m, regs) && RegsOk(m, regs') && Kept(l, frame, frame', regs, regs')
    requires Holds(t, Assigned(m, l0, t), frame, regs, b)
    ensures Holds(t, Assigned(m, l0, t), frame', regs', b)
  {
    hide WellFormed, DataByte, Assigned, Next;
    AssignedPlaced(m, l0, t);
    var steps := Assigned(m, l0, t);
    if |steps| == 1 && steps[0].StackStep? {
      Whole(m, l0, t, 0);
    } else {
      forall k | 0 <= k < |steps| ensures RegHolds(steps[k], regs', b) {
        assert RegHolds(steps[k], regs, b) && Placed(m, l0, Next(m, l0, t), t.align, steps[k]);
        RegStillHolds(m, l0, Next(m, l0, t), l, t.align, steps[k], regs, regs', b);
      }
    }
  }

  lemma RegStillHolds(m: Machine, l0: Layout, l1: Layout, l: Layout, al: nat, st: AbiStep, regs: Regs, regs': Regs, b: seq<Byte>)
    requires al > 0 && Placed(m, l0, l1, al, st) && Below(l1, l) && RegsOk(m, regs) && RegsOk(m, regs')
    requires RegsKept(regs, regs', l.iregs, l.fregs) && RegHolds(st, regs, b)
    ensures RegHolds(st, regs', b)
  {
  }

  /** The body of callMethod's loop: one argument, in any of the four cases. */
  method TranslateArg(m: Machine, t: Type, valueSteps: seq<AbiStep>, methodSteps: seq<AbiStep>,
                      valueFrame: seq<Byte>, valueRegs: Regs, frame0: seq<Byte>, regs0: Regs,
                      ghost lv: Layout, ghost lm: Layout, ghost b: seq<Byte>)
    returns (ok: bool, frame: seq<Byte>, regs: Regs)
    requires WellFormed(t) && t.align > 0 && InMachine(m, lv) && InMachine(m, lm) && RegsOk(m, valueRegs) && RegsOk(m, regs0)
    requires valueSteps == Assigned(m, lv, t) && methodSteps == Assigned(m, lm, t) && Next(m, lm, t).stackBytes <= |frame0|
    requires Holds(t, valueSteps, valueFrame, valueRegs, b)
    ensures ok && RegsOk(m, regs) && |frame| == |frame0| && Kept(lm, frame0, frame, regs0, regs)
    ensures Holds(t, methodSteps, frame, regs, b)
  {
    hide WellFormed, DataByte, Fits, Registrable, Parts, Covered, RegHolds;
    ok, frame, regs := true, frame0, regs0;
    if |valueSteps| == 0 {
      SizeZero(m, lv, lm, t);
      ok := |methodSteps| == 0;
      return;
    }
    Sizes(m, lv, lm, t);
    if valueSteps[0].StackStep? {
      if methodSteps[0].StackStep? {
        if valueSteps[0].size != methodSteps[0].size {
          return false, frame, regs;
        }
        var off := valueSteps[0].stkOff;
        frame := Put(frame, methodSteps[0].stkOff, valueFrame[off..off + t.size]);
        return;
      }
      InRegs(m, lm, t);
      FitsOnly(m, lm, t);
      var off := valueSteps[0].stkOff;
      ok, regs := StoreInRegs(m, methodSteps, valueFrame, off, regs, Parts(t, 0), lm.iregs, lm.fregs, t.size);
      SlotParts(m, t, off, valueFrame, b, methodSteps, regs, lm.iregs, lm.fregs);
      return;
    }
    InRegs(m, lv, t);
    FitsOnly(m, lv, t);
    if methodSteps[0].StackStep? {
      var off := methodSteps[0].stkOff;
      ok, frame := LoadFromRegs(m, valueSteps, valueRegs, frame, off, Parts(t, 0), lv.iregs, lv.fregs, b);
      PartsSlot(m, t, off, frame, b);
      return;
    }
    InRegs(m, lm, t);
    ok, regs := MoveRegs(m, valueSteps, methodSteps, valueRegs, regs, Parts(t, 0), lv.iregs, lv.fregs, lm.iregs, lm.fregs, b);
  }

  lemma SizeZero(m: Machine, lv: Layout, lm: Layout, t: Type)
    requires WellFormed(t) && t.align > 0 && InMachine(m, lv) && Assigned(m, lv, t) == []
    ensures t.size == 0 && Assigned(m, lm, t) == []
  {
    hide WellFormed, Fits;
    if t.size > 0 && Fits(m, t, lv.iregs, lv.fregs) { InRegs(m, lv, t); }
  }

  lemma Sizes(m: Machine, lv: Layout, lm: Layout, t: Type)
    requires WellFormed(t) && t.align > 0 && InMachine(m, lv) && InMachine(m, lm) && Assigned(m, lv, t) != []
    ensures t.size > 0 && Assigned(m, lm, t) != []
    ensures Assigned(m, lv, t)[0].StackStep? <==> !Fits(m, t, lv.iregs, lv.fregs)
    ensures Assigned(m, lm, t)[0].StackStep? <==> !Fits(m, t, lm.iregs, lm.fregs)
    ensures Assigned(m, lv, t)[0].StackStep? ==> |Assigned(m, lv, t)| == 1
    ensures Assigned(m, lm, t)[0].StackStep? ==> |Assigned(m, lm, t)| == 1
    ensures Assigned(m, lm, t)[0].StackStep? ==>
              var st := Assigned(m, lm, t)[0];
              st.size == t.size && lm.stackBytes <= st.stkOff && st.stkOff + t.size <= Next(m, lm, t).stackBytes
    ensures Assigned(m, lv, t)[0].StackStep? ==> Assigned(m, lv, t)[0].size == t.size
  {
    hide WellFormed, Fits, Align;
    if Fits(m, t, lv.iregs, lv.fregs) { InRegs(m, lv, t); }
    if Fits(m, t, lm.iregs, lm.fregs) { InRegs(m, lm, t); }
  }

  lemma FitsOnly(m: Machine, l: Layout, t: Type)
    requires Fits(m, t, l.iregs, l.fregs)
    ensures Registrable(m, t)
  {
  }

  // ------------------------------------------------------------------ callMethod

  /** callMethod up to the call: value is the layout without a receiver that the frame
      and registers came in, method the one with a receiver that the callee reads.
      args are the values that were passed. */
  method CallMethod(m: Machine, rcvrIsPtr: bool, rcvr: seq<Byte>, ts: seq<Type>, valueFrame: seq<Byte>, valueRegs: Regs, ghost args: seq<seq<Byte>>)
    returns (ok: bool, methodFrame: seq<Byte>, methodRegs: Regs)
    requires AllWellFormed(ts) && RegsOk(m, valueRegs) && |rcvr| == PTR_SIZE && |args| == |ts|
    requires forall i :: 0 <= i < |ts| ==>
               Holds(ts[i], Assigned(m, LayoutAt(m, Layout(0, 0, 0), ts, i), ts[i]), valueFrame, valueRegs, args[i])
    ensures ok && RegsOk(m, methodRegs)
    ensures ReceiverHolds(m, rcvrIsPtr, methodFrame, methodRegs, rcvr)
    ensures forall i :: 0 <= i < |ts| ==>
              Holds(ts[i], Assigned(m, LayoutAt(m, AfterReceiver(m), ts, i), ts[i]), methodFrame, methodRegs, args[i])
  {
    hide WellFormed, Assigned, Next, LayoutAt, Holds, ReceiverHolds, Kept, Below, InMachine, Marked, AbiSeq.Valid;
    InStart(m);
    var valueABI, regPtrs := BuildCall(m, false, false, ts);
    var methodABI, none := BuildCall(m, true, rcvrIsPtr, ts);
    ghost var lv, lm := Layout(0, 0, 0), AfterReceiver(m);
    var size := methodABI.stackBytes;
    RoomFor(m, lm, ts, 0);
    LayoutZero(m, lm, ts);
    methodFrame := seq(size, _ => 0);
    methodRegs := Regs(Zeros(m.intArgRegs), Zeros(m.floatArgRegs), Zeros(m.intArgRegs));
    var rcvrSteps := methodABI.StepsForValue(0);
    methodFrame, methodRegs := StoreReceiver(m, rcvrIsPtr, rcvr, rcvrSteps[0], methodFrame, methodRegs);
    var i := 0;
    while i < |ts|
      modifies {}
      invariant i <= |ts| && RegsOk(m, methodRegs) && |methodFrame| == size
      invariant ReceiverHolds(m, rcvrIsPtr, methodFrame, methodRegs, rcvr)
      invariant forall j :: 0 <= j < i ==>
                  Holds(ts[j], Assigned(m, LayoutAt(m, lm, ts, j), ts[j]), methodFrame, methodRegs, args[j])
    {
      var valueSteps := valueABI.StepsForValue(i);
      var methodSteps := methodABI.StepsForValue(i + 1);
      ghost var li, frame, regs := LayoutAt(m, lm, ts, i), methodFrame, methodRegs;
      RoomFor(m, lv, ts, i);
      RoomFor(m, lm, ts, i);
      RoomFor(m, lm, ts, i + 1);
      LayoutNext(m, lm, ts, i);
      ok, methodFrame, methodRegs :=
        TranslateArg(m, ts[i], valueSteps, methodSteps, valueFrame, valueRegs, methodFrame, methodRegs, LayoutAt(m, lv, ts, i), li, args[i]);
      if !ok {
        return;
      }
      ArgsStill(m, lm, ts, i, frame, methodFrame, regs, methodRegs, args);
      ReceiverStill(m, rcvrIsPtr, li, frame, methodFrame, regs, methodRegs, rcvr);
      i := i + 1;
    }
    ok := true;
  }

  lemma RoomFor(m: Machine, l: Layout, ts: seq<Type>, i: nat)
    requires AllWellFormed(ts) && l in {Layout(0, 0, 0), AfterReceiver(m)} && i <= |ts|
    ensures InMachine(m, LayoutAt(m, l, ts, i)) && Below(l, LayoutAt(m, l, ts, i))
    ensures LayoutAt(m, l, ts, i).stackBytes <= LayoutAt(m, l, ts, |ts|).stackBytes
  {
    InStart(m);
    LayoutMono(m, l, ts, 0, i);
    LayoutMono(m, l, ts, i, |ts|);
    LayoutZero(m, l, ts);
  }

  lemma ArgsStill(m: Machine, lm: Layout, ts: seq<Type>, i: nat, frame: seq<Byte>, frame': seq<Byte>, regs: Regs, regs': Regs, args: seq<seq<Byte>>)
    requires AllWellFormed(ts) && InMachine(m, lm) && i < |ts| == |args| && RegsOk(m, regs) && RegsOk(m, regs')
    requires Kept(LayoutAt(m, lm, ts, i), frame, frame', regs, regs')
    requires forall j :: 0 <= j < i ==> Holds(ts[j], Assigned(m, LayoutAt(m, lm, ts, j), ts[j]), frame, regs, args[j])
    ensures forall j :: 0 <= j < i ==> Holds(ts[j], Assigned(m, LayoutAt(m, lm, ts, j), ts[j]), frame', regs', args[j])
  {
    hide WellFormed, Holds, Kept, Below, InMachine, LayoutAt, Assigned;
    forall j | 0 <= j < i ensures Holds(ts[j], Assigned(m, LayoutAt(m, lm, ts, j), ts[j]), frame', regs', args[j]) {
      LayoutNext(m, lm, ts, j);
      LayoutMono(m, lm, ts, j + 1, i);
      LayoutMono(m, lm, ts, 0, j);
      StillHolds(m, LayoutAt(m, lm, ts, j), LayoutAt(m, lm, ts, i), ts[j], frame, frame', regs, regs', args[j]);
    }
  }

  function Zeros(n: nat): (r: seq<seq<Byte>>)
    ensures Words(r, n)
  {
    seq(n, _ => [0, 0, 0, 0, 0, 0, 0, 0])
  }

  /** The receiver's word is where the callee looks for it. */
  ghost predicate ReceiverHolds(m: Machine, isPtr: bool, frame: seq<Byte>, regs: Regs, rcvr: seq<Byte>) {
    if m.intArgRegs == 0 then |frame| >= PTR_SIZE && frame[..PTR_SIZE] == rcvr
    else |regs.ints| > 0 && |regs.ptrs| > 0 && regs.ints[0] == rcvr && (isPtr ==> regs.ptrs[0] == rcvr)
  }

  lemma ReceiverStill(m: Machine, isPtr: bool, l: Layout, frame: seq<Byte>, frame': seq<Byte>, regs: Regs, regs': Regs, rcvr: seq<Byte>)
    requires ReceiverHolds(m, isPtr, frame, regs, rcvr) && Kept(l, frame, frame', regs, regs') && Below(AfterReceiver(m), l)
    requires RegsOk(m, regs) && RegsOk(m, regs')
    ensures ReceiverHolds(m, isPtr, frame', regs', rcvr)
  {
    if m.intArgRegs == 0 {
      assert frame'[..PTR_SIZE] == frame[..PTR_SIZE];
    }
  }

  method StoreReceiver(m: Machine, isPtr: bool, rcvr: seq<Byte>, st: AbiStep, frame0: seq<Byte>, regs0: Regs) returns (frame: seq<Byte>, regs: Regs)
    requires RegsOk(m, regs0) && |rcvr| == PTR_SIZE && st == ReceiverStep(m, isPtr) && AfterReceiver(m).stackBytes <= |frame0|
    ensures RegsOk(m, regs) && |frame| == |frame0| && ReceiverHolds(m, isPtr, frame, regs, rcvr)
  {
    frame, regs := frame0, regs0;
    match st
    case StackStep(_, _, _) => frame := Put(frame, 0, rcvr);
    case PointerStep(_, _, i) =>
      regs := regs.(ptrs := regs.ptrs[i := rcvr]);
      regs := regs.(ints := regs.ints[i := rcvr]);
    case IntRegStep(_, _, i) => regs := regs.(ints := regs.ints[i := rcvr]);
    case FloatRegStep(_, _, f) => assert false;
  }
}
