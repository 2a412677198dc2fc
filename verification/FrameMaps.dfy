/** The bitmap of a call's frame: which words of the stack hold pointers of the receiver,
    the arguments and the results, collected while their slots are assigned. */
module FrameMaps {
  import opened AbiTypes
  import opened AbiSequence
  import opened AbiCalls
  import opened PtrBits

  /** What the compiler guarantees of a type with pointers. */
  ghost predicate Mapped(t: Type) {
    WellFormed(t) && t.align > 0 && WordAligned(t) && (Pointers(t) ==> t.align == PTR_SIZE)
  }

  ghost predicate AllMapped(ts: seq<Type>) { forall i :: 0 <= i < |ts| ==> Mapped(ts[i]) }

  /** The steps of all values, from the layout l on. */
  ghost function StepsFrom(m: Machine, l: Layout, ts: seq<Type>, n: nat): (r: seq<seq<AbiStep>>)
    requires n <= |ts| && Aligned(ts)
    ensures |r| == n
  {
    if n == 0 then [] else StepsFrom(m, l, ts, n - 1) + [Assigned(m, LayoutAt(m, l, ts, n - 1), ts[n - 1])]
  }

  /** The value has a slot, and word w of the frame is one of its pointers. */
  ghost predicate SlotWord(t: Type, steps: seq<AbiStep>, w: nat) {
    steps != [] && steps[0].StackStep? && PtrWord(t, steps[0].stkOff, w)
  }

  /** Word w of the frame holds a pointer: the receiver, if that is one and lies at the
      start of the frame, or one of a value in its slot. */
  ghost predicate FrameWord(rcvr: bool, ts: seq<Type>, steps: seq<seq<AbiStep>>, w: nat) {
    (rcvr && w == 0) || exists i :: 0 <= i < |ts| && i < |steps| && SlotWord(ts[i], steps[i], w)
  }

  /** The bits say so of every word; words behind the bits hold no pointers. */
  ghost predicate Exactly(bits: seq<bool>, rcvr: bool, ts: seq<Type>, steps: seq<seq<AbiStep>>) {
    |steps| == |ts| && forall w: nat :: (w < |bits| && bits[w]) <==> FrameWord(rcvr, ts, steps, w)
  }

  lemma MoreWords(rcvr: bool, ts: seq<Type>, steps: seq<seq<AbiStep>>, t: Type, more: seq<AbiStep>, w: nat)
    requires |steps| == |ts|
    ensures FrameWord(rcvr, ts + [t], steps + [more], w) <==> FrameWord(rcvr, ts, steps, w) || SlotWord(t, more, w)
  {
    hide SlotWord;
    var ts', steps' := ts + [t], steps + [more];
    if i :| 0 <= i < |ts| && i < |steps| && SlotWord(ts[i], steps[i], w) {
      assert SlotWord(ts'[i], steps'[i], w);
    }
    if SlotWord(t, more, w) { assert SlotWord(ts'[|ts|], steps'[|ts|], w); }
    if i :| 0 <= i < |ts'| && i < |steps'| && SlotWord(ts'[i], steps'[i], w) {
      assert i < |ts| ==> SlotWord(ts[i], steps[i], w);
    }
  }

  /** What addTypeBits needs of a slot: the bits so far end in front of it. */
  lemma SlotInFront(n: nat, stackBytes: nat, t: Type)
    requires Mapped(t) && n * PTR_SIZE <= stackBytes
    ensures InFront(n, Align(stackBytes, t.align), t)
    ensures EndWord(n, Align(stackBytes, t.align), PtrBytes(t)) >= n
    ensures EndWord(n, Align(stackBytes, t.align), PtrBytes(t)) * PTR_SIZE <= Align(stackBytes, t.align) + t.size
  {
    PtrBytesFit(t);
    hide WellFormed, WordAligned, PtrBytes, Align;
  }

  /** A word is no pointer of a value in front of which or behind whose pointers it lies. */
  lemma OutsideSlot(n: nat, off: nat, t: Type, w: nat)
    requires Mapped(t) && InFront(n, off, t) && (w < n || w >= EndWord(n, off, PtrBytes(t)))
    ensures !PtrWord(t, off, w)
  {
    hide WellFormed, WordAligned, PtrBytes, PtrWord;
    if PtrWord(t, off, w) {
      PtrWordRange(t, off, w);
    }
  }

  lemma AddedSlot(bits: seq<bool>, bits': seq<bool>, rcvr: bool, ts: seq<Type>, steps: seq<seq<AbiStep>>, t: Type, off: nat)
    requires Exactly(bits, rcvr, ts, steps) && Mapped(t) && InFront(|bits|, off, t)
    requires |bits'| == EndWord(|bits|, off, PtrBytes(t)) && |bits| <= |bits'|
    requires forall w :: 0 <= w < |bits'| ==> bits'[w] == if w < |bits| then bits[w] else PtrWord(t, off, w)
    ensures Exactly(bits', rcvr, ts + [t], steps + [[StackStep(0, t.size, off)]])
  {
    hide WellFormed, WordAligned, PtrBytes, PtrWord, FrameWord, InFront, EndWord, Mapped;
    var more := [StackStep(0, t.size, off)];
    forall w: nat ensures (w < |bits'| && bits'[w]) <==> FrameWord(rcvr, ts + [t], steps + [more], w) {
      MoreWords(rcvr, ts, steps, t, more, w);
      if w < |bits| || w >= |bits'| { OutsideSlot(|bits|, off, t, w); }
    }
  }

  lemma AddedNone(bits: seq<bool>, rcvr: bool, ts: seq<Type>, steps: seq<seq<AbiStep>>, t: Type, more: seq<AbiStep>)
    requires Exactly(bits, rcvr, ts, steps) && (more == [] || !more[0].StackStep?)
    ensures Exactly(bits, rcvr, ts + [t], steps + [more])
  {
    hide PtrWord, FrameWord;
    forall w: nat ensures (w < |bits| && bits[w]) <==> FrameWord(rcvr, ts + [t], steps + [more], w) {
      MoreWords(rcvr, ts, steps, t, more, w);
    }
  }

  lemma InMachineAt(m: Machine, l: Layout, ts: seq<Type>, i: nat)
    requires AllMapped(ts) && i <= |ts| && InMachine(m, l)
    ensures AllWellFormed(ts) && InMachine(m, LayoutAt(m, l, ts, i))
  {
    hide WellFormed, WordAligned, PtrBytes;
    LayoutMono(m, l, ts, i, i);
  }

  lemma AssignedKinds(m: Machine, l: Layout, t: Type)
    requires Mapped(t) && InMachine(m, l)
    ensures var slot := t.size > 0 && !Fits(m, t, l.iregs, l.fregs);
            && (slot ==> Assigned(m, l, t) == [StackStep(0, t.size, Align(l.stackBytes, t.align))])
            && (!slot ==> Assigned(m, l, t) == [] || !Assigned(m, l, t)[0].StackStep?)
            && (slot ==> Next(m, l, t).stackBytes == Align(l.stackBytes, t.align) + t.size)
            && Next(m, l, t).stackBytes >= l.stackBytes
  {
    hide WellFormed, WordAligned, PtrBytes, Align, Fits;
    if t.size > 0 && Fits(m, t, l.iregs, l.fregs) { InRegs(m, l, t); }
  }

  lemma AddedOne(m: Machine, l: Layout, bits: seq<bool>, bits': seq<bool>, rcvr: bool, ts: seq<Type>, steps: seq<seq<AbiStep>>, t: Type)
    requires Exactly(bits, rcvr, ts, steps) && Mapped(t) && InMachine(m, l) && |bits| * PTR_SIZE <= l.stackBytes
    requires BitsAdded(m, l, bits, bits', t)
    ensures Exactly(bits', rcvr, ts + [t], steps + [Assigned(m, l, t)]) && |bits'| * PTR_SIZE <= Next(m, l, t).stackBytes
  {
    hide Mapped, PtrBytes, PtrWord, Exactly, Assigned, Next, Fits, InFront, EndWord, Align;
    AssignedKinds(m, l, t);
    SlotInFront(|bits|, l.stackBytes, t);
    if HasSlot(m, l, t) {
      AddedSlot(bits, bits', rcvr, ts, steps, t, Align(l.stackBytes, t.align));
    } else {
      AddedNone(bits, rcvr, ts, steps, t, Assigned(m, l, t));
    }
  }

  predicate HasSlot(m: Machine, l: Layout, t: Type) { t.size > 0 && !Fits(m, t, l.iregs, l.fregs) }

  /** The bits of the slot of t, if it has one, are behind those that were there. */
  ghost predicate BitsAdded(m: Machine, l: Layout, bits: seq<bool>, bits': seq<bool>, t: Type)
    requires t.align > 0
  {
    if HasSlot(m, l, t) then
      var off := Align(l.stackBytes, t.align);
      && |bits'| == EndWord(|bits|, off, PtrBytes(t))
      && forall w :: 0 <= w < |bits'| ==> bits'[w] == if w < |bits| then bits[w] else PtrWord(t, off, w)
    else bits' == bits
  }

  /** A value gets its steps, and its pointers their bits if it has a slot. */
  method AddValue(a: AbiSeq, stackPtrs: BitVector, t: Type)
    requires a.Valid() && stackPtrs.Valid() && Mapped(t) && |stackPtrs.Bits()| * PTR_SIZE <= a.stackBytes
    modifies a, stackPtrs
    ensures a.Valid() && stackPtrs.Valid()
    ensures a.values == old(a.values) + [Assigned(a.m, old(a.Taken()), t)] && a.Taken() == Next(a.m, old(a.Taken()), t)
    ensures BitsAdded(a.m, old(a.Taken()), old(stackPtrs.Bits()), stackPtrs.Bits(), t)
  {
    hide WellFormed, WordAligned, PtrBytes, PtrWord, Assigned, Next, Fits, InFront, EndWord;
    ghost var n, l := |stackPtrs.Bits()|, a.Taken();
    SlotInFront(n, l.stackBytes, t);
    AssignedSlot(a.m, l, t);
    var onStack := a.AddArg(t);
    if onStack {
      var steps := a.StepsForValue(|a.valueStart| - 1);
      stackPtrs.AddTypeBits(steps[0].stkOff, t);
    }
  }

  lemma AssignedSlot(m: Machine, l: Layout, t: Type)
    requires t.align > 0
    ensures HasSlot(m, l, t) ==> Assigned(m, l, t) == [StackStep(0, t.size, Align(l.stackBytes, t.align))]
  {
    hide Align, Fits;
  }

  /** One loop of newAbiDesc. */
  method AddValues(a: AbiSeq, stackPtrs: BitVector, ts: seq<Type>, ghost rcvr: bool, ghost ts0: seq<Type>, ghost steps0: seq<seq<AbiStep>>)
    requires a.Valid() && stackPtrs.Valid() && AllMapped(ts)
    requires Exactly(stackPtrs.Bits(), rcvr, ts0, steps0) && |stackPtrs.Bits()| * PTR_SIZE <= a.stackBytes
    modifies a, stackPtrs
    ensures a.Valid() && stackPtrs.Valid()
    ensures a.values == old(a.values) + StepsFrom(a.m, old(a.Taken()), ts, |ts|) && a.Taken() == LayoutAt(a.m, old(a.Taken()), ts, |ts|)
    ensures Exactly(stackPtrs.Bits(), rcvr, ts0 + ts, steps0 + StepsFrom(a.m, old(a.Taken()), ts, |ts|))
    ensures |stackPtrs.Bits()| * PTR_SIZE <= a.stackBytes
  {
    hide AbiSeq.Valid, BitVector.Valid, BitVector.Bits, Exactly, Assigned, Next, LayoutAt, BitsAdded, WellFormed, WordAligned, PtrBytes;
    ghost var m, l, values := a.m, a.Taken(), a.values;
    assert InMachine(m, l) by { InRange(a); }
    var i := 0;
    InMachineAt(m, l, ts, 0);
    LayoutZero(m, l, ts);
    NoneYet(ts0, ts, steps0, values);
    while i < |ts|
      invariant i <= |ts| && a.Valid() && stackPtrs.Valid()
      invariant a.Taken() == LayoutAt(m, l, ts, i) && a.values == values + StepsFrom(m, l, ts, i)
      invariant Exactly(stackPtrs.Bits(), rcvr, ts0 + ts[..i], steps0 + StepsFrom(m, l, ts, i))
      invariant |stackPtrs.Bits()| * PTR_SIZE <= a.stackBytes
    {
      ghost var here, bits, done := a.Taken(), stackPtrs.Bits(), StepsFrom(m, l, ts, i);
      InMachineAt(m, l, ts, i);
      LayoutNext(m, l, ts, i);
      AddValue(a, stackPtrs, ts[i]);
      AddedOne(m, here, bits, stackPtrs.Bits(), rcvr, ts0 + ts[..i], steps0 + done, ts[i]);
      Appended(ts0, ts, i, steps0, done, values, Assigned(m, here, ts[i]));
      i := i + 1;
    }
    assert ts[..|ts|] == ts;
  }

  lemma InRange(a: AbiSeq)
    requires a.Valid()
    ensures InMachine(a.m, a.Taken())
  {
  }

  lemma NoneYet(ts0: seq<Type>, ts: seq<Type>, steps0: seq<seq<AbiStep>>, values: seq<seq<AbiStep>>)
    ensures ts0 + ts[..0] == ts0 && steps0 + [] == steps0 && values + [] == values
  {
  }

  lemma NoneInFront<T>(s: seq<T>)
    ensures [] + s == s
  {
  }

  lemma Appended(ts0: seq<Type>, ts: seq<Type>, i: nat, steps0: seq<seq<AbiStep>>, done: seq<seq<AbiStep>>, values: seq<seq<AbiStep>>, more: seq<AbiStep>)
    requires i < |ts|
    ensures ts0 + ts[..i + 1] == (ts0 + ts[..i]) + [ts[i]]
    ensures steps0 + (done + [more]) == (steps0 + done) + [more] && values + (done + [more]) == (values + done) + [more]
  {
  }

  /** The receiver, with its bit if it is left to the stack. */
  method StartFrame(m: Machine, hasRcvr: bool, rcvrIsPtr: bool) returns (a: AbiSeq, stackPtrs: BitVector)
    ensures a.Valid() && stackPtrs.Valid() && fresh(a) && fresh(stackPtrs) && a.m == m
    ensures a.values == if hasRcvr then [[ReceiverStep(m, rcvrIsPtr)]] else []
    ensures a.Taken() == if hasRcvr then AfterReceiver(m) else Layout(0, 0, 0)
    ensures Exactly(stackPtrs.Bits(), hasRcvr && m.intArgRegs == 0 && rcvrIsPtr, [], []) && |stackPtrs.Bits()| * PTR_SIZE <= a.stackBytes
  {
    hide Exactly, FrameWord;
    a := new AbiSeq(m, 0);
    stackPtrs := new BitVector();
    StartWords(hasRcvr && m.intArgRegs == 0 && rcvrIsPtr);
    if hasRcvr {
      WordSlot();
      a.AddRcvr(rcvrIsPtr);
      if m.intArgRegs == 0 { stackPtrs.Append(rcvrIsPtr); }
    }
    assert stackPtrs.Bits() == if hasRcvr && m.intArgRegs == 0 then [rcvrIsPtr] else [];
  }

  /** The frame of a call: the receiver, if it is left to the stack, and the arguments;
      then the results, from the next word on. The bits mark exactly the words of the
      frame that hold pointers, and none lie behind it. */
  method BuildFrameMap(m: Machine, hasRcvr: bool, rcvrIsPtr: bool, ts: seq<Type>, results: seq<Type>)
    returns (a: AbiSeq, out: AbiSeq, stackPtrs: BitVector, argsSize: nat, retOffset: nat)
    requires AllMapped(ts) && AllMapped(results)
    ensures a.Valid() && out.Valid() && stackPtrs.Valid() && fresh(a) && fresh(out) && fresh(stackPtrs)
    ensures var l := if hasRcvr then AfterReceiver(m) else Layout(0, 0, 0);
            var rcvr := if hasRcvr then [[ReceiverStep(m, rcvrIsPtr)]] else [];
            && a.values == rcvr + StepsFrom(m, l, ts, |ts|) && argsSize == LayoutAt(m, l, ts, |ts|).stackBytes
            && out.values == StepsFrom(m, Layout(retOffset, 0, 0), results, |results|)
            && Exactly(stackPtrs.Bits(), hasRcvr && m.intArgRegs == 0 && rcvrIsPtr, ts + results,
                       StepsFrom(m, l, ts, |ts|) + StepsFrom(m, Layout(retOffset, 0, 0), results, |results|))
    ensures retOffset == Align(argsSize, PTR_SIZE) && |stackPtrs.Bits()| * PTR_SIZE <= out.stackBytes + retOffset
    ensures out.stackBytes + retOffset == LayoutAt(m, Layout(retOffset, 0, 0), results, |results|).stackBytes
  {
    hide AbiSeq.Valid, BitVector.Valid, BitVector.Bits, Exactly, LayoutAt, AllMapped, StepsFrom, Align, ReceiverStep;
    ghost var rcvr := hasRcvr && m.intArgRegs == 0 && rcvrIsPtr;
    a, stackPtrs := StartFrame(m, hasRcvr, rcvrIsPtr);
    ghost var l := a.Taken();
    InStart(m);
    InMachineAt(m, l, ts, 0);
    AddValues(a, stackPtrs, ts, rcvr, [], []);
    argsSize := a.stackBytes;
    retOffset := Align(argsSize, PTR_SIZE);
    out := new AbiSeq(m, retOffset);
    ghost var steps := StepsFrom(m, l, ts, |ts|);
    NoneInFront(ts);
    NoneInFront(steps);
    InMachineAt(m, Layout(retOffset, 0, 0), results, 0);
    AddValues(out, stackPtrs, results, rcvr, ts, steps);
    Grows(m, Layout(retOffset, 0, 0), results);
    NoneInFront(out.values);
    Unshift(out, retOffset);
  }

  /** The offset of the results was only there to place them. */
  method Unshift(out: AbiSeq, retOffset: nat)
    requires out.Valid() && retOffset <= out.stackBytes
    modifies out`stackBytes
    ensures out.Valid() && out.stackBytes == old(out.stackBytes) - retOffset
  {
    out.stackBytes := out.stackBytes - retOffset;
  }

  lemma Grows(m: Machine, l: Layout, ts: seq<Type>)
    requires AllMapped(ts) && InMachine(m, l)
    ensures AllWellFormed(ts) && l.stackBytes <= LayoutAt(m, l, ts, |ts|).stackBytes
  {
    hide WellFormed, WordAligned, PtrBytes, Next;
    LayoutZero(m, l, ts);
    LayoutMono(m, l, ts, 0, |ts|);
  }

  lemma StartWords(rcvr: bool)
    ensures Exactly([rcvr], rcvr, [], []) && (!rcvr ==> Exactly([], rcvr, [], []))
  {
  }
}
