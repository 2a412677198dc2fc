/** A call through Values of a function made of Values: what Value.call stores is what
    callReflect finds. */
module AbiRoundTrip {
  import opened AbiTypes
  import opened AbiSequence
  import opened AbiMemory
  import opened AbiCalls

  /** A Value holds a pointer-shaped value itself, and points to any other. */
  datatype Value = Direct(word: seq<Byte>) | Indir(mem: seq<Byte>)

  function Bytes(v: Value): seq<Byte> {
    match v
    case Direct(word) => word
    case Indir(mem) => mem
  }

  /** The types whose values are one pointer. */
  predicate DirectIface(t: Type)
    decreases t
  {
    && t.size == PTR_SIZE
    && match t.kind
       case PointerKind => true
       case Array(len, elem) => len == 1 && DirectIface(elem)
       case Struct(fields) => |fields| == 1 && DirectIface(fields[0].typ)
       case _ => false
  }

  lemma {:induction false} DirectParts(m: Machine, t: Type)
    requires WellFormed(t) && DirectIface(t)
    ensures Registrable(m, t) && Parts(t, 0) == [Part(PtrPart, 0, PTR_SIZE)]
    decreases t
  {
    match t.kind
    case PointerKind => SomeInts(0, t.size, [true]);
    case Array(len, elem) => DirectParts(m, elem);
    case Struct(fields) => DirectField(m, fields);
  }

  lemma {:induction false} DirectField(m: Machine, fields: seq<Field>)
    requires |fields| == 1 && WellFormed(fields[0].typ) && DirectIface(fields[0].typ) && InOrder(fields, 0, PTR_SIZE)
    ensures AllRegistrable(m, fields) && FieldsParts(fields, 0) == [Part(PtrPart, 0, PTR_SIZE)]
    decreases fields
  {
    var f := fields[0];
    assert f.typ < f;
    DirectParts(m, f.typ);
    assert fields[1..] == [];
    assert f.offset == 0;
  }

  ghost predicate ValueOf(t: Type, v: Value) {
    |Bytes(v)| == t.size && (v.Direct? ==> DirectIface(t))
  }

  /** Up to padding, v is the value b of type t. */
  ghost predicate SameValue(t: Type, v: Value, b: seq<Byte>) {
    |Bytes(v)| == t.size == |b| && forall i: nat :: i < t.size && DataByte(t, 0, i) ==> Bytes(v)[i] == b[i]
  }

  /** The body of call's loop over the arguments. */
  method StoreValue(m: Machine, t: Type, steps: seq<AbiStep>, v: Value, frame0: seq<Byte>, regs0: Regs, ghost l: Layout)
    returns (ok: bool, frame: seq<Byte>, regs: Regs)
    requires WellFormed(t) && t.align > 0 && InMachine(m, l) && RegsOk(m, regs0) && ValueOf(t, v)
    requires steps == Assigned(m, l, t) && Next(m, l, t).stackBytes <= |frame0|
    ensures ok && RegsOk(m, regs) && |frame| == |frame0| && Kept(l, frame0, frame, regs0, regs)
    ensures Holds(t, steps, frame, regs, Bytes(v))
  {
    hide WellFormed, DataByte, Fits, Registrable, Parts, RegHolds, DirectIface, RegSteps;
    ok, frame, regs := true, frame0, regs0;
    if |steps| == 0 {
      SizeZero(m, l, l, t);
      return;
    }
    Sizes(m, l, l, t);
    if steps[0].StackStep? {
      match v {
        case Indir(mem) => frame := Put(frame, steps[0].stkOff, mem);
        case Direct(word) => frame := Put(frame, steps[0].stkOff, word);
      }
      return;
    }
    InRegs(m, l, t);
    match v
    case Indir(mem) =>
      ok, regs := StoreInRegs(m, steps, mem, 0, regs, Parts(t, 0), l.iregs, l.fregs, t.size);
      assert mem[0..0 + t.size] == mem;
    case Direct(word) =>
      DirectSize(t);
      DirectParts(m, t);
      DirectStep(m, t, l);
      if !steps[0].PointerStep? {
        return false, frame, regs;
      }
      var i := steps[0].ireg;
      regs := regs.(ptrs := regs.ptrs[i := word]);
      regs := regs.(ints := regs.ints[i := word]);
      DirectHolds(steps[0], regs, word);
  }

  lemma DirectStep(m: Machine, t: Type, l: Layout)
    requires t.size == PTR_SIZE && t.align > 0 && Fits(m, t, l.iregs, l.fregs) && Parts(t, 0) == [Part(PtrPart, 0, PTR_SIZE)]
    ensures Assigned(m, l, t) == [PointerStep(0, PTR_SIZE, l.iregs)] && l.iregs < m.intArgRegs
  {
    hide Registrable, Parts;
  }

  lemma DirectHolds(st: AbiStep, regs: Regs, word: seq<Byte>)
    requires st.PointerStep? && st.offset == 0 && st.size == PTR_SIZE == |word| && st.ireg < |regs.ints| && st.ireg < |regs.ptrs|
    requires regs.ints[st.ireg] == word && regs.ptrs[st.ireg] == word
    ensures RegHolds(st, regs, word)
  {
    assert word[0..0 + PTR_SIZE] == word;
  }

  /** call up to the call: the arguments go to a new frame and to registers. */
  method StoreArgs(m: Machine, abi: AbiSeq, ts: seq<Type>, vs: seq<Value>) returns (ok: bool, frame: seq<Byte>, regs: Regs)
    requires abi.Valid() && AllWellFormed(ts) && |vs| == |ts| == |abi.values|
    requires abi.Taken() == LayoutAt(m, Layout(0, 0, 0), ts, |ts|)
    requires forall i :: 0 <= i < |ts| ==> ValueOf(ts[i], vs[i]) && abi.values[i] == Assigned(m, LayoutAt(m, Layout(0, 0, 0), ts, i), ts[i])
    ensures ok && RegsOk(m, regs)
    ensures forall i :: 0 <= i < |ts| ==> Holds(ts[i], abi.values[i], frame, regs, Bytes(vs[i]))
  {
    hide WellFormed, Assigned, Next, LayoutAt, Holds, Kept, Below, InMachine, ValueOf;
    ghost var l := Layout(0, 0, 0);
    ghost var args := seq(|ts|, i requires 0 <= i < |ts| => Bytes(vs[i]));
    var size := abi.stackBytes;
    frame := seq(size, _ => 0);
    regs := Regs(Zeros(m.intArgRegs), Zeros(m.floatArgRegs), Zeros(m.intArgRegs));
    InStart(m);
    var i := 0;
    while i < |ts|
      modifies {}
      invariant i <= |ts| && RegsOk(m, regs) && |frame| == size
      invariant forall j :: 0 <= j < i ==> Holds(ts[j], Assigned(m, LayoutAt(m, l, ts, j), ts[j]), frame, regs, args[j])
    {
      var steps := abi.StepsForValue(i);
      RoomFor(m, l, ts, i);
      RoomFor(m, l, ts, i + 1);
      LayoutNext(m, l, ts, i);
      ghost var frame0, regs0 := frame, regs;
      ok, frame, regs := StoreValue(m, ts[i], steps, vs[i], frame, regs, LayoutAt(m, l, ts, i));
      if !ok {
        return;
      }
      ArgsStill(m, l, ts, i, frame0, frame, regs0, regs, args);
      i := i + 1;
    }
    ok := true;
  }

  /** Rebuilds the pointer copies of the registers from the bitmap. */
  method MoveMakeFuncArgPtrs(m: Machine, regPtrs: seq<bool>, regs0: Regs) returns (regs: Regs)
    requires RegsOk(m, regs0) && |regPtrs| == m.intArgRegs
    ensures RegsOk(m, regs) && regs.ints == regs0.ints && regs.floats == regs0.floats && |regs.ptrs| == |regs.ints| == m.intArgRegs
    ensures forall i :: 0 <= i < m.intArgRegs ==> regs.ptrs[i] == if regPtrs[i] then regs.ints[i] else [0, 0, 0, 0, 0, 0, 0, 0]
  {
    regs := regs0;
    for i := 0 to |regs.ints|
      invariant RegsOk(m, regs) && regs.ints == regs0.ints && regs.floats == regs0.floats
      invariant forall j :: 0 <= j < i ==> regs.ptrs[j] == if regPtrs[j] then regs.ints[j] else [0, 0, 0, 0, 0, 0, 0, 0]
    {
      if regPtrs[i] {
        regs := regs.(ptrs := regs.ptrs[i := regs.ints[i]]);
      } else {
        regs := regs.(ptrs := regs.ptrs[i := [0, 0, 0, 0, 0, 0, 0, 0]]);
      }
    }
  }

  /** The stub hands over integers and floats; with the bitmap, every argument is held
      again, whatever the pointer copies were. */
  lemma PtrsRestored(m: Machine, t: Type, steps: seq<AbiStep>, values: seq<seq<AbiStep>>, i: nat, frame: seq<Byte>, regs: Regs, regs': Regs, regPtrs: seq<bool>, b: seq<Byte>)
    requires Holds(t, steps, frame, regs, b) && RegsOk(m, regs) && RegsOk(m, regs') && Marked(m, regPtrs, values)
    requires i < |values| && values[i] == steps
    requires regs'.ints == regs.ints && regs'.floats == regs.floats && |regs'.ints| == |regs'.ptrs| == |regPtrs| == m.intArgRegs
    requires forall j :: 0 <= j < m.intArgRegs && regPtrs[j] ==> regs'.ptrs[j] == regs'.ints[j]
    ensures Holds(t, steps, frame, regs', b)
  {
    if !(|steps| == 1 && steps[0].StackStep?) {
      forall k | 0 <= k < |steps| ensures RegHolds(steps[k], regs', b) {
        assert RegHolds(steps[k], regs, b);
        if steps[k].PointerStep? {
          assert IsPtr(steps[k], steps[k].ireg);
          assert HasPtr(values[i], steps[k].ireg);
        }
      }
    }
  }

  /** The body of callReflect's loop over the arguments. */
  method LoadValue(m: Machine, t: Type, steps: seq<AbiStep>, frame: seq<Byte>, regs: Regs, ghost l: Layout, ghost b: seq<Byte>)
    returns (ok: bool, v: Value)
    requires WellFormed(t) && t.align > 0 && InMachine(m, l) && RegsOk(m, regs) && steps == Assigned(m, l, t)
    requires Holds(t, steps, frame, regs, b)
    ensures ok && SameValue(t, v, b) && ValueOf(t, v) && (v.Direct? <==> DirectIface(t))
  {
    hide WellFormed, DataByte, Fits, Registrable, Parts, RegHolds, Covered, DirectIface;
    ok, v := true, Indir([]);
    DirectSize(t);
    if t.size == 0 {
      EmptySteps(m, l, t);
      return;
    }
    NotEmptySteps(m, l, t);
    Sizes(m, l, l, t);
    if steps[0].StackStep? {
      var off := steps[0].stkOff;
      if !DirectIface(t) {
        v := Indir(frame[off..off + t.size]);
      } else {
        v := Direct(frame[off..off + PTR_SIZE]);
      }
      return;
    }
    InRegs(m, l, t);
    FitsOnly(m, l, t);
    if !DirectIface(t) {
      var mem := seq(t.size, _ => 0);
      ok, mem := LoadFromRegs(m, steps, regs, mem, 0, Parts(t, 0), l.iregs, l.fregs, b);
      PartsSlot(m, t, 0, mem, b);
      v := Indir(mem);
    } else {
      DirectParts(m, t);
      DirectStep(m, t, l);
      if !steps[0].PointerStep? {
        return false, v;
      }
      v := Direct(regs.ptrs[steps[0].ireg]);
      assert RegHolds(steps[0], regs, b);
      DirectLoads(steps[0], regs, b);
    }
  }

  lemma DirectLoads(st: AbiStep, regs: Regs, b: seq<Byte>)
    requires st.PointerStep? && st.offset == 0 && st.size == PTR_SIZE == |b| && RegHolds(st, regs, b)
    ensures st.ireg < |regs.ptrs| && regs.ptrs[st.ireg] == b
  {
    assert b[0..0 + PTR_SIZE] == b;
  }

  lemma EmptySteps(m: Machine, l: Layout, t: Type)
    requires t.size == 0 && t.align > 0
    ensures Assigned(m, l, t) == []
  {
  }

  lemma NotEmptySteps(m: Machine, l: Layout, t: Type)
    requires WellFormed(t) && t.align > 0 && t.size > 0 && InMachine(m, l)
    ensures Assigned(m, l, t) != []
  {
    hide WellFormed, Fits;
    if Fits(m, t, l.iregs, l.fregs) { InRegs(m, l, t); }
  }

  lemma DirectSize(t: Type)
    ensures DirectIface(t) ==> t.size == PTR_SIZE
  {
  }

  /** For every signature without a receiver and all values: what callReflect passes on
      is what call was given, and none of the panics on the way is reached. garbage is
      what the pointer copies hold when the stub is entered. */
  method CallRoundTrip(m: Machine, ts: seq<Type>, vs: seq<Value>, garbage: seq<seq<Byte>>) returns (ok: bool, out: seq<Value>)
    requires AllWellFormed(ts) && |vs| == |ts| && Words(garbage, m.intArgRegs)
    requires forall i :: 0 <= i < |ts| ==> ValueOf(ts[i], vs[i])
    ensures ok && |out| == |ts|
    ensures forall i :: 0 <= i < |ts| ==>
              ValueOf(ts[i], out[i]) && SameValue(ts[i], out[i], Bytes(vs[i])) && (out[i].Direct? <==> DirectIface(ts[i]))
  {
    hide WellFormed, Assigned, Next, LayoutAt, Holds, InMachine, Marked, ValueOf, SameValue, Below, SomePtr, RegsOk, Words, DirectIface;
    out := [];
    var abi, regPtrs := BuildCall(m, false, false, ts);
    assert Marked(m, regPtrs, abi.values) && |regPtrs| == m.intArgRegs by { MarkedSize(m, regPtrs, abi.values); }
    var frame, regs;
    ok, frame, regs := StoreArgs(m, abi, ts, vs);
    if !ok {
      return;
    }
    StubRegs(m, regs, garbage);
    var taken := MoveMakeFuncArgPtrs(m, regPtrs, regs.(ptrs := garbage));
    forall i | 0 <= i < |ts| ensures Holds(ts[i], abi.values[i], frame, taken, Bytes(vs[i])) {
      PtrsRestored(m, ts[i], abi.values[i], abi.values, i, frame, regs, taken, regPtrs, Bytes(vs[i]));
    }
    ok, out := LoadArgs(m, abi, ts, frame, taken, vs);
  }

  /** callReflect up to the call of the function: the arguments come out of the frame and
      the registers. */
  method LoadArgs(m: Machine, abi: AbiSeq, ts: seq<Type>, frame: seq<Byte>, regs: Regs, ghost vs: seq<Value>)
    returns (ok: bool, out: seq<Value>)
    requires abi.Valid() && AllWellFormed(ts) && |vs| == |ts| == |abi.values| && RegsOk(m, regs)
    requires forall i :: 0 <= i < |ts| ==>
               && abi.values[i] == Assigned(m, LayoutAt(m, Layout(0, 0, 0), ts, i), ts[i])
               && Holds(ts[i], abi.values[i], frame, regs, Bytes(vs[i]))
    ensures ok && |out| == |ts|
    ensures forall i :: 0 <= i < |ts| ==>
              ValueOf(ts[i], out[i]) && SameValue(ts[i], out[i], Bytes(vs[i])) && (out[i].Direct? <==> DirectIface(ts[i]))
  {
    hide WellFormed, Assigned, Next, LayoutAt, Holds, InMachine, ValueOf, SameValue, Below, RegsOk, DirectIface;
    out := [];
    ok := true;
    InStart(m);
    var i := 0;
    while i < |ts|
      modifies {}
      invariant i <= |ts| && |out| == i && ok
      invariant forall j :: 0 <= j < i ==>
                  ValueOf(ts[j], out[j]) && SameValue(ts[j], out[j], Bytes(vs[j])) && (out[j].Direct? <==> DirectIface(ts[j]))
    {
      var steps := abi.StepsForValue(i);
      RoomFor(m, Layout(0, 0, 0), ts, i);
      var v;
      ok, v := LoadValue(m, ts[i], steps, frame, regs, LayoutAt(m, Layout(0, 0, 0), ts, i), Bytes(vs[i]));
      if !ok {
        return;
      }
      out := out + [v];
      i := i + 1;
    }
  }

  lemma StubRegs(m: Machine, regs: Regs, garbage: seq<seq<Byte>>)
    requires RegsOk(m, regs) && Words(garbage, m.intArgRegs)
    ensures RegsOk(m, regs.(ptrs := garbage))
  {
  }

  lemma MarkedSize(m: Machine, regPtrs: seq<bool>, values: seq<seq<AbiStep>>)
    requires Marked(m, regPtrs, values)
    ensures |regPtrs| == m.intArgRegs
  {
  }
}
