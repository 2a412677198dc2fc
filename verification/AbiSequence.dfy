/** The assignment of arguments to registers and stack slots, with its roll back. */
module AbiSequence {
  import opened AbiTypes

  /** One instruction for moving a part of a value: offset and size are its place in
      memory, the rest its place in the call. */
  datatype AbiStep =
    | StackStep(offset: nat, size: nat, stkOff: nat)
    | IntRegStep(offset: nat, size: nat, ireg: nat)
    | PointerStep(offset: nat, size: nat, ireg: nat)
    | FloatRegStep(offset: nat, size: nat, freg: nat)

  /** x rounded up to a multiple of n, a power of two. */
  function Align(x: nat, n: nat): (r: nat)
    requires n > 0
    ensures x <= r < x + n && r % n == 0
  {
    AlignIs((x + (n - 1)) / n, n);
    (x + (n - 1)) / n * n
  }

  lemma AlignIs(q: nat, n: nat)
    requires n > 0
    ensures q * n % n == 0
  {
    var p := q * n;
    var k, r := p / n, p % n;
    assert p == k * n + r;
    assert r == (q - k) * n;
    WholeTimes(q - k, n);
  }

  lemma WholeTimes(d: int, n: nat)
    ensures d >= 1 ==> d * n >= n
    ensures d <= -1 ==> d * n + n <= 0
    ensures d == 0 ==> d * n == 0
  {
  }

  // ------------------------------------------------------ what must be assigned

  function StepFor(p: Part, iregs: nat, fregs: nat): AbiStep {
    match p.kind
    case IntPart => IntRegStep(p.offset, p.size, iregs)
    case PtrPart => PointerStep(p.offset, p.size, iregs)
    case FloatPart => FloatRegStep(p.offset, p.size, fregs)
  }

  /** The parts, in the next free registers of their kinds. */
  function Numbered(ps: seq<Part>, iregs: nat, fregs: nat): (r: seq<AbiStep>)
    ensures |r| == |ps|
  {
    if ps == [] then []
    else [StepFor(ps[0], iregs, fregs)] + Numbered(ps[1..], iregs + IntOf(ps[0]), fregs + FloatOf(ps[0]))
  }

  /** What is taken before an argument is placed. */
  datatype Layout = Layout(stackBytes: nat, iregs: nat, fregs: nat)

  /** The steps of an argument: none if it is empty, its parts in registers if all of
      them fit, and one stack slot otherwise. */
  function Assigned(m: Machine, l: Layout, t: Type): seq<AbiStep>
    requires t.align > 0
  {
    if t.size == 0 then []
    else if Fits(m, t, l.iregs, l.fregs) then Numbered(Parts(t, 0), l.iregs, l.fregs)
    else [StackStep(0, t.size, Align(l.stackBytes, t.align))]
  }

  function Next(m: Machine, l: Layout, t: Type): Layout
    requires t.align > 0
  {
    if t.size == 0 then l.(stackBytes := Align(l.stackBytes, t.align))
    else if Fits(m, t, l.iregs, l.fregs) then l.(iregs := l.iregs + Ints(Parts(t, 0)), fregs := l.fregs + Floats(Parts(t, 0)))
    else l.(stackBytes := Align(l.stackBytes, t.align) + t.size)
  }

  ghost predicate Aligned(ts: seq<Type>) { forall i :: 0 <= i < |ts| ==> ts[i].align > 0 }

  /** The layout before the i-th argument. */
  ghost function LayoutAt(m: Machine, l: Layout, ts: seq<Type>, i: nat): Layout
    requires i <= |ts| && Aligned(ts)
  {
    if i == 0 then l else Next(m, LayoutAt(m, l, ts, i - 1), ts[i - 1])
  }

  /** What is taken once the receiver, one word, is placed. */
  function AfterReceiver(m: Machine): Layout {
    if m.intArgRegs >= 1 then Layout(0, 1, 0) else Layout(PTR_SIZE, 0, 0)
  }

  // ------------------------------------------------------------- laws of numbering

  lemma NumberedNext(p: Part, ps: seq<Part>, iregs: nat, fregs: nat)
    ensures Numbered([p] + ps, iregs, fregs) == [StepFor(p, iregs, fregs)] + Numbered(ps, iregs + IntOf(p), fregs + FloatOf(p))
    ensures Ints([p] + ps) == IntOf(p) + Ints(ps) && Floats([p] + ps) == FloatOf(p) + Floats(ps)
  {
    hide StepFor;
    assert ([p] + ps)[1..] == ps && ([p] + ps)[0] == p;
  }

  lemma {:induction false} NumberedSum(ps: seq<Part>, qs: seq<Part>, iregs: nat, fregs: nat)
    ensures Numbered(ps + qs, iregs, fregs)
         == Numbered(ps, iregs, fregs) + Numbered(qs, iregs + Ints(ps), fregs + Floats(ps))
  {
    if ps == [] {
      assert ps + qs == qs;
    } else {
      hide Numbered, Ints, Floats, StepFor, IntOf, FloatOf;
      var p, rest := ps[0], ps[1..];
      var i, f := iregs + IntOf(p), fregs + FloatOf(p);
      assert ps == [p] + rest && ps + qs == [p] + (rest + qs);
      NumberedNext(p, rest, iregs, fregs);
      NumberedNext(p, rest + qs, iregs, fregs);
      NumberedSum(rest, qs, i, f);
      Associate([StepFor(p, iregs, fregs)], Numbered(rest, i, f), Numbered(qs, i + Ints(rest), f + Floats(rest)));
    }
  }

  function IntStep(offset: nat, size: nat, i: nat, ptrMap: seq<bool>, ireg: nat): AbiStep
    requires i < |ptrMap|
  {
    if ptrMap[i] then PointerStep(WordAt(offset, size, i), size, ireg)
    else IntRegStep(WordAt(offset, size, i), size, ireg)
  }

  lemma PeelInt(offset: nat, size: nat, i: nat, n: nat, ptrMap: seq<bool>, iregs: nat, fregs: nat)
    requires i < n == |ptrMap|
    ensures Numbered(IntParts(offset, size, i, n, ptrMap), iregs, fregs)
         == [IntStep(offset, size, i, ptrMap, iregs)]
            + Numbered(IntParts(offset, size, i + 1, n, ptrMap), iregs + 1, fregs)
  {
    var p := WordPart(WordAt(offset, size, i), size, ptrMap[i]);
    assert IntParts(offset, size, i, n, ptrMap)[1..] == IntParts(offset, size, i + 1, n, ptrMap);
  }

  lemma Regroup(a: seq<AbiStep>, x: AbiStep, b: seq<AbiStep>)
    ensures a + ([x] + b) == (a + [x]) + b
  {
  }

  lemma NoneLeft(offset: nat, size: nat, n: nat, ptrMap: seq<bool>, iregs: nat, fregs: nat)
    requires n == |ptrMap|
    ensures Numbered(IntParts(offset, size, n, n, ptrMap), iregs, fregs) == []
  {
  }

  lemma NoFloatLeft(offset: nat, size: nat, n: nat, iregs: nat, fregs: nat)
    ensures Numbered(FloatParts(offset, size, n, n), iregs, fregs) == []
  {
  }

  lemma PeelFloat(offset: nat, size: nat, i: nat, n: nat, iregs: nat, fregs: nat)
    requires i < n
    ensures Numbered(FloatParts(offset, size, i, n), iregs, fregs)
         == [FloatRegStep(WordAt(offset, size, i), size, fregs)] + Numbered(FloatParts(offset, size, i + 1, n), iregs, fregs + 1)
  {
    assert FloatParts(offset, size, i, n)[1..] == FloatParts(offset, size, i + 1, n);
  }

  /** The k-th step is for the k-th part, with as many registers taken before it as
      parts of each kind come before it: whatever registers were free, the same parts
      are moved in the same order. */
  lemma {:induction false} NumberedAt(ps: seq<Part>, iregs: nat, fregs: nat, k: nat)
    requires k < |ps|
    ensures Numbered(ps, iregs, fregs)[k] == StepFor(ps[k], iregs + Ints(ps[..k]), fregs + Floats(ps[..k]))
    ensures ps[k].kind.FloatPart? ==> Floats(ps[..k]) < Floats(ps)
    ensures !ps[k].kind.FloatPart? ==> Ints(ps[..k]) < Ints(ps)
  {
    assert ps == ps[..k] + ([ps[k]] + ps[k + 1..]);
    NumberedSum(ps[..k], [ps[k]] + ps[k + 1..], iregs, fregs);
    CountsOfSum(ps[..k], [ps[k]] + ps[k + 1..]);
    CountsOfSum([ps[k]], ps[k + 1..]);
    assert ([ps[k]] + ps[k + 1..])[0] == ps[k];
  }

  /** Two parts of one kind of register never share a register. */
  lemma NumberedDistinct(ps: seq<Part>, j: nat, k: nat)
    requires j < k < |ps|
    ensures !ps[j].kind.FloatPart? ==> Ints(ps[..j]) < Ints(ps[..k])
    ensures ps[j].kind.FloatPart? ==> Floats(ps[..j]) < Floats(ps[..k])
  {
    assert ps[..k] == ps[..j] + ps[j..k];
    CountsOfSum(ps[..j], ps[j..k]);
    assert ps[j..k] == [ps[j]] + ps[j + 1..k];
    CountsOfSum([ps[j]], ps[j + 1..k]);
  }

  // -------------------------------------------------------------- the sequence

  function Flat(values: seq<seq<AbiStep>>): seq<AbiStep> {
    if values == [] then [] else Flat(values[..|values| - 1]) + values[|values| - 1]
  }

  lemma {:induction false} FlatPrefix(values: seq<seq<AbiStep>>, i: nat)
    requires i <= |values|
    ensures |Flat(values[..i])| <= |Flat(values)| && Flat(values)[..|Flat(values[..i])|] == Flat(values[..i])
  {
    if i < |values| {
      var less := values[..|values| - 1];
      FlatPrefix(less, i);
      assert less[..i] == values[..i];
    } else {
      assert values[..i] == values;
    }
  }

  class AbiSeq {
    const m: Machine
    var steps: seq<AbiStep>
    var valueStart: seq<nat>
    var stackBytes: nat
    var iregs: nat
    var fregs: nat
    /** The steps of each value. */
    ghost var values: seq<seq<AbiStep>>

    ghost predicate Valid()
      reads this
    {
      && steps == Flat(values) && |valueStart| == |values|
      && (forall i :: 0 <= i < |values| ==> valueStart[i] == |Flat(values[..i])|)
      && iregs <= m.intArgRegs && fregs <= m.floatArgRegs
    }

    ghost function Taken(): Layout
      reads this
    {
      Layout(stackBytes, iregs, fregs)
    }

    constructor (m: Machine, stackBytes: nat)
      ensures Valid() && this.m == m && values == [] && Taken() == Layout(stackBytes, 0, 0)
    {
      this.m := m;
      steps, valueStart, iregs, fregs, values := [], [], 0, 0, [];
      this.stackBytes := stackBytes;
    }

    method StepsForValue(i: nat) returns (r: seq<AbiStep>)
      requires Valid() && i < |values|
      ensures r == values[i]
    {
      var s := valueStart[i];
      var e: nat;
      if i == |valueStart| - 1 {
        e := |steps|;
        assert values[..i + 1] == values;
      } else {
        e := valueStart[i + 1];
      }
      FlatPrefix(values, i + 1);
      assert values[..i + 1][..i] == values[..i];
      r := steps[s..e];
    }

    /** Reserves n integer registers, if they are left, for words of size bytes each;
        bit k of ptrMap says that word k is a pointer. */
    method AssignIntN(offset: nat, size: nat, n: nat, ptrMap: seq<bool>) returns (ok: bool)
      requires n == |ptrMap| <= 8 && (true in ptrMap ==> size == PTR_SIZE)
      modifies this`steps, this`iregs
      ensures ok == (old(iregs) + n <= m.intArgRegs)
      ensures ok ==> iregs == old(iregs) + n && steps == old(steps) + Numbered(IntParts(offset, size, 0, n, ptrMap), old(iregs), fregs)
      ensures !ok ==> iregs == old(iregs) && steps == old(steps)
    {
      if iregs + n > m.intArgRegs {
        return false;
      }
      hide IntStep, Numbered, IntParts;
      ghost var all := Numbered(IntParts(offset, size, 0, n, ptrMap), iregs, fregs);
      var i := 0;
      while i < n
        invariant i <= n && iregs == old(iregs) + i
        invariant steps + Numbered(IntParts(offset, size, i, n, ptrMap), iregs, fregs) == old(steps) + all
      {
        PeelInt(offset, size, i, n, ptrMap, iregs, fregs);
        var step := IntStep(offset, size, i, ptrMap, iregs);
        Regroup(steps, step, Numbered(IntParts(offset, size, i + 1, n, ptrMap), iregs + 1, fregs));
        steps := steps + [step];
        iregs := iregs + 1;
        i := i + 1;
      }
      NoneLeft(offset, size, n, ptrMap, iregs, fregs);
      ok := true;
    }

    method AssignFloatN(offset: nat, size: nat, n: nat) returns (ok: bool)
      modifies this`steps, this`fregs
      ensures ok == (old(fregs) + n <= m.floatArgRegs && size <= m.floatRegSize)
      ensures ok ==> fregs == old(fregs) + n && steps == old(steps) + Numbered(FloatParts(offset, size, 0, n), iregs, old(fregs))
      ensures !ok ==> fregs == old(fregs) && steps == old(steps)
    {
      if fregs + n > m.floatArgRegs || m.floatRegSize < size {
        return false;
      }
      hide Numbered, FloatParts, WordAt;
      ghost var all := Numbered(FloatParts(offset, size, 0, n), iregs, fregs);
      var i := 0;
      while i < n
        invariant i <= n && fregs == old(fregs) + i
        invariant steps + Numbered(FloatParts(offset, size, i, n), iregs, fregs) == old(steps) + all
      {
        PeelFloat(offset, size, i, n, iregs, fregs);
        var step := FloatRegStep(WordAt(offset, size, i), size, fregs);
        Regroup(steps, step, Numbered(FloatParts(offset, size, i + 1, n), iregs, fregs + 1));
        steps := steps + [step];
        fregs := fregs + 1;
        i := i + 1;
      }
      NoFloatLeft(offset, size, n, iregs, fregs);
      ok := true;
    }

    /** Reserves registers for a value of type t stored at offset. When it fails, steps
        and counters may have moved on, and the caller must restore them. */
    method RegAssign(t: Type, offset: nat) returns (ok: bool)
      requires iregs <= m.intArgRegs && fregs <= m.floatArgRegs && WellFormed(t)
      modifies this`steps, this`iregs, this`fregs
      ensures ok == (Registrable(m, t) && Room(m, Parts(t, offset), old(iregs), old(fregs)))
      ensures ok ==> steps == old(steps) + Numbered(Parts(t, offset), old(iregs), old(fregs))
      ensures ok ==> iregs == old(iregs) + Ints(Parts(t, offset)) && fregs == old(fregs) + Floats(Parts(t, offset))
      decreases t
    {
      hide WellFormed, Registrable, Parts, Numbered, Ints, Floats;
      match t.kind
      case PointerKind =>
        LeafParts(m, t, offset);
        ok := AssignIntN(offset, t.size, 1, [true]);
      case IntKind =>
        LeafParts(m, t, offset);
        ok := AssignIntN(offset, t.size, 1, [false]);
      case FloatKind =>
        LeafParts(m, t, offset);
        ok := AssignFloatN(offset, t.size, 1);
      case ComplexKind =>
        LeafParts(m, t, offset);
        ok := AssignFloatN(offset, t.size / 2, 2);
      case StringKind =>
        LeafParts(m, t, offset);
        ok := AssignIntN(offset, PTR_SIZE, 2, [true, false]);
      case InterfaceKind =>
        LeafParts(m, t, offset);
        ok := AssignIntN(offset, PTR_SIZE, 2, [false, true]);
      case SliceKind =>
        LeafParts(m, t, offset);
        ok := AssignIntN(offset, PTR_SIZE, 3, [true, false, false]);
      case Array(len, elem) =>
        ArrayParts(m, t, offset);
        if len == 0 {
          ok := true;
        } else if len == 1 {
          ok := RegAssign(elem, offset);
        } else {
          ok := false;
        }
      case Struct(fields) =>
        StructParts(m, t, offset);
        ok := FieldsAssign(fields, offset);
    }

    method FieldsAssign(fields: seq<Field>, offset: nat) returns (ok: bool)
      requires iregs <= m.intArgRegs && fregs <= m.floatArgRegs && forall f :: f in fields ==> WellFormed(f.typ)
      modifies this`steps, this`iregs, this`fregs
      ensures ok == (AllRegistrable(m, fields) && Room(m, FieldsParts(fields, offset), old(iregs), old(fregs)))
      ensures ok ==> steps == old(steps) + Numbered(FieldsParts(fields, offset), old(iregs), old(fregs))
      ensures ok ==> iregs == old(iregs) + Ints(FieldsParts(fields, offset)) && fregs == old(fregs) + Floats(FieldsParts(fields, offset))
      decreases fields
    {
      hide WellFormed, Registrable, AllRegistrable, Parts, FieldsParts, Numbered, Ints, Floats;
      ghost var all := Numbered(FieldsParts(fields, offset), iregs, fregs);
      var i := 0;
      assert fields[0..] == fields;
      while i < |fields|
        invariant i <= |fields| && iregs <= m.intArgRegs && fregs <= m.floatArgRegs
        invariant AllRegistrable(m, fields) == AllRegistrable(m, fields[i..])
        invariant iregs + Ints(FieldsParts(fields[i..], offset)) == old(iregs) + Ints(FieldsParts(fields, offset))
        invariant fregs + Floats(FieldsParts(fields[i..], offset)) == old(fregs) + Floats(FieldsParts(fields, offset))
        invariant steps + Numbered(FieldsParts(fields[i..], offset), iregs, fregs) == old(steps) + all
      {
        var f := fields[i];
        assert f.typ < f && f in fields;
        FirstField(m, fields[i..], offset, iregs, fregs);
        assert fields[i..][1..] == fields[i + 1..];
        ghost var done, rest := Numbered(Parts(f.typ, offset + f.offset), iregs, fregs), steps;
        var fits := RegAssign(f.typ, offset + f.offset);
        if !fits {
          return false;
        }
        Associate(rest, done, Numbered(FieldsParts(fields[i + 1..], offset), iregs, fregs));
        i := i + 1;
      }
      NoFields(m, offset, iregs, fregs);
      assert fields[i..] == [];
      ok := true;
    }

    /** Places one whole value on the stack. */
    method StackAssign(size: nat, alignment: nat)
      requires alignment > 0
      modifies this`steps, this`stackBytes
      ensures steps == old(steps) + [StackStep(0, size, Align(old(stackBytes), alignment))]
      ensures stackBytes == Align(old(stackBytes), alignment) + size
    {
      stackBytes := Align(stackBytes, alignment);
      steps := steps + [StackStep(0, size, stackBytes)];
      stackBytes := stackBytes + size;
    }

    /** Adds an argument; onStack tells whether a stack slot was made for it. */
    method AddArg(t: Type) returns (onStack: bool)
      requires Valid() && WellFormed(t)
      modifies this
      ensures Valid() && t.align > 0 && values == old(values) + [Assigned(m, old(Taken()), t)] && Taken() == Next(m, old(Taken()), t)
      ensures onStack == (t.size > 0 && !Fits(m, t, old(iregs), old(fregs)))
    {
      hide WellFormed, Registrable, Parts, Numbered, Ints, Floats, Align, Flat, Room;
      HasAlign(t);
      valueStart := valueStart + [|steps|];
      ghost var more := Assigned(m, Taken(), t);
      FlatMore(values, more);
      values := values + [more];
      if t.size == 0 {
        stackBytes := Align(stackBytes, t.align);
        return false;
      }
      var stepsOld, iregsOld, fregsOld := steps, iregs, fregs;
      var ok := RegAssign(t, 0);
      if !ok {
        steps, iregs, fregs := stepsOld, iregsOld, fregsOld;
        StackAssign(t.size, t.align);
        return true;
      }
      RoomLeft(m, Parts(t, 0), iregsOld, fregsOld);
      onStack := false;
    }

    /** Adds the receiver, one word; isPtr says that it is a pointer. */
    method AddRcvr(isPtr: bool)
      requires Valid()
      modifies this
      ensures Valid() && values == old(values) + [[if old(iregs) + 1 > m.intArgRegs then StackStep(0, PTR_SIZE, Align(old(stackBytes), PTR_SIZE))
                                                   else if isPtr then PointerStep(0, PTR_SIZE, old(iregs)) else IntRegStep(0, PTR_SIZE, old(iregs))]]
      ensures Taken() == if old(iregs) + 1 > m.intArgRegs then Layout(Align(old(stackBytes), PTR_SIZE) + PTR_SIZE, old(iregs), old(fregs))
                         else Layout(old(stackBytes), old(iregs) + 1, old(fregs))
    {
      hide Align, Flat;
      valueStart := valueStart + [|steps|];
      ghost var more := [if iregs + 1 > m.intArgRegs then StackStep(0, PTR_SIZE, Align(stackBytes, PTR_SIZE))
                         else if isPtr then PointerStep(0, PTR_SIZE, iregs) else IntRegStep(0, PTR_SIZE, iregs)];
      FlatMore(values, more);
      values := values + [more];
      OneWord(isPtr, iregs, fregs);
      var ok := AssignIntN(0, PTR_SIZE, 1, [isPtr]);
      if !ok {
        StackAssign(PTR_SIZE, PTR_SIZE);
      }
    }
  }

  // ------------------------------------------------- what the steps of a type are

  lemma HasAlign(t: Type)
    requires WellFormed(t)
    ensures t.align > 0
  {
  }

  lemma FlatMore(values: seq<seq<AbiStep>>, more: seq<AbiStep>)
    ensures Flat(values + [more]) == Flat(values) + more
    ensures forall i :: 0 <= i <= |values| ==> (values + [more])[..i] == values[..i]
  {
    assert (values + [more])[..|values|] == values;
  }

  lemma RoomLeft(m: Machine, ps: seq<Part>, iregs: nat, fregs: nat)
    requires Room(m, ps, iregs, fregs)
    ensures iregs + Ints(ps) <= m.intArgRegs && fregs + Floats(ps) <= m.floatArgRegs
  {
  }

  lemma OneWord(isPtr: bool, iregs: nat, fregs: nat)
    ensures Numbered(IntParts(0, PTR_SIZE, 0, 1, [isPtr]), iregs, fregs)
         == [if isPtr then PointerStep(0, PTR_SIZE, iregs) else IntRegStep(0, PTR_SIZE, iregs)]
  {
    SomeInts(0, PTR_SIZE, [isPtr]);
  }

  lemma Associate(a: seq<AbiStep>, b: seq<AbiStep>, c: seq<AbiStep>)
    ensures a + (b + c) == (a + b) + c
  {
  }

  /** What each call of AssignIntN and AssignFloatN stands for. */
  lemma LeafParts(m: Machine, t: Type, offset: nat)
    requires WellFormed(t) && Leaf(t.kind)
    ensures t.kind.PointerKind? ==> Parts(t, offset) == IntParts(offset, t.size, 0, 1, [true]) && Ints(Parts(t, offset)) == 1 && t.size == PTR_SIZE
    ensures t.kind.IntKind? ==> Parts(t, offset) == IntParts(offset, t.size, 0, 1, [false]) && Ints(Parts(t, offset)) == 1
    ensures t.kind.FloatKind? ==> Parts(t, offset) == FloatParts(offset, t.size, 0, 1) && Floats(Parts(t, offset)) == 1
    ensures t.kind.ComplexKind? ==> Parts(t, offset) == FloatParts(offset, t.size / 2, 0, 2) && Floats(Parts(t, offset)) == 2
    ensures t.kind.StringKind? ==> Parts(t, offset) == IntParts(offset, PTR_SIZE, 0, 2, [true, false]) && Ints(Parts(t, offset)) == 2
    ensures t.kind.InterfaceKind? ==> Parts(t, offset) == IntParts(offset, PTR_SIZE, 0, 2, [false, true]) && Ints(Parts(t, offset)) == 2
    ensures t.kind.SliceKind? ==> Parts(t, offset) == IntParts(offset, PTR_SIZE, 0, 3, [true, false, false]) && Ints(Parts(t, offset)) == 3
    ensures t.kind.FloatKind? || t.kind.ComplexKind? || Floats(Parts(t, offset)) == 0
    ensures t.kind.FloatKind? || t.kind.ComplexKind? ==> Ints(Parts(t, offset)) == 0
    ensures Registrable(m, t) == if t.kind.FloatKind? then t.size <= m.floatRegSize
                                 else if t.kind.ComplexKind? then t.size / 2 <= m.floatRegSize else true
  {
    hide IntParts, FloatParts, Ints, Floats, WordPart;
    match t.kind
    case FloatKind =>
      SomeFloats(offset, t.size);
      CountFloats(Part(FloatPart, offset, t.size), Part(FloatPart, offset, t.size));
    case ComplexKind =>
      SomeFloats(offset, t.size / 2);
      CountFloats(Part(FloatPart, offset, t.size / 2), Part(FloatPart, offset + t.size / 2, t.size / 2));
    case StringKind =>
      SomeInts(offset, PTR_SIZE, [true, false]);
      CountWords(offset, PTR_SIZE, true, false, false);
    case InterfaceKind =>
      SomeInts(offset, PTR_SIZE, [false, true]);
      CountWords(offset, PTR_SIZE, false, true, false);
    case SliceKind =>
      SomeInts(offset, PTR_SIZE, [true, false, false]);
      CountWords(offset, PTR_SIZE, true, false, false);
    case IntKind =>
      SomeInts(offset, t.size, [false]);
      CountWords(offset, t.size, false, false, false);
    case _ =>
      SomeInts(offset, t.size, [true]);
      CountWords(offset, t.size, true, false, false);
  }

  lemma CountFloats(p: Part, q: Part)
    requires p.kind.FloatPart? && q.kind.FloatPart?
    ensures Floats([p]) == 1 && Ints([p]) == 0 && Floats([p, q]) == 2 && Ints([p, q]) == 0
  {
    CountNext(p, []);
    CountNext(q, []);
    CountNext(p, [q]);
    assert [p] + [q] == [p, q];
  }

  lemma CountNext(p: Part, ps: seq<Part>)
    ensures Ints([p] + ps) == IntOf(p) + Ints(ps) && Floats([p] + ps) == FloatOf(p) + Floats(ps)
    ensures [p] + [] == [p] && Ints([]) == 0 && Floats([]) == 0
  {
    assert ([p] + ps)[1..] == ps && ([p] + ps)[0] == p;
  }

  lemma CountWords(offset: nat, size: nat, a: bool, b: bool, c: bool)
    ensures var p, q, r := WordPart(offset, size, a), WordPart(offset + size, size, b), WordPart(offset + 2 * size, size, c);
            && Ints([p]) == 1 && Ints([p, q]) == 2 && Ints([p, q, r]) == 3
            && Floats([p]) == 0 && Floats([p, q]) == 0 && Floats([p, q, r]) == 0
  {
    var p, q, r := WordPart(offset, size, a), WordPart(offset + size, size, b), WordPart(offset + 2 * size, size, c);
    CountNext(p, []);
    CountNext(q, []);
    CountNext(r, []);
    CountNext(p, [q]);
    CountNext(q, [r]);
    CountNext(p, [q, r]);
    assert [p] + [q] == [p, q] && [q] + [r] == [q, r] && [p] + [q, r] == [p, q, r];
  }

  lemma ArrayParts(m: Machine, t: Type, offset: nat)
    requires WellFormed(t) && t.kind.Array?
    ensures WellFormed(t.kind.elem)
    ensures Registrable(m, t) == (t.kind.len == 0 || (t.kind.len == 1 && Registrable(m, t.kind.elem)))
    ensures Parts(t, offset) == if t.kind.len == 1 then Parts(t.kind.elem, offset) else []
    ensures Ints([]) == 0 && Floats([]) == 0 && forall i: nat, f: nat :: Numbered([], i, f) == []
  {
  }

  lemma StructParts(m: Machine, t: Type, offset: nat)
    requires WellFormed(t) && t.kind.Struct?
    ensures forall f :: f in t.kind.fields ==> WellFormed(f.typ)
    ensures Registrable(m, t) == AllRegistrable(m, t.kind.fields) && Parts(t, offset) == FieldsParts(t.kind.fields, offset)
  {
  }

  lemma FirstField(m: Machine, fields: seq<Field>, offset: nat, iregs: nat, fregs: nat)
    requires fields != []
    ensures var f := fields[0];
            var ps, qs := Parts(f.typ, offset + f.offset), FieldsParts(fields[1..], offset);
            && AllRegistrable(m, fields) == (Registrable(m, f.typ) && AllRegistrable(m, fields[1..]))
            && FieldsParts(fields, offset) == ps + qs
            && Ints(ps + qs) == Ints(ps) + Ints(qs) && Floats(ps + qs) == Floats(ps) + Floats(qs)
            && Numbered(ps + qs, iregs, fregs) == Numbered(ps, iregs, fregs) + Numbered(qs, iregs + Ints(ps), fregs + Floats(ps))
  {
    hide Parts, Registrable;
    var f := fields[0];
    CountsOfSum(Parts(f.typ, offset + f.offset), FieldsParts(fields[1..], offset));
    NumberedSum(Parts(f.typ, offset + f.offset), FieldsParts(fields[1..], offset), iregs, fregs);
  }

  lemma NoFields(m: Machine, offset: nat, iregs: nat, fregs: nat)
    ensures AllRegistrable(m, []) && FieldsParts([], offset) == [] && Ints([]) == 0 && Floats([]) == 0 && Numbered([], iregs, fregs) == []
  {
  }
}
