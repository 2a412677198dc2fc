/** What a receiver changes: the layouts of one signature without and with a receiver,
    argument by argument, and exactly when an argument changes sides between registers
    and stack. */
module AbiReceiver {
  import opened AbiTypes
  import opened AbiSequence
  import opened AbiCalls

  /** The layouts before the i-th argument: the one that the frame of callMethod came
      in, and the one that the method reads. */
  ghost function ValueAt(m: Machine, ts: seq<Type>, i: nat): Layout
    requires i <= |ts| && Aligned(ts)
  {
    LayoutAt(m, Layout(0, 0, 0), ts, i)
  }

  ghost function MethodAt(m: Machine, ts: seq<Type>, i: nat): Layout
    requires i <= |ts| && Aligned(ts)
  {
    LayoutAt(m, AfterReceiver(m), ts, i)
  }

  predicate InSlot(steps: seq<AbiStep>) { steps != [] && steps[0].StackStep? }

  predicate InRegisters(steps: seq<AbiStep>) { steps != [] && !steps[0].StackStep? }

  /** The i-th argument is on the stack for the caller and in registers for the method. */
  ghost predicate StackToReg(m: Machine, ts: seq<Type>, i: nat)
    requires i < |ts| && Aligned(ts)
  {
    InSlot(Assigned(m, ValueAt(m, ts, i), ts[i])) && InRegisters(Assigned(m, MethodAt(m, ts, i), ts[i]))
  }

  ghost predicate RegToStack(m: Machine, ts: seq<Type>, i: nat)
    requires i < |ts| && Aligned(ts)
  {
    InRegisters(Assigned(m, ValueAt(m, ts, i), ts[i])) && InSlot(Assigned(m, MethodAt(m, ts, i), ts[i]))
  }

  predicate FitsAt(m: Machine, l: Layout, t: Type) { Fits(m, t, l.iregs, l.fregs) }

  /** Without a receiver the i-th argument takes all integer registers that are left. */
  ghost predicate TakesLast(m: Machine, ts: seq<Type>, i: nat)
    requires i < |ts| && Aligned(ts)
  {
    var l := ValueAt(m, ts, i);
    m.intArgRegs > 0 && ts[i].size > 0 && FitsAt(m, l, ts[i]) && l.iregs + Ints(Parts(ts[i], 0)) == m.intArgRegs
  }

  ghost predicate NoneTakes(m: Machine, ts: seq<Type>, i: nat)
    requires i <= |ts| && Aligned(ts)
  {
    forall k: nat :: k < i ==> !TakesLast(m, ts, k)
  }

  /** The first argument to do so. */
  ghost predicate FirstTakes(m: Machine, ts: seq<Type>, d: nat)
    requires d < |ts| && Aligned(ts)
  {
    NoneTakes(m, ts, d) && TakesLast(m, ts, d)
  }

  // --------------------------------------------------------------------- the sides

  lemma Sides(m: Machine, l: Layout, t: Type)
    requires WellFormed(t) && t.align > 0 && InMachine(m, l)
    ensures InSlot(Assigned(m, l, t)) <==> t.size > 0 && !FitsAt(m, l, t)
    ensures InRegisters(Assigned(m, l, t)) <==> t.size > 0 && FitsAt(m, l, t)
  {
    hide Registrable, Parts, Ints, Floats, Align, Numbered, WellFormed, Fits;
    if t.size > 0 {
      if Fits(m, t, l.iregs, l.fregs) { InRegs(m, l, t); }
      Sizes(m, l, l, t);
    }
  }

  lemma Inside(m: Machine, ts: seq<Type>, i: nat)
    requires AllWellFormed(ts) && i <= |ts|
    ensures InMachine(m, ValueAt(m, ts, i)) && InMachine(m, MethodAt(m, ts, i))
  {
    hide LayoutAt;
    InStart(m);
    LayoutZero(m, Layout(0, 0, 0), ts);
    LayoutZero(m, AfterReceiver(m), ts);
    LayoutMono(m, Layout(0, 0, 0), ts, 0, i);
    LayoutMono(m, AfterReceiver(m), ts, 0, i);
  }

  /** One register fewer makes a difference only to what needs the last one. */
  lemma OneFewer(m: Machine, l: Layout, t: Type)
    requires l.iregs < m.intArgRegs && t.align > 0
    ensures var more := l.(iregs := l.iregs + 1);
            && (FitsAt(m, more, t) ==> FitsAt(m, l, t))
            && (FitsAt(m, l, t) && !FitsAt(m, more, t) <==> FitsAt(m, l, t) && l.iregs + Ints(Parts(t, 0)) == m.intArgRegs)
  {
    hide Registrable, Parts, Ints, Floats;
  }

  /** Up to the first argument that takes the last integer registers the layouts differ
      by the one register of the receiver. */
  lemma {:induction false} OneApart(m: Machine, ts: seq<Type>, i: nat)
    requires AllWellFormed(ts) && i <= |ts| && m.intArgRegs > 0 && NoneTakes(m, ts, i)
    ensures ValueAt(m, ts, i).iregs < m.intArgRegs
    ensures MethodAt(m, ts, i) == ValueAt(m, ts, i).(iregs := ValueAt(m, ts, i).iregs + 1)
  {
    hide FitsAt, Parts, Ints, Floats, Align;
    if i == 0 {
    } else {
      OneApart(m, ts, i - 1);
      var l := ValueAt(m, ts, i - 1);
      assert !TakesLast(m, ts, i - 1);
      OneFewer(m, l, ts[i - 1]);
      Inside(m, ts, i - 1);
      NextIs(m, l, ts[i - 1]);
      NextIs(m, MethodAt(m, ts, i - 1), ts[i - 1]);
    }
  }

  lemma NextIs(m: Machine, l: Layout, t: Type)
    requires t.align > 0
    ensures Next(m, l, t) == if t.size == 0 then l.(stackBytes := Align(l.stackBytes, t.align))
                             else if FitsAt(m, l, t) then l.(iregs := l.iregs + Ints(Parts(t, 0)), fregs := l.fregs + Floats(Parts(t, 0)))
                             else l.(stackBytes := Align(l.stackBytes, t.align) + t.size)
    ensures FitsAt(m, l, t) ==> l.iregs + Ints(Parts(t, 0)) <= m.intArgRegs
  {
    hide Registrable, Parts, Ints, Floats, Align;
  }

  /** Without integer registers both layouts have the same registers throughout. */
  lemma {:induction false} NoIntRegisters(m: Machine, ts: seq<Type>, i: nat)
    requires AllWellFormed(ts) && i <= |ts| && m.intArgRegs == 0
    ensures var v, w := ValueAt(m, ts, i), MethodAt(m, ts, i); v.iregs == w.iregs && v.fregs == w.fregs
  {
    hide Fits, Parts, Ints, Floats, Align;
    if i > 0 {
      NoIntRegisters(m, ts, i - 1);
    }
  }

  /** As long as no argument has taken the last integer registers an argument is on the
      same side in both layouts, but for the one that does: it is in registers without
      a receiver and on the stack with one. */
  lemma SameSide(m: Machine, ts: seq<Type>, i: nat)
    requires AllWellFormed(ts) && i < |ts| && NoneTakes(m, ts, i)
    ensures !StackToReg(m, ts, i)
    ensures RegToStack(m, ts, i) <==> TakesLast(m, ts, i)
  {
    hide Registrable, Parts, Ints, Floats, Assigned, LayoutAt, InSlot, InRegisters;
    Inside(m, ts, i);
    Sides(m, ValueAt(m, ts, i), ts[i]);
    Sides(m, MethodAt(m, ts, i), ts[i]);
    if m.intArgRegs == 0 {
      NoIntRegisters(m, ts, i);
    } else {
      OneApart(m, ts, i);
      OneFewer(m, ValueAt(m, ts, i), ts[i]);
    }
  }

  /** Afterwards no integer register is left without a receiver. */
  lemma AllTaken(m: Machine, ts: seq<Type>, d: nat, j: nat)
    requires AllWellFormed(ts) && d < j < |ts| && TakesLast(m, ts, d)
    ensures ValueAt(m, ts, j).iregs == m.intArgRegs
  {
    hide Parts, Ints, Floats, FitsAt, Align, Next;
    InStart(m);
    Inside(m, ts, j);
    LayoutNext(m, Layout(0, 0, 0), ts, d);
    NextIs(m, ValueAt(m, ts, d), ts[d]);
    hide LayoutAt;
    LayoutMono(m, Layout(0, 0, 0), ts, d + 1, j);
  }

  lemma {:induction false} SomeFirst(m: Machine, ts: seq<Type>, i: nat) returns (d: nat)
    requires Aligned(ts) && i <= |ts| && !NoneTakes(m, ts, i)
    ensures d < i && FirstTakes(m, ts, d)
    decreases i
  {
    hide TakesLast;
    if NoneTakes(m, ts, i - 1) { d := i - 1; } else { d := SomeFirst(m, ts, i - 1); }
  }

  // ------------------------------------------------------------- from stack to registers

  /** When a value that is on the stack without a receiver is in registers with one: an
      argument before it took the last integer registers, was displaced by the receiver,
      and left registers into which this one fits, while it needs integer registers, or
      float registers that are no longer free. */
  lemma StackToRegisterIff(m: Machine, ts: seq<Type>, j: nat)
    requires AllWellFormed(ts) && j < |ts|
    ensures StackToReg(m, ts, j) <==>
            && ts[j].size > 0 && !NoneTakes(m, ts, j) && FitsAt(m, MethodAt(m, ts, j), ts[j])
            && (Ints(Parts(ts[j], 0)) > 0 || ValueAt(m, ts, j).fregs + Floats(Parts(ts[j], 0)) > m.floatArgRegs)
  {
    hide Registrable, Parts, Ints, Floats, Assigned, LayoutAt, InSlot, InRegisters, TakesLast;
    Inside(m, ts, j);
    Sides(m, ValueAt(m, ts, j), ts[j]);
    Sides(m, MethodAt(m, ts, j), ts[j]);
    if NoneTakes(m, ts, j) {
      SameSide(m, ts, j);
    } else {
      var d := SomeFirst(m, ts, j);
      AllTaken(m, ts, d, j);
    }
  }

  /** So it is for a signature as a whole: some value that is on the stack without a
      receiver is in registers with one if and only if an argument takes the last
      integer registers and a later one fits with a receiver and not without. */
  lemma SomeStackToRegisterIff(m: Machine, ts: seq<Type>)
    requires AllWellFormed(ts)
    ensures (exists j: nat :: j < |ts| && StackToReg(m, ts, j))
            <==> (exists d: nat, j: nat :: d < j < |ts| && FirstTakes(m, ts, d) && OnlyWithReceiver(m, ts, j))
  {
    hide FirstTakes, OnlyWithReceiver, StackToReg;
    if j: nat :| j < |ts| && StackToReg(m, ts, j) {
      StackToRegAt(m, ts, j);
    }
    if d: nat, j: nat :| d < j < |ts| && FirstTakes(m, ts, d) && OnlyWithReceiver(m, ts, j) {
      StackToRegAt(m, ts, j);
    }
  }

  /** The argument needs registers that are free with a receiver and not without. */
  ghost predicate OnlyWithReceiver(m: Machine, ts: seq<Type>, j: nat)
    requires j < |ts| && Aligned(ts)
  {
    ts[j].size > 0 && FitsAt(m, MethodAt(m, ts, j), ts[j]) && !FitsAt(m, ValueAt(m, ts, j), ts[j])
  }

  lemma StackToRegAt(m: Machine, ts: seq<Type>, j: nat)
    requires AllWellFormed(ts) && j < |ts|
    ensures StackToReg(m, ts, j) <==> (exists d: nat :: d < j && FirstTakes(m, ts, d) && OnlyWithReceiver(m, ts, j))
  {
    hide FitsAt, TakesLast, LayoutAt, Assigned, InSlot, InRegisters;
    Inside(m, ts, j);
    Sides(m, ValueAt(m, ts, j), ts[j]);
    Sides(m, MethodAt(m, ts, j), ts[j]);
    if NoneTakes(m, ts, j) {
      SameSide(m, ts, j);
    } else {
      var d := SomeFirst(m, ts, j);
    }
  }

  // ------------------------------------------------------------------- it does happen

  const WORD := Type(8, 8, IntKind)

  /** n words from offset on, and the struct that has them as its fields. */
  function WordFields(n: nat, offset: nat): seq<Field> {
    if n == 0 then [] else [Field(WORD, offset)] + WordFields(n - 1, offset + 8)
  }

  function WordStruct(n: nat): Type { Type(8 * n, 8, Struct(WordFields(n, 0))) }

  lemma {:induction false} WordFieldsLaid(m: Machine, n: nat, offset: nat)
    ensures var fs := WordFields(n, offset);
            && (forall f :: f in fs ==> f.typ == WORD) && InOrder(fs, offset, offset + 8 * n) && AllRegistrable(m, fs)
            && Ints(FieldsParts(fs, 0)) == n && Floats(FieldsParts(fs, 0)) == 0 && (n > 0 ==> Field(WORD, offset) in fs)
    decreases n
  {
    hide FieldsParts, Ints, Floats, Parts, InOrder, AllRegistrable;
    if n == 0 {
      NoFields(m, offset);
    } else {
      var rest := WordFields(n - 1, offset + 8);
      WordFieldsLaid(m, n - 1, offset + 8);
      WordParts(m, offset);
      OneMoreField(m, offset, rest, offset + 8 * n);
      CountsOfSum(Parts(WORD, offset), FieldsParts(rest, 0));
    }
  }

  lemma NoFields(m: Machine, offset: nat)
    ensures InOrder([], offset, offset) && AllRegistrable(m, []) && Ints(FieldsParts([], 0)) == Floats(FieldsParts([], 0)) == 0
  {
  }

  lemma OneMoreField(m: Machine, offset: nat, rest: seq<Field>, to: nat)
    requires InOrder(rest, offset + 8, to) && AllRegistrable(m, rest) && Registrable(m, WORD)
    ensures var fs := [Field(WORD, offset)] + rest;
            InOrder(fs, offset, to) && AllRegistrable(m, fs) && FieldsParts(fs, 0) == Parts(WORD, offset) + FieldsParts(rest, 0)
  {
    var fs := [Field(WORD, offset)] + rest;
    assert fs[0] == Field(WORD, offset) && fs[1..] == rest;
    hide Parts, Registrable;
  }

  lemma WordParts(m: Machine, offset: nat)
    ensures WellFormed(WORD) && Registrable(m, WORD) && Ints(Parts(WORD, offset)) == 1 && Floats(Parts(WORD, offset)) == 0
  {
    SomeInts(offset, 8, [false]);
  }

  lemma WordStructLaid(m: Machine, n: nat)
    ensures WellFormed(WordStruct(n)) && Registrable(m, WordStruct(n))
    ensures Ints(Parts(WordStruct(n), 0)) == n && Floats(Parts(WordStruct(n), 0)) == 0
  {
    hide Parts, FieldsParts, Ints, Floats, AllRegistrable, InOrder, WordFields;
    WordFieldsLaid(m, n, 0);
    WordParts(m, 0);
    StructLaid(m, 8 * n, WordFields(n, 0));
  }

  lemma StructLaid(m: Machine, size: nat, fields: seq<Field>)
    requires (forall f :: f in fields ==> f.typ == WORD) && InOrder(fields, 0, size) && AllRegistrable(m, fields)
    requires size > 0 ==> Field(WORD, 0) in fields
    ensures var t := Type(size, 8, Struct(fields));
            WellFormed(t) && Registrable(m, t) && Parts(t, 0) == FieldsParts(fields, 0)
  {
    hide FieldsParts, InOrder, AllRegistrable;
    WordParts(m, 0);
  }

  /** On every machine with two integer registers or more: a struct of as many words as
      there are registers, and then one word. Without a receiver the struct is in the
      registers and the word on the stack; with one it is the other way round. */
  lemma StackToRegister(m: Machine)
    requires m.intArgRegs >= 2
    ensures var ts := [WordStruct(m.intArgRegs), WORD];
            && AllWellFormed(ts) && RegToStack(m, ts, 0) && StackToReg(m, ts, 1)
            && Assigned(m, ValueAt(m, ts, 1), WORD) == [StackStep(0, 8, 0)]
            && Assigned(m, MethodAt(m, ts, 1), WORD) == [IntRegStep(0, 8, 1)]
  {
    var ts := [WordStruct(m.intArgRegs), WORD];
    WordStructLaid(m, m.intArgRegs);
    WordParts(m, 0);
    hide WellFormed, Parts, Registrable, Ints, Floats;
    assert ts[0] == WordStruct(m.intArgRegs) && ts[1] == WORD;
    assert TakesLast(m, ts, 0) && NoneTakes(m, ts, 0);
    SameSide(m, ts, 0);
    assert FitsAt(m, ValueAt(m, ts, 0), ts[0]) && !FitsAt(m, MethodAt(m, ts, 0), ts[0]);
    assert ValueAt(m, ts, 1) == Next(m, ValueAt(m, ts, 0), ts[0]) && MethodAt(m, ts, 1) == Next(m, MethodAt(m, ts, 0), ts[0]);
    assert ValueAt(m, ts, 1) == Layout(0, m.intArgRegs, 0);
    assert MethodAt(m, ts, 1) == Layout(8 * m.intArgRegs, 1, 0);
    WordSteps(m, Layout(0, m.intArgRegs, 0));
    WordSteps(m, Layout(8 * m.intArgRegs, 1, 0));
  }

  lemma WordSteps(m: Machine, l: Layout)
    ensures Assigned(m, l, WORD) == if l.iregs < m.intArgRegs && l.fregs <= m.floatArgRegs then [IntRegStep(0, 8, l.iregs)]
                                    else [StackStep(0, 8, Align(l.stackBytes, 8))]
  {
    SomeInts(0, 8, [false]);
    assert Numbered([WordPart(0, 8, false)], l.iregs, l.fregs) == [IntRegStep(0, 8, l.iregs)];
  }
}
