/** Moving the parts of a value between memory and registers. */
module AbiMemory {
  import opened AbiTypes
  import opened AbiSequence

  type Byte = x: nat | x < 256

  /** Registers hold eight bytes, the least significant first. Ptrs doubles the integer
      registers for the garbage collector. */
  datatype Regs = Regs(ints: seq<seq<Byte>>, floats: seq<seq<Byte>>, ptrs: seq<seq<Byte>>)

  predicate Words(s: seq<seq<Byte>>, n: nat) { |s| == n && forall i :: 0 <= i < n ==> |s[i]| == PTR_SIZE }

  predicate RegsOk(m: Machine, r: Regs) {
    Words(r.ints, m.intArgRegs) && Words(r.ptrs, m.intArgRegs) && Words(r.floats, m.floatArgRegs)
  }

  /** Nothing changed in the registers below i and f. */
  ghost predicate RegsKept(r: Regs, r': Regs, i: nat, f: nat) {
    && (forall k :: 0 <= k < i && k < |r.ints| && k < |r'.ints| ==> r'.ints[k] == r.ints[k])
    && (forall k :: 0 <= k < i && k < |r.ptrs| && k < |r'.ptrs| ==> r'.ptrs[k] == r.ptrs[k])
    && (forall k :: 0 <= k < f && k < |r.floats| && k < |r'.floats| ==> r'.floats[k] == r.floats[k])
  }

  /** s with d written over it from off on. */
  function Put(s: seq<Byte>, off: nat, d: seq<Byte>): (r: seq<Byte>)
    requires off + |d| <= |s|
    ensures |r| == |s|
    ensures forall i :: 0 <= i < |s| ==> r[i] == if off <= i < off + |d| then d[i - off] else s[i]
  {
    s[..off] + d + s[off + |d|..]
  }

  /** What a register step promises: its register holds its part of the bytes b. */
  ghost predicate RegHolds(st: AbiStep, r: Regs, b: seq<Byte>) {
    && st.offset + st.size <= |b|
    && match st
       case StackStep(_, _, _) => false
       case IntRegStep(off, size, i) => i < |r.ints| && size <= |r.ints[i]| && r.ints[i][..size] == b[off..off + size]
       case PointerStep(off, size, i) => i < |r.ints| && i < |r.ptrs| && r.ints[i] == b[off..off + size] && r.ptrs[i] == b[off..off + size]
       case FloatRegStep(off, size, i) => i < |r.floats| && size <= |r.floats[i]| && r.floats[i][..size] == b[off..off + size]
  }

  ghost predicate AllHold(steps: seq<AbiStep>, n: nat, r: Regs, b: seq<Byte>) {
    n <= |steps| && forall k :: 0 <= k < n ==> RegHolds(steps[k], r, b)
  }

  /** The register steps of parts ps when iregs and fregs registers are taken. */
  ghost predicate RegSteps(m: Machine, ps: seq<Part>, iregs: nat, fregs: nat, size: nat, steps: seq<AbiStep>) {
    steps == Numbered(ps, iregs, fregs) && Room(m, ps, iregs, fregs) && AllWithin(ps, 0, size)
  }

  predicate InRange(st: AbiStep, m: Machine, size: nat) {
    && st.offset + st.size <= size && 0 < st.size <= PTR_SIZE
    && match st
       case StackStep(_, _, _) => false
       case IntRegStep(_, _, i) => i < m.intArgRegs
       case PointerStep(_, n, i) => i < m.intArgRegs && n == PTR_SIZE
       case FloatRegStep(_, n, i) => i < m.floatArgRegs && n in {4, 8}
  }

  /** A later step uses another register. */
  predicate Other(st: AbiStep, later: AbiStep) {
    match st
    case StackStep(_, _, _) => true
    case IntRegStep(_, _, i) => (later.IntRegStep? || later.PointerStep? ==> later.ireg > i)
    case PointerStep(_, _, i) => (later.IntRegStep? || later.PointerStep? ==> later.ireg > i)
    case FloatRegStep(_, _, i) => (later.FloatRegStep? ==> later.freg > i)
  }

  predicate AtLeast(st: AbiStep, iregs: nat, fregs: nat) {
    match st
    case StackStep(_, _, _) => true
    case IntRegStep(_, _, i) => i >= iregs
    case PointerStep(_, _, i) => i >= iregs
    case FloatRegStep(_, _, i) => i >= fregs
  }

  lemma StepIs(m: Machine, ps: seq<Part>, iregs: nat, fregs: nat, size: nat, steps: seq<AbiStep>, k: nat)
    requires RegSteps(m, ps, iregs, fregs, size, steps) && k < |ps|
    ensures k < |steps| && InRange(steps[k], m, size) && AtLeast(steps[k], iregs, fregs)
    ensures steps[k] == StepFor(ps[k], iregs + Ints(ps[..k]), fregs + Floats(ps[..k]))
    ensures forall j :: 0 <= j < k ==> Other(steps[j], steps[k])
  {
    NumberedAt(ps, iregs, fregs, k);
    assert Within(ps[k], 0, size);
    forall j | 0 <= j < k ensures Other(steps[j], steps[k]) {
      NumberedAt(ps, iregs, fregs, j);
      NumberedDistinct(ps, j, k);
    }
  }

  /** intToReg: the low bytes of the register are replaced. */
  function IntToReg(word: seq<Byte>, bytes: seq<Byte>): (r: seq<Byte>)
    requires |word| == PTR_SIZE && |bytes| <= PTR_SIZE
    ensures |r| == PTR_SIZE && r[..|bytes|] == bytes
  {
    bytes + word[|bytes|..]
  }

  /** floatToReg: four bytes are widened with zeros. */
  function FloatToReg(bytes: seq<Byte>): (r: seq<Byte>)
    requires |bytes| in {4, 8}
    ensures |r| == PTR_SIZE && r[..|bytes|] == bytes
  {
    if |bytes| == 4 then bytes + [0, 0, 0, 0] else bytes
  }

  lemma SliceSlice(s: seq<Byte>, base: nat, size: nat, off: nat, n: nat)
    requires base + size <= |s| && off + n <= size
    ensures s[base + off..base + off + n] == s[base..base + size][off..off + n]
  {
    var a, b := s[base + off..base + off + n], s[base..base + size][off..off + n];
    assert |a| == |b| && forall i :: 0 <= i < n ==> a[i] == b[i];
  }

  /** One step of the loops that store a value, found at mem[base..], in registers. */
  method StoreStep(m: Machine, st: AbiStep, mem: seq<Byte>, base: nat, regs: Regs, ghost size: nat) returns (ok: bool, r: Regs)
    requires RegsOk(m, regs) && base + size <= |mem| && InRange(st, m, size)
    ensures ok && RegsOk(m, r) && RegHolds(st, r, mem[base..base + size])
    ensures forall j: AbiStep, b: seq<Byte> :: Other(j, st) && RegHolds(j, regs, b) ==> RegHolds(j, r, b)
    ensures forall i: nat, f: nat :: AtLeast(st, i, f) ==> RegsKept(regs, r, i, f)
  {
    r := regs;
    ok := true;
    match st
    case PointerStep(off, n, i) =>
      var from := mem[base + off..base + off + n];
      SliceSlice(mem, base, size, off, n);
      r := r.(ptrs := r.ptrs[i := from]);
      r := r.(ints := r.ints[i := IntToReg(r.ints[i], from)]);
    case IntRegStep(off, n, i) =>
      var from := mem[base + off..base + off + n];
      SliceSlice(mem, base, size, off, n);
      r := r.(ints := r.ints[i := IntToReg(r.ints[i], from)]);
    case FloatRegStep(off, n, f) =>
      var from := mem[base + off..base + off + n];
      SliceSlice(mem, base, size, off, n);
      r := r.(floats := r.floats[f := FloatToReg(from)]);
    case StackStep(_, _, _) =>
      ok := false;
  }

  /** The loop that stores a value in registers: it is at mem[base..]. */
  method StoreInRegs(m: Machine, steps: seq<AbiStep>, mem: seq<Byte>, base: nat, regs: Regs,
                     ghost ps: seq<Part>, ghost iregs: nat, ghost fregs: nat, ghost size: nat)
    returns (ok: bool, r: Regs)
    requires RegsOk(m, regs) && base + size <= |mem| && RegSteps(m, ps, iregs, fregs, size, steps)
    ensures ok && RegsOk(m, r) && RegsKept(regs, r, iregs, fregs)
    ensures AllHold(steps, |steps|, r, mem[base..base + size])
  {
    hide RegHolds, Other, RegSteps, AtLeast, InRange, StepFor, Ints, Floats;
    ghost var b := mem[base..base + size];
    assert |steps| == |ps| by { StepCount(m, ps, iregs, fregs, size, steps); }
    r := regs;
    var k := 0;
    while k < |steps|
      invariant k <= |steps| && RegsOk(m, r) && RegsKept(regs, r, iregs, fregs)
      invariant AllHold(steps, k, r, b)
    {
      StepIs(m, ps, iregs, fregs, size, steps, k);
      ok, r := StoreStep(m, steps[k], mem, base, r, size);
      if !ok {
        return;
      }
      k := k + 1;
    }
    ok := true;
  }

  lemma StepCount(m: Machine, ps: seq<Part>, iregs: nat, fregs: nat, size: nat, steps: seq<AbiStep>)
    requires RegSteps(m, ps, iregs, fregs, size, steps)
    ensures |steps| == |ps|
  {
  }

  method LoadStep(m: Machine, st: AbiStep, regs: Regs, mem0: seq<Byte>, base: nat, ghost b: seq<Byte>) returns (ok: bool, mem: seq<Byte>)
    requires RegsOk(m, regs) && base + |b| <= |mem0| && InRange(st, m, |b|) && RegHolds(st, regs, b)
    ensures ok && st.offset + st.size <= |b| && mem == Put(mem0, base + st.offset, b[st.offset..st.offset + st.size])
  {
    ok := true;
    mem := mem0;
    match st
    case PointerStep(off, n, i) => mem := Put(mem, base + off, regs.ptrs[i]);
    case IntRegStep(off, n, i) => mem := Put(mem, base + off, regs.ints[i][..n]);
    case FloatRegStep(off, n, f) => mem := Put(mem, base + off, regs.floats[f][..n]);
    case StackStep(_, _, _) => ok := false;
  }

  /** The loop that reads a value from registers into mem[base..]; b is the value. */
  method LoadFromRegs(m: Machine, steps: seq<AbiStep>, regs: Regs, mem0: seq<Byte>, base: nat,
                      ghost ps: seq<Part>, ghost iregs: nat, ghost fregs: nat, ghost b: seq<Byte>)
    returns (ok: bool, mem: seq<Byte>)
    requires RegsOk(m, regs) && base + |b| <= |mem0| && RegSteps(m, ps, iregs, fregs, |b|, steps) && AllHold(steps, |steps|, regs, b)
    ensures ok && |mem| == |mem0|
    ensures forall i :: 0 <= i < |mem0| && !(base <= i < base + |b|) ==> mem[i] == mem0[i]
    ensures forall i :: 0 <= i < |b| && Covered(ps, i) ==> mem[base + i] == b[i]
  {
    hide RegSteps, AtLeast, StepFor, Ints, Floats, Put, RegHolds, Other, InRange;
    assert |steps| == |ps| by { StepCount(m, ps, iregs, fregs, |b|, steps); }
    mem := mem0;
    var k := 0;
    while k < |steps|
      invariant k <= |steps| && |mem| == |mem0|
      invariant forall i :: 0 <= i < |mem0| && !(base <= i < base + |b|) ==> mem[i] == mem0[i]
      invariant forall i, j :: 0 <= i < |b| && 0 <= j < k && Covers(ps[j], i) ==> mem[base + i] == b[i]
    {
      StepIs(m, ps, iregs, fregs, |b|, steps, k);
      StepPlace(ps[k], iregs + Ints(ps[..k]), fregs + Floats(ps[..k]));
      ghost var was := mem;
      assert RegHolds(steps[k], regs, b);
      ok, mem := LoadStep(m, steps[k], regs, mem, base, b);
      if !ok {
        return;
      }
      PutKeeps(was, base, ps[k], b);
      k := k + 1;
    }
    ok := true;
  }

  lemma StepPlace(p: Part, i: nat, f: nat)
    ensures StepFor(p, i, f).offset == p.offset && StepFor(p, i, f).size == p.size
  {
  }

  lemma PutKeeps(was: seq<Byte>, base: nat, p: Part, b: seq<Byte>)
    requires p.offset + p.size <= |b| && base + |b| <= |was|
    ensures var mem := Put(was, base + p.offset, b[p.offset..p.offset + p.size]);
            forall i :: 0 <= i < |b| ==> (Covers(p, i) ==> mem[base + i] == b[i]) && (was[base + i] == b[i] ==> mem[base + i] == b[i])
  {
  }

  /** The loop that moves a value from registers to registers. */
  method MoveRegs(m: Machine, vSteps: seq<AbiStep>, mSteps: seq<AbiStep>, valueRegs: Regs, methodRegs: Regs,
                  ghost ps: seq<Part>, ghost iv: nat, ghost fv: nat, ghost im: nat, ghost fm: nat, ghost b: seq<Byte>)
    returns (ok: bool, r: Regs)
    requires RegsOk(m, valueRegs) && RegsOk(m, methodRegs)
    requires RegSteps(m, ps, iv, fv, |b|, vSteps) && RegSteps(m, ps, im, fm, |b|, mSteps) && AllHold(vSteps, |vSteps|, valueRegs, b)
    ensures ok && RegsOk(m, r) && RegsKept(methodRegs, r, im, fm)
    ensures AllHold(mSteps, |mSteps|, r, b)
  {
    hide RegSteps, StepFor, Ints, Floats;
    r := methodRegs;
    StepCount(m, ps, iv, fv, |b|, vSteps);
    StepCount(m, ps, im, fm, |b|, mSteps);
    if |vSteps| != |mSteps| {
      return false, r;
    }
    var k := 0;
    while k < |vSteps|
      invariant k <= |vSteps| && RegsOk(m, r) && RegsKept(methodRegs, r, im, fm)
      invariant AllHold(mSteps, k, r, b)
    {
      StepIs(m, ps, iv, fv, |b|, vSteps, k);
      StepIs(m, ps, im, fm, |b|, mSteps, k);
      SameKind(ps[k], iv + Ints(ps[..k]), fv + Floats(ps[..k]), im + Ints(ps[..k]), fm + Floats(ps[..k]));
      ok, r := MoveStep(m, vSteps[k], mSteps[k], valueRegs, r, b);
      if !ok {
        return;
      }
      k := k + 1;
    }
    ok := true;
  }

  datatype StepKind = InStack | InInt | InPointer | InFloat

  function KindOf(st: AbiStep): StepKind {
    match st
    case StackStep(_, _, _) => InStack
    case IntRegStep(_, _, _) => InInt
    case PointerStep(_, _, _) => InPointer
    case FloatRegStep(_, _, _) => InFloat
  }

  predicate SameStepKind(a: AbiStep, b: AbiStep) { a.offset == b.offset && a.size == b.size && KindOf(a) == KindOf(b) }

  lemma SameKind(p: Part, i: nat, f: nat, i': nat, f': nat)
    ensures SameStepKind(StepFor(p, i, f), StepFor(p, i', f'))
  {
  }

  method MoveStep(m: Machine, v: AbiStep, s: AbiStep, valueRegs: Regs, regs: Regs, ghost b: seq<Byte>) returns (ok: bool, r: Regs)
    requires RegsOk(m, valueRegs) && RegsOk(m, regs) && InRange(v, m, |b|) && InRange(s, m, |b|) && SameStepKind(v, s)
    requires RegHolds(v, valueRegs, b)
    ensures ok && RegsOk(m, r) && RegHolds(s, r, b)
    ensures forall j: AbiStep, c: seq<Byte> :: Other(j, s) && RegHolds(j, regs, c) ==> RegHolds(j, r, c)
    ensures forall i: nat, f: nat :: AtLeast(s, i, f) ==> RegsKept(regs, r, i, f)
  {
    r := regs;
    ok := true;
    if KindOf(s) != KindOf(v) {
      return false, r;
    }
    match v
    case PointerStep(_, _, i) =>
      r := r.(ptrs := r.ptrs[s.ireg := valueRegs.ptrs[i]]);
      r := r.(ints := r.ints[s.ireg := valueRegs.ints[i]]);
    case IntRegStep(_, _, i) =>
      r := r.(ints := r.ints[s.ireg := valueRegs.ints[i]]);
    case FloatRegStep(_, _, f) =>
      r := r.(floats := r.floats[s.freg := valueRegs.floats[f]]);
    case StackStep(_, _, _) =>
      ok := false;
  }
}
