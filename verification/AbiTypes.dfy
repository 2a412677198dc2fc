/** Types as the call convention sees them, and how a value of a type falls into the
    parts that may travel in registers. */
module AbiTypes {

  const PTR_SIZE := 8

  /** The registers for arguments; floatRegSize is the widest float they hold. */
  datatype Machine = Machine(intArgRegs: nat, floatArgRegs: nat, floatRegSize: nat)

  /** PointerKind stands for pointers, channels, maps and functions, IntKind for the
      booleans and integers. */
  datatype Kind =
    | PointerKind | IntKind | FloatKind | ComplexKind | StringKind | InterfaceKind | SliceKind
    | Array(len: nat, elem: Type) | Struct(fields: seq<Field>)

  datatype Type = Type(size: nat, align: nat, kind: Kind)

  datatype Field = Field(typ: Type, offset: nat)

  datatype PartKind = IntPart | PtrPart | FloatPart

  /** A piece of a value that fits one register. */
  datatype Part = Part(kind: PartKind, offset: nat, size: nat)

  predicate PowerOfTwo(n: nat) { n in {1, 2, 4, 8} }

  /** Sizes, alignment and field order as the compiler lays types out. */
  ghost predicate WellFormed(t: Type) {
    && PowerOfTwo(t.align)
    && match t.kind
       case PointerKind => t.size == PTR_SIZE
       case IntKind => t.size in {1, 2, 4, 8}
       case FloatKind => t.size in {4, 8}
       case ComplexKind => t.size in {8, 16}
       case StringKind => t.size == 2 * PTR_SIZE
       case InterfaceKind => t.size == 2 * PTR_SIZE
       case SliceKind => t.size == 3 * PTR_SIZE
       case Array(len, elem) => WellFormed(elem) && t.size == len * elem.size
       case Struct(fields) =>
         && (forall f :: f in fields ==> WellFormed(f.typ))
         && InOrder(fields, 0, t.size)
         && (t.size > 0 ==> exists f :: f in fields && f.typ.size > 0)
  }

  /** The fields lie one behind the other within [from, to). */
  ghost predicate InOrder(fields: seq<Field>, from: nat, to: nat) {
    if fields == [] then from <= to
    else from <= fields[0].offset && InOrder(fields[1..], fields[0].offset + fields[0].typ.size, to)
  }

  // ------------------------------------------------------------------- the parts

  function WordPart(offset: nat, size: nat, ptr: bool): Part { Part(if ptr then PtrPart else IntPart, offset, size) }

  /** Where word i is, when words of size bytes follow each other from offset. */
  function WordAt(offset: nat, size: nat, i: nat): nat { offset + i * size }

  /** The words i, i + 1, ..., n - 1 of a value that starts at offset. */
  function IntParts(offset: nat, size: nat, i: nat, n: nat, ptrMap: seq<bool>): (r: seq<Part>)
    requires i <= n == |ptrMap|
    decreases n - i
  {
    if i == n then []
    else [WordPart(WordAt(offset, size, i), size, ptrMap[i])] + IntParts(offset, size, i + 1, n, ptrMap)
  }

  function FloatParts(offset: nat, size: nat, i: nat, n: nat): (r: seq<Part>)
    requires i <= n
    decreases n - i
  {
    if i == n then [] else [Part(FloatPart, WordAt(offset, size, i), size)] + FloatParts(offset, size, i + 1, n)
  }

  /** Whether the type can travel in registers at all. */
  predicate Registrable(m: Machine, t: Type)
    decreases t
  {
    match t.kind
    case FloatKind => t.size <= m.floatRegSize
    case ComplexKind => t.size / 2 <= m.floatRegSize
    case Array(len, elem) => len == 0 || (len == 1 && Registrable(m, elem))
    case Struct(fields) => AllRegistrable(m, fields)
    case _ => true
  }

  predicate AllRegistrable(m: Machine, fields: seq<Field>)
    decreases fields
  {
    fields == [] || (var f := fields[0]; assert f.typ < f; Registrable(m, f.typ) && AllRegistrable(m, fields[1..]))
  }

  /** The parts of a value of type t that starts at offset, in order. */
  function Parts(t: Type, offset: nat): seq<Part>
    decreases t
  {
    match t.kind
    case PointerKind => IntParts(offset, t.size, 0, 1, [true])
    case IntKind => IntParts(offset, t.size, 0, 1, [false])
    case FloatKind => FloatParts(offset, t.size, 0, 1)
    case ComplexKind => FloatParts(offset, t.size / 2, 0, 2)
    case StringKind => IntParts(offset, PTR_SIZE, 0, 2, [true, false])
    case InterfaceKind => IntParts(offset, PTR_SIZE, 0, 2, [false, true])
    case SliceKind => IntParts(offset, PTR_SIZE, 0, 3, [true, false, false])
    case Array(len, elem) => if len == 1 then Parts(elem, offset) else []
    case Struct(fields) => FieldsParts(fields, offset)
  }

  function FieldsParts(fields: seq<Field>, offset: nat): seq<Part>
    decreases fields
  {
    if fields == [] then []
    else var f := fields[0]; assert f.typ < f; Parts(f.typ, offset + f.offset) + FieldsParts(fields[1..], offset)
  }

  function IntOf(p: Part): nat { if p.kind.FloatPart? then 0 else 1 }

  function FloatOf(p: Part): nat { if p.kind.FloatPart? then 1 else 0 }

  function Ints(ps: seq<Part>): nat { if ps == [] then 0 else IntOf(ps[0]) + Ints(ps[1..]) }

  function Floats(ps: seq<Part>): nat { if ps == [] then 0 else FloatOf(ps[0]) + Floats(ps[1..]) }

  /** Whether the parts fit what is left of the registers. */
  predicate Room(m: Machine, ps: seq<Part>, iregs: nat, fregs: nat) {
    iregs + Ints(ps) <= m.intArgRegs && fregs + Floats(ps) <= m.floatArgRegs
  }

  /** What the assignment of registers to a value must decide. */
  predicate Fits(m: Machine, t: Type, iregs: nat, fregs: nat) {
    Registrable(m, t) && Room(m, Parts(t, 0), iregs, fregs)
  }

  lemma {:induction false} CountsOfSum(ps: seq<Part>, qs: seq<Part>)
    ensures Ints(ps + qs) == Ints(ps) + Ints(qs) && Floats(ps + qs) == Floats(ps) + Floats(qs)
  {
    if ps == [] {
      assert ps + qs == qs;
    } else {
      CountsOfSum(ps[1..], qs);
      assert (ps + qs)[1..] == ps[1..] + qs;
    }
  }

  // ----------------------------------------------------- what the parts stand for

  /** Byte i belongs to the value of a t at offset; the other bytes are padding. */
  ghost predicate DataByte(t: Type, offset: nat, i: nat)
    decreases t
  {
    match t.kind
    case Array(len, elem) => exists k: nat :: k < len && DataByte(elem, ElemAt(offset, k, elem), i)
    case Struct(fields) => exists k: nat :: k < |fields| && DataByte(fields[k].typ, offset + fields[k].offset, i)
    case _ => offset <= i < offset + t.size
  }

  function ElemAt(offset: nat, k: nat, elem: Type): nat { offset + k * elem.size }

  predicate Covers(p: Part, i: nat) { p.offset <= i < p.offset + p.size }

  ghost predicate Covered(ps: seq<Part>, i: nat) { exists k :: 0 <= k < |ps| && Covers(ps[k], i) }

  lemma CoveredSum(ps: seq<Part>, qs: seq<Part>, i: nat)
    ensures Covered(ps + qs, i) <==> Covered(ps, i) || Covered(qs, i)
  {
    if k :| 0 <= k < |ps| && Covers(ps[k], i) { assert Covers((ps + qs)[k], i); }
    if k :| 0 <= k < |qs| && Covers(qs[k], i) { assert Covers((ps + qs)[|ps| + k], i); }
  }

  lemma CoveredOne(p: Part, i: nat)
    ensures Covered([p], i) <==> Covers(p, i)
  {
    assert [p][0] == p;
  }

  lemma {:induction false} IntPartsCover(offset: nat, size: nat, i: nat, n: nat, ptrMap: seq<bool>, x: nat)
    requires i <= n == |ptrMap|
    ensures Covered(IntParts(offset, size, i, n, ptrMap), x) <==> offset + i * size <= x < offset + n * size
    decreases n - i
  {
    if i < n {
      var p := WordPart(WordAt(offset, size, i), size, ptrMap[i]);
      IntPartsCover(offset, size, i + 1, n, ptrMap, x);
      CoveredSum([p], IntParts(offset, size, i + 1, n, ptrMap), x);
      CoveredOne(p, x);
      NextTimes(i, n, size);
    }
  }

  lemma NextTimes(i: nat, n: nat, size: nat)
    requires i < n
    ensures (i + 1) * size == i * size + size <= n * size
  {
    assert n * size == (i + 1) * size + (n - i - 1) * size;
  }

  lemma {:induction false} FloatPartsCover(offset: nat, size: nat, i: nat, n: nat, x: nat)
    requires i <= n
    ensures Covered(FloatParts(offset, size, i, n), x) <==> offset + i * size <= x < offset + n * size
    decreases n - i
  {
    if i < n {
      var p := Part(FloatPart, WordAt(offset, size, i), size);
      FloatPartsCover(offset, size, i + 1, n, x);
      CoveredSum([p], FloatParts(offset, size, i + 1, n), x);
      CoveredOne(p, x);
      NextTimes(i, n, size);
    }
  }

  predicate Leaf(k: Kind) { !k.Array? && !k.Struct? }

  lemma LeafCover(t: Type, offset: nat, i: nat)
    requires WellFormed(t) && Leaf(t.kind)
    ensures Covered(Parts(t, offset), i) <==> offset <= i < offset + t.size
  {
    hide Covered, IntParts, FloatParts;
    match t.kind
    case PointerKind => IntPartsCover(offset, t.size, 0, 1, [true], i);
    case IntKind => IntPartsCover(offset, t.size, 0, 1, [false], i);
    case FloatKind => FloatPartsCover(offset, t.size, 0, 1, i);
    case ComplexKind => FloatPartsCover(offset, t.size / 2, 0, 2, i);
    case StringKind => IntPartsCover(offset, PTR_SIZE, 0, 2, [true, false], i);
    case InterfaceKind => IntPartsCover(offset, PTR_SIZE, 0, 2, [false, true], i);
    case SliceKind => IntPartsCover(offset, PTR_SIZE, 0, 3, [true, false, false], i);
    case _ =>
  }

  /** The parts of a value that can travel in registers cover its bytes, and nothing
      but its bytes. */
  lemma {:induction false} PartsCover(m: Machine, t: Type, offset: nat, i: nat)
    requires WellFormed(t) && Registrable(m, t)
    ensures Covered(Parts(t, offset), i) <==> DataByte(t, offset, i)
    decreases t
  {
    hide Covered, WellFormed, Registrable, Parts, DataByte;
    if Leaf(t.kind) {
      LeafCover(t, offset, i);
      LeafBytes(t, offset, i);
    } else {
      Inside(m, t, offset);
      if t.kind.Array? {
        NoneCovered(i);
        ArrayBytes(t, offset, i);
        if t.kind.len == 1 { PartsCover(m, t.kind.elem, offset, i); }
      } else {
        FieldsCover(m, t.kind.fields, offset, i);
        StructBytes(t, offset, i);
      }
    }
  }

  lemma LeafBytes(t: Type, offset: nat, i: nat)
    requires Leaf(t.kind)
    ensures DataByte(t, offset, i) <==> offset <= i < offset + t.size
  {
  }

  lemma StructBytes(t: Type, offset: nat, i: nat)
    requires t.kind.Struct?
    ensures DataByte(t, offset, i) <==> FieldsByte(t.kind.fields, offset, i)
  {
  }

  lemma Inside(m: Machine, t: Type, offset: nat)
    requires WellFormed(t) && Registrable(m, t) && !Leaf(t.kind)
    ensures t.kind.Array? ==> WellFormed(t.kind.elem) && t.kind.len <= 1 && (t.kind.len == 1 ==> Registrable(m, t.kind.elem))
    ensures t.kind.Array? ==> Parts(t, offset) == if t.kind.len == 1 then Parts(t.kind.elem, offset) else []
    ensures t.kind.Struct? ==> (forall f :: f in t.kind.fields ==> WellFormed(f.typ)) && AllRegistrable(m, t.kind.fields)
    ensures t.kind.Struct? ==> Parts(t, offset) == FieldsParts(t.kind.fields, offset)
  {
  }

  lemma ArrayBytes(t: Type, offset: nat, i: nat)
    requires t.kind.Array?
    ensures t.kind.len == 0 ==> !DataByte(t, offset, i)
    ensures t.kind.len == 1 ==> (DataByte(t, offset, i) <==> DataByte(t.kind.elem, offset, i))
  {
    assert ElemAt(offset, 0, t.kind.elem) == offset;
  }

  lemma NoneCovered(i: nat)
    ensures !Covered([], i)
  {
  }

  lemma {:induction false} FieldsCover(m: Machine, fields: seq<Field>, offset: nat, i: nat)
    requires (forall f :: f in fields ==> WellFormed(f.typ)) && AllRegistrable(m, fields)
    ensures Covered(FieldsParts(fields, offset), i) <==> FieldsByte(fields, offset, i)
    decreases fields
  {
    hide Covered, WellFormed, Parts, Registrable, DataByte, FieldsByte;
    NoneCovered(i);
    FieldsByteNext(fields, offset, i);
    if fields != [] {
      var f := fields[0];
      assert f.typ < f;
      PartsCover(m, f.typ, offset + f.offset, i);
      FieldsCover(m, fields[1..], offset, i);
      CoveredSum(Parts(f.typ, offset + f.offset), FieldsParts(fields[1..], offset), i);
    }
  }

  ghost predicate FieldsByte(fields: seq<Field>, offset: nat, i: nat) {
    exists k: nat :: k < |fields| && DataByte(fields[k].typ, offset + fields[k].offset, i)
  }

  lemma FieldsByteNext(fields: seq<Field>, offset: nat, i: nat)
    ensures fields == [] ==> !FieldsByte(fields, offset, i)
    ensures fields != [] ==>
      (FieldsByte(fields, offset, i)
       <==> DataByte(fields[0].typ, offset + fields[0].offset, i) || FieldsByte(fields[1..], offset, i))
  {
    hide DataByte;
    if fields != [] {
      if k: nat :| k < |fields| && DataByte(fields[k].typ, offset + fields[k].offset, i) {
        if k > 0 { assert fields[1..][k - 1] == fields[k]; }
      }
      if k: nat :| k < |fields[1..]| && DataByte(fields[1..][k].typ, offset + fields[1..][k].offset, i) {
        assert fields[k + 1] == fields[1..][k];
      }
    }
  }

  // ------------------------------------------------------- the shape of the parts

  /** A part fits a register and lies within a value of size bytes at offset. */
  ghost predicate Within(p: Part, offset: nat, size: nat) {
    && offset <= p.offset && p.offset + p.size <= offset + size && 0 < p.size <= PTR_SIZE
    && (p.kind.PtrPart? ==> p.size == PTR_SIZE)
    && (p.kind.FloatPart? ==> p.size in {4, 8})
  }

  ghost predicate AllWithin(ps: seq<Part>, offset: nat, size: nat) { forall p :: p in ps ==> Within(p, offset, size) }

  lemma LeafWithin(t: Type, offset: nat)
    requires WellFormed(t) && Leaf(t.kind)
    ensures AllWithin(Parts(t, offset), offset, t.size) && Parts(t, offset) != []
  {
    hide IntParts, FloatParts;
    match t.kind
    case PointerKind => SomeInts(offset, t.size, [true]);
    case IntKind => SomeInts(offset, t.size, [false]);
    case FloatKind => SomeFloats(offset, t.size);
    case ComplexKind => SomeFloats(offset, t.size / 2);
    case StringKind => SomeInts(offset, PTR_SIZE, [true, false]);
    case InterfaceKind => SomeInts(offset, PTR_SIZE, [false, true]);
    case SliceKind => SomeInts(offset, PTR_SIZE, [true, false, false]);
  }

  lemma SomeInts(offset: nat, size: nat, ptrMap: seq<bool>)
    ensures |ptrMap| == 1 ==> IntParts(offset, size, 0, 1, ptrMap) == [WordPart(offset, size, ptrMap[0])]
    ensures |ptrMap| == 2 ==> IntParts(offset, size, 0, 2, ptrMap) == [WordPart(offset, size, ptrMap[0]), WordPart(offset + size, size, ptrMap[1])]
    ensures |ptrMap| == 3 ==>
      IntParts(offset, size, 0, 3, ptrMap) == [WordPart(offset, size, ptrMap[0]), WordPart(offset + size, size, ptrMap[1]), WordPart(offset + 2 * size, size, ptrMap[2])]
  {
    if |ptrMap| == 3 {
      assert IntParts(offset, size, 2, 3, ptrMap) == [WordPart(offset + 2 * size, size, ptrMap[2])];
    }
  }

  lemma SomeFloats(offset: nat, size: nat)
    ensures FloatParts(offset, size, 0, 1) == [Part(FloatPart, offset, size)]
    ensures FloatParts(offset, size, 0, 2) == [Part(FloatPart, offset, size), Part(FloatPart, offset + size, size)]
  {
    assert FloatParts(offset, size, 1, 1) == [] && FloatParts(offset, size, 2, 2) == [];
  }

  lemma {:induction false} PartsWithin(m: Machine, t: Type, offset: nat)
    requires WellFormed(t) && Registrable(m, t)
    ensures AllWithin(Parts(t, offset), offset, t.size)
    ensures t.size > 0 ==> Parts(t, offset) != []
    decreases t
  {
    hide WellFormed, Registrable, Parts;
    if Leaf(t.kind) {
      LeafWithin(t, offset);
    } else {
      Inside(m, t, offset);
      Laid(t);
      if t.kind.Array? {
        if t.kind.len == 1 { PartsWithin(m, t.kind.elem, offset); }
      } else {
        FieldsWithin(m, t.kind.fields, offset, 0, t.size);
      }
    }
  }

  lemma Laid(t: Type)
    requires WellFormed(t)
    ensures t.kind.Array? ==> t.size == t.kind.len * t.kind.elem.size
    ensures t.kind.Struct? ==> InOrder(t.kind.fields, 0, t.size) && (t.size > 0 ==> exists f :: f in t.kind.fields && f.typ.size > 0)
  {
  }

  lemma {:induction false} FieldsWithin(m: Machine, fields: seq<Field>, offset: nat, from: nat, size: nat)
    requires (forall f :: f in fields ==> WellFormed(f.typ)) && AllRegistrable(m, fields) && InOrder(fields, from, size)
    ensures from <= size && AllWithin(FieldsParts(fields, offset), offset, size)
    ensures (exists f :: f in fields && f.typ.size > 0) ==> FieldsParts(fields, offset) != []
    decreases fields
  {
    hide WellFormed, Parts, Registrable;
    if fields != [] {
      var f := fields[0];
      assert f.typ < f;
      PartsWithin(m, f.typ, offset + f.offset);
      FieldsWithin(m, fields[1..], offset, f.offset + f.typ.size, size);
      assert fields == [f] + fields[1..];
    }
  }
}
