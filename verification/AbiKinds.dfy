/** Which values travel in registers, and in which kind of register each piece does, told
    from the basic types that a type consists of. */
module AbiKinds {
  import opened AbiTypes
  import opened PtrBits

  // --------------------------------------------------------------- who may travel

  /** u is t or part of every value of type t. */
  ghost predicate Inside(u: Type, t: Type)
    decreases t
  {
    u == t
    || match t.kind
       case Array(len, elem) => len > 0 && Inside(u, elem)
       case Struct(fields) => exists k: nat :: k < |fields| && Inside(u, fields[k].typ)
       case _ => false
  }

  /** Arrays of more than one element, and floats too wide for the registers. */
  predicate Blocked(m: Machine, u: Type) {
    || (u.kind.Array? && u.kind.len > 1)
    || (u.kind.FloatKind? && u.size > m.floatRegSize)
    || (u.kind.ComplexKind? && u.size / 2 > m.floatRegSize)
  }

  /** A value may travel in registers unless something inside it may not. */
  lemma {:induction false} RegistrableIff(m: Machine, t: Type)
    ensures Registrable(m, t) <==> forall u :: Inside(u, t) ==> !Blocked(m, u)
    decreases t
  {
    match t.kind
    case Array(len, elem) =>
      RegistrableIff(m, elem);
      assert Inside(t, t);
      forall u ensures Inside(u, t) <==> u == t || (len > 0 && Inside(u, elem)) { }
      hide Inside;
    case Struct(fields) =>
      AllRegistrableIff(m, fields);
      forall u ensures Inside(u, t) <==> u == t || InsideSome(u, fields) { }
      hide Inside, AllRegistrable;
    case _ =>
      assert Inside(t, t);
  }

  ghost predicate InsideSome(u: Type, fields: seq<Field>) { exists k: nat :: k < |fields| && Inside(u, fields[k].typ) }

  lemma InsideMore(u: Type, fields: seq<Field>)
    requires fields != []
    ensures InsideSome(u, fields) <==> Inside(u, fields[0].typ) || InsideSome(u, fields[1..])
  {
    hide Inside;
    if k: nat :| k < |fields| && Inside(u, fields[k].typ) {
      if k > 0 { assert fields[1..][k - 1] == fields[k]; }
    }
    if k: nat :| k < |fields[1..]| && Inside(u, fields[1..][k].typ) { assert fields[k + 1] == fields[1..][k]; }
  }

  lemma {:induction false} AllRegistrableIff(m: Machine, fields: seq<Field>)
    ensures AllRegistrable(m, fields) <==> forall u :: InsideSome(u, fields) ==> !Blocked(m, u)
    decreases fields
  {
    hide Registrable, Inside, Blocked;
    if fields != [] {
      var f := fields[0];
      assert f.typ < f;
      RegistrableIff(m, f.typ);
      AllRegistrableIff(m, fields[1..]);
      forall u ensures InsideSome(u, fields) <==> Inside(u, f.typ) || InsideSome(u, fields[1..]) { InsideMore(u, fields); }
      hide InsideSome;
    }
  }

  // ------------------------------------------------------------------- the leaves

  /** A value of type t at offset has a value of the basic type u at o. */
  ghost predicate LeafAt(t: Type, offset: nat, u: Type, o: nat)
    decreases t
  {
    match t.kind
    case Array(len, elem) => exists k: nat :: k < len && LeafAt(elem, ElemAt(offset, k, elem), u, o)
    case Struct(fields) => exists k: nat :: k < |fields| && LeafAt(fields[k].typ, offset + fields[k].offset, u, o)
    case _ => u == t && o == offset
  }

  /** The pieces of a basic type: pointers, integers of a word or less, and floats. */
  predicate PieceOf(u: Type, o: nat, p: Part) {
    match u.kind
    case PointerKind => p == Part(PtrPart, o, u.size)
    case IntKind => p == Part(IntPart, o, u.size)
    case FloatKind => p == Part(FloatPart, o, u.size)
    case ComplexKind => p == Part(FloatPart, o, u.size / 2) || p == Part(FloatPart, o + u.size / 2, u.size / 2)
    case StringKind => p == Part(PtrPart, o, 8) || p == Part(IntPart, o + 8, 8)
    case InterfaceKind => p == Part(IntPart, o, 8) || p == Part(PtrPart, o + 8, 8)
    case SliceKind => p == Part(PtrPart, o, 8) || p == Part(IntPart, o + 8, 8) || p == Part(IntPart, o + 16, 8)
    case _ => false
  }

  ghost predicate Piece(t: Type, offset: nat, p: Part) { exists u, o :: LeafAt(t, offset, u, o) && PieceOf(u, o, p) }

  lemma LeafPieces(t: Type, offset: nat, p: Part)
    requires Leaf(t.kind)
    ensures p in Parts(t, offset) <==> PieceOf(t, offset, p)
  {
    hide IntParts, FloatParts;
    match t.kind
    case PointerKind => SomeInts(offset, t.size, [true]);
    case IntKind => SomeInts(offset, t.size, [false]);
    case FloatKind => SomeFloats(offset, t.size);
    case ComplexKind => SomeFloats(offset, t.size / 2);
    case StringKind => SomeInts(offset, PTR_SIZE, [true, false]);
    case InterfaceKind => SomeInts(offset, PTR_SIZE, [false, true]);
    case SliceKind => SomeInts(offset, PTR_SIZE, [true, false, false]);
  }

  lemma LeafPiece(t: Type, offset: nat, p: Part)
    requires Leaf(t.kind)
    ensures Piece(t, offset, p) <==> PieceOf(t, offset, p)
  {
    assert LeafAt(t, offset, t, offset);
  }

  /** The registers of a value that travels in registers are those of the pieces of its
      basic types, each in the kind of register that it belongs to. */
  lemma {:induction false} PartsArePieces(m: Machine, t: Type, offset: nat, p: Part)
    requires Registrable(m, t)
    ensures p in Parts(t, offset) <==> Piece(t, offset, p)
    decreases t
  {
    hide PieceOf, LeafAt, Parts, Registrable;
    if Leaf(t.kind) {
      LeafPieces(t, offset, p);
      LeafPiece(t, offset, p);
    } else if t.kind.Array? {
      ArrayPieces(m, t, offset, p);
      if t.kind.len == 1 { PartsArePieces(m, t.kind.elem, offset, p); }
    } else {
      StructIs(m, t, offset, p);
      FieldsArePieces(m, t.kind.fields, offset, p);
    }
  }

  lemma ArrayPieces(m: Machine, t: Type, offset: nat, p: Part)
    requires t.kind.Array? && Registrable(m, t)
    ensures t.kind.len <= 1 && (t.kind.len == 1 ==> Registrable(m, t.kind.elem))
    ensures Parts(t, offset) == if t.kind.len == 1 then Parts(t.kind.elem, offset) else []
    ensures Piece(t, offset, p) <==> t.kind.len == 1 && Piece(t.kind.elem, offset, p)
  {
    hide PieceOf;
    var elem := t.kind.elem;
    assert ElemAt(offset, 0, elem) == offset;
    forall u, o ensures LeafAt(t, offset, u, o) <==> t.kind.len == 1 && LeafAt(elem, offset, u, o) {
      if t.kind.len == 1 && LeafAt(elem, offset, u, o) { assert LeafAt(elem, ElemAt(offset, 0, elem), u, o); }
    }
    hide LeafAt;
  }

  ghost predicate SomePiece(fields: seq<Field>, offset: nat, p: Part) {
    exists k: nat :: k < |fields| && Piece(fields[k].typ, offset + fields[k].offset, p)
  }

  lemma StructIs(m: Machine, t: Type, offset: nat, p: Part)
    requires t.kind.Struct? && Registrable(m, t)
    ensures AllRegistrable(m, t.kind.fields) && Parts(t, offset) == FieldsParts(t.kind.fields, offset)
    ensures Piece(t, offset, p) <==> SomePiece(t.kind.fields, offset, p)
  {
    StructPieces(t, offset, p);
    hide Piece, LeafAt, FieldsParts, AllRegistrable;
  }

  lemma StructPieces(t: Type, offset: nat, p: Part)
    requires t.kind.Struct?
    ensures Piece(t, offset, p) <==> SomePiece(t.kind.fields, offset, p)
  {
    hide PieceOf;
    var fields := t.kind.fields;
    if Piece(t, offset, p) {
      var u, o :| LeafAt(t, offset, u, o) && PieceOf(u, o, p);
      var k: nat :| k < |fields| && LeafAt(fields[k].typ, offset + fields[k].offset, u, o);
      assert Piece(fields[k].typ, offset + fields[k].offset, p);
    }
    if k: nat :| k < |fields| && Piece(fields[k].typ, offset + fields[k].offset, p) {
      var u, o :| LeafAt(fields[k].typ, offset + fields[k].offset, u, o) && PieceOf(u, o, p);
      assert LeafAt(t, offset, u, o);
    }
  }

  lemma {:induction false} FieldsArePieces(m: Machine, fields: seq<Field>, offset: nat, p: Part)
    requires AllRegistrable(m, fields)
    ensures p in FieldsParts(fields, offset) <==> SomePiece(fields, offset, p)
    decreases fields
  {
    hide Piece, Parts, Registrable;
    if fields != [] {
      var f := fields[0];
      assert f.typ < f;
      PartsArePieces(m, f.typ, offset + f.offset, p);
      FieldsArePieces(m, fields[1..], offset, p);
      MorePieces(fields, offset, p);
    }
  }

  lemma MorePieces(fields: seq<Field>, offset: nat, p: Part)
    requires fields != []
    ensures SomePiece(fields, offset, p) <==> Piece(fields[0].typ, offset + fields[0].offset, p) || SomePiece(fields[1..], offset, p)
  {
    hide Piece;
    if k: nat :| k < |fields| && Piece(fields[k].typ, offset + fields[k].offset, p) {
      if k > 0 { assert fields[1..][k - 1] == fields[k]; }
    }
    if k: nat :| k < |fields[1..]| && Piece(fields[1..][k].typ, offset + fields[1..][k].offset, p) { assert fields[k + 1] == fields[1..][k]; }
  }

  // --------------------------------------------------------- the garbage collector

  /** Where a basic type keeps pointers: a pointer at its start, the data pointer of a
      string or slice too, and both words of an interface. */
  predicate GcWord(u: Type, o: nat, w: nat) {
    match u.kind
    case PointerKind => w * 8 == o
    case StringKind => w * 8 == o
    case SliceKind => w * 8 == o
    case InterfaceKind => w * 8 == o || w * 8 == o + 8
    case _ => false
  }

  ghost predicate GcPiece(t: Type, offset: nat, w: nat) { exists u, o :: LeafAt(t, offset, u, o) && GcWord(u, o, w) }

  /** The words that hold pointers are those of the basic types. */
  lemma {:induction false} PtrWordIs(t: Type, offset: nat, w: nat)
    ensures PtrWord(t, offset, w) <==> GcPiece(t, offset, w)
    decreases t
  {
    if Leaf(t.kind) {
      assert LeafAt(t, offset, t, offset);
    } else if t.kind.Array? {
      var elem := t.kind.elem;
      forall k: nat | k < t.kind.len ensures PtrWord(elem, ElemAt(offset, k, elem), w) <==> GcPiece(elem, ElemAt(offset, k, elem), w) {
        PtrWordIs(elem, ElemAt(offset, k, elem), w);
      }
      GcArray(t, offset, w);
      hide GcPiece, LeafAt, ElemAt;
    } else {
      var fields := t.kind.fields;
      forall k: nat | k < |fields| ensures PtrWord(fields[k].typ, offset + fields[k].offset, w) <==> GcPiece(fields[k].typ, offset + fields[k].offset, w) {
        assert fields[k] in fields && fields[k].typ < fields[k];
        PtrWordIs(fields[k].typ, offset + fields[k].offset, w);
      }
      GcStruct(t, offset, w);
      hide GcPiece, LeafAt;
    }
  }

  lemma GcArray(t: Type, offset: nat, w: nat)
    requires t.kind.Array?
    ensures GcPiece(t, offset, w) <==> exists k: nat :: k < t.kind.len && GcPiece(t.kind.elem, ElemAt(offset, k, t.kind.elem), w)
  {
    hide GcWord, ElemAt;
    var elem := t.kind.elem;
    if GcPiece(t, offset, w) {
      var u, o :| LeafAt(t, offset, u, o) && GcWord(u, o, w);
      var k: nat :| k < t.kind.len && LeafAt(elem, ElemAt(offset, k, elem), u, o);
      assert GcPiece(elem, ElemAt(offset, k, elem), w);
    }
    if k: nat :| k < t.kind.len && GcPiece(elem, ElemAt(offset, k, elem), w) {
      var u, o :| LeafAt(elem, ElemAt(offset, k, elem), u, o) && GcWord(u, o, w);
      assert LeafAt(t, offset, u, o);
    }
  }

  lemma GcStruct(t: Type, offset: nat, w: nat)
    requires t.kind.Struct?
    ensures GcPiece(t, offset, w)
       <==> exists k: nat :: k < |t.kind.fields| && GcPiece(t.kind.fields[k].typ, offset + t.kind.fields[k].offset, w)
  {
    hide GcWord;
    var fields := t.kind.fields;
    if GcPiece(t, offset, w) {
      var u, o :| LeafAt(t, offset, u, o) && GcWord(u, o, w);
      var k: nat :| k < |fields| && LeafAt(fields[k].typ, offset + fields[k].offset, u, o);
      assert GcPiece(fields[k].typ, offset + fields[k].offset, w);
    }
    if k: nat :| k < |fields| && GcPiece(fields[k].typ, offset + fields[k].offset, w) {
      var u, o :| LeafAt(fields[k].typ, offset + fields[k].offset, u, o) && GcWord(u, o, w);
      assert LeafAt(t, offset, u, o);
    }
  }

  /** What a value in registers shows the collector is what it shows in memory, but for the
      first word of an interface, which the collector need not see in a register. */
  lemma PtrPartsAreWords(m: Machine, t: Type, offset: nat, w: nat)
    requires WellFormed(t) && Registrable(m, t)
    ensures Part(PtrPart, w * 8, 8) in Parts(t, offset) ==> PtrWord(t, offset, w)
    ensures PtrWord(t, offset, w) ==>
              Part(PtrPart, w * 8, 8) in Parts(t, offset) || (Part(IntPart, w * 8, 8) in Parts(t, offset) && Part(PtrPart, w * 8 + 8, 8) in Parts(t, offset))
  {
    hide Parts, PtrWord, LeafAt, WellFormed, Registrable, PieceOf, GcWord;
    PartsArePieces(m, t, offset, Part(PtrPart, w * 8, 8));
    PartsArePieces(m, t, offset, Part(PtrPart, w * 8 + 8, 8));
    PartsArePieces(m, t, offset, Part(IntPart, w * 8, 8));
    PtrWordIs(t, offset, w);
    if PtrWord(t, offset, w) {
      var u, o :| LeafAt(t, offset, u, o) && GcWord(u, o, w);
      LeafWellFormed(t, offset, u, o);
      LeafWords(u, o, w);
    }
    if Part(PtrPart, w * 8, 8) in Parts(t, offset) {
      var u, o :| LeafAt(t, offset, u, o) && PieceOf(u, o, Part(PtrPart, w * 8, 8));
      LeafWellFormed(t, offset, u, o);
      LeafWords(u, o, w);
    }
  }

  lemma LeafWords(u: Type, o: nat, w: nat)
    requires WellFormed(u)
    ensures PieceOf(u, o, Part(PtrPart, w * 8, 8)) ==> GcWord(u, o, w)
    ensures GcWord(u, o, w) ==>
              PieceOf(u, o, Part(PtrPart, w * 8, 8)) || (PieceOf(u, o, Part(IntPart, w * 8, 8)) && PieceOf(u, o, Part(PtrPart, w * 8 + 8, 8)))
  {
  }

  lemma {:induction false} LeafWellFormed(t: Type, offset: nat, u: Type, o: nat)
    requires WellFormed(t) && LeafAt(t, offset, u, o)
    ensures WellFormed(u) && Leaf(u.kind)
    decreases t
  {
    hide WellFormed;
    WellFormedInside(t);
    if t.kind.Array? {
      var elem := t.kind.elem;
      var k: nat :| k < t.kind.len && LeafAt(elem, ElemAt(offset, k, elem), u, o);
      hide LeafAt, ElemAt;
      LeafWellFormed(elem, ElemAt(offset, k, elem), u, o);
    } else if t.kind.Struct? {
      var fields := t.kind.fields;
      var k: nat :| k < |fields| && LeafAt(fields[k].typ, offset + fields[k].offset, u, o);
      hide LeafAt;
      assert fields[k] in fields && fields[k].typ < fields[k];
      LeafWellFormed(fields[k].typ, offset + fields[k].offset, u, o);
    }
  }

  lemma WellFormedInside(t: Type)
    requires WellFormed(t)
    ensures t.kind.Array? ==> WellFormed(t.kind.elem)
    ensures t.kind.Struct? ==> forall f :: f in t.kind.fields ==> WellFormed(f.typ)
  {
  }
}
