/** Bitmaps of the words of a value that hold pointers: built bit by bit from the type,
    or for an array by repeating the bitmap of its element. */
module PtrBits {
  import opened AbiTypes

  // ------------------------------------------------------------- bits of a byte

  /** One shifted left by i. */
  function Mask8(i: nat): bv8 {
    if i == 0 then 1 else if i == 1 then 2 else if i == 2 then 4 else if i == 3 then 8
    else if i == 4 then 16 else if i == 5 then 32 else if i == 6 then 64 else 128
  }

  predicate Has8(x: bv8, i: nat) { x & Mask8(i) != 0 }

  function Set8(x: bv8, i: nat): bv8 { x | Mask8(i) }

  lemma SetLaw(x: bv8, i: nat, j: nat)
    requires i < 8 && j < 8
    ensures Has8(Set8(x, i), j) <==> Has8(x, j) || i == j
  {
    MasksApart(i, j);
    OrHas(x, Mask8(i), j);
  }

  lemma OrHas(x: bv8, m: bv8, j: nat)
    ensures Has8(x | m, j) <==> Has8(x, j) || m & Mask8(j) != 0
  {
    hide Mask8;
    OrMask(x, m, Mask8(j));
  }

  lemma NoneSet(j: nat)
    ensures !Has8(0, j)
  {
    hide Mask8;
    NoBits(Mask8(j));
  }

  lemma OrMask(x: bv8, m: bv8, n: bv8)
    ensures (x | m) & n != 0 <==> x & n != 0 || m & n != 0
  {
  }

  lemma NoBits(m: bv8)
    ensures 0 & m == 0
  {
  }

  lemma MasksApart(i: nat, j: nat)
    requires i < 8 && j < 8
    ensures Mask8(i) & Mask8(j) != 0 <==> i == j
  {
  }

  type Bitmap = seq<bv8>

  predicate BitAt(data: Bitmap, k: nat) { k / 8 < |data| && Has8(data[k / 8], k % 8) }

  function SetAt(data: Bitmap, k: nat): Bitmap
    requires k / 8 < |data|
  {
    data[k / 8 := Set8(data[k / 8], k % 8)]
  }

  lemma SetAtLaw(data: Bitmap, k: nat, w: nat)
    requires k / 8 < |data|
    ensures BitAt(SetAt(data, k), w) <==> BitAt(data, w) || w == k
  {
    hide Has8, Set8;
    SetLaw(data[k / 8], k % 8, w % 8);
  }

  function Zeroed(n: nat): Bitmap { seq(n, _ => 0) }

  lemma ZeroedLaw(n: nat, w: nat)
    ensures |Zeroed(n)| == n && !BitAt(Zeroed(n), w)
  {
    hide Has8;
    NoneSet(w % 8);
  }

  lemma MoreZeroes(data: Bitmap, n: nat, w: nat)
    ensures BitAt(data + Zeroed(n), w) <==> BitAt(data, w)
  {
    hide Has8;
    NoneSet(w % 8);
  }

  // ------------------------------------------------------ which words are pointers

  /** Word w of memory holds a pointer of a value of type t that lies at offset; both
      words of an interface count. */
  ghost predicate PtrWord(t: Type, offset: nat, w: nat)
    decreases t
  {
    match t.kind
    case PointerKind => w * PTR_SIZE == offset
    case StringKind => w * PTR_SIZE == offset
    case SliceKind => w * PTR_SIZE == offset
    case InterfaceKind => w * PTR_SIZE == offset || w * PTR_SIZE == offset + PTR_SIZE
    case Array(len, elem) => exists k: nat :: k < len && PtrWord(elem, ElemAt(offset, k, elem), w)
    case Struct(fields) => exists k: nat :: k < |fields| && PtrWord(fields[k].typ, offset + fields[k].offset, w)
    case _ => false
  }

  /** The length of the part of a value that may hold pointers. */
  function PtrBytes(t: Type): nat
    decreases t
  {
    match t.kind
    case PointerKind => PTR_SIZE
    case StringKind => PTR_SIZE
    case SliceKind => PTR_SIZE
    case InterfaceKind => 2 * PTR_SIZE
    case Array(len, elem) => if len > 0 && PtrBytes(elem) > 0 then ElemAt(0, len - 1, elem) + PtrBytes(elem) else 0
    case Struct(fields) => LastPtr(fields)
    case _ => 0
  }

  /** The end of the last field with pointers. */
  function LastPtr(fields: seq<Field>): nat
    decreases fields
  {
    if fields == [] then 0
    else
      var f := fields[|fields| - 1];
      assert f.typ < f;
      assert f in fields;
      if PtrBytes(f.typ) > 0 then f.offset + PtrBytes(f.typ) else LastPtr(fields[..|fields| - 1])
  }

  predicate Pointers(t: Type) { PtrBytes(t) > 0 }

  /** The compiler keeps pointers at multiples of the word. */
  ghost predicate WordAligned(t: Type)
    decreases t
  {
    match t.kind
    case Array(len, elem) => WordAligned(elem) && (Pointers(elem) ==> elem.size % PTR_SIZE == 0)
    case Struct(fields) => forall k: nat :: k < |fields| ==> WordAligned(fields[k].typ) && (Pointers(fields[k].typ) ==> fields[k].offset % PTR_SIZE == 0)
    case _ => true
  }

  // ------------------------------------------------------------------- the builder

  ghost function BitsOf(data: Bitmap, n: nat): (r: seq<bool>)
    ensures |r| == n && forall w :: 0 <= w < n ==> (r[w] <==> BitAt(data, w))
  {
    seq(n, w requires 0 <= w => BitAt(data, w))
  }

  class BitVector {
    var n: nat
    var data: Bitmap

    ghost predicate Valid()
      reads this
    {
      |data| == (n + 63) / 64 * 8 && forall w :: w >= n ==> !BitAt(data, w)
    }

    ghost function Bits(): seq<bool>
      reads this
    {
      BitsOf(data, n)
    }

    constructor ()
      ensures Valid() && Bits() == []
    {
      n, data := 0, [];
    }

    /** Adds a bit, with room for 64 at a time. */
    method Append(bit: bool)
      requires Valid()
      modifies this
      ensures Valid() && Bits() == old(Bits()) + [bit]
    {
      hide BitAt, SetAt, Zeroed;
      ghost var d0 := data;
      if n % 64 == 0 {
        data := data + Zeroed(8);
        ZeroedLaw(8, 0);
      }
      RoomForBit(n, |d0|, |data|);
      forall w ensures BitAt(data, w) <==> BitAt(d0, w) { MoreZeroes(d0, 8, w); }
      if bit {
        ghost var d1 := data;
        data := SetAt(data, n);
        forall w ensures BitAt(data, w) <==> BitAt(d1, w) || w == n { SetAtLaw(d1, n, w); }
        SameSize(d1, n);
      }
      n := n + 1;
    }

    method Pad(words: nat)
      requires Valid()
      modifies this
      ensures Valid() && |Bits()| == if old(n) < words then words else old(n)
      ensures forall w :: 0 <= w < |Bits()| ==> Bits()[w] == (w < old(n) && old(Bits())[w])
    {
      while n < words
        invariant Valid() && old(n) <= |Bits()| && (old(n) < words ==> |Bits()| <= words) && (old(n) >= words ==> n == old(n))
        invariant forall w :: 0 <= w < |Bits()| ==> Bits()[w] == (w < old(n) && old(Bits())[w])
        decreases words - n
      {
        Append(false);
      }
    }

    method PadThenSet(word: nat)
      requires Valid() && n <= word
      modifies this
      ensures Valid() && |Bits()| == word + 1
      ensures forall w :: 0 <= w <= word ==> Bits()[w] == ((w < old(n) && old(Bits())[w]) || w == word)
    {
      Pad(word);
      Append(true);
    }

    /** Adds the bits of a value of type t at offset, behind those that are there. */
    method AddTypeBits(offset: nat, t: Type)
      requires Valid() && WellFormed(t) && WordAligned(t) && InFront(|Bits()|, offset, t)
      modifies this
      ensures Valid() && |Bits()| == EndWord(old(|Bits()|), offset, PtrBytes(t))
      ensures forall w :: 0 <= w < |Bits()| ==> Bits()[w] == if w < old(|Bits()|) then old(Bits())[w] else PtrWord(t, offset, w)
      decreases t, 0
    {
      hide WellFormed, WordAligned, PtrWord, PtrBytes;
      if !Pointers(t) {
        return;
      }
      match t.kind
      case PointerKind =>
        OnePtr(t, offset);
        PadThenSet(offset / PTR_SIZE);
      case SliceKind =>
        OnePtr(t, offset);
        PadThenSet(offset / PTR_SIZE);
      case StringKind =>
        OnePtr(t, offset);
        PadThenSet(offset / PTR_SIZE);
      case InterfaceKind =>
        TwoPtrs(t, offset);
        PadThenSet(offset / PTR_SIZE);
        Append(true);
      case Array(len, elem) =>
        ArrayPtrs(t, offset);
        AddElemBits(offset, len, elem);
      case Struct(fields) =>
        StructPtrs(t, offset);
        AddFieldBits(offset, fields, t.size);
      case _ =>
        NoPtrs(t);
    }

    method AddElemBits(offset: nat, len: nat, elem: Type)
      requires Valid() && WellFormed(elem) && WordAligned(elem) && Pointers(elem) && elem.size % PTR_SIZE == 0
      requires offset % PTR_SIZE == 0 && |Bits()| * PTR_SIZE <= offset
      modifies this
      ensures Valid() && |Bits()| == EndWord(old(|Bits()|), offset, ElemsEnd(len, elem))
      ensures forall w :: 0 <= w < |Bits()| ==> Bits()[w] == if w < old(|Bits()|) then old(Bits())[w] else ElemsWord(elem, offset, len, w)
      decreases elem, 1
    {
      hide WellFormed, WordAligned, PtrWord, PtrBytes, ElemAt;
      ghost var n0 := |Bits()|;
      NoElems(offset, elem);
      for i := 0 to len
        invariant Valid() && |Bits()| == EndWord(n0, offset, ElemsEnd(i, elem))
        invariant forall w :: 0 <= w < |Bits()| ==> Bits()[w] == if w < n0 then old(Bits())[w] else ElemsWord(elem, offset, i, w)
      {
        ghost var bits := Bits();
        ElemRoom(n0, offset, i, elem);
        AddTypeBits(ElemAt(offset, i, elem), elem);
        forall w | n0 <= w < |Bits()| ensures Bits()[w] == ElemsWord(elem, offset, i + 1, w) {
          ElemStep(n0, offset, i, elem, w);
        }
      }
    }

    method AddFieldBits(offset: nat, fields: seq<Field>, size: nat)
      requires Valid() && AllFields(fields) && InOrder(fields, 0, size) && FieldsInFront(|Bits()|, offset, fields)
      modifies this
      ensures Valid() && |Bits()| == EndWord(old(|Bits()|), offset, LastPtr(fields))
      ensures forall w :: 0 <= w < |Bits()| ==> Bits()[w] == if w < old(|Bits()|) then old(Bits())[w] else FieldsWord(fields, offset, |fields|, w)
      decreases fields, 0
    {
      hide WellFormed, WordAligned, PtrWord, PtrBytes, LastPtr;
      ghost var n0 := |Bits()|;
      NoFieldsYet(fields, offset);
      for i := 0 to |fields|
        invariant Valid() && |Bits()| == EndWord(n0, offset, LastPtr(fields[..i]))
        invariant forall w :: 0 <= w < |Bits()| ==> Bits()[w] == if w < n0 then old(Bits())[w] else FieldsWord(fields, offset, i, w)
      {
        ghost var bits := Bits();
        var f := fields[i];
        assert f.typ < f;
        assert f in fields;
        FieldRoom(n0, offset, fields, i, size);
        AddTypeBits(offset + f.offset, f.typ);
        forall w | n0 <= w < |Bits()| ensures Bits()[w] == FieldsWord(fields, offset, i + 1, w) {
          FieldStep(n0, offset, fields, i, size, w);
        }
      }
      assert fields[..|fields|] == fields;
    }
  }

  lemma SameSize(data: Bitmap, k: nat)
    requires k / 8 < |data|
    ensures |SetAt(data, k)| == |data|
  {
  }

  lemma RoomForBit(n: nat, before: nat, after: nat)
    requires before == (n + 63) / 64 * 8 && after == if n % 64 == 0 then before + 8 else before
    ensures n / 8 < after && after == (n + 1 + 63) / 64 * 8
  {
    var q, r := n / 64, n % 64;
    assert (n + 63) / 64 == if r == 0 then q else q + 1;
    assert (n + 64) / 64 == q + 1;
  }

  /** The bits end in front of the value. */
  ghost predicate InFront(n: nat, offset: nat, t: Type) { Pointers(t) ==> offset % PTR_SIZE == 0 && n * PTR_SIZE <= offset }

  /** How many bits there are after a value whose pointers end at offset + ptrs. */
  function EndWord(n: nat, offset: nat, ptrs: nat): nat { if ptrs > 0 then (offset + ptrs) / PTR_SIZE else n }

  function ElemsEnd(len: nat, elem: Type): nat { if len > 0 then ElemAt(0, len - 1, elem) + PtrBytes(elem) else 0 }

  ghost predicate ElemsWord(elem: Type, offset: nat, n: nat, w: nat) {
    exists k: nat :: k < n && PtrWord(elem, ElemAt(offset, k, elem), w)
  }

  ghost predicate FieldsWord(fields: seq<Field>, offset: nat, n: nat, w: nat) {
    exists k: nat :: k < n && k < |fields| && PtrWord(fields[k].typ, offset + fields[k].offset, w)
  }

  ghost predicate AllFields(fields: seq<Field>) {
    forall k: nat :: k < |fields| ==>
      && WellFormed(fields[k].typ) && WordAligned(fields[k].typ)
      && (Pointers(fields[k].typ) ==> fields[k].offset % PTR_SIZE == 0)
  }

  ghost predicate FieldsInFront(n: nat, offset: nat, fields: seq<Field>) {
    LastPtr(fields) > 0 ==> offset % PTR_SIZE == 0 && n * PTR_SIZE <= offset
  }

  // ------------------------------------------------------- where pointers can be

  /** The pointers of a value lie in the part PtrBytes tells. */
  lemma {:induction false} PtrWordRange(t: Type, offset: nat, w: nat)
    requires WellFormed(t) && WordAligned(t) && PtrWord(t, offset, w)
    ensures Pointers(t) && offset <= w * PTR_SIZE && w * PTR_SIZE + PTR_SIZE <= offset + PtrBytes(t)
    decreases t
  {
    hide WellFormed, WordAligned, PtrWord, PtrBytes, ElemAt, LastPtr;
    if Leaf(t.kind) {
      LeafRange(t, offset, w);
    } else if t.kind.Array? {
      var elem := t.kind.elem;
      ArrayPtrs(t, offset);
      var k: nat :| k < t.kind.len && PtrWord(elem, ElemAt(offset, k, elem), w);
      PtrWordRange(elem, ElemAt(offset, k, elem), w);
      ElemOrder(offset, k, t.kind.len - 1, elem);
    } else {
      var fields := t.kind.fields;
      StructPtrs(t, offset);
      var k: nat :| k < |fields| && PtrWord(fields[k].typ, offset + fields[k].offset, w);
      PtrWordRange(fields[k].typ, offset + fields[k].offset, w);
      LastPtrBounds(fields, 0, t.size, k);
    }
  }

  lemma LeafRange(t: Type, offset: nat, w: nat)
    requires Leaf(t.kind) && PtrWord(t, offset, w)
    ensures Pointers(t) && offset <= w * PTR_SIZE && w * PTR_SIZE + PTR_SIZE <= offset + PtrBytes(t)
  {
  }

  lemma OnePtr(t: Type, offset: nat)
    requires (t.kind.PointerKind? || t.kind.SliceKind? || t.kind.StringKind?) && offset % PTR_SIZE == 0
    ensures PtrBytes(t) == PTR_SIZE && forall w: nat :: PtrWord(t, offset, w) <==> w == offset / PTR_SIZE
    ensures (offset + PTR_SIZE) / PTR_SIZE == offset / PTR_SIZE + 1
  {
  }

  lemma TwoPtrs(t: Type, offset: nat)
    requires t.kind.InterfaceKind? && offset % PTR_SIZE == 0
    ensures PtrBytes(t) == 2 * PTR_SIZE
    ensures forall w: nat :: PtrWord(t, offset, w) <==> w == offset / PTR_SIZE || w == offset / PTR_SIZE + 1
    ensures (offset + 2 * PTR_SIZE) / PTR_SIZE == offset / PTR_SIZE + 2
  {
  }

  lemma NoPtrs(t: Type)
    requires t.kind.IntKind? || t.kind.FloatKind? || t.kind.ComplexKind?
    ensures PtrBytes(t) == 0
  {
  }

  lemma ArrayPtrs(t: Type, offset: nat)
    requires t.kind.Array? && WellFormed(t) && WordAligned(t)
    ensures WellFormed(t.kind.elem) && WordAligned(t.kind.elem) && t.size == t.kind.len * t.kind.elem.size
    ensures Pointers(t) <==> t.kind.len > 0 && Pointers(t.kind.elem)
    ensures Pointers(t.kind.elem) ==> t.kind.elem.size % PTR_SIZE == 0
    ensures Pointers(t) ==> PtrBytes(t) == ElemsEnd(t.kind.len, t.kind.elem)
    ensures forall w: nat :: PtrWord(t, offset, w) <==> ElemsWord(t.kind.elem, offset, t.kind.len, w)
  {
  }

  lemma StructPtrs(t: Type, offset: nat)
    requires t.kind.Struct? && WellFormed(t) && WordAligned(t)
    ensures AllFields(t.kind.fields) && InOrder(t.kind.fields, 0, t.size) && PtrBytes(t) == LastPtr(t.kind.fields)
    ensures forall w: nat :: PtrWord(t, offset, w) <==> FieldsWord(t.kind.fields, offset, |t.kind.fields|, w)
  {
    StructBytes(t);
    StructWords(t, offset);
    StructFields(t);
    hide *;
  }

  lemma StructWords(t: Type, offset: nat)
    requires t.kind.Struct?
    ensures forall w: nat :: PtrWord(t, offset, w) <==> FieldsWord(t.kind.fields, offset, |t.kind.fields|, w)
  {
  }

  lemma StructFields(t: Type)
    requires t.kind.Struct? && WellFormed(t) && WordAligned(t)
    ensures AllFields(t.kind.fields) && InOrder(t.kind.fields, 0, t.size)
  {
    hide PtrBytes;
    assert forall k: nat :: k < |t.kind.fields| ==> t.kind.fields[k] in t.kind.fields;
  }

  lemma StructBytes(t: Type)
    requires t.kind.Struct?
    ensures PtrBytes(t) == LastPtr(t.kind.fields)
  {
  }

  // ----------------------------------------------------------- arithmetic of ends

  lemma WordsExact(a: nat, b: nat)
    requires a % PTR_SIZE == 0 && b % PTR_SIZE == 0
    ensures (a + b) / PTR_SIZE * PTR_SIZE == a + b && (a + b) % PTR_SIZE == 0
  {
  }

  lemma ElemOrder(offset: nat, k: nat, n: nat, elem: Type)
    ensures k <= n ==> ElemAt(offset, k, elem) - offset <= ElemAt(0, n, elem)
    ensures k < n ==> ElemAt(offset, k, elem) + elem.size <= ElemAt(offset, n, elem)
    ensures ElemAt(offset, k, elem) == offset + ElemAt(0, k, elem) && ElemAt(0, k + 1, elem) == ElemAt(0, k, elem) + elem.size
  {
    TimesOrder(k, n, elem.size);
  }

  lemma TimesOrder(k: nat, n: nat, s: nat)
    ensures k <= n ==> k * s <= n * s
    ensures k < n ==> k * s + s <= n * s
    ensures (k + 1) * s == k * s + s
  {
    Distribute(k, 1, s);
    if k <= n { Distribute(k, n - k, s); }
    if k < n { Distribute(1, n - k - 1, s); }
  }

  lemma Distribute(a: nat, b: nat, s: nat)
    ensures (a + b) * s == a * s + b * s
  {
  }

  lemma ElemWords(offset: nat, k: nat, elem: Type)
    requires elem.size % PTR_SIZE == 0 && offset % PTR_SIZE == 0
    ensures ElemAt(offset, k, elem) % PTR_SIZE == 0
  {
    assert k * elem.size == k * (elem.size / PTR_SIZE) * PTR_SIZE by {
      MulAssoc3(k, elem.size / PTR_SIZE, PTR_SIZE);
    }
    TimesEight(k * (elem.size / PTR_SIZE), offset);
  }

  lemma MulAssoc3(a: nat, b: nat, c: nat)
    ensures a * (b * c) == a * b * c
  {
  }

  lemma TimesEight(n: nat, offset: nat)
    requires offset % PTR_SIZE == 0
    ensures (offset + n * PTR_SIZE) % PTR_SIZE == 0
  {
  }

  lemma {:induction false} PtrBytesFit(t: Type)
    requires WellFormed(t) && WordAligned(t)
    ensures PtrBytes(t) <= t.size && PtrBytes(t) % PTR_SIZE == 0
    decreases t
  {
    hide WellFormed, WordAligned, PtrBytes, ElemAt, LastPtr;
    if Leaf(t.kind) {
      LeafFit(t);
    } else if t.kind.Array? {
      var elem, len := t.kind.elem, t.kind.len;
      ArrayPtrs(t, 0);
      PtrBytesFit(elem);
      if Pointers(t) {
        ElemOrder(0, len - 1, len, elem);
        ElemWords(0, len - 1, elem);
        LastElem(len, elem);
        WordsExact(ElemAt(0, len - 1, elem), PtrBytes(elem));
      }
    } else {
      StructPtrs(t, 0);
      FieldsBound(t.kind.fields, 0, t.size);
    }
  }

  lemma LeafFit(t: Type)
    requires WellFormed(t) && Leaf(t.kind)
    ensures PtrBytes(t) <= t.size && PtrBytes(t) % PTR_SIZE == 0
  {
  }

  lemma LastElem(len: nat, elem: Type)
    ensures ElemAt(0, len, elem) == len * elem.size
  {
  }

  lemma {:induction false} InOrderPrefix(fields: seq<Field>, from: nat, to: nat, i: nat)
    requires InOrder(fields, from, to) && i < |fields|
    ensures InOrder(fields[..i], from, fields[i].offset) && from <= fields[i].offset && fields[i].offset + fields[i].typ.size <= to
  {
    if i > 0 {
      InOrderPrefix(fields[1..], fields[0].offset + fields[0].typ.size, to, i - 1);
      assert fields[..i][1..] == fields[1..][..i - 1];
    } else {
      InOrderEnd(fields[1..], fields[0].offset + fields[0].typ.size, to);
    }
  }

  lemma {:induction false} InOrderEnd(fields: seq<Field>, from: nat, to: nat)
    requires InOrder(fields, from, to)
    ensures from <= to
  {
    if fields != [] { InOrderEnd(fields[1..], fields[0].offset + fields[0].typ.size, to); }
  }

  lemma {:induction false} FieldsBound(fields: seq<Field>, from: nat, to: nat)
    requires AllFields(fields) && InOrder(fields, from, to)
    ensures LastPtr(fields) <= to && LastPtr(fields) % PTR_SIZE == 0
    decreases fields
  {
    hide WellFormed, WordAligned, PtrBytes, LastPtr, InOrder;
    LastPtrNext(fields);
    if fields != [] {
      var n := |fields| - 1;
      var f := fields[n];
      assert f.typ < f;
      assert f in fields;
      InOrderPrefix(fields, from, to, n);
      PtrBytesFit(f.typ);
      FieldsBound(fields[..n], from, f.offset);
    }
  }

  lemma LastPtrNext(fields: seq<Field>)
    ensures fields == [] ==> LastPtr(fields) == 0
    ensures fields != [] ==>
              var n := |fields| - 1;
              LastPtr(fields) == if PtrBytes(fields[n].typ) > 0 then fields[n].offset + PtrBytes(fields[n].typ) else LastPtr(fields[..n])
  {
    hide PtrBytes;
  }

  /** The fields before the i-th end their pointers before it begins. */
  lemma PrefixBound(fields: seq<Field>, to: nat, i: nat)
    requires AllFields(fields) && InOrder(fields, 0, to) && i < |fields|
    ensures LastPtr(fields[..i]) <= fields[i].offset && LastPtr(fields[..i]) % PTR_SIZE == 0
    ensures LastPtr(fields[..i + 1]) == if Pointers(fields[i].typ) then fields[i].offset + PtrBytes(fields[i].typ) else LastPtr(fields[..i])
  {
    hide WellFormed, WordAligned, PtrBytes;
    InOrderPrefix(fields, 0, to, i);
    FieldsBound(fields[..i], 0, fields[i].offset);
    assert fields[..i + 1][..i] == fields[..i];
  }

  lemma {:induction false} LastPtrBounds(fields: seq<Field>, from: nat, to: nat, k: nat)
    requires AllFields(fields) && InOrder(fields, from, to) && k < |fields|
    ensures Pointers(fields[k].typ) ==> fields[k].offset + PtrBytes(fields[k].typ) <= LastPtr(fields)
    decreases fields
  {
    hide WellFormed, WordAligned, PtrBytes;
    var n := |fields| - 1;
    InOrderPrefix(fields, from, to, n);
    if k < n {
      LastPtrBounds(fields[..n], from, fields[n].offset, k);
      FieldsBound(fields[..n], from, fields[n].offset);
    }
  }

  /** The last word within PtrBytes is a pointer, so no shorter prefix has them all. */
  lemma {:induction false} PtrBytesTight(t: Type, offset: nat, w: nat)
    ensures Pointers(t) && w * PTR_SIZE == offset + PtrBytes(t) - PTR_SIZE ==> PtrWord(t, offset, w)
    decreases t
  {
    if Pointers(t) && w * PTR_SIZE == offset + PtrBytes(t) - PTR_SIZE {
      match t.kind
      case Array(len, elem) =>
        LastElem(len, elem);
        PtrBytesTight(elem, ElemAt(offset, len - 1, elem), w);
      case Struct(fields) =>
        var k := LastField(fields);
        PtrBytesTight(fields[k].typ, offset + fields[k].offset, w);
      case _ =>
    }
  }

  /** The last field with pointers. */
  lemma {:induction false} LastField(fields: seq<Field>) returns (k: nat)
    requires LastPtr(fields) > 0
    ensures k < |fields| && Pointers(fields[k].typ) && LastPtr(fields) == fields[k].offset + PtrBytes(fields[k].typ)
    ensures fields[k].typ < fields[k] && fields[k] in fields
    decreases fields
  {
    hide PtrBytes;
    LastPtrNext(fields);
    var n := |fields| - 1;
    k := n;
    if PtrBytes(fields[n].typ) == 0 { k := LastField(fields[..n]); }
    assert fields[k] in fields;
  }

  // ------------------------------------------------------------ steps of the loops

  lemma NoElems(offset: nat, elem: Type)
    ensures ElemsEnd(0, elem) == 0 && forall w: nat :: !ElemsWord(elem, offset, 0, w)
  {
  }

  lemma ElemRoom(n0: nat, offset: nat, i: nat, elem: Type)
    requires WellFormed(elem) && WordAligned(elem) && Pointers(elem) && elem.size % PTR_SIZE == 0 && offset % PTR_SIZE == 0 && n0 * PTR_SIZE <= offset
    ensures var n := EndWord(n0, offset, ElemsEnd(i, elem));
            && InFront(n, ElemAt(offset, i, elem), elem)
            && EndWord(n, ElemAt(offset, i, elem), PtrBytes(elem)) == EndWord(n0, offset, ElemsEnd(i + 1, elem))
            && n0 <= n && (i > 0 ==> n * PTR_SIZE == offset + ElemsEnd(i, elem))
  {
    hide WellFormed, WordAligned, PtrBytes, ElemAt;
    PtrBytesFit(elem);
    ElemWords(offset, i, elem);
    ElemOrder(offset, i, i, elem);
    if i > 0 {
      ElemOrder(0, i - 1, i, elem);
      ElemWords(0, i - 1, elem);
      WordsExact(ElemAt(0, i - 1, elem), PtrBytes(elem));
      WordsExact(offset, ElemsEnd(i, elem));
      ElemOrder(offset, i - 1, i, elem);
    }
  }

  lemma ElemStep(n0: nat, offset: nat, i: nat, elem: Type, w: nat)
    requires WellFormed(elem) && WordAligned(elem) && Pointers(elem) && elem.size % PTR_SIZE == 0 && offset % PTR_SIZE == 0 && n0 * PTR_SIZE <= offset
    requires n0 <= w
    ensures var n := EndWord(n0, offset, ElemsEnd(i, elem));
            (if w < n then ElemsWord(elem, offset, i, w) else PtrWord(elem, ElemAt(offset, i, elem), w)) == ElemsWord(elem, offset, i + 1, w)
  {
    hide WellFormed, WordAligned, PtrBytes, ElemAt, PtrWord;
    ElemRoom(n0, offset, i, elem);
    var n := EndWord(n0, offset, ElemsEnd(i, elem));
    if w < n && PtrWord(elem, ElemAt(offset, i, elem), w) {
      PtrWordRange(elem, ElemAt(offset, i, elem), w);
    }
    if k: nat :| k < i && PtrWord(elem, ElemAt(offset, k, elem), w) {
      PtrWordRange(elem, ElemAt(offset, k, elem), w);
      ElemOrder(offset, k, i - 1, elem);
      ElemOrder(offset, i - 1, i - 1, elem);
    }
  }

  lemma NoFieldsYet(fields: seq<Field>, offset: nat)
    ensures LastPtr(fields[..0]) == 0 && forall w: nat :: !FieldsWord(fields, offset, 0, w)
  {
    assert fields[..0] == [];
  }

  lemma FieldRoom(n0: nat, offset: nat, fields: seq<Field>, i: nat, size: nat)
    requires AllFields(fields) && InOrder(fields, 0, size) && FieldsInFront(n0, offset, fields) && i < |fields|
    ensures var n := EndWord(n0, offset, LastPtr(fields[..i]));
            && WellFormed(fields[i].typ) && WordAligned(fields[i].typ) && InFront(n, offset + fields[i].offset, fields[i].typ)
            && EndWord(n, offset + fields[i].offset, PtrBytes(fields[i].typ)) == EndWord(n0, offset, LastPtr(fields[..i + 1]))
            && (LastPtr(fields[..i]) > 0 ==> n * PTR_SIZE == offset + LastPtr(fields[..i]) && n0 <= n)
  {
    hide WellFormed, WordAligned, PtrBytes, LastPtr;
    PrefixBound(fields, size, i);
    LastPtrBounds(fields, 0, size, i);
    PrefixLast(fields, size, i);
    if LastPtr(fields[..i]) > 0 {
      WordsExact(offset, LastPtr(fields[..i]));
    }
    if Pointers(fields[i].typ) { WordsExact(offset, fields[i].offset); }
  }

  lemma {:induction false} PrefixLast(fields: seq<Field>, to: nat, i: nat)
    requires AllFields(fields) && InOrder(fields, 0, to) && i <= |fields|
    ensures LastPtr(fields[..i]) > 0 ==> LastPtr(fields) > 0
    decreases |fields| - i
  {
    hide WellFormed, WordAligned, PtrBytes, LastPtr;
    if i < |fields| {
      PrefixBound(fields, to, i);
      PrefixLast(fields, to, i + 1);
    } else {
      assert fields[..i] == fields;
    }
  }

  lemma FieldStep(n0: nat, offset: nat, fields: seq<Field>, i: nat, size: nat, w: nat)
    requires AllFields(fields) && InOrder(fields, 0, size) && FieldsInFront(n0, offset, fields) && i < |fields| && n0 <= w
    requires w < EndWord(n0, offset, LastPtr(fields[..i + 1]))
    ensures var n := EndWord(n0, offset, LastPtr(fields[..i]));
            (if w < n then FieldsWord(fields, offset, i, w) else PtrWord(fields[i].typ, offset + fields[i].offset, w)) == FieldsWord(fields, offset, i + 1, w)
  {
    hide WellFormed, WordAligned, PtrBytes, PtrWord, LastPtr;
    FieldRoom(n0, offset, fields, i, size);
    var n := EndWord(n0, offset, LastPtr(fields[..i]));
    if w < n && PtrWord(fields[i].typ, offset + fields[i].offset, w) {
      PtrWordRange(fields[i].typ, offset + fields[i].offset, w);
    }
    if k: nat :| k < i && PtrWord(fields[k].typ, offset + fields[k].offset, w) {
      PtrWordRange(fields[k].typ, offset + fields[k].offset, w);
      InOrderPrefix(fields, 0, size, i);
      LastPtrBounds(fields[..i], 0, fields[i].offset, k);
    }
  }

  // --------------------------------------------------------- repeating a bitmap

  predicate Copy(mask: Bitmap, words: nat, base: nat, i: nat, j: nat, w: nat) {
    BitAt(mask, j) && w == base + i * words + j
  }

  /** Bit w is set by one of the n copies of the first ptrs bits of mask. */
  ghost predicate Repeated(mask: Bitmap, ptrs: nat, words: nat, base: nat, n: nat, w: nat) {
    exists i: nat, j: nat :: i < n && j < ptrs && Copy(mask, words, base, i, j, w)
  }

  ghost predicate RepeatedTo(mask: Bitmap, words: nat, base: nat, n: nat, j: nat, m: nat, w: nat) {
    || Repeated(mask, j, words, base, n, w)
    || exists i: nat :: i < m && Copy(mask, words, base, i, j, w)
  }

  method EmitGCMask(out0: Bitmap, base: nat, mask: Bitmap, size: nat, ptrBytes: nat, n: nat) returns (out: Bitmap)
    requires n > 0 ==> base + (n - 1) * (size / PTR_SIZE) + ptrBytes / PTR_SIZE <= 8 * |out0|
    requires ptrBytes / PTR_SIZE <= 8 * |mask|
    ensures |out| == |out0|
    ensures forall w: nat :: BitAt(out, w) <==> BitAt(out0, w) || Repeated(mask, ptrBytes / PTR_SIZE, size / PTR_SIZE, base, n, w)
  {
    hide BitAt, SetAt, Copy;
    var ptrs, words := ptrBytes / PTR_SIZE, size / PTR_SIZE;
    out := out0;
    NoCopies(mask, words, base, n);
    for j := 0 to ptrs
      invariant |out| == |out0|
      invariant forall w: nat :: BitAt(out, w) <==> BitAt(out0, w) || Repeated(mask, j, words, base, n, w)
    {
      if BitAt(mask, j) {
        for i := 0 to n
          invariant |out| == |out0|
          invariant forall w: nat :: BitAt(out, w) <==> BitAt(out0, w) || RepeatedTo(mask, words, base, n, j, i, w)
        {
          CopyFits(i, n, words, base, j, ptrs, |out0|);
          var k := base + i * words + j;
          ghost var was := out;
          out := SetAt(out, k);
          SameSize(was, k);
          forall w: nat ensures BitAt(out, w) <==> BitAt(out0, w) || RepeatedTo(mask, words, base, n, j, i + 1, w) {
            SetAtLaw(was, k, w);
            OneCopy(mask, words, base, n, j, i, w);
          }
        }
      }
      forall w: nat ensures BitAt(out, w) <==> BitAt(out0, w) || Repeated(mask, j + 1, words, base, n, w) {
        RowDone(mask, words, base, n, j, w);
      }
    }
  }

  lemma NoCopies(mask: Bitmap, words: nat, base: nat, n: nat)
    ensures forall w: nat :: !Repeated(mask, 0, words, base, n, w)
  {
  }

  lemma CopyFits(i: nat, n: nat, words: nat, base: nat, j: nat, ptrs: nat, bytes: nat)
    requires i < n && j < ptrs && base + (n - 1) * words + ptrs <= 8 * bytes
    ensures (base + i * words + j) / 8 < bytes
  {
    TimesOrder(i, n - 1, words);
  }

  lemma OneCopy(mask: Bitmap, words: nat, base: nat, n: nat, j: nat, i: nat, w: nat)
    requires BitAt(mask, j)
    ensures RepeatedTo(mask, words, base, n, j, i + 1, w) <==> RepeatedTo(mask, words, base, n, j, i, w) || w == base + i * words + j
    ensures RepeatedTo(mask, words, base, n, j, 0, w) <==> Repeated(mask, j, words, base, n, w)
  {
    hide BitAt;
    if w == base + i * words + j { assert Copy(mask, words, base, i, j, w); }
  }

  lemma RowDone(mask: Bitmap, words: nat, base: nat, n: nat, j: nat, w: nat)
    ensures BitAt(mask, j) ==> (Repeated(mask, j + 1, words, base, n, w) <==> RepeatedTo(mask, words, base, n, j, n, w))
    ensures !BitAt(mask, j) ==> (Repeated(mask, j + 1, words, base, n, w) <==> Repeated(mask, j, words, base, n, w))
  {
    hide BitAt;
  }

  /** The bitmap is right for the words of t that may hold pointers. */
  ghost predicate RightMask(mask: Bitmap, t: Type) {
    && PtrBytes(t) / PTR_SIZE <= 8 * |mask|
    && forall w: nat :: w < PtrBytes(t) / PTR_SIZE ==> (BitAt(mask, w) <==> PtrWord(t, 0, w))
  }

  /** ArrayOf's cases that make a bitmap from the right one of the element. */
  method ArrayMask(t: Type, elemMask: Bitmap) returns (mask: Bitmap)
    requires t.kind.Array? && WellFormed(t) && WordAligned(t) && RightMask(elemMask, t.kind.elem)
    ensures RightMask(mask, t)
  {
    hide WellFormed, WordAligned, PtrWord, BitAt, PtrBytes, Repeated;
    var elem, len := t.kind.elem, t.kind.len;
    ArrayPtrs(t, 0);
    if PtrBytes(t) == 0 {
      mask := [];
    } else if len == 1 {
      OneElement(t);
      mask := elemMask;
    } else {
      var n := (PtrBytes(t) / PTR_SIZE + 7) / 8;
      n := (n + PTR_SIZE - 1) / PTR_SIZE * PTR_SIZE;
      MaskRoom(PtrBytes(t) / PTR_SIZE, n);
      ArrayWords(len, elem);
      ghost var zero := Zeroed(n);
      mask := Zeroed(n);
      ZeroedLaw(n, 0);
      mask := EmitGCMask(mask, 0, elemMask, elem.size, PtrBytes(elem), len);
      forall w: nat | w < PtrBytes(t) / PTR_SIZE ensures BitAt(mask, w) <==> PtrWord(t, 0, w) {
        ZeroedLaw(n, w);
        RepeatedIs(elemMask, elem, len, w);
      }
    }
  }

  lemma MaskRoom(bits: nat, n: nat)
    requires n == ((bits + 7) / 8 + PTR_SIZE - 1) / PTR_SIZE * PTR_SIZE
    ensures bits <= 8 * n
  {
  }

  lemma OneElement(t: Type)
    requires t.kind.Array? && t.kind.len == 1 && WellFormed(t) && WordAligned(t) && Pointers(t)
    ensures PtrBytes(t) == PtrBytes(t.kind.elem)
    ensures forall w: nat :: PtrWord(t, 0, w) <==> PtrWord(t.kind.elem, 0, w)
  {
    hide WellFormed, WordAligned;
    ArrayPtrs(t, 0);
    hide PtrWord, PtrBytes;
    assert ElemAt(0, 0, t.kind.elem) == 0;
  }

  /** A word of an array with len elements is a pointer exactly when a copy of the
      element's bitmap marks it. */
  lemma RepeatedIs(mask: Bitmap, elem: Type, len: nat, w: nat)
    requires WellFormed(elem) && WordAligned(elem) && elem.size % PTR_SIZE == 0 && RightMask(mask, elem)
    ensures Repeated(mask, PtrBytes(elem) / PTR_SIZE, elem.size / PTR_SIZE, 0, len, w) <==> ElemsWord(elem, 0, len, w)
  {
    hide WellFormed, WordAligned, PtrBytes, PtrWord, BitAt, ElemAt;
    var words, ptrs := elem.size / PTR_SIZE, PtrBytes(elem) / PTR_SIZE;
    if i: nat, j: nat :| i < len && j < ptrs && Copy(mask, words, 0, i, j, w) {
      Shifted(elem, i, j, w);
    }
    if k: nat :| k < len && PtrWord(elem, ElemAt(0, k, elem), w) {
      PtrWordRange(elem, ElemAt(0, k, elem), w);
      ElemBase(elem, k);
      var j := w - k * words;
      Shifted(elem, k, j, w);
      PtrBytesFit(elem);
      assert Copy(mask, words, 0, k, j, w);
    }
  }

  lemma ElemBase(elem: Type, k: nat)
    requires elem.size % PTR_SIZE == 0
    ensures ElemAt(0, k, elem) == k * (elem.size / PTR_SIZE) * PTR_SIZE
  {
    MulAssoc3(k, elem.size / PTR_SIZE, PTR_SIZE);
  }

  lemma Shifted(elem: Type, k: nat, j: nat, w: nat)
    requires WellFormed(elem) && WordAligned(elem) && elem.size % PTR_SIZE == 0 && w == k * (elem.size / PTR_SIZE) + j
    ensures PtrWord(elem, ElemAt(0, k, elem), w) <==> PtrWord(elem, 0, j)
  {
    hide WellFormed, WordAligned, PtrWord, ElemAt;
    ElemBase(elem, k);
    var d := k * (elem.size / PTR_SIZE);
    PtrWordShift(elem, 0, d, j);
  }

  lemma ElemShift(offset: nat, d: nat, k: nat, elem: Type)
    ensures ElemAt(offset + d * PTR_SIZE, k, elem) == ElemAt(offset, k, elem) + d * PTR_SIZE
  {
  }

  /** Where a value lies only moves its pointers. */
  lemma {:induction false} PtrWordShift(t: Type, offset: nat, d: nat, j: nat)
    ensures PtrWord(t, offset + d * PTR_SIZE, d + j) <==> PtrWord(t, offset, j)
    decreases t
  {
    hide ElemAt;
    var o, w := offset + d * PTR_SIZE, d + j;
    match t.kind
    case Array(len, elem) =>
      if k: nat :| k < len && PtrWord(elem, ElemAt(offset, k, elem), j) {
        ElemShift(offset, d, k, elem);
        PtrWordShift(elem, ElemAt(offset, k, elem), d, j);
      }
      if k: nat :| k < len && PtrWord(elem, ElemAt(o, k, elem), w) {
        ElemShift(offset, d, k, elem);
        PtrWordShift(elem, ElemAt(offset, k, elem), d, j);
      }
    case Struct(fields) =>
      if k: nat :| k < |fields| && PtrWord(fields[k].typ, offset + fields[k].offset, j) {
        PtrWordShift(fields[k].typ, offset + fields[k].offset, d, j);
        assert offset + fields[k].offset + d * PTR_SIZE == o + fields[k].offset;
      }
      if k: nat :| k < |fields| && PtrWord(fields[k].typ, o + fields[k].offset, w) {
        PtrWordShift(fields[k].typ, offset + fields[k].offset, d, j);
        assert offset + fields[k].offset + d * PTR_SIZE == o + fields[k].offset;
      }
    case _ =>
  }

  lemma ArrayWords(len: nat, elem: Type)
    requires WellFormed(elem) && WordAligned(elem) && len > 0 && elem.size % PTR_SIZE == 0
    ensures ElemsEnd(len, elem) / PTR_SIZE == (len - 1) * (elem.size / PTR_SIZE) + PtrBytes(elem) / PTR_SIZE
  {
    hide WellFormed, WordAligned, PtrBytes, ElemAt;
    PtrBytesFit(elem);
    ElemBase(elem, len - 1);
  }

  /** For every array type the two builders agree: the bits collected by addTypeBits
      are those of the mask that repeats the element's. */
  method MasksAgree(t: Type, elemMask: Bitmap) returns (bits: BitVector, mask: Bitmap)
    requires t.kind.Array? && WellFormed(t) && WordAligned(t) && RightMask(elemMask, t.kind.elem)
    ensures bits.Valid() && bits.n == PtrBytes(t) / PTR_SIZE
    ensures forall w: nat :: w < bits.n ==> (BitAt(bits.data, w) <==> BitAt(mask, w)) && (BitAt(mask, w) <==> PtrWord(t, 0, w))
  {
    hide WellFormed, WordAligned, PtrWord, PtrBytes, BitAt;
    bits := new BitVector();
    bits.AddTypeBits(0, t);
    mask := ArrayMask(t, elemMask);
    assert forall w :: 0 <= w < bits.n ==> (bits.Bits()[w] <==> BitAt(bits.data, w));
  }
}
