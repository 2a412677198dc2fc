/** Words used as sets of small numbers: setting, clearing and finding bits. */
module Bitmaps {
  import opened SizeClasses

  /** x shifted left by n places. */
  function Shl(x: bv32, n: nat): bv32 { if n == 0 then x else Shl(x, n - 1) << 1 }

  function Mask(i: nat): bv32
    requires i < 32
  {
    Shl(1, i)
  }

  function High(i: nat): bv32
    requires i < 32
  {
    Shl(0xFFFF_FFFF, i)
  }

  predicate Has(x: bv32, m: bv32) { x & m != 0 }

  function With(x: bv32, m: bv32): bv32 { x | m }

  function Without(x: bv32, m: bv32): bv32 { x & !m }

  function Keep(x: bv32, m: bv32): bv32 { x & m }

  predicate Bit(x: bv32, i: nat)
    requires i < 32
  {
    Has(x, Mask(i))
  }

  function SetBit(nr: nat, x: bv32): bv32 { With(x, Mask(nr % 32)) }

  function ClearBit(nr: nat, x: bv32): bv32 { Without(x, Mask(nr % 32)) }

  /** The bits of x at position s and above. */
  function From(s: nat, x: bv32): bv32
    requires s < 32
  {
    Keep(x, High(s))
  }

  /** The lone bit that x and its two's complement share. */
  function Lowest(x: bv32): bv32 { x & (!x + 1) }

  function Above(m: bv32): bv32 { !(m - 1) }

  /** The position of the lowest set bit, found as the highest of the lone bit that
      x and its two's complement share; -1 for zero. */
  function Lsbit(x: bv32): int {
    Msbit(Lowest(x) as nat)
  }

  // Facts about single words, without positions.

  predicate Lone(m: bv32) { m != 0 && m & (m - 1) == 0 }

  /** The lone bit m lies below the lone bit n. */
  predicate Under(m: bv32, n: bv32) { m & (n - 1) == m && n & (m - 1) == 0 && m != n }

  lemma DoubleUnder(m: bv32, n: bv32)
    requires Lone(m) && Lone(n) && n << 1 != 0
    ensures Lone(n << 1) && Under(n, n << 1)
    ensures Under(m, n) ==> Under(m, n << 1)
  {
  }

  lemma LowestRaw(x: bv32)
    requires x != 0
    ensures x & (!x + 1) != 0
    ensures (x & (!x + 1)) & ((x & (!x + 1)) - 1) == 0
    ensures x & (x & (!x + 1)) == x & (!x + 1)
    ensures x & ((x & (!x + 1)) - 1) == 0
  {
  }

  lemma LowestIsLone(x: bv32)
    requires x != 0
    ensures Lone(Lowest(x)) && Has(x, Lowest(x)) && Keep(x, Lowest(x) - 1) == 0
  {
    LowestRaw(x);
  }

  lemma BelowLowest(x: bv32, y: bv32, m: bv32)
    requires Keep(x, y - 1) == 0 && Under(m, y)
    ensures !Has(x, m)
  {
  }

  lemma WordSame(x: bv32, m: bv32)
    requires Lone(m)
    ensures Has(With(x, m), m) && !Has(Without(x, m), m)
    ensures Has(Keep(x, Above(m)), m) == Has(x, m)
  {
  }

  lemma LoneApart(m: bv32, n: bv32)
    requires Lone(m) && Lone(n) && Under(m, n)
    ensures m & n == 0 && !Under(n, m)
    ensures Above(m) & n == n && Above(n) & m == 0
  {
  }

  lemma OutsideRaw(x: bv32, m: bv32, n: bv32)
    requires m & n == 0
    ensures (x | m) & n == x & n && (x & !m) & n == x & n
  {
  }

  lemma OutsideMask(x: bv32, m: bv32, n: bv32)
    requires m & n == 0
    ensures Has(With(x, m), n) == Has(x, n) && Has(Without(x, m), n) == Has(x, n)
  {
    OutsideRaw(x, m, n);
  }

  lemma KeepMask(x: bv32, h: bv32, n: bv32)
    ensures h & n == n ==> Has(Keep(x, h), n) == Has(x, n)
    ensures h & n == 0 ==> !Has(Keep(x, h), n)
  {
  }

  lemma AndCommutes(m: bv32, n: bv32)
    ensures m & n == n & m
  {
  }

  lemma WordApart(x: bv32, m: bv32, n: bv32)
    requires Lone(m) && Lone(n) && (Under(m, n) || Under(n, m))
    ensures Has(With(x, m), n) == Has(x, n) && Has(Without(x, m), n) == Has(x, n)
    ensures Has(Keep(x, Above(m)), n) == (Has(x, n) && Under(m, n))
    ensures !(Under(m, n) && Under(n, m))
  {
    hide *;
    if Under(m, n) {
      LoneApart(m, n);
    } else {
      LoneApart(n, m);
      AndCommutes(m, n);
    }
    OutsideMask(x, m, n);
    KeepMask(x, Above(m), n);
  }

  // Doubling and halving a lone bit.

  lemma DoubleNat(m: bv32)
    ensures (m as nat) < 0x8000_0000 ==> m & 0x8000_0000 == 0
    ensures m & 0x8000_0000 == 0 ==> (m << 1) as nat == 2 * (m as nat)
  {
  }

  lemma DoubleLone(m: bv32)
    requires Lone(m) && m & 0x8000_0000 == 0
    ensures Lone(m << 1) && Above(m) << 1 == Above(m << 1) && m << 1 != 0
  {
  }

  lemma HalfLone(y: bv32)
    requires Lone(y) && y != 1
    ensures Lone(y >> 1) && (y >> 1) << 1 == y && (y >> 1) & 0x8000_0000 == 0
  {
  }

  lemma HalfNat(y: bv32)
    requires Lone(y) && y != 1
    ensures y as nat == 2 * ((y >> 1) as nat)
  {
    HalfLone(y);
    hide Lone;
    DoubleNat(y >> 1);
  }

  lemma OneIsLone()
    ensures Lone(1) && Above(1) == 0xFFFF_FFFF && (1 as bv32) as nat == 1
  {
  }

  // The positions: masks are the lone bits, ordered as their positions are.

  ghost predicate MaskAt(i: nat, m: bv32) {
    i < 32 && Mask(i) == m && High(i) == Above(m) && Lone(m)
  }

  lemma {:induction false} MaskIs(i: nat)
    requires i < 32
    ensures MaskAt(i, Mask(i)) && Mask(i) as nat == Pow2(i)
  {
    hide Lone, Above, Pow2;
    OneIsLone();
    Pow2Constants();
    if i > 0 {
      MaskIs(i - 1);
      Pow2Next(i - 1);
      Pow2Mono(i, 31);
      Pow2Next(30);
      DoubleNat(Mask(i - 1));
      DoubleLone(Mask(i - 1));
    }
  }

  /** There are no lone bits but the masks. */
  lemma {:induction false} LoneIsMask(y: bv32, n: nat) returns (k: nat)
    requires Lone(y) && (y as nat) < Pow2(n)
    ensures k < n && y == Shl(1, k)
  {
    hide Lone, Pow2;
    Pow2Constants();
    PositiveNat(y);
    if y == 1 {
      k := 0;
    } else {
      HalfNat(y);
      HalfLone(y);
      Pow2Next(n - 1);
      k := LoneIsMask(y >> 1, n - 1);
      k := k + 1;
    }
  }

  lemma PositiveNat(y: bv32)
    requires Lone(y)
    ensures 0 < (y as nat) < 0x1_0000_0000
  {
  }

  lemma {:induction false} MaskOrder(i: nat, j: nat)
    requires i < j < 32
    ensures Under(Mask(i), Mask(j))
    decreases j
  {
    hide Lone, Under, High, Pow2;
    MaskIs(i);
    MaskIs(j - 1);
    MaskIs(j);
    NotZero(Mask(j));
    DoubleUnder(Mask(i), Mask(j - 1));
    if i < j - 1 {
      MaskOrder(i, j - 1);
    }
  }

  lemma NotZero(m: bv32)
    requires Lone(m)
    ensures m != 0
  {
  }

  /** Two masks are the same bit, or one lies below the other. */
  lemma MaskPair(i: nat, j: nat)
    requires i < 32 && j < 32
    ensures MaskAt(i, Mask(i)) && MaskAt(j, Mask(j))
    ensures i < j ==> Under(Mask(i), Mask(j))
    ensures j < i ==> Under(Mask(j), Mask(i))
  {
    hide Mask, High, Lone, Under;
    MaskIs(i);
    MaskIs(j);
    if i < j {
      MaskOrder(i, j);
    } else if j < i {
      MaskOrder(j, i);
    }
  }

  /** Setting, clearing and masking change exactly the bits they should. */
  lemma BitLaws(x: bv32, i: nat, j: nat)
    requires i < 32 && j < 32
    ensures Bit(SetBit(i, x), j) <==> Bit(x, j) || i == j
    ensures Bit(ClearBit(i, x), j) <==> Bit(x, j) && i != j
    ensures Bit(From(i, x), j) <==> Bit(x, j) && i <= j
  {
    hide Mask, High, Lone, Under, Has, With, Without, Keep, Above;
    MaskPair(i, j);
    assert i % 32 == i;
    if i == j {
      WordSame(x, Mask(i));
    } else {
      WordApart(x, Mask(i), Mask(j));
    }
  }

  /** Lsbit finds the lowest bit that is set. */
  lemma LsbitIs(x: bv32)
    ensures x == 0 ==> Lsbit(x) == -1
    ensures x != 0 ==> 0 <= Lsbit(x) < 32 && Bit(x, Lsbit(x)) && forall j :: 0 <= j < Lsbit(x) ==> !Bit(x, j)
  {
    if x != 0 {
      LsbitOf(x);
    } else {
      assert Lowest(0) as nat == 0;
      assert Pow2(0) == 1;
    }
  }

  lemma LsbitOf(x: bv32)
    requires x != 0
    ensures 0 <= Lsbit(x) < 32 && Bit(x, Lsbit(x)) && forall j :: 0 <= j < Lsbit(x) ==> !Bit(x, j)
  {
    hide Mask, High, Lone, Under, Pow2, Msbit, Has, Keep, Lowest, Above;
    var y := Lowest(x);
    LowestIsLone(x);
    PositiveNat(y);
    Pow2Constants();
    Pow2Next(30);
    Pow2Next(31);
    var k := LoneIsMask(y, 32);
    assert Mask(k) == y by { MaskShl(k); }
    MaskIs(k);
    Pow2Pos(k);
    MsbitUnique(y as nat, k);
    forall j | 0 <= j < k ensures !Bit(x, j) {
      MaskPair(j, k);
      BelowLowest(x, y, Mask(j));
    }
  }

  lemma MaskShl(k: nat)
    requires k < 32
    ensures Mask(k) == Shl(1, k)
  {
  }

  lemma Pow2Pos(k: nat)
    ensures 0 < Pow2(k) < Pow2(k + 1)
  {
  }

  /** A word is zero exactly when no bit is set. */
  lemma ZeroIff(x: bv32)
    ensures x == 0 <==> forall i :: 0 <= i < 32 ==> !Bit(x, i)
  {
    hide Lsbit, Mask;
    LsbitIs(x);
  }
}
