/** The arithmetic of the two-level size classes: the highest set bit, the class a
    chunk is filed under, and the rounding of a request to a class it surely fits. */
module SizeClasses {

  const PAGE_SIZE := 4096
  const MAX_BIG_CHUNK := 1056964608
  const FLI_OFFSET := 6
  const SLI_LOG2 := 5
  const REAL_FLI := 24
  const SLI := 32

  datatype Class = Class(fl: int, sl: int) {
    predicate Valid() { 0 <= fl < REAL_FLI && 0 <= sl < SLI }

    /** The order in which a search goes up. */
    predicate AtLeast(c: Class) { fl > c.fl || (fl == c.fl && sl >= c.sl) }
  }

  function Pow2(n: nat): (r: nat)
    ensures r > 0
  {
    if n == 0 then 1 else 2 * Pow2(n - 1)
  }

  /** The position of the highest set bit of a byte, from a table; -1 for zero. */
  function LookupTable(b: nat): int
    requires b < 256
  {
    if b == 0 then -1 else if b < 2 then 0 else if b < 4 then 1 else if b < 8 then 2
    else if b < 16 then 3 else if b < 32 then 4 else if b < 64 then 5 else if b < 128 then 6 else 7
  }

  /** The position of the highest set bit of a 32-bit word, found byte by byte. */
  function Msbit(x: nat): int
    requires x < 0x1_0000_0000
  {
    var a := if x <= 65535 then (if x <= 255 then 0 else 8)
             else (if x <= 16777215 then 16 else 24);
    LookupTable(x / Pow2(a) % 256) + a
  }

  /** x rounded up to a multiple of v, a power of two. */
  function Roundup(x: nat, v: nat): nat
    requires v > 0
  {
    (x + (v - 1)) / v * v
  }

  function MappingInsert(r: nat): Class
    requires 64 <= r < 0x1_0000_0000
  {
    MsbitIs(r); Pow2Mono(Msbit(r) + 1, 6);
    var fl := Msbit(r);
    Class(fl - FLI_OFFSET, r / Pow2(fl - SLI_LOG2) - SLI)
  }

  /** The smallest size filed under a class. */
  function Floor(c: Class): nat
    requires c.Valid()
  {
    (SLI + c.sl) * Pow2(c.fl + 1)
  }

  /** A request, rounded up so that it is the smallest size of some class. */
  function SearchSize(r: nat): nat
    requires 64 <= r <= MAX_BIG_CHUNK
  {
    MsbitIs(r); Pow2Mono(Msbit(r) + 1, 6);
    var t := Roundup(Pow2(Msbit(r) - SLI_LOG2), PAGE_SIZE);
    assert t > 0;
    var s := Roundup(r, t);
    if s <= MAX_BIG_CHUNK then s else MAX_BIG_CHUNK
  }

  lemma {:induction false} Pow2Mono(a: nat, b: nat)
    ensures a <= b ==> Pow2(a) <= Pow2(b)
    ensures a < b ==> 2 * Pow2(a) <= Pow2(b)
    decreases a + b
  {
    if a > 0 && b > 0 {
      Pow2Mono(a - 1, b - 1);
    } else if b > 0 {
      Pow2Mono(0, b - 1);
    }
  }

  lemma {:induction false} Pow2Add(a: nat, b: nat)
    ensures Pow2(a + b) == Pow2(a) * Pow2(b)
  {
    if a > 0 {
      Pow2Add(a - 1, b);
    }
  }

  lemma Pow2Constants()
    ensures Pow2(0) == 1 && Pow2(1) == 2 && Pow2(2) == 4 && Pow2(3) == 8 && Pow2(4) == 16
    ensures Pow2(5) == 32 && Pow2(6) == 64 && Pow2(7) == 128 && Pow2(8) == 256
    ensures Pow2(11) == 2048 && Pow2(12) == PAGE_SIZE && Pow2(16) == 65536 && Pow2(24) == 16777216
    ensures Pow2(29) == 536870912 && Pow2(30) == 0x4000_0000
  {
  }

  lemma Pow2Next(n: nat)
    ensures Pow2(n + 1) == 2 * Pow2(n)
  {
  }

  lemma MulLe(a: nat, b: nat, w: nat)
    requires a <= b
    ensures a * w <= b * w && w * a <= w * b
  {
  }

  lemma MulCancel(a: nat, b: nat, w: nat)
    requires a * w < b * w
    ensures a < b
  {
    if b <= a {
      MulLe(b, a, w);
    }
  }

  /** What a quotient is: the only q with q * b at most a, and a less than one more. */
  lemma Quotient(a: nat, b: nat, q: nat)
    requires b > 0 && q * b <= a < q * b + b
    ensures a / b == q
  {
    var p := a / b;
    assert p * b <= a < p * b + b;
    assert (p + 1) * b == p * b + b && (q + 1) * b == q * b + b;
    MulCancel(p, q + 1, b);
    MulCancel(q, p + 1, b);
  }

  lemma LookupIs(b: nat)
    requires 0 < b < 256
    ensures 0 <= LookupTable(b) < 8
    ensures Pow2(LookupTable(b)) <= b < Pow2(LookupTable(b) + 1)
  {
    hide Pow2;
    Pow2Constants();
  }

  /** The table-driven search finds the exact power of two below x. */
  lemma MsbitIs(x: nat)
    requires 0 < x < 0x1_0000_0000
    ensures 0 <= Msbit(x) < 32
    ensures Pow2(Msbit(x)) <= x < Pow2(Msbit(x) + 1)
  {
    hide Pow2, LookupTable;
    Pow2Constants();
    if x <= 255 {
      assert x / 1 % 256 == x;
      LookupIs(x);
    } else if x <= 65535 {
      MsbitByte(x, 8, x / 256);
    } else if x <= 16777215 {
      MsbitByte(x, 16, x / 65536);
    } else {
      MsbitByte(x, 24, x / 16777216);
    }
  }

  lemma MsbitByte(x: nat, a: nat, y: nat)
    requires a in {8, 16, 24} && 0 < y < 256 && x < 0x1_0000_0000
    requires y == x / Pow2(a)
    ensures 0 <= LookupTable(y) < 8
    ensures Pow2(LookupTable(y) + a) <= x < Pow2(LookupTable(y) + a + 1)
  {
    hide Pow2, LookupTable;
    Pow2Constants();
    LookupIs(y);
    var l := LookupTable(y);
    Pow2Add(a, l);
    Pow2Add(a, l + 1);
    ByteRange(x, Pow2(a), y, Pow2(l), Pow2(l + 1));
  }

  lemma ByteRange(x: nat, p: nat, y: nat, lo: nat, hi: nat)
    requires p > 0 && y == x / p && lo <= y < hi
    ensures p * lo <= x < p * hi
  {
    assert y * p <= x < y * p + p by { assert x == p * (x / p) + x % p; }
    MulLe(lo, y, p);
    MulLe(y + 1, hi, p);
    assert (y + 1) * p == y * p + p;
  }

  lemma MsbitUnique(x: nat, m: nat)
    requires 0 < x < 0x1_0000_0000 && Pow2(m) <= x < Pow2(m + 1)
    ensures Msbit(x) == m
  {
    hide Pow2, Msbit;
    MsbitIs(x);
    Pow2Mono(m + 1, Msbit(x));
    Pow2Mono(Msbit(x) + 1, m);
  }

  /** A size in class (fl, sl) lies in the sl-th of the 32 equal parts of [2^(fl+6), 2^(fl+7)). */
  lemma InsertIs(r: nat)
    requires PAGE_SIZE <= r <= MAX_BIG_CHUNK
    ensures MappingInsert(r).Valid()
    ensures Floor(MappingInsert(r)) <= r < Floor(MappingInsert(r)) + Pow2(MappingInsert(r).fl + 1)
  {
    hide Pow2, Msbit;
    MsbitIs(r);
    Pow2Constants();
    var m := Msbit(r);
    Pow2Mono(m + 1, 12);
    Pow2Mono(30, m);
    Pow2Add(5, m - 5);
    Pow2Next(m);
    QuotientRange(r, Pow2(m - 5));
  }

  /** Larger sizes are filed under the same class or one higher up. */
  lemma InsertMono(s: nat, a: nat)
    requires PAGE_SIZE <= s <= a <= MAX_BIG_CHUNK
    ensures MappingInsert(a).AtLeast(MappingInsert(s))
  {
    hide Pow2, Msbit;
    MsbitIs(s);
    MsbitIs(a);
    Pow2Constants();
    var m, n := Msbit(s), Msbit(a);
    Pow2Mono(m + 1, 12);
    Pow2Mono(n + 1, 12);
    Pow2Mono(n + 1, m);
    if m == n { QuotientMono(s, a, Pow2(m - SLI_LOG2)); }
  }

  lemma QuotientMono(s: nat, a: nat, w: nat)
    requires w > 0 && s <= a
    ensures s / w <= a / w
  {
    assert (a / w + 1) * w == a / w * w + w;
    assert a == w * (a / w) + a % w && s == w * (s / w) + s % w;
    MulCancel(s / w, a / w + 1, w);
  }

  lemma QuotientRange(r: nat, w: nat)
    requires w > 0 && 32 * w <= r < 64 * w
    ensures 32 <= r / w < 64
    ensures r / w * w <= r < r / w * w + w
  {
    var q := r / w;
    assert q * w <= r < q * w + w by { assert r == w * (r / w) + r % w; }
    assert (q + 1) * w == q * w + w;
    MulCancel(32, q + 1, w);
    MulCancel(q, 64, w);
  }

  /** Every class higher up has a higher floor. */
  lemma FloorMono(c: Class, d: Class)
    requires c.Valid() && d.Valid() && d.AtLeast(c)
    ensures Floor(c) <= Floor(d)
  {
    hide Pow2;
    if d.fl == c.fl {
      MulLe(SLI + c.sl, SLI + d.sl, Pow2(c.fl + 1));
    } else {
      var w, v := Pow2(c.fl + 1), Pow2(d.fl + 1);
      Pow2Mono(c.fl + 1, d.fl + 1);
      MulLe(SLI + c.sl, 64, w);
      MulLe(32, SLI + d.sl, v);
    }
  }

  /** The rounded request holds the request and is the floor of its own class, so
      anything filed there or higher up is large enough. */
  lemma SearchFits(r: nat)
    requires PAGE_SIZE - 15 <= r <= MAX_BIG_CHUNK
    ensures r <= SearchSize(r) <= MAX_BIG_CHUNK && SearchSize(r) >= PAGE_SIZE
    ensures SearchSize(r) % PAGE_SIZE == 0
    ensures MappingInsert(SearchSize(r)).Valid() && Floor(MappingInsert(SearchSize(r))) == SearchSize(r)
  {
    hide Pow2, Msbit, MappingInsert, Floor, SearchSize;
    Pow2Constants();
    var m, k, n := SearchSizeIs(r);
    var s := n * Pow2(k);
    if s > MAX_BIG_CHUNK {
      FloorOfMultiple(63, 29);
      MulMod(258048);
    } else if s == Pow2(m + 1) {
      Pow2Add(5, m - 4);
      Pow2Next(m + 1);
      TopOfClass(m);
      FloorOfMultiple(32, m + 1);
    } else {
      Pow2Add(m - 5, k - (m - 5));
      MulAssoc(n, Pow2(k - (m - 5)), Pow2(m - 5));
      FloorOfMultiple(n * Pow2(k - (m - 5)), m);
    }
  }

  lemma TopOfClass(m: nat)
    requires 11 <= m < 30 && Pow2(m + 1) <= MAX_BIG_CHUNK
    ensures m < 29
  {
    hide Pow2;
    Pow2Constants();
    Pow2Mono(30, m + 1);
  }

  /** The rounding adds less than a page, or no more than a part in 32. */
  lemma SearchClose(r: nat)
    requires PAGE_SIZE - 15 <= r <= MAX_BIG_CHUNK
    ensures SearchSize(r) < r + PAGE_SIZE || 32 * (SearchSize(r) - r) <= r
  {
    hide Pow2, SearchSize;
    Pow2Constants();
    var m, k, n := SearchSizeIs(r);
    if k != 12 { Pow2Add(5, m - 5); }
  }

  /** No class between two sizes is wider than a part in 32 of the smaller. */
  lemma ClassNarrow(a: nat, b: nat)
    requires PAGE_SIZE <= a <= MAX_BIG_CHUNK && PAGE_SIZE <= b <= MAX_BIG_CHUNK && MappingInsert(b).Valid()
    requires MappingInsert(a).AtLeast(MappingInsert(b))
    ensures 32 * b < 33 * a
  {
    hide Pow2, MappingInsert;
    InsertIs(a);
    InsertIs(b);
    var d := MappingInsert(b);
    FloorMono(d, MappingInsert(a));
    MulLe(32, SLI + d.sl, Pow2(d.fl + 1));
  }

  /** The request is rounded up to a multiple of 2^k, the step of its class or a page. */
  lemma SearchSizeIs(r: nat) returns (m: nat, k: nat, n: nat)
    requires PAGE_SIZE - 15 <= r <= MAX_BIG_CHUNK
    ensures 11 <= m < 30 && k == (if m - 5 <= 12 then 12 else m - 5)
    ensures SearchSize(r) == if n * Pow2(k) <= MAX_BIG_CHUNK then n * Pow2(k) else MAX_BIG_CHUNK
    ensures r <= n * Pow2(k) <= Pow2(m + 1) && PAGE_SIZE <= n * Pow2(k) && Pow2(m) <= n * Pow2(k)
    ensures n * Pow2(k) % PAGE_SIZE == 0 && n * Pow2(k) < r + Pow2(k) && Pow2(m) <= r
  {
    hide Pow2, Msbit, Roundup;
    MsbitIs(r);
    Pow2Constants();
    m := Msbit(r);
    Pow2Mono(m + 1, 11);
    Pow2Mono(30, m);
    k := if m - 5 <= 12 then 12 else m - 5;
    var u := Pow2(k);
    SearchUnit(m);
    Pow2Add(k, m + 1 - k);
    n := CeilIs(r, u, Pow2(m + 1 - k));
    PageMultiple(n, k);
    Pow2Mono(12, k);
    MulLe(1, n, u);
  }

  /** A multiple of a class's step, in the range of that class, is a floor. */
  lemma FloorOfMultiple(q: nat, m: nat)
    requires 11 <= m < 30 && var s := q * Pow2(m - 5); Pow2(m) <= s < Pow2(m + 1) && PAGE_SIZE <= s <= MAX_BIG_CHUNK
    ensures MappingInsert(q * Pow2(m - 5)).Valid()
    ensures Floor(MappingInsert(q * Pow2(m - 5))) == q * Pow2(m - 5)
  {
    hide Pow2, Msbit;
    var w := Pow2(m - 5);
    MsbitUnique(q * w, m);
    Quotient(q * w, w, q);
    InsertIs(q * w);
  }

  lemma PageMultiple(n: nat, k: nat)
    requires k >= 12
    ensures n * Pow2(k) % PAGE_SIZE == 0
  {
    hide Pow2;
    Pow2Constants();
    Pow2Add(12, k - 12);
    MulAssoc(n, Pow2(k - 12), PAGE_SIZE);
    MulMod(n * Pow2(k - 12));
  }

  lemma MulAssoc(a: nat, b: nat, c: nat)
    ensures a * b * c == a * (b * c) == a * (c * b)
  {
  }

  lemma SearchUnit(m: nat)
    requires 11 <= m < 30
    ensures Roundup(Pow2(m - SLI_LOG2), PAGE_SIZE) == Pow2(if m - 5 <= 12 then 12 else m - 5)
  {
    hide Pow2;
    Pow2Constants();
    var p := Pow2(m - 5);
    if m - 5 <= 12 {
      Pow2Mono(m - 5, 12);
    } else {
      Pow2Add(12, m - 5 - 12);
      var q := Pow2(m - 5 - 12);
      assert p == PAGE_SIZE * q;
      assert (p + (PAGE_SIZE - 1)) / PAGE_SIZE == q;
    }
  }

  lemma CeilIs(r: nat, u: nat, top: nat) returns (n: nat)
    requires u > 0 && 1 < r < u * top
    ensures Roundup(r, u) == n * u && r <= n * u <= u * top && n >= 1 && n * u < r + u
  {
    var x := r + (u - 1);
    n := x / u;
    assert n * u <= x < n * u + u by { assert x == u * (x / u) + x % u; }
    assert (top + 1) * u == top * u + u && (n + 1) * u == n * u + u;
    MulCancel(n, top + 1, u);
    MulLe(n, top, u);
    MulCancel(1, n + 1, u);
  }

  lemma MulMod(a: nat)
    ensures a * PAGE_SIZE % PAGE_SIZE == 0
  {
  }
}
