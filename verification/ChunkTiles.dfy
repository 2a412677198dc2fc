/** How chunks tile the memory obtained from the operating system, and what the
    possibly stale size of the chunk before still guarantees. */
module ChunkTiles {
  import opened SizeClasses
  import opened FreeMatrix

  const SMALL_MAX := 4032

  predicate Paged(x: int) { x % PAGE_SIZE == 0 }

  lemma PagedSum(a: int, b: int)
    requires Paged(a) && Paged(b)
    ensures Paged(a + b) && Paged(a - b)
  {
  }

  /** A page that serves small cells has the cell size in its header. */
  predicate IsSmall(h: BigChunk) { h.size <= SMALL_MAX }

  function Extent(h: BigChunk): nat { if IsSmall(h) then PAGE_SIZE else h.size }

  predicate Unused(h: BigChunk) { h.prevSize % 2 == 0 }

  /** The recorded size of the chunk before, without the bit for use. */
  function PrevOf(h: BigChunk): nat { h.prevSize - h.prevSize % 2 }

  /** The chunk w ends where x starts and reaches back at least as far as p. */
  ghost predicate Before(mem: Memory, S: set<Addr>, w: Addr, x: Addr, p: nat) {
    w in S && w in mem && w + Extent(mem[w]) == x && w + p <= x
  }

  /** The recorded size of the chunk before x is zero, or does not reach back further
      than the chunk before x really does. */
  ghost predicate PrevOk(mem: Memory, S: set<Addr>, x: Addr) {
    && x in mem
    && Paged(PrevOf(mem[x]))
    && (PrevOf(mem[x]) != 0 ==> exists w :: Before(mem, S, w, x, PrevOf(mem[x])))
  }

  ghost predicate Shaped(mem: Memory, S: set<Addr>) {
    forall a :: a in S ==>
      && a in mem && a > 0 && Paged(a) && Paged(Extent(mem[a]))
      && (Unused(mem[a]) ==> !IsSmall(mem[a]))
  }

  ghost predicate Apart(mem: Memory, S: set<Addr>) {
    forall a, b :: a in S && b in S && a in mem && a < b ==> a + Extent(mem[a]) <= b
  }

  ghost predicate Tiles(mem: Memory, S: set<Addr>) {
    Shaped(mem, S) && Apart(mem, S) && forall x :: x in S ==> PrevOk(mem, S, x)
  }

  ghost predicate Covers(mem: Memory, a: Addr, p: nat) {
    a in mem && a <= p * PAGE_SIZE < a + Extent(mem[a])
  }

  ghost predicate Covered(mem: Memory, S: set<Addr>, p: nat) {
    exists a :: a in S && Covers(mem, a, p)
  }

  /** The pages of the chunks are exactly the pages owned. */
  ghost predicate CoverAll(mem: Memory, S: set<Addr>, owned: set<nat>) {
    forall p: nat :: p in owned <==> Covered(mem, S, p)
  }

  ghost predicate SameHeader(h: BigChunk, h': BigChunk) { h.size == h'.size && h.prevSize == h'.prevSize }

  /** What freeBigChunk relies on: where the recorded size leads to a chunk, that
      chunk is the one before, and touches. */
  lemma LeftNeighbour(mem: Memory, S: set<Addr>, x: Addr)
    requires Tiles(mem, S) && x in S && PrevOf(mem[x]) != 0
    requires PrevOf(mem[x]) <= x && x - PrevOf(mem[x]) in S
    ensures x - PrevOf(mem[x]) + Extent(mem[x - PrevOf(mem[x])]) == x
  {
    assert PrevOk(mem, S, x);
    var w :| Before(mem, S, w, x, PrevOf(mem[x]));
  }

  // ------------------------------------------------------------------ a split

  /** mem' is mem after the chunk c has been cut at size. */
  ghost predicate SplitAt(mem: Memory, mem': Memory, S: set<Addr>, c: Addr, size: nat) {
    && c in mem && c in mem' && c + size in mem'
    && mem'[c].size == size && mem'[c].prevSize == mem[c].prevSize
    && mem'[c + size].size == mem[c].size - size && mem'[c + size].prevSize == size
    && forall a :: a in S && a in mem && a != c ==>
         && a in mem' && mem'[a].size == mem[a].size
         && mem'[a].prevSize == if a == c + mem[c].size then (mem[c].size - size) + mem[a].prevSize % 2 else mem[a].prevSize
  }

  lemma SplitShape(mem: Memory, mem': Memory, S: set<Addr>, c: Addr, size: nat)
    requires Shaped(mem, S) && Apart(mem, S) && c in S && !IsSmall(mem[c]) && 0 < size < mem[c].size && Paged(size)
    requires SplitAt(mem, mem', S, c, size)
    ensures c + size !in S && size > SMALL_MAX && mem[c].size - size > SMALL_MAX
    ensures Shaped(mem', S + {c + size}) && Apart(mem', S + {c + size})
  {
    PagedPieces(c, size, mem[c].size);
    hide Paged, PrevOf;
    forall x | x in S ensures Unused(mem'[x]) == Unused(mem[x]) { Stamp(mem[c].size - size, mem[x].prevSize); }
    Stamp(size, 0);
  }

  lemma PagedPieces(c: nat, size: nat, whole: nat)
    requires Paged(c) && Paged(size) && Paged(whole) && 0 < size < whole
    ensures Paged(c + size) && Paged(whole - size) && size >= PAGE_SIZE && whole - size >= PAGE_SIZE
  {
  }

  /** The bit for use and the size recorded with it can be told apart. */
  lemma Stamp(p: nat, q: nat)
    requires Paged(p)
    ensures (p + q % 2) % 2 == q % 2 && p + q % 2 - (p + q % 2) % 2 == p
  {
    assert p == 2 * (2048 * (p / PAGE_SIZE));
    Parity(2048 * (p / PAGE_SIZE), q % 2);
  }

  lemma Parity(h: nat, r: nat)
    requires r < 2
    ensures (2 * h + r) % 2 == r
  {
  }

  lemma SplitPrev(mem: Memory, mem': Memory, S: set<Addr>, c: Addr, size: nat, x: Addr)
    requires Tiles(mem, S) && c in S && !IsSmall(mem[c]) && 0 < size < mem[c].size && Paged(size)
    requires SplitAt(mem, mem', S, c, size) && x in S + {c + size}
    ensures PrevOk(mem', S + {c + size}, x)
  {
    PagedPieces(c, size, mem[c].size);
    SplitShape(mem, mem', S, c, size);
    var n := c + size;
    if x == n {
      Stamp(size, 0);
      assert Before(mem', S + {n}, c, n, size);
    } else if x == c + mem[c].size {
      Stamp(mem[c].size - size, mem[x].prevSize);
      assert Before(mem', S + {n}, n, x, mem[c].size - size);
    } else {
      SplitPrevOther(mem, mem', S, c, size, x);
    }
  }

  lemma SplitPrevOther(mem: Memory, mem': Memory, S: set<Addr>, c: Addr, size: nat, x: Addr)
    requires Tiles(mem, S) && c in S && SplitAt(mem, mem', S, c, size) && x in S && !IsSmall(mem[c])
    requires x != c + mem[c].size
    ensures PrevOk(mem', S + {c + size}, x)
  {
    hide Paged, PrevOf, Shaped, Apart;
    assert PrevOk(mem, S, x);
    assert mem'[x].prevSize == mem[x].prevSize;
    SamePrev(mem[x], mem'[x]);
    if PrevOf(mem[x]) != 0 {
      var w :| Before(mem, S, w, x, PrevOf(mem[x]));
      assert w != c;
      assert Before(mem', S + {c + size}, w, x, PrevOf(mem[x]));
    }
  }

  lemma SamePrev(h: BigChunk, h': BigChunk)
    requires h.prevSize == h'.prevSize
    ensures PrevOf(h) == PrevOf(h')
  {
  }

  lemma SplitTiles(mem: Memory, mem': Memory, S: set<Addr>, c: Addr, size: nat)
    requires Tiles(mem, S) && c in S && !IsSmall(mem[c]) && 0 < size < mem[c].size && Paged(size)
    requires SplitAt(mem, mem', S, c, size)
    ensures c + size !in S && Tiles(mem', S + {c + size})
  {
    hide PrevOk;
    SplitShape(mem, mem', S, c, size);
    var T := S + {c + size};
    forall x | x in T ensures PrevOk(mem', T, x) {
      SplitPrev(mem, mem', S, c, size, x);
    }
  }

  lemma SplitCover(mem: Memory, mem': Memory, S: set<Addr>, c: Addr, size: nat, owned: set<nat>)
    requires Tiles(mem, S) && c in S && !IsSmall(mem[c]) && 0 < size < mem[c].size && Paged(size)
    requires SplitAt(mem, mem', S, c, size) && CoverAll(mem, S, owned)
    ensures CoverAll(mem', S + {c + size}, owned)
  {
    hide PrevOk;
    SplitShape(mem, mem', S, c, size);
    hide Paged, SplitAt, Tiles, Shaped, Apart, Covers;
    var S' := S + {c + size};
    forall p: nat ensures Covered(mem, S, p) <==> Covered(mem', S', p) {
      if a :| a in S && Covers(mem, a, p) {
        SplitCovers(mem, mem', S, c, size, a, p);
        assert Covered(mem', S', p);
      }
      if a :| a in S' && Covers(mem', a, p) {
        SplitCovered(mem, mem', S, c, size, a, p);
        assert Covered(mem, S, p);
      }
    }
  }

  lemma SplitCovers(mem: Memory, mem': Memory, S: set<Addr>, c: Addr, size: nat, a: Addr, p: nat)
    requires c in S && c in mem && !IsSmall(mem[c]) && SMALL_MAX < size && size + SMALL_MAX < mem[c].size && c + size !in S
    requires SplitAt(mem, mem', S, c, size) && a in S && Covers(mem, a, p)
    ensures Covers(mem', a, p) || Covers(mem', c + size, p)
  {
  }

  lemma SplitCovered(mem: Memory, mem': Memory, S: set<Addr>, c: Addr, size: nat, a: Addr, p: nat)
    requires Tiles(mem, S) && c in S && !IsSmall(mem[c]) && SMALL_MAX < size && size + SMALL_MAX < mem[c].size && c + size !in S
    requires SplitAt(mem, mem', S, c, size) && a in S + {c + size} && Covers(mem', a, p)
    ensures a == c + size ==> Covers(mem, c, p)
    ensures a != c + size ==> a in S && Covers(mem, a, p)
  {
    hide PrevOk, Apart, Paged;
  }

  // ------------------------------------------------------------------ a merge

  /** mem' is mem after the chunk b has been added to the chunk a before it. */
  ghost predicate Merged(mem: Memory, mem': Memory, S: set<Addr>, a: Addr, b: Addr) {
    && a in mem && b in mem && a in mem'
    && mem'[a].size == mem[a].size + mem[b].size && mem'[a].prevSize == mem[a].prevSize
    && forall x :: x in S && x in mem && x != a ==> x in mem' && SameHeader(mem[x], mem'[x])
  }

  lemma MergeTiles(mem: Memory, mem': Memory, S: set<Addr>, a: Addr, b: Addr)
    requires Tiles(mem, S) && a in S && b in S && !IsSmall(mem[a]) && !IsSmall(mem[b]) && a + mem[a].size == b
    requires Merged(mem, mem', S, a, b)
    ensures Tiles(mem', S - {b})
  {
    hide PrevOk;
    var T := S - {b};
    forall x | x in T ensures PrevOk(mem', T, x) {
      MergePrev(mem, mem', S, a, b, x);
    }
  }

  lemma MergePrev(mem: Memory, mem': Memory, S: set<Addr>, a: Addr, b: Addr, x: Addr)
    requires Tiles(mem, S) && a in S && b in S && !IsSmall(mem[a]) && !IsSmall(mem[b]) && a + mem[a].size == b
    requires Merged(mem, mem', S, a, b) && x in S - {b}
    ensures PrevOk(mem', S - {b}, x)
  {
    assert PrevOk(mem, S, x);
    if PrevOf(mem[x]) != 0 {
      var w :| Before(mem, S, w, x, PrevOf(mem[x]));
      assert w != a;
      assert Before(mem', S - {b}, if w == b then a else w, x, PrevOf(mem[x]));
    }
  }

  lemma MergeCover(mem: Memory, mem': Memory, S: set<Addr>, a: Addr, b: Addr, owned: set<nat>)
    requires Shaped(mem, S) && a in S && b in S && !IsSmall(mem[a]) && !IsSmall(mem[b]) && a + mem[a].size == b
    requires Merged(mem, mem', S, a, b) && CoverAll(mem, S, owned)
    ensures CoverAll(mem', S - {b}, owned)
  {
    hide Paged;
    forall p: nat ensures Covered(mem, S, p) <==> Covered(mem', S - {b}, p) {
      if Covered(mem, S, p) {
        var x :| x in S && Covers(mem, x, p);
        assert Covers(mem', if x == b then a else x, p);
      }
      if Covered(mem', S - {b}, p) {
        var x :| x in S - {b} && Covers(mem', x, p);
        assert Covers(mem, if x == a && p * PAGE_SIZE >= b then b else x, p);
      }
    }
  }

  // --------------------------------------------------- marking in use or unused

  /** Only the record of the chunk before c changes, to zero or not at all, and its
      bit for use. */
  ghost predicate Restamped(mem: Memory, mem': Memory, S: set<Addr>, c: Addr) {
    && c in mem && c in mem' && mem'[c].size == mem[c].size
    && PrevOf(mem'[c]) in {0, PrevOf(mem[c])}
    && forall x :: x in S && x in mem && x != c ==> x in mem' && SameHeader(mem[x], mem'[x])
  }

  lemma RestampTiles(mem: Memory, mem': Memory, S: set<Addr>, c: Addr, owned: set<nat>)
    requires Tiles(mem, S) && c in S && Restamped(mem, mem', S, c) && !IsSmall(mem[c])
    ensures Tiles(mem', S)
    ensures CoverAll(mem, S, owned) ==> CoverAll(mem', S, owned)
  {
    hide CoverAll;
    forall x | x in S ensures PrevOk(mem', S, x) {
      assert PrevOk(mem, S, x);
      if PrevOf(mem'[x]) != 0 {
        var w :| Before(mem, S, w, x, PrevOf(mem[x]));
        assert Before(mem', S, w, x, PrevOf(mem[x]));
      }
    }
    CoverFrame(mem, mem', S, owned);
  }

  lemma CoverFrame(mem: Memory, mem': Memory, S: set<Addr>, owned: set<nat>)
    requires forall x :: x in S ==> x in mem && x in mem' && mem'[x].size == mem[x].size
    ensures CoverAll(mem, S, owned) ==> CoverAll(mem', S, owned)
  {
    forall p: nat ensures Covered(mem, S, p) <==> Covered(mem', S, p) {
      if Covered(mem, S, p) {
        var a :| a in S && Covers(mem, a, p);
        assert Covers(mem', a, p);
      }
      if Covered(mem', S, p) {
        var a :| a in S && Covers(mem', a, p);
        assert Covers(mem, a, p);
      }
    }
  }

  // ------------------------------------------------- memory from the system

  predicate InSpan(p: nat, r: Addr, n: nat) { r / PAGE_SIZE <= p < (r + n) / PAGE_SIZE }

  function Region(r: Addr, n: nat): set<nat> {
    set p | r / PAGE_SIZE <= p < (r + n) / PAGE_SIZE && InSpan(p, r, n)
  }

  /** mem' is mem after the region [r, r + n) has become one chunk, unused; its record
      of the chunk before is zero or exact, and so is the one after it. */
  ghost predicate Grown(mem: Memory, mem': Memory, S: set<Addr>, r: Addr, n: nat, p: nat) {
    && r in mem' && mem'[r].size == n && mem'[r].prevSize == p
    && (p != 0 ==> p <= r && r - p in S && r - p in mem && mem[r - p].size == p)
    && forall a :: a in S && a in mem && a != r ==>
         && a in mem' && mem'[a].size == mem[a].size
         && mem'[a].prevSize == if a == r + n then n + mem[a].prevSize % 2 else mem[a].prevSize
  }

  lemma PageOf(a: nat, r: nat, n: nat)
    requires Paged(a) && Paged(r) && Paged(n) && r <= a < r + n
    ensures a / PAGE_SIZE in Region(r, n) && a / PAGE_SIZE * PAGE_SIZE == a
  {
  }

  lemma GrowApart(mem: Memory, S: set<Addr>, owned: set<nat>, r: Addr, n: nat, a: Addr)
    requires Shaped(mem, S) && CoverAll(mem, S, owned) && Paged(r) && Paged(n) && n > 0 && Region(r, n) !! owned
    requires a in S && a in mem && Paged(a)
    ensures a + Extent(mem[a]) <= r || r + n <= a
  {
    hide Region, Paged, Shaped, CoverAll, Covered;
    if r <= a < r + n {
      PageOf(a, r, n);
      CoveredPage(mem, S, owned, a, a);
    } else if a <= r < a + Extent(mem[a]) {
      PageOf(r, r, n);
      CoveredPage(mem, S, owned, a, r);
    }
  }

  lemma CoveredPage(mem: Memory, S: set<Addr>, owned: set<nat>, a: Addr, x: Addr)
    requires Shaped(mem, S) && CoverAll(mem, S, owned) && a in S && a in mem && a <= x < a + Extent(mem[a]) && Paged(x)
    ensures x / PAGE_SIZE in owned
  {
    assert x / PAGE_SIZE * PAGE_SIZE == x;
    assert Covers(mem, a, x / PAGE_SIZE);
    assert Covered(mem, S, x / PAGE_SIZE);
  }

  lemma GrowTiles(mem: Memory, mem': Memory, S: set<Addr>, owned: set<nat>, r: Addr, n: nat, p: nat)
    requires Tiles(mem, S) && CoverAll(mem, S, owned) && Paged(r) && Paged(n) && r > 0 && n >= PAGE_SIZE && Region(r, n) !! owned
    requires Grown(mem, mem', S, r, n, p) && Paged(p) && (p != 0 ==> p >= PAGE_SIZE)
    ensures r !in S && Tiles(mem', S + {r})
  {
    hide Region, Paged, CoverAll, PrevOf;
    forall a | a in S ensures a + Extent(mem[a]) <= r || r + n <= a {
      GrowApart(mem, S, owned, r, n, a);
    }
    Stamp(p, 0);
    forall a | a in S ensures Unused(mem'[a]) == Unused(mem[a]) { Stamp(n, mem[a].prevSize); }
    assert Shaped(mem', S + {r}) && Apart(mem', S + {r});
    var T := S + {r};
    forall x | x in T ensures PrevOk(mem', T, x) {
      GrowPrev(mem, mem', S, r, n, p, x);
    }
  }

  lemma GrowPrev(mem: Memory, mem': Memory, S: set<Addr>, r: Addr, n: nat, p: nat, x: Addr)
    requires Tiles(mem, S) && Grown(mem, mem', S, r, n, p) && Paged(p) && Paged(n) && n >= PAGE_SIZE && (p != 0 ==> p >= PAGE_SIZE)
    requires r !in S && x in S + {r}
    ensures PrevOk(mem', S + {r}, x)
  {
    hide Paged, Shaped, Apart, PrevOf;
    if x == r {
      Stamp(p, 0);
      NoStamp(mem'[r], p);
      if p != 0 { assert Before(mem', S + {r}, r - p, r, p); }
    } else if x == r + n {
      Stamp(n, mem[x].prevSize);
      NewStamp(mem'[x], n, mem[x].prevSize);
      assert Before(mem', S + {r}, r, x, n);
    } else {
      assert PrevOk(mem, S, x);
      SamePrev(mem[x], mem'[x]);
      if PrevOf(mem[x]) != 0 {
        var w :| Before(mem, S, w, x, PrevOf(mem[x]));
        assert Before(mem', S + {r}, w, x, PrevOf(mem[x]));
      }
    }
  }

  lemma NoStamp(h: BigChunk, p: nat)
    requires h.prevSize == p && p % 2 == 0
    ensures PrevOf(h) == p
  {
  }

  lemma NewStamp(h: BigChunk, p: nat, q: nat)
    requires Paged(p) && h.prevSize == p + q % 2
    ensures PrevOf(h) == p
  {
    Stamp(p, q);
  }

  lemma GrowCover(mem: Memory, mem': Memory, S: set<Addr>, owned: set<nat>, r: Addr, n: nat, p: nat)
    requires CoverAll(mem, S, owned) && Paged(r) && Paged(n) && r !in S && n >= PAGE_SIZE
    requires forall a :: a in S ==> a in mem
    requires Grown(mem, mem', S, r, n, p)
    ensures CoverAll(mem', S + {r}, owned + Region(r, n))
  {
    forall q: nat ensures q in owned + Region(r, n) <==> Covered(mem', S + {r}, q) {
      if q in owned {
        var a :| a in S && Covers(mem, a, q);
        assert Covers(mem', a, q);
      } else if q in Region(r, n) {
        RegionIs(q, r, n);
        assert Covers(mem', r, q);
      }
      if Covered(mem', S + {r}, q) {
        var a :| a in S + {r} && Covers(mem', a, q);
        if a == r { RegionIs(q, r, n); } else { assert Covers(mem, a, q); assert Covered(mem, S, q); }
      }
    }
  }

  lemma RegionIs(q: nat, r: nat, n: nat)
    requires Paged(r) && Paged(n)
    ensures q in Region(r, n) <==> r <= q * PAGE_SIZE < r + n
  {
    var a, b := r / PAGE_SIZE, (r + n) / PAGE_SIZE;
    PagedSum(r, n);
    assert r == a * PAGE_SIZE && r + n == b * PAGE_SIZE;
  }

  // ----------------------------------------------------------- the unused total

  /** The total size of the chunks in F. */
  ghost function Total(mem: Memory, F: set<Addr>): nat {
    if F == {} then 0
    else
      var a :| a in F;
      (if a in mem then mem[a].size else 0) + Total(mem, F - {a})
  }

  lemma {:induction false} TotalWithout(mem: Memory, F: set<Addr>, b: Addr)
    requires b in F && b in mem
    ensures Total(mem, F) == Total(mem, F - {b}) + mem[b].size
  {
    var a :| a in F && Total(mem, F) == (if a in mem then mem[a].size else 0) + Total(mem, F - {a});
    if a != b {
      TotalWithout(mem, F - {a}, b);
      TotalWithoutAny(mem, F - {b}, a);
      assert F - {a} - {b} == F - {b} - {a};
    }
  }

  lemma {:induction false} TotalWithoutAny(mem: Memory, F: set<Addr>, b: Addr)
    requires b in F
    ensures Total(mem, F) == Total(mem, F - {b}) + if b in mem then mem[b].size else 0
  {
    var a :| a in F && Total(mem, F) == (if a in mem then mem[a].size else 0) + Total(mem, F - {a});
    if a != b {
      TotalWithoutAny(mem, F - {a}, b);
      TotalWithoutAny(mem, F - {b}, a);
      assert F - {a} - {b} == F - {b} - {a};
    }
  }

  lemma {:induction false} TotalFrame(mem: Memory, mem': Memory, F: set<Addr>)
    requires forall a :: a in F ==> a in mem && a in mem' && mem'[a].size == mem[a].size
    ensures Total(mem', F) == Total(mem, F)
  {
    if F != {} {
      var a :| a in F;
      TotalFrame(mem, mem', F - {a});
      TotalWithoutAny(mem, F, a);
      TotalWithoutAny(mem', F, a);
    }
  }

  // ------------------------------------------------------------------- frames

  ghost predicate SameHeaders(mem: Memory, mem': Memory, S: set<Addr>) {
    forall a :: a in S ==> a in mem && a in mem' && SameHeader(mem[a], mem'[a])
  }

  lemma TilesFrame(mem: Memory, mem': Memory, S: set<Addr>, owned: set<nat>)
    requires Tiles(mem, S) && CoverAll(mem, S, owned) && SameHeaders(mem, mem', S)
    ensures Tiles(mem', S) && CoverAll(mem', S, owned)
  {
    hide CoverAll, Paged, PrevOf;
    forall x | x in S ensures PrevOk(mem', S, x) && PrevOf(mem'[x]) == PrevOf(mem[x]) {
      assert PrevOk(mem, S, x);
      SamePrev(mem[x], mem'[x]);
      if PrevOf(mem[x]) != 0 {
        var w :| Before(mem, S, w, x, PrevOf(mem[x]));
        assert Before(mem', S, w, x, PrevOf(mem[x]));
      }
    }
    CoverFrame(mem, mem', S, owned);
  }
}
