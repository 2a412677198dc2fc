/** The books kept about the chunks: which are filed as unused, which starts are
    recorded, what is in use, and how splits and merges change that. */
module ChunkBooks {
  import opened SizeClasses
  import opened FreeMatrix
  import opened ChunkTiles

  /** A chunk is filed exactly while it is unused, and not larger than a chunk may
      be, but for the chunks in flight. */
  ghost predicate Booked(mem: Memory, S: set<Addr>, F: set<Addr>, flight: set<Addr>) {
    && F <= S && F !! flight
    && forall a :: a in S && a in mem && a !in flight ==>
         (a in F <==> Unused(mem[a])) && Extent(mem[a]) <= MAX_BIG_CHUNK
  }

  /** The pages recorded are those where a chunk starts, but for the hidden chunks. */
  ghost predicate Recorded(pages: set<nat>, S: set<Addr>, hidden: set<Addr>) {
    forall p: nat :: p in pages <==> p * PAGE_SIZE in S && p * PAGE_SIZE !in hidden
  }

  /** The chunks in use, with the size in their header. */
  ghost function InUse(mem: Memory, S: set<Addr>): map<Addr, nat> {
    map a | a in S && a in mem && !Unused(mem[a]) :: mem[a].size
  }

  /** The unused chunks, with their sizes. */
  ghost function SizesOf(mem: Memory, F: set<Addr>): map<Addr, nat> {
    map a | a in F && a in mem :: mem[a].size
  }

  lemma SizesFrame(mem: Memory, mem': Memory, F: set<Addr>)
    requires mem.Keys == mem'.Keys && SameHeaders(mem, mem', mem.Keys)
    ensures SizesOf(mem', F) == SizesOf(mem, F)
  {
  }

  lemma SizesWithout(mem: Memory, F: set<Addr>, b: Addr)
    ensures SizesOf(mem, F - {b}) == SizesOf(mem, F) - {b}
  {
  }

  lemma SizesWith(mem: Memory, F: set<Addr>, b: Addr)
    requires b in mem
    ensures SizesOf(mem, F + {b}) == SizesOf(mem, F)[b := mem[b].size]
  {
  }

  lemma SplitSizes(mem: Memory, mem': Memory, S: set<Addr>, F: set<Addr>, c: Addr, size: nat)
    requires SplitAt(mem, mem', S, c, size) && F <= S && c !in F && forall a :: a in S ==> a in mem
    ensures SizesOf(mem', F) == SizesOf(mem, F)
  {
  }

  lemma SizesOther(mem: Memory, F: set<Addr>, a: Addr, h: BigChunk)
    requires a !in F
    ensures SizesOf(mem[a := h], F) == SizesOf(mem, F)
  {
  }

  lemma GrowNeighbour(mem: Memory, mem': Memory, r: Addr, n: nat, p: nat, there: bool)
    requires mem' == GrowMem(mem, r, n, p, there) && n > 0 && (there ==> r + n in mem)
    ensures there ==> r + n in mem' && mem'[r + n].prevSize == n + mem[r + n].prevSize % 2
  {
  }

  lemma GrowSizes(mem: Memory, mem': Memory, F: set<Addr>, S: set<Addr>, r: Addr, n: nat, p: nat)
    requires mem' == GrowMem(mem, r, n, p, r + n in S) && r !in S && F <= S && (r + n in S ==> r + n in mem)
    ensures SizesOf(mem', F) == SizesOf(mem, F) && r !in SizesOf(mem', F)
  {
  }

  /** What the tests on a neighbour's header find out. */
  lemma NeighbourFree(mem: Memory, matrix: map<Class, Addr>, flBitmap: bv32, slBitmap: seq<bv32>, lists: Lists, F: set<Addr>, S: set<Addr>, c: Addr, x: Addr)
    requires Indexed(mem, matrix, flBitmap, slBitmap, lists, F) && Booked(mem, S, F, {c}) && Tiles(mem, S) && x != c
    ensures x in SizesOf(mem, F) <==> x in S && x in mem && Unused(mem[x])
    ensures x in SizesOf(mem, F) ==> x in F && !IsSmall(mem[x]) && SizesOf(mem, F)[x] == mem[x].size
    ensures c !in SizesOf(mem, F)
  {
    hide Indexed, Tiles;
    if x in F { FiledHeader(mem, matrix, flBitmap, slBitmap, lists, F, S, {c}, x); }
  }

  lemma UsedNotFree(mem: Memory, S: set<Addr>, F: set<Addr>, c: Addr)
    requires Booked(mem, S, F, {}) && c in InUse(mem, S)
    ensures c !in F && c in S && c in mem && !Unused(mem[c])
  {
  }

  lemma BookedWithin(mem: Memory, S: set<Addr>, F: set<Addr>, flight: set<Addr>)
    requires Booked(mem, S, F, flight)
    ensures F <= S && F !! flight
  {
  }

  // ----------------------------------------------------- what freeing must do

  /** A stretch of unused memory from c on, in chunks of at most the largest size. */
  function Cut2(free: map<Addr, nat>, c: Addr, n: nat): map<Addr, nat> {
    if n > MAX_BIG_CHUNK then free[c := MAX_BIG_CHUNK][c + MAX_BIG_CHUNK := n - MAX_BIG_CHUNK] else free[c := n]
  }

  /** n unused bytes at c, with the unused chunk behind them. */
  function WithRight(free: map<Addr, nat>, c: Addr, n: nat): map<Addr, nat> {
    if n < MAX_BIG_CHUNK && c + n in free then Cut2(free - {c + n}, c, n + free[c + n]) else free[c := n]
  }

  /** n unused bytes at c, with the unused chunk at le in front of them: where what is
      still to be filed starts, its size, and the chunks filed. */
  function WithLeft(free: map<Addr, nat>, c: Addr, n: nat, le: Addr): (Addr, nat, map<Addr, nat>) {
    if le in free && free[le] < MAX_BIG_CHUNK then
      if free[le] + n > MAX_BIG_CHUNK then (le + MAX_BIG_CHUNK, free[le] + n - MAX_BIG_CHUNK, free[le := MAX_BIG_CHUNK])
      else (le, free[le] + n, free - {le})
    else (c, n, free)
  }

  lemma RightIs(free: map<Addr, nat>, c: Addr, n: nat)
    ensures var joins := n < MAX_BIG_CHUNK && c + n in free;
            var m := if joins then n + free[c + n] else n;
            && (!joins ==> WithRight(free, c, n) == free[c := n])
            && (joins && m <= MAX_BIG_CHUNK ==> WithRight(free, c, n) == (free - {c + n})[c := m])
            && (joins && m > MAX_BIG_CHUNK ==> WithRight(free, c, n) == (free - {c + n})[c + MAX_BIG_CHUNK := m - MAX_BIG_CHUNK][c := MAX_BIG_CHUNK])
  {
  }

  lemma LeftJoins(free: map<Addr, nat>, c: Addr, n: nat, le: Addr)
    ensures var joins := le in free && free[le] < MAX_BIG_CHUNK;
            var m := if joins then n + free[le] else n;
            && (!joins ==> WithLeft(free, c, n, le) == (c, n, free))
            && (joins && m <= MAX_BIG_CHUNK ==> WithLeft(free, c, n, le) == (le, m, free - {le}))
            && (joins && m > MAX_BIG_CHUNK ==> WithLeft(free, c, n, le) == (le + MAX_BIG_CHUNK, m - MAX_BIG_CHUNK, (free - {le})[le := MAX_BIG_CHUNK]))
  {
    if le in free { assert (free - {le})[le := MAX_BIG_CHUNK] == free[le := MAX_BIG_CHUNK]; }
  }

  /** prev is the size recorded for the chunk in front, or zero. */
  function Coalesced(free: map<Addr, nat>, c: Addr, n: nat, prev: nat): map<Addr, nat> {
    var (cur, m, rest) := if 0 < prev <= c then WithLeft(free, c, n, c - prev) else (c, n, free);
    WithRight(rest, cur, m)
  }

  ghost predicate ByteOf(free: map<Addr, nat>, x: nat) { exists a :: a in free && a <= x < a + free[a] }

  ghost predicate FreeShaped(free: map<Addr, nat>) {
    && (forall a :: a in free ==> 0 < free[a] <= MAX_BIG_CHUNK)
    && (forall a, b :: a in free && b in free && a < b ==> a + free[a] <= b)
  }

  ghost predicate ClearOf(free: map<Addr, nat>, c: Addr, n: nat) {
    forall a :: a in free ==> a + free[a] <= c || c + n <= a
  }

  lemma PieceMore(free: map<Addr, nat>, a: Addr, n: nat)
    requires a !in free
    ensures forall x: nat :: ByteOf(free[a := n], x) <==> ByteOf(free, x) || a <= x < a + n
    ensures FreeShaped(free) && ClearOf(free, a, n) && 0 < n <= MAX_BIG_CHUNK ==> FreeShaped(free[a := n])
  {
    hide ByteOf;
    forall x: nat ensures ByteOf(free[a := n], x) <==> ByteOf(free, x) || a <= x < a + n { PieceAt(free, a, n, x); }
  }

  lemma PieceAt(free: map<Addr, nat>, a: Addr, n: nat, x: nat)
    requires a !in free
    ensures ByteOf(free[a := n], x) <==> ByteOf(free, x) || a <= x < a + n
  {
    var f := free[a := n];
    if b :| b in free && b <= x < b + free[b] { assert b in f && f[b] == free[b]; }
    if a <= x < a + n { assert a in f; }
  }

  lemma PieceShaped(free: map<Addr, nat>, a: Addr, n: nat)
    requires FreeShaped(free) && ClearOf(free, a, n) && 0 < n <= MAX_BIG_CHUNK
    ensures FreeShaped(free[a := n])
  {
  }

  lemma PieceLess(free: map<Addr, nat>, a: Addr)
    requires a in free
    ensures forall x: nat :: ByteOf(free, x) <==> ByteOf(free - {a}, x) || a <= x < a + free[a]
    ensures FreeShaped(free) ==> FreeShaped(free - {a}) && ClearOf(free - {a}, a, free[a])
  {
    hide ByteOf;
    var f := free - {a};
    PieceMore(f, a, free[a]);
    assert f[a := free[a]] == free;
    forall x: nat ensures ByteOf(free, x) <==> ByteOf(f, x) || a <= x < a + free[a] {
      assert ByteOf(f[a := free[a]], x) <==> ByteOf(f, x) || a <= x < a + free[a];
    }
  }

  /** A stretch of unused memory is filed in one chunk or two. */
  lemma StretchFiled(free: map<Addr, nat>, c: Addr, n: nat)
    requires FreeShaped(free) && ClearOf(free, c, n) && 0 < n <= 2 * MAX_BIG_CHUNK
    ensures var f := Cut2(free, c, n);
            && FreeShaped(f) && c in f && f[c] == (if n > MAX_BIG_CHUNK then MAX_BIG_CHUNK else n)
            && (forall x: nat :: ByteOf(f, x) <==> ByteOf(free, x) || c <= x < c + n)
            && (forall a :: a in f <==> a in free || a == c || (n > MAX_BIG_CHUNK && a == c + MAX_BIG_CHUNK))
            && (forall a :: a in free ==> f[a] == free[a])
  {
    NotWithin(free, c, n);
    CutKeys(free, c, n);
    hide ByteOf, FreeShaped, ClearOf;
    if n > MAX_BIG_CHUNK {
      CutTwo(free, c, n);
    } else {
      PieceMore(free, c, n);
    }
  }

  lemma CutKeys(free: map<Addr, nat>, c: Addr, n: nat)
    requires c !in free && (n > MAX_BIG_CHUNK ==> c + MAX_BIG_CHUNK !in free)
    ensures var f := Cut2(free, c, n);
            && c in f && f[c] == (if n > MAX_BIG_CHUNK then MAX_BIG_CHUNK else n)
            && (forall a :: a in f <==> a in free || a == c || (n > MAX_BIG_CHUNK && a == c + MAX_BIG_CHUNK))
            && (forall a :: a in free ==> f[a] == free[a])
  {
  }

  lemma CutTwo(free: map<Addr, nat>, c: Addr, n: nat)
    requires FreeShaped(free) && ClearOf(free, c, n) && MAX_BIG_CHUNK < n <= 2 * MAX_BIG_CHUNK
    requires c !in free && c + MAX_BIG_CHUNK !in free
    ensures FreeShaped(Cut2(free, c, n)) && forall x: nat :: ByteOf(Cut2(free, c, n), x) <==> ByteOf(free, x) || c <= x < c + n
  {
    hide ByteOf, FreeShaped, ClearOf;
    var f1 := free[c := MAX_BIG_CHUNK];
    var f2 := f1[c + MAX_BIG_CHUNK := n - MAX_BIG_CHUNK];
    ClearHalves(free, c, n);
    PieceShaped(free, c, MAX_BIG_CHUNK);
    PieceShaped(f1, c + MAX_BIG_CHUNK, n - MAX_BIG_CHUNK);
    forall x: nat ensures ByteOf(f2, x) <==> ByteOf(free, x) || c <= x < c + n {
      PieceAt(free, c, MAX_BIG_CHUNK, x);
      PieceAt(f1, c + MAX_BIG_CHUNK, n - MAX_BIG_CHUNK, x);
    }
  }

  lemma NotWithin(free: map<Addr, nat>, c: Addr, n: nat)
    requires FreeShaped(free) && ClearOf(free, c, n)
    ensures forall a :: a in free ==> !(c <= a < c + n)
  {
  }

  lemma ClearHalves(free: map<Addr, nat>, c: Addr, n: nat)
    requires FreeShaped(free) && ClearOf(free, c, n) && n > MAX_BIG_CHUNK
    ensures ClearOf(free, c, MAX_BIG_CHUNK) && ClearOf(free[c := MAX_BIG_CHUNK], c + MAX_BIG_CHUNK, n - MAX_BIG_CHUNK)
  {
  }

  /** The chunk behind is taken in, and the memory is the same. */
  lemma RightTaken(free: map<Addr, nat>, c: Addr, n: nat)
    requires FreeShaped(free) && ClearOf(free, c, n) && 0 < n <= MAX_BIG_CHUNK
    ensures var f := WithRight(free, c, n);
            && FreeShaped(f) && c in f && (c + n in f ==> n == f[c] == MAX_BIG_CHUNK)
            && (forall x: nat :: ByteOf(f, x) <==> ByteOf(free, x) || c <= x < c + n)
            && (forall a :: a in f && a < c + n ==> a == c || a in free)
            && (forall a :: a in free && a < c ==> a in f && f[a] == free[a])
  {
    hide ByteOf, Cut2;
    if n < MAX_BIG_CHUNK && c + n in free {
      PieceLess(free, c + n);
      Clear2(free, c, n);
      StretchFiled(free - {c + n}, c, n + free[c + n]);
    } else {
      StretchFiled(free, c, n);
      assert Cut2(free, c, n) == free[c := n] by { CutOne(free, c, n); }
    }
  }

  lemma Clear2(free: map<Addr, nat>, c: Addr, n: nat)
    requires FreeShaped(free) && ClearOf(free, c, n) && c + n in free
    ensures ClearOf(free - {c + n}, c, n + free[c + n])
  {
  }

  lemma CutOne(free: map<Addr, nat>, c: Addr, n: nat)
    requires n <= MAX_BIG_CHUNK
    ensures Cut2(free, c, n) == free[c := n]
  {
  }

  /** The chunk in front is taken in, where the size recorded for it leads to one. */
  lemma LeftTaken(free: map<Addr, nat>, c: Addr, n: nat, le: Addr)
    requires FreeShaped(free) && ClearOf(free, c, n) && 0 < n <= MAX_BIG_CHUNK
    requires le in free ==> le + free[le] == c
    ensures var (cur, m, rest) := WithLeft(free, c, n, le);
            && FreeShaped(rest) && ClearOf(rest, cur, m) && 0 < m <= MAX_BIG_CHUNK && cur + m == c + n && cur <= c + n
            && (forall x: nat :: ByteOf(rest, x) || cur <= x < cur + m <==> ByteOf(free, x) || c <= x < c + n)
            && (le in free && free[le] == MAX_BIG_CHUNK ==> cur == c && rest == free)
            && (le in free && free[le] < MAX_BIG_CHUNK ==> cur != c && cur < c + n && c !in rest)
  {
    hide ByteOf;
    LeftJoins(free, c, n, le);
    var (cur, m, rest) := WithLeft(free, c, n, le);
    hide WithLeft;
    if le in free && free[le] < MAX_BIG_CHUNK {
      var f := free - {le};
      PieceLess(free, le);
      ClearFront(free, c, n, le);
      if free[le] + n > MAX_BIG_CHUNK {
        PieceMore(f, le, MAX_BIG_CHUNK);
        assert rest == f[le := MAX_BIG_CHUNK];
      }
      forall x: nat ensures ByteOf(rest, x) || cur <= x < cur + m <==> ByteOf(free, x) || c <= x < c + n {
        assert ByteOf(free, x) <==> ByteOf(f, x) || le <= x < c;
        if free[le] + n > MAX_BIG_CHUNK {
          assert ByteOf(rest, x) <==> ByteOf(f, x) || le <= x < le + MAX_BIG_CHUNK;
        }
      }
    }
  }

  lemma ClearFront(free: map<Addr, nat>, c: Addr, n: nat, le: Addr)
    requires FreeShaped(free) && ClearOf(free, c, n) && le in free && le + free[le] == c && 0 < free[le] < MAX_BIG_CHUNK && n > 0
    ensures ClearOf(free - {le}, le, free[le] + n) && c !in free
    ensures var f := (free - {le})[le := MAX_BIG_CHUNK];
            free[le] + n > MAX_BIG_CHUNK ==>
              ClearOf(free - {le}, le, MAX_BIG_CHUNK) && ClearOf(f, le + MAX_BIG_CHUNK, free[le] + n - MAX_BIG_CHUNK) && c !in f
  {
  }

  /** What freeing a chunk leaves: the memory that was unused and its own, and no border of
      the chunk between two unused chunks, unless the one in front of it has the largest
      size. In front this needs the recorded size to lead to the chunk there. */
  ghost predicate FreedWell(free: map<Addr, nat>, f: map<Addr, nat>, c: Addr, n: nat, prev: nat) {
    && FreeShaped(f) && (forall x: nat :: ByteOf(f, x) <==> ByteOf(free, x) || c <= x < c + n)
    && (c + n in f ==> exists a :: a in f && a + f[a] == c + n && f[a] == MAX_BIG_CHUNK)
    && (0 < prev <= c && c - prev in free && c in f ==> c - prev in f && f[c - prev] == MAX_BIG_CHUNK)
  }

  lemma Coalesces(free: map<Addr, nat>, c: Addr, n: nat, prev: nat)
    requires FreeShaped(free) && ClearOf(free, c, n) && 0 < n <= MAX_BIG_CHUNK
    requires 0 < prev <= c && c - prev in free ==> free[c - prev] == prev
    ensures FreedWell(free, Coalesced(free, c, n, prev), c, n, prev)
  {
    hide ByteOf, WithRight, WithLeft, FreeShaped;
    var (cur, m, rest) := if 0 < prev <= c then WithLeft(free, c, n, c - prev) else (c, n, free);
    if 0 < prev <= c { LeftTaken(free, c, n, c - prev); }
    RightTaken(rest, cur, m);
    var f := WithRight(rest, cur, m);
    if c + n in f { assert cur in f && cur + f[cur] == c + n; }
    if 0 < prev <= c && c - prev in free && prev == MAX_BIG_CHUNK { assert c - prev < cur; }
    if 0 < prev <= c && c - prev in free { LargestOnly(free, c - prev); }
  }

  lemma LargestOnly(free: map<Addr, nat>, a: Addr)
    requires FreeShaped(free) && a in free
    ensures free[a] <= MAX_BIG_CHUNK
  {
  }

  lemma RecordedAt(pages: set<nat>, S: set<Addr>, hidden: set<Addr>, x: nat)
    requires Recorded(pages, S, hidden) && Paged(x)
    ensures x / PAGE_SIZE in pages <==> x in S && x !in hidden
  {
    assert x / PAGE_SIZE * PAGE_SIZE == x;
  }

  lemma RecordedIncl(pages: set<nat>, S: set<Addr>, hidden: set<Addr>, x: nat)
    requires Recorded(pages, S, hidden) && Paged(x)
    ensures Recorded(pages + {x / PAGE_SIZE}, S + {x}, hidden - {x})
  {
    assert x / PAGE_SIZE * PAGE_SIZE == x;
  }

  lemma RecordedExcl(pages: set<nat>, S: set<Addr>, hidden: set<Addr>, x: nat)
    requires Recorded(pages, S, hidden) && Paged(x)
    ensures Recorded(pages - {x / PAGE_SIZE}, S - {x}, hidden)
  {
    assert x / PAGE_SIZE * PAGE_SIZE == x;
  }

  lemma RecordedHidden(pages: set<nat>, S: set<Addr>, x: nat)
    requires Recorded(pages, S, {}) && x !in S
    ensures Recorded(pages, S + {x}, {x})
  {
  }

  // ------------------------------------------------------------------ a split

  /** Headers of the other chunks after a split: sizes and the bit for use stay. */
  lemma SplitOthers(mem: Memory, mem': Memory, S: set<Addr>, c: Addr, size: nat, a: Addr)
    requires Shaped(mem, S) && c in S && SplitAt(mem, mem', S, c, size) && Paged(size) && !IsSmall(mem[c]) && size <= mem[c].size
    requires a in S && a != c
    ensures a in mem && a in mem' && mem'[a].size == mem[a].size && Unused(mem'[a]) == Unused(mem[a])
  {
    PagedSum(mem[c].size, size);
    Stamp(mem[c].size - size, mem[a].prevSize);
  }

  lemma SplitBooked(mem: Memory, mem': Memory, S: set<Addr>, F: set<Addr>, flight: set<Addr>, c: Addr, size: nat)
    requires Tiles(mem, S) && Booked(mem, S, F, flight) && c in S && c in flight && !IsSmall(mem[c])
    requires 0 < size < mem[c].size && Paged(size) && SplitAt(mem, mem', S, c, size)
    ensures Booked(mem', S + {c + size}, F, flight + {c + size})
    ensures Unused(mem[c]) ==> InUse(mem', S + {c + size}) == InUse(mem, S)
    ensures Unused(mem'[c + size])
  {
    forall a | a in S && a != c
      ensures a in mem && a in mem' && mem'[a].size == mem[a].size && Unused(mem'[a]) == Unused(mem[a])
    {
      SplitOthers(mem, mem', S, c, size, a);
    }
    SplitShape(mem, mem', S, c, size);
    Stamp(size, 0);
    assert c + size !in F;
    hide Paged, Apart, Shaped, SplitAt, PrevOk;
    assert Unused(mem'[c + size]) && Unused(mem'[c]) == Unused(mem[c]) by { HeaderOfSplit(mem, mem', S, c, size); }
  }

  lemma HeaderOfSplit(mem: Memory, mem': Memory, S: set<Addr>, c: Addr, size: nat)
    requires SplitAt(mem, mem', S, c, size) && Paged(size)
    ensures c in mem && c in mem' && c + size in mem'
    ensures Unused(mem'[c + size]) && Unused(mem'[c]) == Unused(mem[c])
  {
    Stamp(size, 0);
  }

  /** mem after the size p has been recorded in the chunk ri, if there is one. */
  function Touched(mem: Memory, ri: Addr, p: nat, there: bool): Memory {
    if there && ri in mem then mem[ri := mem[ri].(prevSize := p + mem[ri].prevSize % 2)] else mem
  }

  function SplitMem(mem: Memory, c: Addr, size: nat, there: bool): Memory
    requires c in mem && 0 < size < mem[c].size
  {
    var m := Touched(mem[c + size := BigChunk(size, mem[c].size - size, NIL, NIL)], c + mem[c].size, mem[c].size - size, there);
    m[c := m[c].(size := size)]
  }

  lemma SplitMemIs(mem: Memory, S: set<Addr>, c: Addr, size: nat)
    requires Tiles(mem, S) && c in S && c in mem && 0 < size < mem[c].size && !IsSmall(mem[c])
    ensures SplitAt(mem, SplitMem(mem, c, size, c + mem[c].size in S), S, c, size)
    ensures SameLinks(mem, SplitMem(mem, c, size, c + mem[c].size in S), S - {c})
  {
    hide Paged, PrevOk;
    assert c + size !in S;
  }

  /** The chunk after c is recorded exactly when it is one of ours. */
  lemma NeighbourKnown(mem: Memory, S: set<Addr>, pages: set<nat>, hidden: set<Addr>, c: Addr)
    requires Tiles(mem, S) && Recorded(pages, S, hidden) && c in S && c in mem && !IsSmall(mem[c]) && hidden <= {c}
    ensures (c + mem[c].size) / PAGE_SIZE in pages <==> c + mem[c].size in S
    ensures c + mem[c].size in S ==> c + mem[c].size in mem
  {
    PagedSum(c, mem[c].size);
    RecordedAt(pages, S, hidden, c + mem[c].size);
  }

  lemma SplitIndex(mem: Memory, mem': Memory, matrix: map<Class, Addr>, flBitmap: bv32, slBitmap: seq<bv32>, lists: Lists, F: set<Addr>, S: set<Addr>, c: Addr, size: nat)
    requires Indexed(mem, matrix, flBitmap, slBitmap, lists, F) && F <= S && c !in F
    requires SplitAt(mem, mem', S, c, size) && SameLinks(mem, mem', S - {c})
    ensures Indexed(mem', matrix, flBitmap, slBitmap, lists, F)
  {
    hide Indexed;
    IndexedFrame(mem, mem', matrix, flBitmap, slBitmap, lists, F);
  }

  lemma SplitTotal(mem: Memory, mem': Memory, S: set<Addr>, F: set<Addr>, flight: set<Addr>, c: Addr, size: nat)
    requires Shaped(mem, S) && Booked(mem, S, F, flight) && c in flight && SplitAt(mem, mem', S, c, size)
    ensures Total(mem', F) == Total(mem, F)
  {
    hide Total;
    TotalFrame(mem, mem', F);
  }

  lemma SplitAll(mem: Memory, mem': Memory, matrix: map<Class, Addr>, flBitmap: bv32, slBitmap: seq<bv32>, lists: Lists, F: set<Addr>, S: set<Addr>, owned: set<nat>, flight: set<Addr>, c: Addr, size: nat)
    requires Indexed(mem, matrix, flBitmap, slBitmap, lists, F) && Tiles(mem, S) && CoverAll(mem, S, owned) && Booked(mem, S, F, flight)
    requires c in S && c in flight && c in mem && !IsSmall(mem[c]) && Unused(mem[c]) && 0 < size < mem[c].size && Paged(size)
    requires SplitAt(mem, mem', S, c, size) && SameLinks(mem, mem', S - {c})
    ensures c + size !in S && Paged(c + size)
    ensures Indexed(mem', matrix, flBitmap, slBitmap, lists, F) && Tiles(mem', S + {c + size}) && CoverAll(mem', S + {c + size}, owned)
    ensures Booked(mem', S + {c + size}, F, flight + {c + size})
    ensures InUse(mem', S + {c + size}) == InUse(mem, S)
    ensures Total(mem', F) == Total(mem, F)
    ensures c in mem' && mem'[c].size == size && Unused(mem'[c])
    ensures c + size in mem' && mem'[c + size].size == mem[c].size - size && Unused(mem'[c + size])
  {
    HeaderOfSplit(mem, mem', S, c, size);
    SplitTotal(mem, mem', S, F, flight, c, size);
    hide Indexed, CoverAll, InUse, SplitAt, SameLinks, PrevOk, Apart, Total;
    SplitTiles(mem, mem', S, c, size);
    SplitCover(mem, mem', S, c, size, owned);
    SplitBooked(mem, mem', S, F, flight, c, size);
    SplitIndex(mem, mem', matrix, flBitmap, slBitmap, lists, F, S, c, size);
    PagedSum(c, size);
  }

  // ------------------------------------------------------------------ a merge

  lemma MergeBooked(mem: Memory, mem': Memory, S: set<Addr>, F: set<Addr>, flight: set<Addr>, a: Addr, b: Addr)
    requires Shaped(mem, S) && Booked(mem, S, F, flight) && a in S && b in S && a != b && {a, b} <= flight
    requires Unused(mem[a]) && Unused(mem[b]) && Merged(mem, mem', S, a, b)
    ensures Booked(mem', S - {b}, F, flight - {b})
    ensures InUse(mem', S - {b}) == InUse(mem, S)
    ensures Unused(mem'[a])
  {
    hide Paged;
  }

  /** The chunk b of the list of unused chunks joins the chunk a in front of it. */
  lemma MergeAll(mem: Memory, mem': Memory, matrix: map<Class, Addr>, flBitmap: bv32, slBitmap: seq<bv32>, lists: Lists, F: set<Addr>, S: set<Addr>, owned: set<nat>, flight: set<Addr>, a: Addr, b: Addr)
    requires Indexed(mem, matrix, flBitmap, slBitmap, lists, F) && Tiles(mem, S) && CoverAll(mem, S, owned) && Booked(mem, S, F, flight)
    requires a in S && b in S && {a, b} <= flight && a in mem && b in mem && Unused(mem[a]) && Unused(mem[b]) && a + Extent(mem[a]) == b
    requires mem' == mem[a := mem[a].(size := mem[a].size + mem[b].size)]
    ensures !IsSmall(mem[a]) && !IsSmall(mem[b])
    ensures Paged(b) && Indexed(mem', matrix, flBitmap, slBitmap, lists, F) && Tiles(mem', S - {b}) && CoverAll(mem', S - {b}, owned)
    ensures Booked(mem', S - {b}, F, flight - {b})
    ensures InUse(mem', S - {b}) == InUse(mem, S)
    ensures Unused(mem'[a]) && Total(mem', F) == Total(mem, F)
  {
    hide Indexed, CoverAll, InUse, PrevOk, Apart, Total;
    TotalFrame(mem, mem', F);
    assert !IsSmall(mem[a]) && !IsSmall(mem[b]) && Paged(b);
    MergeTiles(mem, mem', S, a, b);
    MergeCover(mem, mem', S, a, b, owned);
    MergeBooked(mem, mem', S, F, flight, a, b);
    IndexedFrame(mem, mem', matrix, flBitmap, slBitmap, lists, F);
  }

  // ----------------------------------------------------- small changes of state

  /** A chunk leaves the flight by being filed, or enters it by being taken out. */
  lemma BookedFile(mem: Memory, S: set<Addr>, F: set<Addr>, flight: set<Addr>, b: Addr)
    requires Booked(mem, S, F, flight) && b in S && b in mem
    ensures b in flight && Unused(mem[b]) && Extent(mem[b]) <= MAX_BIG_CHUNK ==> Booked(mem, S, F + {b}, flight - {b})
    ensures b in F ==> Booked(mem, S, F - {b}, flight + {b})
  {
  }

  lemma BookedUse(mem: Memory, mem': Memory, S: set<Addr>, F: set<Addr>, c: Addr)
    requires Booked(mem, S, F, {c}) && Restamped(mem, mem', S, c) && !Unused(mem'[c]) && c in S && Extent(mem'[c]) <= MAX_BIG_CHUNK
    requires forall a :: a in S ==> a in mem
    ensures Booked(mem', S, F, {})
    ensures Unused(mem[c]) ==> InUse(mem', S) == InUse(mem, S)[c := mem'[c].size] && c !in InUse(mem, S)
  {
  }

  lemma BookedFree(mem: Memory, mem': Memory, S: set<Addr>, F: set<Addr>, c: Addr)
    requires Booked(mem, S, F, {}) && Restamped(mem, mem', S, c) && !Unused(mem[c]) && Unused(mem'[c]) && c in S
    requires forall a :: a in S ==> a in mem
    ensures Booked(mem', S, F, {c})
    ensures InUse(mem', S) == InUse(mem, S) - {c}
  {
  }

  /** Nothing changes when only links change. */
  lemma BooksFrame(mem: Memory, mem': Memory, S: set<Addr>, F: set<Addr>, flight: set<Addr>)
    requires SameHeaders(mem, mem', S)
    ensures Booked(mem, S, F, flight) ==> Booked(mem', S, F, flight)
    ensures InUse(mem', S) == InUse(mem, S)
  {
  }

  lemma GrowBooked(mem: Memory, mem': Memory, S: set<Addr>, F: set<Addr>, r: Addr, n: nat, p: nat)
    requires Shaped(mem, S) && Booked(mem, S, F, {}) && r !in S && Paged(n) && Paged(p) && Grown(mem, mem', S, r, n, p)
    ensures Booked(mem', S + {r}, F, {r})
    ensures InUse(mem', S + {r}) == InUse(mem, S) && Unused(mem'[r])
  {
    Stamp(p, 0);
    forall a | a in S ensures a in mem && a in mem' && mem'[a].size == mem[a].size && Unused(mem'[a]) == Unused(mem[a]) {
      Stamp(n, mem[a].prevSize);
    }
    hide Paged, Shaped;
  }

  // ------------------------------------------------------- filing and unfiling

  lemma FiledHeader(mem: Memory, matrix: map<Class, Addr>, flBitmap: bv32, slBitmap: seq<bv32>, lists: Lists, F: set<Addr>, S: set<Addr>, flight: set<Addr>, b: Addr)
    requires Indexed(mem, matrix, flBitmap, slBitmap, lists, F) && Booked(mem, S, F, flight) && b in F
    requires Tiles(mem, S)
    ensures b in mem && b in S && Unused(mem[b]) && !IsSmall(mem[b]) && b !in flight
  {
    hide MappingInsert, Heads, BitsAgree, PrevOk, Apart;
  }

  lemma FlightHeader(mem: Memory, S: set<Addr>, F: set<Addr>, flight: set<Addr>, b: Addr)
    requires Booked(mem, S, F, flight) && b in flight && b in S && Tiles(mem, S) && b in mem && Unused(mem[b])
    ensures b !in F && b != NIL && Paged(mem[b].size) && mem[b].size >= PAGE_SIZE && Extent(mem[b]) == mem[b].size
  {
    hide PrevOk, Apart;
  }

  lemma FiledMem(mem: Memory, matrix: map<Class, Addr>, flBitmap: bv32, slBitmap: seq<bv32>, lists: Lists, F: set<Addr>, S: set<Addr>)
    requires Indexed(mem, matrix, flBitmap, slBitmap, lists, F)
    ensures forall a :: a in F ==> a in mem
  {
    hide MappingInsert, Heads, BitsAgree;
  }

  /** When only links change, the tiling and the books stay as they are. */
  lemma LinksOnly(mem: Memory, mem': Memory, S: set<Addr>, F: set<Addr>, owned: set<nat>, flight: set<Addr>)
    requires Tiles(mem, S) && CoverAll(mem, S, owned) && Booked(mem, S, F, flight)
    requires mem.Keys == mem'.Keys && SameHeaders(mem, mem', mem.Keys)
    ensures Tiles(mem', S) && CoverAll(mem', S, owned) && Booked(mem', S, F, flight)
    ensures InUse(mem', S) == InUse(mem, S) && Total(mem', F) == Total(mem, F)
  {
    hide CoverAll, InUse, Total, PrevOk, Apart;
    assert forall a :: a in S ==> a in mem;
    hide Paged, Unused, Extent, IsSmall;
    TilesFrame(mem, mem', S, owned);
    BooksFrame(mem, mem', S, F, flight);
    TotalFrame(mem, mem', F);
  }

  // ------------------------------------------------------- neighbours of a chunk

  /** Where the recorded size leads: if a chunk starts there, it touches c. */
  lemma LeftIs(mem: Memory, S: set<Addr>, pages: set<nat>, c: Addr)
    requires Tiles(mem, S) && Recorded(pages, S, {}) && c in S && c in mem && Unused(mem[c]) && mem[c].prevSize != 0
    ensures mem[c].prevSize <= c && Paged(c - mem[c].prevSize)
    ensures var le := c - mem[c].prevSize; le / PAGE_SIZE in pages <==> le in S
    ensures var le := c - mem[c].prevSize; le in S ==> le in mem && le + Extent(mem[le]) == c && le != c
  {
    hide Apart;
    assert PrevOk(mem, S, c);
    var p := mem[c].prevSize;
    assert PrevOf(mem[c]) == p;
    var w :| Before(mem, S, w, c, p);
    PagedSum(c, p);
    RecordedAt(pages, S, {}, c - p);
    if c - p in S { LeftNeighbour(mem, S, c); }
  }

  /** A chunk is filed if it is unused and not in flight. */
  lemma UnusedFiled(mem: Memory, S: set<Addr>, F: set<Addr>, flight: set<Addr>, b: Addr)
    requires Booked(mem, S, F, flight) && b in S && b in mem && b !in flight && Unused(mem[b])
    ensures b in F
  {
  }

  lemma FreedAll(mem: Memory, mem': Memory, matrix: map<Class, Addr>, flBitmap: bv32, slBitmap: seq<bv32>, lists: Lists, F: set<Addr>, S: set<Addr>, owned: set<nat>, c: Addr)
    requires Indexed(mem, matrix, flBitmap, slBitmap, lists, F) && Tiles(mem, S) && CoverAll(mem, S, owned) && Booked(mem, S, F, {})
    requires c in S && c in mem && !Unused(mem[c]) && !IsSmall(mem[c]) && mem' == mem[c := mem[c].(prevSize := PrevOf(mem[c]))]
    ensures Indexed(mem', matrix, flBitmap, slBitmap, lists, F) && Tiles(mem', S) && CoverAll(mem', S, owned) && Booked(mem', S, F, {c})
    ensures InUse(mem', S) == InUse(mem, S) - {c} && Unused(mem'[c]) && Total(mem', F) == Total(mem, F)
    ensures mem[c].size <= MAX_BIG_CHUNK
  {
    hide Indexed, CoverAll, Total, PrevOk, Apart;
    assert PrevOk(mem, S, c);
    hide Paged;
    RestampTiles(mem, mem', S, c, owned);
    BookedFree(mem, mem', S, F, c);
    TotalFrame(mem, mem', F);
    IndexedFrame(mem, mem', matrix, flBitmap, slBitmap, lists, F);
  }

  lemma SameUnused(mem: Memory, mem': Memory, a: Addr)
    requires a in mem && SameHeaders(mem, mem', mem.Keys)
    ensures a in mem' && Unused(mem'[a]) == Unused(mem[a]) && mem'[a].size == mem[a].size
  {
  }

  lemma UnusedNotSmall(mem: Memory, S: set<Addr>, a: Addr)
    requires Tiles(mem, S) && a in S && a in mem && Unused(mem[a])
    ensures !IsSmall(mem[a]) && Paged(mem[a].size)
  {
    hide Apart, PrevOk;
  }

  lemma FiledSize(mem: Memory, matrix: map<Class, Addr>, flBitmap: bv32, slBitmap: seq<bv32>, lists: Lists, F: set<Addr>, b: Addr)
    requires Indexed(mem, matrix, flBitmap, slBitmap, lists, F) && b in F
    ensures b in mem && mem[b].size <= MAX_BIG_CHUNK
  {
    hide MappingInsert, Heads, BitsAgree;
  }

  lemma MaxPaged()
    ensures Paged(MAX_BIG_CHUNK) && MAX_BIG_CHUNK > 0
  {
  }

  // ------------------------------------------------- memory from the system

  /** mem after the region [r, r + n) has become a chunk behind one of size p, or
      behind none that is known when p is zero. */
  function GrowMem(mem: Memory, r: Addr, n: nat, p: nat, there: bool): Memory {
    Touched(mem[r := BigChunk(0, n, NIL, NIL)], r + n, n, there)[r := BigChunk(p, n, NIL, NIL)]
  }

  ghost predicate ChunkBefore(mem: Memory, S: set<Addr>, r: Addr, p: nat) {
    p != 0 ==> p <= r && r - p in S && r - p in mem && mem[r - p].size == p
  }

  /** The region is disjoint from every page obtained so far. */
  ghost predicate FreshRegion(owned: set<nat>, r: Addr, n: nat) {
    r > 0 && Paged(r) && Region(r, n) !! owned
  }

  lemma FreshNotIn(mem: Memory, S: set<Addr>, owned: set<nat>, r: Addr, n: nat)
    requires Shaped(mem, S) && CoverAll(mem, S, owned) && FreshRegion(owned, r, n) && Paged(n) && n >= PAGE_SIZE
    ensures r !in S
  {
    if r in S { GrowApart(mem, S, owned, r, n, r); }
  }

  lemma GrownIs(mem: Memory, S: set<Addr>, r: Addr, n: nat, p: nat)
    requires r !in S && n > 0 && ChunkBefore(mem, S, r, p) && Shaped(mem, S)
    ensures Grown(mem, GrowMem(mem, r, n, p, r + n in S), S, r, n, p)
    ensures SameLinks(mem, GrowMem(mem, r, n, p, r + n in S), S)
  {
    hide Paged, Unused;
  }

  lemma GrowAll(mem: Memory, mem': Memory, matrix: map<Class, Addr>, flBitmap: bv32, slBitmap: seq<bv32>, lists: Lists, F: set<Addr>, S: set<Addr>, owned: set<nat>, r: Addr, n: nat, p: nat)
    requires Indexed(mem, matrix, flBitmap, slBitmap, lists, F) && Tiles(mem, S) && CoverAll(mem, S, owned) && Booked(mem, S, F, {})
    requires FreshRegion(owned, r, n) && Paged(n) && n >= PAGE_SIZE && Paged(p) && ChunkBefore(mem, S, r, p)
    requires mem' == GrowMem(mem, r, n, p, r + n in S)
    ensures r !in S && Indexed(mem', matrix, flBitmap, slBitmap, lists, F) && Tiles(mem', S + {r})
    ensures CoverAll(mem', S + {r}, owned + Region(r, n)) && Booked(mem', S + {r}, F, {r})
    ensures InUse(mem', S + {r}) == InUse(mem, S) && Total(mem', F) == Total(mem, F)
    ensures r in mem' && mem'[r].size == n && Unused(mem'[r])
  {
    hide Indexed, CoverAll, Total, PrevOk, Apart, Region, InUse;
    FreshNotIn(mem, S, owned, r, n);
    GrownIs(mem, S, r, n, p);
    if p != 0 { PagedLeast(p); }
    GrowTiles(mem, mem', S, owned, r, n, p);
    GrowCover(mem, mem', S, owned, r, n, p);
    GrowBooked(mem, mem', S, F, r, n, p);
    hide Tiles, Paged, Booked;
    GrowIndex(mem, mem', matrix, flBitmap, slBitmap, lists, F, S);
  }

  lemma GrowIndex(mem: Memory, mem': Memory, matrix: map<Class, Addr>, flBitmap: bv32, slBitmap: seq<bv32>, lists: Lists, F: set<Addr>, S: set<Addr>)
    requires Indexed(mem, matrix, flBitmap, slBitmap, lists, F) && Booked(mem, S, F, {}) && SameLinks(mem, mem', S)
    requires forall a :: a in S ==> a in mem && a in mem' && mem'[a].size == mem[a].size
    ensures Indexed(mem', matrix, flBitmap, slBitmap, lists, F)
    ensures Total(mem', F) == Total(mem, F)
  {
    hide Indexed, Total;
    IndexedFrame(mem, mem', matrix, flBitmap, slBitmap, lists, F);
    TotalFrame(mem, mem', F);
  }

  lemma PagedLeast(p: nat)
    requires Paged(p) && p != 0
    ensures p >= PAGE_SIZE
  {
  }

  // -------------------------------------------------------- pages of small cells

  /** The page c in use begins, or ends, to serve cells: the size in its header
      changes, the memory it spans does not. */
  lemma CellsAll(mem: Memory, mem': Memory, matrix: map<Class, Addr>, flBitmap: bv32, slBitmap: seq<bv32>, lists: Lists, F: set<Addr>, S: set<Addr>, owned: set<nat>, c: Addr, s: nat)
    requires Indexed(mem, matrix, flBitmap, slBitmap, lists, F) && Tiles(mem, S) && CoverAll(mem, S, owned) && Booked(mem, S, F, {})
    requires c in S && c in mem && !Unused(mem[c]) && Extent(mem[c]) == PAGE_SIZE && (s <= SMALL_MAX || s == PAGE_SIZE)
    requires mem' == mem[c := mem[c].(size := s)]
    ensures Indexed(mem', matrix, flBitmap, slBitmap, lists, F) && Tiles(mem', S) && CoverAll(mem', S, owned) && Booked(mem', S, F, {})
    ensures InUse(mem', S) == InUse(mem, S)[c := s] && Total(mem', F) == Total(mem, F)
  {
    hide Indexed, Total, PrevOk, Paged, Apart, InUse, CoverAll;
    assert c !in F;
    CellsTiles(mem, mem', S, c, s);
    CellsCover(mem, mem', S, owned);
    CellsBooks(mem, mem', S, F, c, s);
    IndexedFrame(mem, mem', matrix, flBitmap, slBitmap, lists, F);
    TotalFrame(mem, mem', F);
  }

  lemma CellsBooks(mem: Memory, mem': Memory, S: set<Addr>, F: set<Addr>, c: Addr, s: nat)
    requires Booked(mem, S, F, {}) && c in S && c in mem && !Unused(mem[c])
    requires mem' == mem[c := mem[c].(size := s)] && Extent(mem'[c]) == Extent(mem[c])
    ensures Booked(mem', S, F, {}) && InUse(mem', S) == InUse(mem, S)[c := s]
  {
  }

  lemma CellsTiles(mem: Memory, mem': Memory, S: set<Addr>, c: Addr, s: nat)
    requires Tiles(mem, S) && c in S && c in mem && !Unused(mem[c])
    requires mem' == mem[c := mem[c].(size := s)] && Extent(mem'[c]) == Extent(mem[c])
    ensures Tiles(mem', S)
  {
    hide PrevOf, Paged;
    forall x | x in S ensures PrevOk(mem', S, x) {
      assert PrevOk(mem, S, x);
      SamePrev(mem[x], mem'[x]);
      if PrevOf(mem[x]) != 0 {
        var w :| Before(mem, S, w, x, PrevOf(mem[x]));
        assert Before(mem', S, w, x, PrevOf(mem[x]));
      }
    }
  }

  lemma CellsCover(mem: Memory, mem': Memory, S: set<Addr>, owned: set<nat>)
    requires forall x :: x in S ==> x in mem && x in mem' && Extent(mem'[x]) == Extent(mem[x])
    ensures CoverAll(mem, S, owned) ==> CoverAll(mem', S, owned)
  {
    forall p: nat ensures Covered(mem, S, p) <==> Covered(mem', S, p) {
      if Covered(mem, S, p) {
        var a :| a in S && Covers(mem, a, p);
        assert Covers(mem', a, p);
      }
      if Covered(mem', S, p) {
        var a :| a in S && Covers(mem', a, p);
        assert Covers(mem, a, p);
      }
    }
  }

  // ------------------------------------------------------------- handing out

  /** The unused chunk c in flight is marked as in use. */
  lemma UsedAll(mem: Memory, mem': Memory, matrix: map<Class, Addr>, flBitmap: bv32, slBitmap: seq<bv32>, lists: Lists, F: set<Addr>, S: set<Addr>, owned: set<nat>, c: Addr)
    requires Indexed(mem, matrix, flBitmap, slBitmap, lists, F) && Tiles(mem, S) && CoverAll(mem, S, owned) && Booked(mem, S, F, {c})
    requires c in S && c in mem && Unused(mem[c]) && mem[c].size <= MAX_BIG_CHUNK && mem' == mem[c := mem[c].(prevSize := 1)]
    ensures Indexed(mem', matrix, flBitmap, slBitmap, lists, F) && Tiles(mem', S) && CoverAll(mem', S, owned) && Booked(mem', S, F, {})
    ensures c !in InUse(mem, S) && InUse(mem', S) == InUse(mem, S)[c := mem[c].size] && Total(mem', F) == Total(mem, F)
  {
    hide Indexed, CoverAll, Total, PrevOk, Apart;
    UnusedNotSmall(mem, S, c);
    RestampTiles(mem, mem', S, c, owned);
    BookedUse(mem, mem', S, F, c);
    TotalFrame(mem, mem', F);
    IndexedFrame(mem, mem', matrix, flBitmap, slBitmap, lists, F);
  }

  /** A chunk from the list of a class at or above that of the request is large enough. */
  lemma FoundFits(mem: Memory, matrix: map<Class, Addr>, flBitmap: bv32, slBitmap: seq<bv32>, lists: Lists, F: set<Addr>, r: nat, d: Class, b: Addr)
    requires PAGE_SIZE - 15 <= r <= MAX_BIG_CHUNK
    requires Indexed(mem, matrix, flBitmap, slBitmap, lists, F) && FirstFrom(lists, SearchClass(r), d) && b == lists[d][0]
    ensures b in F && b in mem && mem[b].size >= SearchSize(r) >= r
  {
    hide Indexed, MappingInsert, SearchSize, Floor;
    SearchFits(r);
    FoundHead(mem, matrix, flBitmap, slBitmap, lists, F, SearchClass(r), d);
    IndexShape(mem, matrix, flBitmap, slBitmap, lists, F, d);
    FiledClass(mem, matrix, flBitmap, slBitmap, lists, F, d);
    InsertIs(mem[b].size);
    FloorMono(SearchClass(r), d);
  }

  function SearchClass(r: nat): Class
    requires PAGE_SIZE - 15 <= r <= MAX_BIG_CHUNK
  {
    SearchFits(r);
    MappingInsert(SearchSize(r))
  }

  lemma FiledClass(mem: Memory, matrix: map<Class, Addr>, flBitmap: bv32, slBitmap: seq<bv32>, lists: Lists, F: set<Addr>, d: Class)
    requires Indexed(mem, matrix, flBitmap, slBitmap, lists, F) && d in lists && lists[d] != []
    ensures lists[d][0] in F && lists[d][0] in mem && PAGE_SIZE <= mem[lists[d][0]].size <= MAX_BIG_CHUNK
    ensures MappingInsert(mem[lists[d][0]].size) == d
  {
    hide MappingInsert, Heads, BitsAgree;
    InList(mem, lists, F, d, 0);
  }

  /** When nothing is found, every unused chunk is filed below the class of the
      request. */
  lemma NoneFits(mem: Memory, matrix: map<Class, Addr>, flBitmap: bv32, slBitmap: seq<bv32>, lists: Lists, F: set<Addr>, r: nat, b: Addr)
    requires PAGE_SIZE - 15 <= r <= MAX_BIG_CHUNK
    requires Indexed(mem, matrix, flBitmap, slBitmap, lists, F) && NoneFrom(lists, SearchClass(r)) && b in F
    ensures b in mem && mem[b].size < SearchSize(r)
  {
    hide MappingInsert, Heads, BitsAgree, SearchSize, Floor;
    SearchFits(r);
    var c := MappingInsert(mem[b].size);
    assert !c.AtLeast(SearchClass(r));
    InsertIs(mem[b].size);
    BelowClass(mem[b].size, SearchSize(r));
  }

  /** A smaller class means a smaller size. */
  lemma BelowClass(a: nat, s: nat)
    requires PAGE_SIZE <= a <= MAX_BIG_CHUNK && PAGE_SIZE <= s <= MAX_BIG_CHUNK
    requires !MappingInsert(a).AtLeast(MappingInsert(s))
    ensures a < s
  {
    hide Floor;
    InsertIs(a);
    InsertIs(s);
    if s <= a {
      InsertMono(s, a);
    }
  }

  lemma RoundedPaged(x: nat)
    ensures Paged(Roundup(x, PAGE_SIZE)) && x <= Roundup(x, PAGE_SIZE) < x + PAGE_SIZE
  {
  }

  lemma RegionPaged(owned: set<nat>, r: Addr, n: nat)
    requires FreshRegion(owned, r, n) && Paged(n)
    ensures Paged(r) && Paged(r + n) && Paged(0) && r > 0
  {
    hide Region;
    PagedSum(r, n);
  }

  lemma LastPaged(r: nat, lastSize: nat, last: nat)
    requires Paged(r) && Paged(lastSize) && last == if lastSize != 0 then lastSize else PAGE_SIZE
    requires last <= r
    ensures Paged(last) && Paged(r - last)
  {
  }

  lemma NotNew(mem: Memory, S: set<Addr>, owned: set<nat>, r: Addr, n: nat)
    requires Tiles(mem, S) && CoverAll(mem, S, owned) && FreshRegion(owned, r, n) && Paged(n) && n >= PAGE_SIZE
    ensures r !in S && (r + n in S ==> r + n in mem)
  {
    hide CoverAll, FreshRegion, PrevOk, Apart, Paged;
    FreshNotIn(mem, S, owned, r, n);
  }

  lemma ZeroPaged()
    ensures Paged(0)
  {
  }

  lemma AllIn(mem: Memory, S: set<Addr>)
    requires Tiles(mem, S)
    ensures forall a :: a in S ==> a in mem
  {
    hide Apart, PrevOk;
  }

  lemma StartPaged(mem: Memory, S: set<Addr>, a: Addr)
    requires Tiles(mem, S) && a in S
    ensures Paged(a) && a != NIL
  {
    hide Apart, PrevOk;
  }

  ghost predicate LargeEnough(mem: Memory, F: set<Addr>, n: nat) {
    exists b :: b in F && b in mem && mem[b].size >= n
  }

  /** The chunk found is hardly larger than any that would do. */
  ghost predicate FitsWell(free: map<Addr, nat>, n: nat, b: Addr) {
    b in free && free[b] >= n && forall a :: a in free && free[a] >= n ==> 32 * free[b] < 33 * free[a]
  }

  lemma FitsIn(free: map<Addr, nat>, n: nat, b: Addr)
    requires FitsWell(free, n, b)
    ensures b in free && free[b] >= n
  {
  }

  lemma FoundWell(mem: Memory, matrix: map<Class, Addr>, flBitmap: bv32, slBitmap: seq<bv32>, lists: Lists, F: set<Addr>, r: nat, d: Class, b: Addr)
    requires PAGE_SIZE - 15 <= r <= MAX_BIG_CHUNK
    requires Indexed(mem, matrix, flBitmap, slBitmap, lists, F) && FirstFrom(lists, SearchClass(r), d) && b == lists[d][0]
    ensures FitsWell(SizesOf(mem, F), SearchSize(r), b)
  {
    hide MappingInsert, SearchSize, Heads, BitsAgree, Floor;
    SearchFits(r);
    FoundFits(mem, matrix, flBitmap, slBitmap, lists, F, r, d, b);
    FiledClass(mem, matrix, flBitmap, slBitmap, lists, F, d);
    forall a | a in F && a in mem && mem[a].size >= SearchSize(r) ensures 32 * mem[b].size < 33 * mem[a].size {
      InsertMono(SearchSize(r), mem[a].size);
      ClassNarrow(mem[a].size, mem[b].size);
    }
  }

  /** What is left of the unused chunks when n bytes at the start of c are handed out. */
  function HandedOut(free: map<Addr, nat>, c: Addr, n: nat): map<Addr, nat>
    requires c in free
  {
    if free[c] <= n then free - {c} else (free - {c})[c + n := free[c] - n]
  }

  lemma HandedOld(free: map<Addr, nat>, c: Addr, n: nat)
    requires c in free && free[c] >= n
    ensures HandedOut(free, c, n) == if free[c] == n then free - {c} else (free - {c})[c + n := free[c] - n]
  {
  }

  lemma HandedNew(free: map<Addr, nat>, c: Addr, m: nat, n: nat)
    requires c !in free && m >= n
    ensures HandedOut(free[c := m], c, n) == if m == n then free else free[c + n := m - n]
  {
    assert free[c := m] - {c} == free;
  }

  /** The search finds a chunk exactly when some unused chunk is large enough. */
  lemma FoundOrNone(mem: Memory, matrix: map<Class, Addr>, flBitmap: bv32, slBitmap: seq<bv32>, lists: Lists, F: set<Addr>, r: nat, d: Class, b: Addr)
    requires PAGE_SIZE - 15 <= r <= MAX_BIG_CHUNK
    requires Indexed(mem, matrix, flBitmap, slBitmap, lists, F)
    requires b != NIL ==> FirstFrom(lists, SearchClass(r), d) && b == lists[d][0]
    requires b == NIL ==> NoneFrom(lists, SearchClass(r))
    ensures SearchSize(r) >= r
    ensures b != NIL <==> LargeEnough(mem, F, SearchSize(r))
    ensures b != NIL ==> d.Valid() && b in F && b in mem && mem[b].size >= SearchSize(r)
  {
    hide Indexed, SearchClass, SearchSize, NoneFrom;
    SearchFits(r);
    if b != NIL {
      FoundFits(mem, matrix, flBitmap, slBitmap, lists, F, r, d, b);
    } else {
      forall x | x in F ensures x in mem && mem[x].size < SearchSize(r) {
        NoneFits(mem, matrix, flBitmap, slBitmap, lists, F, r, x);
      }
    }
  }

  lemma SearchPaged(r: nat)
    requires PAGE_SIZE - 15 <= r <= MAX_BIG_CHUNK
    ensures Paged(SearchSize(r)) && Paged(524288)
  {
    hide SearchSize;
    SearchFits(r);
  }

  lemma PagedClose(a: nat, b: nat)
    requires Paged(a) && Paged(b) && a <= b < a + PAGE_SIZE
    ensures a == b
  {
  }

  /** The memory a chunk spans, from the size in its header. */
  function Span(size: nat): nat { if size <= SMALL_MAX then PAGE_SIZE else size }

  /** Two chunks in use do not overlap, and lie in memory obtained from the system. */
  lemma LiveApart(mem: Memory, S: set<Addr>, owned: set<nat>, a: Addr, b: Addr, p: nat)
    requires Tiles(mem, S) && CoverAll(mem, S, owned) && a in InUse(mem, S) && b in InUse(mem, S) && a != b
    requires a <= p * PAGE_SIZE < a + Span(InUse(mem, S)[a])
    ensures p in owned && !(b <= p * PAGE_SIZE < b + Span(InUse(mem, S)[b]))
  {
    hide Paged;
    assert Covers(mem, a, p);
    assert Covered(mem, S, p);
  }

  lemma NothingYet(mem: Memory)
    ensures Tiles(mem, {}) && CoverAll(mem, {}, {}) && Recorded({}, {}, {}) && Booked(mem, {}, {}, {})
    ensures InUse(mem, {}) == map[] && Total(mem, {}) == 0 && Paged(0)
  {
    forall p: nat ensures !Covered(mem, {}, p) {
    }
  }

  /** The unused chunks and a chunk in use are as freeing needs them. */
  lemma FreeIsShaped(mem: Memory, matrix: map<Class, Addr>, flBitmap: bv32, slBitmap: seq<bv32>, lists: Lists, F: set<Addr>, S: set<Addr>, c: Addr)
    requires Indexed(mem, matrix, flBitmap, slBitmap, lists, F) && Tiles(mem, S) && Booked(mem, S, F, {})
    requires c in S && c in mem && !Unused(mem[c]) && !IsSmall(mem[c])
    ensures FreeShaped(SizesOf(mem, F)) && ClearOf(SizesOf(mem, F), c, mem[c].size) && 0 < mem[c].size <= MAX_BIG_CHUNK
    ensures 0 < PrevOf(mem[c]) <= c && c - PrevOf(mem[c]) in SizesOf(mem, F) ==> SizesOf(mem, F)[c - PrevOf(mem[c])] == PrevOf(mem[c])
  {
    hide Indexed, PrevOk, MappingInsert;
    forall a | a in F ensures a in S && a in mem && !IsSmall(mem[a]) && mem[a].size <= MAX_BIG_CHUNK && Unused(mem[a]) {
      FiledHeader(mem, matrix, flBitmap, slBitmap, lists, F, S, {}, a);
      FiledSize(mem, matrix, flBitmap, slBitmap, lists, F, a);
    }
    hide Booked;
    if PrevOf(mem[c]) != 0 && c - PrevOf(mem[c]) in F { LeftNeighbour(mem, S, c); }
    hide Paged, PrevOf;
  }
}
