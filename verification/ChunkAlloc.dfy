/** The allocator of page chunks: best fit by size class, splitting, and merging
    with both neighbours when a chunk is given back. */
module ChunkAlloc {
  import opened SizeClasses
  import opened Bitmaps
  import opened FreeMatrix
  import opened ChunkTiles
  import opened ChunkBooks

  const OS_CHUNK := 524288
  const FIRST_CHUNK := 16384

  lemma PlanPaged(n: int)
    requires Paged(n)
    ensures Paged(n * 2) && Paged(MAX_BIG_CHUNK) && Paged(FIRST_CHUNK) && Paged(OS_CHUNK)
  {
    assert n * 2 == (n / PAGE_SIZE * 2) * PAGE_SIZE;
  }

  class MemRegion {
    var mem: Memory
    var chunkStarts: set<nat>
    var flBitmap: bv32
    var slBitmap: seq<bv32>
    var matrix: map<Class, Addr>
    var freeMem: int
    var currMem: int
    var occ: int
    var lastSize: nat
    var nextChunkSize: nat
    var blockChunkSizeIncrease: bool
    /** The chunks, those of them that are filed as unused, the lists they are filed
        in, and the pages obtained from the system so far. */
    ghost var starts: set<Addr>
    ghost var filed: set<Addr>
    ghost var lists: Lists
    ghost var owned: set<nat>

    /** All fields zero, before the first request. */
    constructor ()
      ensures Valid() && Live() == map[] && owned == {} && freeMem == 0 && currMem == 0 && occ == 0 && Free() == map[]
    {
      hide NoHeads, NoRows, NoLists, Indexed, Tiles, CoverAll, Recorded, Booked, InUse, Total, Paged;
      mem, chunkStarts := map[], {};
      flBitmap, slBitmap := 0, NoRows();
      matrix := NoHeads();
      freeMem, currMem, occ, lastSize, nextChunkSize, blockChunkSizeIncrease := 0, 0, 0, 0, 0, false;
      starts, filed, owned, lists := {}, {}, {}, NoLists();
      new;
      NothingYet(map[]);
      EmptyIndexed(map[]);
    }

    ghost predicate Index()
      reads this
    {
      Indexed(mem, matrix, flBitmap, slBitmap, lists, filed)
    }

    /** Everything but the filing of the chunks in flight and the record of hidden ones. */
    ghost predicate Mid(flight: set<Addr>, hidden: set<Addr>)
      reads this
    {
      && Index() && Tiles(mem, starts) && CoverAll(mem, starts, owned)
      && Recorded(chunkStarts, starts, hidden) && Booked(mem, starts, filed, flight)
      && Paged(lastSize) && Paged(nextChunkSize) && nextChunkSize <= MAX_BIG_CHUNK
    }

    ghost predicate Valid()
      reads this
    {
      Mid({}, {}) && freeMem == Total(mem, filed)
    }

    /** The chunks in use, with the size in their header. */
    ghost function Live(): map<Addr, nat>
      reads this
    {
      InUse(mem, starts)
    }

    /** The unused chunks, with their sizes. */
    ghost function Free(): map<Addr, nat>
      reads this`mem, this`filed
    {
      SizesOf(mem, filed)
    }

    predicate Accessible(x: nat)
      reads this
    {
      x / PAGE_SIZE in chunkStarts
    }

    method AddChunkToMatrix(b: Addr)
      requires Index() && b !in filed && b in mem && b != NIL && PAGE_SIZE <= mem[b].size <= MAX_BIG_CHUNK
      modifies this`mem, this`matrix, this`flBitmap, this`slBitmap, this`lists, this`filed
      ensures Index() && filed == old(filed) + {b}
      ensures mem.Keys == old(mem.Keys) && SameHeaders(old(mem), mem, mem.Keys)
    {
      hide Indexed, MappingInsert, SetBit;
      InsertIs(mem[b].size);
      var c := MappingInsert(mem[b].size);
      IndexShape(mem, matrix, flBitmap, slBitmap, lists, filed, c);
      mem := mem[b := mem[b].(prev := NIL, next := matrix[c])];
      if matrix[c] != NIL {
        mem := mem[matrix[c] := mem[matrix[c]].(prev := b)];
      }
      AddedIndexed(old(mem), mem, matrix, flBitmap, slBitmap, lists, filed, b, c);
      matrix := matrix[c := b];
      slBitmap := slBitmap[c.fl := SetBit(c.sl, slBitmap[c.fl])];
      flBitmap := SetBit(c.fl, flBitmap);
      lists := lists[c := [b] + lists[c]];
      filed := filed + {b};
    }

    /** Takes b out of the list it is filed in, wherever it stands there. */
    method RemoveChunkFromMatrix(b: Addr)
      requires Index() && b in filed
      modifies this`mem, this`matrix, this`flBitmap, this`slBitmap, this`lists, this`filed
      ensures Index() && filed == old(filed) - {b}
      ensures mem.Keys == old(mem.Keys) && SameHeaders(old(mem), mem, mem.Keys)
    {
      hide Indexed, MappingInsert, ClearBit, Cut, At, Unhooked, CutLinks;
      ghost var c, k := FiledAt(mem, matrix, flBitmap, slBitmap, lists, filed, b);
      UnhookedCuts(mem, lists[c], k, b);
      CutIndexed(mem, Unhooked(mem, b), matrix, flBitmap, slBitmap, lists, filed, c, k);
      var cl := MappingInsert(mem[b].size);
      var next, head := mem[b].next, matrix[cl];
      Unhook(b);
      if head == b {
        matrix := matrix[cl := next];
        if matrix[cl] == NIL {
          slBitmap := slBitmap[cl.fl := ClearBit(cl.sl, slBitmap[cl.fl])];
          if slBitmap[cl.fl] == 0 {
            flBitmap := ClearBit(cl.fl, flBitmap);
          }
        }
      } else {
        assert matrix[cl := matrix[cl]] == matrix;
      }
      lists := lists[c := Cut(lists[c], k)];
      filed := filed - {b};
    }

    method Unhook(b: Addr)
      requires b in mem && (mem[b].next != NIL ==> mem[b].next in mem) && (mem[b].prev != NIL ==> mem[b].prev in mem)
      requires mem[b].next != b && mem[b].prev != b
      modifies this`mem
      ensures mem == Unhooked(old(mem), b)
    {
      if mem[b].next != NIL {
        mem := mem[mem[b].next := mem[mem[b].next].(prev := mem[b].prev)];
      }
      if mem[b].prev != NIL {
        mem := mem[mem[b].prev := mem[mem[b].prev].(next := mem[b].next)];
      }
      mem := mem[b := mem[b].(prev := NIL, next := NIL)];
    }

    /** As RemoveChunkFromMatrix, for the chunk b that heads the list of class c. */
    method RemoveChunkFromMatrix2(b: Addr, c: Class)
      requires Index() && c.Valid() && c in matrix && matrix[c] == b && b != NIL
      modifies this`mem, this`matrix, this`flBitmap, this`slBitmap, this`lists, this`filed
      ensures Index() && b in old(filed) && filed == old(filed) - {b}
      ensures mem.Keys == old(mem.Keys) && SameHeaders(old(mem), mem, mem.Keys)
    {
      hide Indexed, MappingInsert, ClearBit, Cut, At, Unhooked, CutLinks;
      IndexShape(mem, matrix, flBitmap, slBitmap, lists, filed, c);
      ghost var d, k := FiledAt(mem, matrix, flBitmap, slBitmap, lists, filed, b);
      HeadIsFirst(mem, matrix, flBitmap, slBitmap, lists, filed, c, b, d, k);
      UnhookedCuts(mem, lists[c], k, b);
      UnhookedHead(mem, b);
      CutIndexed(mem, Unhooked(mem, b), matrix, flBitmap, slBitmap, lists, filed, c, k);
      matrix := matrix[c := mem[b].next];
      if matrix[c] != NIL {
        mem := mem[matrix[c] := mem[matrix[c]].(prev := NIL)];
      } else {
        slBitmap := slBitmap[c.fl := ClearBit(c.sl, slBitmap[c.fl])];
        if slBitmap[c.fl] == 0 {
          flBitmap := ClearBit(c.fl, flBitmap);
        }
      }
      mem := mem[b := mem[b].(prev := NIL, next := NIL)];
      lists := lists[c := Cut(lists[c], k)];
      filed := filed - {b};
    }

    /** The first chunk in the lowest non-empty list at or above class c, if any. */
    method FindSuitableBlock(c: Class) returns (result: Addr, d: Class)
      requires Index() && c.Valid()
      ensures result != NIL ==> FirstFrom(lists, c, d) && d in matrix && result == matrix[d] == lists[d][0]
      ensures result == NIL ==> NoneFrom(lists, c)
    {
      hide Indexed, MappingInsert, From, Lsbit, RowsAgree, TopAgrees, FirstFrom, NoneFrom;
      IndexBits(mem, matrix, flBitmap, slBitmap, lists, filed);
      FoundInRow(flBitmap, slBitmap, lists, c);
      var tmp := From(c.sl, slBitmap[c.fl]);
      d := c;
      result := NIL;
      if tmp != 0 {
        d := Class(c.fl, Lsbit(tmp));
        FoundHead(mem, matrix, flBitmap, slBitmap, lists, filed, c, d);
        result := matrix[d];
      } else {
        FoundAbove(flBitmap, slBitmap, lists, c);
        var fl := Lsbit(From(c.fl + 1, flBitmap));
        if 0 < fl {
          d := Class(fl, Lsbit(slBitmap[fl]));
          FoundHead(mem, matrix, flBitmap, slBitmap, lists, filed, c, d);
          result := matrix[d];
        }
      }
    }

    /** Records in the chunk after c, if there is one, that the chunk before it has
        size p. */
    method UpdatePrevSize(c: Addr, p: nat)
      requires c in mem
      requires Accessible(c + mem[c].size) ==> c + mem[c].size in mem
      modifies this`mem
      ensures mem == Touched(old(mem), c + old(mem[c].size), p, Accessible(c + old(mem[c].size)))
    {
      var ri := c + mem[c].size;
      if Accessible(ri) {
        mem := mem[ri := mem[ri].(prevSize := p + mem[ri].prevSize % 2)];
      }
    }

    method SplitChunk2(c: Addr, size: nat, ghost flight: set<Addr>, ghost hidden: set<Addr>) returns (rest: Addr)
      requires Mid(flight, hidden) && c in starts && c in flight && hidden <= {c}
      requires c in mem && !IsSmall(mem[c]) && Unused(mem[c]) && 0 < size < mem[c].size && Paged(size)
      modifies this`mem, this`chunkStarts, this`starts
      ensures rest == c + size && rest !in old(starts) && starts == old(starts) + {rest}
      ensures SplitAt(old(mem), mem, old(starts), c, size)
      ensures c in mem && mem[c].size == size && Unused(mem[c])
      ensures rest in mem && mem[rest].size == old(mem)[c].size - size && Unused(mem[rest])
      ensures Mid(flight + {rest}, hidden)
      ensures Live() == old(Live()) && Total(mem, filed) == old(Total(mem, filed)) && Free() == old(Free())
    {
      hide Indexed, Tiles, CoverAll, Recorded, Booked, IsSmall, Paged, SplitAt, Unused, InUse, Total;
      NeighbourKnown(mem, starts, chunkStarts, hidden, c);
      rest := c + size;
      mem := mem[rest := BigChunk(size, mem[c].size - size, NIL, NIL)];
      UpdatePrevSize(c, mem[rest].size);
      mem := mem[c := mem[c].(size := size)];
      SplitMemIs(old(mem), starts, c, size);
      assert mem == SplitMem(old(mem), c, size, c + old(mem)[c].size in old(starts));
      chunkStarts := chunkStarts + {rest / PAGE_SIZE};
      starts := starts + {rest};
      SplitAll(old(mem), mem, matrix, flBitmap, slBitmap, lists, filed, old(starts), owned, flight, c, size);
      RecordedIncl(old(chunkStarts), old(starts), hidden, rest);
      assert hidden - {rest} == hidden;
      BookedWithin(old(mem), old(starts), filed, flight);
      SplitSizes(old(mem), mem, old(starts), filed, c, size);
    }

    /** Takes the unused chunk b out of the index: it is in flight from then on. */
    method Unfile(b: Addr, ghost flight: set<Addr>)
      requires Mid(flight, {}) && b in filed
      modifies this`mem, this`matrix, this`flBitmap, this`slBitmap, this`lists, this`filed
      ensures Mid(flight + {b}, {}) && filed == old(filed) - {b}
      ensures mem.Keys == old(mem.Keys) && SameHeaders(old(mem), mem, mem.Keys)
      ensures Total(mem, filed) + mem[b].size == old(Total(mem, filed))
      ensures Live() == old(Live()) && Free() == old(Free()) - {b}
    {
      hide Indexed, Tiles, CoverAll, Recorded, Booked, InUse, Total;
      FiledHeader(mem, matrix, flBitmap, slBitmap, lists, filed, starts, flight, b);
      TotalWithout(mem, filed, b);
      BookedFile(mem, starts, filed, flight, b);
      RemoveChunkFromMatrix(b);
      LinksOnly(old(mem), mem, starts, filed, owned, flight + {b});
      SizesFrame(old(mem), mem, filed);
      SizesWithout(old(mem), old(filed), b);
    }

    /** Files the unused chunk b, which was in flight. */
    method File(b: Addr, ghost flight: set<Addr>, ghost hidden: set<Addr>)
      requires Mid(flight, hidden) && b in flight && b in starts && b in mem && Unused(mem[b]) && mem[b].size <= MAX_BIG_CHUNK
      modifies this`mem, this`matrix, this`flBitmap, this`slBitmap, this`lists, this`filed
      ensures Mid(flight - {b}, hidden) && filed == old(filed) + {b} && b !in old(filed)
      ensures mem.Keys == old(mem.Keys) && SameHeaders(old(mem), mem, mem.Keys)
      ensures Total(mem, filed) == old(Total(mem, filed) + mem[b].size)
      ensures Live() == old(Live()) && Free() == old(Free()[b := mem[b].size])
    {
      hide Indexed, Tiles, CoverAll, Recorded, Booked, InUse, Total;
      FlightHeader(mem, starts, filed, flight, b);
      BookedFile(mem, starts, filed, flight, b);
      AddChunkToMatrix(b);
      TotalWithout(old(mem), old(filed) + {b}, b);
      assert old(filed) + {b} - {b} == old(filed);
      FiledMem(mem, matrix, flBitmap, slBitmap, lists, filed, starts);
      LinksOnly(old(mem), mem, starts, filed, owned, flight - {b});
      SizesFrame(old(mem), mem, filed);
      SizesWith(old(mem), old(filed), b);
    }

    /** The chunk b, which touches a from behind, becomes part of a. */
    method Merge(a: Addr, b: Addr)
      requires Mid({a, b}, {}) && a in starts && b in starts && a in mem && b in mem && Unused(mem[a]) && Unused(mem[b])
      requires a + mem[a].size == b
      modifies this`mem, this`chunkStarts, this`starts
      ensures Mid({a}, {}) && starts == old(starts) - {b} && a in starts && a in mem && Unused(mem[a])
      ensures mem[a].size == old(mem[a].size + mem[b].size)
      ensures Live() == old(Live()) && Total(mem, filed) == old(Total(mem, filed)) && Free() == old(Free())
    {
      hide Indexed, Tiles, CoverAll, Recorded, Booked, Unused, InUse, Total, Paged;
      UnusedNotSmall(mem, starts, a);
      UnusedNotSmall(mem, starts, b);
      mem := mem[a := mem[a].(size := mem[a].size + mem[b].size)];
      MergeAll(old(mem), mem, matrix, flBitmap, slBitmap, lists, filed, starts, owned, {a, b}, a, b);
      RecordedExcl(chunkStarts, starts, {}, b);
      chunkStarts := chunkStarts - {b / PAGE_SIZE};
      starts := starts - {b};
      assert {a, b} - {b} == {a};
      BookedWithin(old(mem), old(starts), filed, {a, b});
      SizesOther(old(mem), filed, a, mem[a]);
    }

    /** One of two chunks that touch is in flight and the other, f, is filed: b becomes
        part of a. */
    method Absorb(a: Addr, b: Addr, f: Addr)
      requires var c := if f == a then b else a;
               Mid({c}, {}) && f in {a, b} && f in filed && a != b && c in starts && c in mem && Unused(mem[c])
      requires a in mem && b in mem && a + mem[a].size == b
      modifies this`mem, this`matrix, this`flBitmap, this`slBitmap, this`lists, this`filed, this`chunkStarts, this`starts
      ensures Mid({a}, {}) && a in starts && a in mem && Unused(mem[a]) && mem[a].size == old(mem[a].size + mem[b].size)
      ensures Total(mem, filed) + mem[a].size == old(Total(mem, filed) + (if f == a then mem[b].size else mem[a].size))
      ensures Live() == old(Live()) && Free() == old(Free()) - {f}
    {
      hide Indexed, Tiles, CoverAll, Recorded, Booked, Unused, InUse, Total, Paged, SameHeaders, SizesOf;
      ghost var c := if f == a then b else a;
      FiledHeader(mem, matrix, flBitmap, slBitmap, lists, filed, starts, {c}, f);
      Unfile(f, {c});
      assert {c} + {f} == {a, b};
      SameUnused(old(mem), mem, a);
      SameUnused(old(mem), mem, b);
      Merge(a, b);
    }

    /** The first half of freeBigChunk: c is added to the unused chunk before it,
        where the recorded size leads to one. */
    method JoinLeft(c: Addr) returns (cur: Addr)
      requires Mid({c}, {}) && c in starts && c in mem && Unused(mem[c]) && mem[c].size <= MAX_BIG_CHUNK && mem[c].prevSize != 0
      modifies this`mem, this`matrix, this`flBitmap, this`slBitmap, this`lists, this`filed, this`chunkStarts, this`starts
      ensures Mid({cur}, {}) && cur in starts && cur in mem && Unused(mem[cur]) && mem[cur].size <= MAX_BIG_CHUNK
      ensures Total(mem, filed) + mem[cur].size == old(Total(mem, filed) + mem[c].size)
      ensures Live() == old(Live())
      ensures old(mem[c].prevSize) <= c && (cur, mem[cur].size, Free()) == WithLeft(old(Free()), c, old(mem[c].size), c - old(mem[c].prevSize))
    {
      hide Indexed, Tiles, CoverAll, Recorded, Booked, Unused, InUse, Total, Paged, SameHeaders, SplitAt, SizesOf, WithLeft;
      cur := c;
      LeftIs(mem, starts, chunkStarts, c);
      FlightHeader(mem, starts, filed, {c}, c);
      var le := c - mem[c].prevSize;
      NeighbourFree(mem, matrix, flBitmap, slBitmap, lists, filed, starts, c, le);
      LeftJoins(Free(), c, mem[c].size, le);
      if Accessible(le) && Unused(mem[le]) {
        if !IsSmall(mem[le]) && mem[le].size < MAX_BIG_CHUNK {
          UnusedFiled(mem, starts, filed, {c}, le);
          Absorb(le, c, le);
          cur := le;
          if MAX_BIG_CHUNK < mem[cur].size {
            MaxPaged();
            var rest := SplitChunk2(cur, MAX_BIG_CHUNK, {le}, {});
            ghost var m := mem;
            File(cur, {le} + {rest}, {});
            SameUnused(m, mem, rest);
            assert {le} + {rest} - {le} == {rest};
            cur := rest;
          }
        }
      }
    }

    /** The other half: the chunk behind c is added to it, if it is unused. */
    method JoinRight(c: Addr)
      requires Mid({c}, {}) && c in starts && c in mem && Unused(mem[c]) && mem[c].size <= MAX_BIG_CHUNK
      modifies this`mem, this`matrix, this`flBitmap, this`slBitmap, this`lists, this`filed, this`chunkStarts, this`starts
      ensures Mid({c}, {}) && c in starts && c in mem && Unused(mem[c]) && mem[c].size <= MAX_BIG_CHUNK
      ensures Total(mem, filed) + mem[c].size == old(Total(mem, filed) + mem[c].size)
      ensures Live() == old(Live())
      ensures c !in Free() && Free()[c := mem[c].size] == WithRight(old(Free()), c, old(mem[c].size))
    {
      hide Indexed, Tiles, CoverAll, Recorded, Booked, Unused, InUse, Total, Paged, SameHeaders, SplitAt, SizesOf, WithRight;
      UnusedNotSmall(mem, starts, c);
      FlightHeader(mem, starts, filed, {c}, c);
      NeighbourKnown(mem, starts, chunkStarts, {}, c);
      var ri := c + mem[c].size;
      NeighbourFree(mem, matrix, flBitmap, slBitmap, lists, filed, starts, c, ri);
      RightIs(Free(), c, mem[c].size);
      if Accessible(ri) && Unused(mem[ri]) {
        UnusedNotSmall(mem, starts, ri);
        if !IsSmall(mem[ri]) && mem[c].size < MAX_BIG_CHUNK {
          UnusedFiled(mem, starts, filed, {c}, ri);
          FiledHeader(mem, matrix, flBitmap, slBitmap, lists, filed, starts, {c}, ri);
          FiledSize(mem, matrix, flBitmap, slBitmap, lists, filed, ri);
          Absorb(c, ri, ri);
          if MAX_BIG_CHUNK < mem[c].size {
            MaxPaged();
            var rest := SplitChunk2(c, MAX_BIG_CHUNK, {c}, {});
            ghost var m := mem;
            File(rest, {c} + {rest}, {});
            SameUnused(m, mem, c);
            assert {c} + {rest} - {rest} == {c};
          }
        }
      }
    }

    /** The chunk becomes one with the unused chunks that it touches: with the one behind
        it, and with the one in front where the size recorded for that is right. */
    method FreeBigChunk(c: Addr)
      requires Valid() && c in Live() && Live()[c] > SMALL_MAX
      modifies this`mem, this`matrix, this`flBitmap, this`slBitmap, this`lists, this`filed, this`chunkStarts, this`starts, this`freeMem
      ensures Valid() && Live() == old(Live()) - {c}
      ensures freeMem == old(freeMem) + old(Live())[c]
      ensures c in old(mem) && Free() == Coalesced(old(Free()), c, old(Live())[c], old(PrevOf(mem[c])))
      ensures FreedWell(old(Free()), Free(), c, old(Live())[c], old(PrevOf(mem[c])))
    {
      hide Indexed, Tiles, CoverAll, Recorded, Booked, Total, Paged, SizesOf, WithLeft, WithRight, FreeShaped, ClearOf, FreedWell;
      assert Live()[c] == mem[c].size;
      UsedNotFree(mem, starts, filed, c);
      FreeIsShaped(mem, matrix, flBitmap, slBitmap, lists, filed, starts, c);
      Coalesces(Free(), c, mem[c].size, PrevOf(mem[c]));
      SizesOther(mem, filed, c, mem[c].(prevSize := PrevOf(mem[c])));
      freeMem := freeMem + mem[c].size;
      mem := mem[c := mem[c].(prevSize := PrevOf(mem[c]))];
      FreedAll(old(mem), mem, matrix, flBitmap, slBitmap, lists, filed, starts, owned, c);
      hide Unused, InUse, PrevOf;
      var cur := c;
      if mem[c].prevSize != 0 {
        cur := JoinLeft(c);
      }
      JoinRight(cur);
      File(cur, {cur}, {});
      assert {cur} - {cur} == {};
    }

    /** How much to ask the system for next. */
    method PlanChunkSize()
      requires Paged(nextChunkSize) && nextChunkSize <= MAX_BIG_CHUNK
      modifies this`nextChunkSize
      ensures Paged(nextChunkSize) && nextChunkSize <= MAX_BIG_CHUNK
      ensures blockChunkSizeIncrease ==> nextChunkSize == old(nextChunkSize)
      ensures !blockChunkSizeIncrease && occ < 65536 ==> nextChunkSize == FIRST_CHUNK
      ensures !blockChunkSizeIncrease && occ >= 65536 ==>
                && nextChunkSize <= 2 * old(nextChunkSize) && nextChunkSize < occ / 4 + PAGE_SIZE
                && (nextChunkSize == 2 * old(nextChunkSize) || nextChunkSize >= occ / 4 || nextChunkSize == MAX_BIG_CHUNK)
    {
      hide Paged, Roundup;
      PlanPaged(nextChunkSize);
      if !blockChunkSizeIncrease {
        if occ < 65536 {
          nextChunkSize := FIRST_CHUNK;
        } else {
          RoundedPaged(occ / 4);
          var grown := Roundup(occ / 4, PAGE_SIZE);
          nextChunkSize := if grown <= nextChunkSize * 2 then grown else nextChunkSize * 2;
          nextChunkSize := if nextChunkSize <= MAX_BIG_CHUNK then nextChunkSize else MAX_BIG_CHUNK;
        }
      }
    }

    /** Asks the system for nextChunkSize bytes, or for size bytes where that is more
        or where the larger request fails. */
    method AskSystem(size: nat, os: nat -> nat, refuse: bool) returns (result: nat, n: nat)
      requires size <= MAX_BIG_CHUNK && Paged(size) && Paged(nextChunkSize) && nextChunkSize <= MAX_BIG_CHUNK
      modifies this`nextChunkSize, this`blockChunkSizeIncrease
      ensures Paged(nextChunkSize) && nextChunkSize <= MAX_BIG_CHUNK
      ensures result == os(n) && size <= n <= MAX_BIG_CHUNK && Paged(n)
      ensures n == if nextChunkSize < size || refuse then size else nextChunkSize
      ensures blockChunkSizeIncrease <==> old(blockChunkSizeIncrease) || (nextChunkSize >= size && refuse)
      ensures !old(blockChunkSizeIncrease) && occ < 65536 ==> nextChunkSize == FIRST_CHUNK
      ensures !old(blockChunkSizeIncrease) && occ >= 65536 ==>
                nextChunkSize == 2 * old(nextChunkSize) || nextChunkSize >= occ / 4 || nextChunkSize == MAX_BIG_CHUNK
    {
      hide Paged;
      PlanChunkSize();
      n := size;
      if nextChunkSize < n {
        result := os(n);
      } else if refuse {
        result := os(n);
        blockChunkSizeIncrease := true;
      } else {
        result := os(nextChunkSize);
        n := nextChunkSize;
      }
    }

    /** The size of the chunk obtained last, if it ends where result starts, or zero. */
    method SizeBefore(result: Addr) returns (p: nat)
      requires Tiles(mem, starts) && Recorded(chunkStarts, starts, {}) && Paged(result) && Paged(lastSize)
      ensures Paged(p) && ChunkBefore(mem, starts, result, p)
      ensures var last := if lastSize != 0 then lastSize else PAGE_SIZE;
              p == if ChunkBefore(mem, starts, result, last) then last else 0
    {
      hide Tiles, Recorded, Paged;
      var last := if lastSize != 0 then lastSize else PAGE_SIZE;
      p := 0;
      ZeroPaged();
      if last <= result {
        LastPaged(result, lastSize, last);
        RecordedAt(chunkStarts, starts, {}, result - last);
        AllIn(mem, starts);
        if Accessible(result - last) && mem[result - last].size == last {
          p := last;
        }
      }
    }

    /** Writes the header of the new chunk [result, result + n) and of its neighbour. */
    method NewChunk(result: Addr, n: nat)
      requires Mid({}, {}) && PAGE_SIZE <= n && Paged(n) && FreshRegion(owned, result, n)
      modifies this`mem, this`starts, this`owned, this`lastSize
      ensures Mid({result}, {result}) && result in starts && result in mem && Unused(mem[result]) && mem[result].size == n
      ensures owned == old(owned) + Region(result, n) && lastSize == n
      ensures Total(mem, filed) == old(Total(mem, filed)) && Live() == old(Live()) && Free() == old(Free()) && result !in Free()
      ensures result + n in old(starts) ==> result + n in old(mem) && result + n in mem && mem[result + n].prevSize == n + old(mem[result + n].prevSize % 2)
    {
      hide Indexed, Tiles, CoverAll, Booked, Unused, InUse, Total, Paged, Region, FreshRegion, Recorded, ChunkBefore, Touched;
      RegionPaged(owned, result, n);
      RecordedAt(chunkStarts, starts, {}, result + n);
      NotNew(mem, starts, owned, result, n);
      var p := SizeBefore(result);
      mem := mem[result := BigChunk(0, n, NIL, NIL)];
      UpdatePrevSize(result, n);
      mem := mem[result := BigChunk(p, n, NIL, NIL)];
      GrowAll(old(mem), mem, matrix, flBitmap, slBitmap, lists, filed, starts, owned, result, n, p);
      BookedWithin(old(mem), starts, filed, {});
      AllIn(old(mem), starts);
      GrowSizes(old(mem), mem, filed, starts, result, n, p);
      GrowNeighbour(old(mem), mem, result, n, p, result + n in starts);
      RecordedHidden(chunkStarts, starts, result);
      lastSize, starts, owned := n, starts + {result}, owned + Region(result, n);
    }

    /** Gets memory from the system, at least size bytes; os gives the place of a
        region for every length, and refuse says that the larger request fails. */
    method RequestOsChunks(size: nat, os: nat -> nat, refuse: bool) returns (result: Addr)
      requires Mid({}, {}) && PAGE_SIZE <= size <= MAX_BIG_CHUNK && Paged(size)
      requires forall n: nat :: FreshRegion(owned, os(n), n)
      modifies this`mem, this`starts, this`owned, this`freeMem, this`currMem, this`lastSize, this`nextChunkSize, this`blockChunkSizeIncrease
      ensures Mid({result}, {result}) && result in starts && result in mem && Unused(mem[result])
      ensures size <= mem[result].size <= MAX_BIG_CHUNK && result == os(mem[result].size)
      ensures owned == old(owned) + Region(result, mem[result].size)
      ensures freeMem == old(freeMem) + mem[result].size && currMem == old(currMem) + mem[result].size
      ensures Total(mem, filed) == old(Total(mem, filed)) && Live() == old(Live()) && Free() == old(Free()) && result !in Free()
    {
      hide Indexed, Tiles, CoverAll, Booked, Unused, InUse, Total, Paged, Region, FreshRegion, Recorded, SizesOf;
      var n: nat;
      result, n := AskSystem(size, os, refuse);
      currMem, freeMem := currMem + n, freeMem + n;
      NewChunk(result, n);
    }

    /** Cuts the chunk c in flight at size and files what is behind. */
    method SplitChunk(c: Addr, size: nat, ghost hidden: set<Addr>)
      requires Mid({c}, hidden) && c in starts && hidden <= {c}
      requires c in mem && !IsSmall(mem[c]) && Unused(mem[c]) && 0 < size < mem[c].size <= MAX_BIG_CHUNK && Paged(size)
      modifies this`mem, this`matrix, this`flBitmap, this`slBitmap, this`lists, this`filed, this`chunkStarts, this`starts
      ensures Mid({c}, hidden) && c in starts && c in mem && Unused(mem[c]) && mem[c].size == size
      ensures Total(mem, filed) + size == old(Total(mem, filed) + mem[c].size)
      ensures Live() == old(Live()) && Free() == old(Free())[c + size := old(mem[c].size) - size]
    {
      hide Indexed, Tiles, CoverAll, Recorded, Booked, Unused, InUse, Total, Paged, SameHeaders, SplitAt, SizesOf;
      var rest := SplitChunk2(c, size, {c}, hidden);
      ghost var m := mem;
      File(rest, {c} + {rest}, hidden);
      SameUnused(m, mem, c);
      assert {c} + {rest} - {rest} == {c};
    }

    /** Takes the chunk b found for class d out of the index. */
    method Take(b: Addr, d: Class)
      requires Mid({}, {}) && d.Valid() && d in matrix && matrix[d] == b && b != NIL
      modifies this`mem, this`matrix, this`flBitmap, this`slBitmap, this`lists, this`filed
      ensures Mid({b}, {}) && b in starts && b in mem && b in old(mem) && Unused(mem[b]) && mem[b].size == old(mem)[b].size
      ensures mem[b].size <= MAX_BIG_CHUNK && Total(mem, filed) + mem[b].size == old(Total(mem, filed))
      ensures Live() == old(Live()) && Free() == old(Free()) - {b} && b in old(Free()) && old(Free())[b] == mem[b].size
    {
      hide Indexed, Tiles, CoverAll, Recorded, Booked, Unused, InUse, Total, Paged, SameHeaders;
      RemoveChunkFromMatrix2(b, d);
      FiledHeader(old(mem), old(matrix), old(flBitmap), old(slBitmap), old(lists), old(filed), starts, {}, b);
      FiledSize(old(mem), old(matrix), old(flBitmap), old(slBitmap), old(lists), old(filed), b);
      TotalWithout(old(mem), old(filed), b);
      BookedFile(old(mem), starts, old(filed), {}, b);
      assert {} + {b} == {b};
      LinksOnly(old(mem), mem, starts, filed, owned, {b});
      SameUnused(old(mem), mem, b);
      SizesFrame(old(mem), mem, filed);
      SizesWithout(old(mem), old(filed), b);
    }

    /** Marks the chunk in flight as in use and records where it starts. */
    method HandOut(result: Addr, size: nat, ghost hidden: set<Addr>)
      requires Mid({result}, hidden) && hidden <= {result} && result in starts && result in mem && Unused(mem[result])
      requires mem[result].size == size <= MAX_BIG_CHUNK && freeMem == Total(mem, filed) + size
      modifies this`mem, this`chunkStarts, this`freeMem
      ensures Valid() && result !in old(Live()) && Live() == old(Live())[result := size]
      ensures freeMem == old(freeMem) - size && Free() == old(Free())
    {
      hide Indexed, Tiles, CoverAll, Recorded, Booked, Unused, InUse, Total, Paged, SizesOf;
      BookedWithin(mem, starts, filed, {result});
      SizesOther(mem, filed, result, mem[result].(prevSize := 1));
      mem := mem[result := mem[result].(prevSize := 1)];
      UsedAll(old(mem), mem, matrix, flBitmap, slBitmap, lists, filed, starts, owned, result);
      StartPaged(old(mem), starts, result);
      RecordedIncl(chunkStarts, starts, hidden, result);
      assert starts + {result} == starts && hidden - {result} == {};
      chunkStarts := chunkStarts + {result / PAGE_SIZE};
      freeMem := freeMem - size;
    }

    /** A chunk of the rounded size: from the index if one there is large enough, and
        only otherwise from the system. */
    method GetBigChunk(size: nat, os: nat -> nat, refuse: bool) returns (result: Addr)
      requires Valid() && PAGE_SIZE - 15 <= size <= MAX_BIG_CHUNK
      requires forall n: nat :: FreshRegion(owned, os(n), n)
      modifies this
      ensures Valid() && result !in old(Live()) && Live() == old(Live())[result := SearchSize(size)]
      ensures freeMem == old(freeMem) + (currMem - old(currMem)) - SearchSize(size)
      ensures if LargeEnough(old(mem), old(filed), SearchSize(size))
              then currMem == old(currMem) && owned == old(owned)
              else currMem >= old(currMem) + SearchSize(size)
      ensures old(owned) <= owned && occ == old(occ)
      ensures LargeEnough(old(mem), old(filed), SearchSize(size)) ==>
                FitsWell(old(Free()), SearchSize(size), result) && Free() == HandedOut(old(Free()), result, SearchSize(size))
      ensures !LargeEnough(old(mem), old(filed), SearchSize(size)) ==>
                result !in old(Free()) && Free() == HandedOut(old(Free())[result := currMem - old(currMem)], result, SearchSize(size))
    {
      hide Indexed, Tiles, CoverAll, Recorded, Booked, Unused, InUse, Total, Paged, Region, FreshRegion, LargeEnough, SearchSize, MappingInsert, FirstFrom, NoneFrom, SizesOf, FitsWell, HandedOut;
      SearchFits(size);
      SearchPaged(size);
      var size2 := SearchSize(size);
      var d: Class;
      result, d := FindSuitableBlock(SearchClass(size));
      FoundOrNone(mem, matrix, flBitmap, slBitmap, lists, filed, size, d, result);
      if result == NIL {
        result := FromSystem(size2, os, refuse);
      } else {
        FoundWell(mem, matrix, flBitmap, slBitmap, lists, filed, size, d, result);
        FitsIn(Free(), size2, result);
        FromIndex(result, d, size2);
      }
    }

    method FromSystem(size: nat, os: nat -> nat, refuse: bool) returns (result: Addr)
      requires Valid() && PAGE_SIZE <= size <= MAX_BIG_CHUNK && Paged(size)
      requires forall n: nat :: FreshRegion(owned, os(n), n)
      modifies this
      ensures Valid() && result !in old(Live()) && Live() == old(Live())[result := size]
      ensures freeMem == old(freeMem) + (currMem - old(currMem)) - size && currMem >= old(currMem) + size && old(owned) <= owned && occ == old(occ)
      ensures result !in old(Free()) && Free() == HandedOut(old(Free())[result := currMem - old(currMem)], result, size)
    {
      hide Indexed, Tiles, CoverAll, Recorded, Booked, Unused, InUse, Total, Paged, Region, FreshRegion, SizesOf, HandedOut, MemRegion.Free, MemRegion.Index, Extent, IsSmall;
      PlanPaged(size);
      result := RequestOsChunks(if size < OS_CHUNK then OS_CHUNK else size, os, refuse);
      UnusedNotSmall(mem, starts, result);
      HandedNew(Free(), result, mem[result].size, size);
      if size < OS_CHUNK || size < mem[result].size {
        SplitChunk(result, size, {result});
      }
      HandOut(result, size, {result});
    }

    method FromIndex(result: Addr, d: Class, size: nat)
      requires Valid() && d.Valid() && d in matrix && matrix[d] == result && result != NIL
      requires result in Free() && Free()[result] >= size && size >= PAGE_SIZE && Paged(size)
      modifies this`mem, this`matrix, this`flBitmap, this`slBitmap, this`lists, this`filed, this`chunkStarts, this`starts, this`freeMem
      ensures Valid() && result !in old(Live()) && Live() == old(Live())[result := size] && freeMem == old(freeMem) - size
      ensures Free() == HandedOut(old(Free()), result, size)
    {
      hide Indexed, Tiles, CoverAll, Recorded, Booked, Unused, InUse, Total, Paged, SizesOf, HandedOut;
      HandedOld(Free(), result, size);
      Take(result, d);
      UnusedNotSmall(mem, starts, result);
      if size + PAGE_SIZE <= mem[result].size {
        SplitChunk(result, size, {});
      } else {
        PagedClose(size, mem[result].size);
      }
      HandOut(result, size, {});
    }

    /** A page in use begins to serve cells of size s, or ends to (s is then the page). */
    method SetCellSize(c: Addr, s: nat)
      requires Valid() && c in Live() && Span(Live()[c]) == PAGE_SIZE && (s <= SMALL_MAX || s == PAGE_SIZE)
      modifies this`mem
      ensures Valid() && Live() == old(Live())[c := s] && Free() == old(Free())
    {
      hide Indexed, Tiles, CoverAll, Recorded, Booked, Total, Paged, SizesOf;
      UsedNotFree(mem, starts, filed, c);
      SizesOther(mem, filed, c, mem[c].(size := s));
      mem := mem[c := mem[c].(size := s)];
      CellsAll(old(mem), mem, matrix, flBitmap, slBitmap, lists, filed, starts, owned, c, s);
    }

    /** Gives back a page that served cells. */
    method FreeSmallChunk(c: Addr)
      requires Valid() && c in Live() && Span(Live()[c]) == PAGE_SIZE
      modifies this`mem, this`matrix, this`flBitmap, this`slBitmap, this`lists, this`filed, this`chunkStarts, this`starts, this`freeMem
      ensures Valid() && Live() == old(Live()) - {c}
      ensures freeMem == old(freeMem) + PAGE_SIZE
      ensures exists prev: nat :: FreedWell(old(Free()), Free(), c, PAGE_SIZE, prev)
    {
      hide Indexed, Tiles, CoverAll, Recorded, Booked, Total, Paged, SizesOf, FreedWell;
      SetCellSize(c, PAGE_SIZE);
      FreeBigChunk(c);
    }

    /** The account of what is handed out, which steers how much is asked for next. */
    method AddOcc(delta: int)
      requires Valid()
      modifies this`occ
      ensures Valid() && Live() == old(Live()) && occ == old(occ) + delta && Free() == old(Free())
    {
      occ := occ + delta;
    }
  }
}
