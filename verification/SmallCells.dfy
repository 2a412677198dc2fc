/** The allocator as its clients see it: cells from pages of one size, larger blocks
    from the chunks, on top of one region. */
module SmallCells {
  import opened SizeClasses
  import opened FreeMatrix
  import opened ChunkTiles
  import opened ChunkBooks
  import opened ChunkAlloc
  import opened SmallPages
  import opened SmallSteps

  const BIG_HEADER := 48

  /** Every page that serves cells is a chunk in use, with the cell size in its
      header; every other chunk in use is a larger block. */
  ghost predicate Sited(pages: Pages, live: map<Addr, nat>) {
    && (forall q :: q in pages ==> q in live && live[q] == pages[q].size)
    && (forall c :: c in live && c !in pages ==> live[c] > SMALL_MAX)
  }

  ghost function BlocksOf(pages: Pages, live: map<Addr, nat>): map<Addr, nat> {
    map c | c in live && c !in pages :: live[c]
  }

  /** c is alone on the list of its class k, or not on any list. */
  ghost predicate AtMostHead(heads: seq<Addr>, c: Addr, k: nat) {
    k < |heads| && heads[k] in {NIL, c} && forall j :: 0 <= j < |heads| && j != k ==> heads[j] != c
  }

  lemma HeadsChange(pages: Pages, heads: seq<Addr>, but: Addr, c: Addr, pg: Page)
    requires RoomListed(pages, heads, but) && but in {NIL, c} && NIL !in pages
    ensures RoomListed(pages[c := pg], heads, c)
  {
  }

  lemma HeadOwn(pages: Pages, heads: seq<Addr>, c: Addr)
    requires Accounts(pages) && RoomListed(pages, heads, NIL) && c in pages && c != NIL
    requires var k := pages[c].size / MEM_ALIGN; k < CLASSES ==> heads[k] in {NIL, c}
    ensures pages[c].next == NIL && pages[c].prev == NIL
    ensures AtMostHead(heads, c, pages[c].size / MEM_ALIGN)
    ensures pages[c].free >= pages[c].size <==> heads[pages[c].size / MEM_ALIGN] == c
  {
    hide PageAddr, Multiple, Counted;
    assert ListedIff(pages[c], heads, c);
  }

  lemma HeadNew(pages: Pages, heads: seq<Addr>, c: Addr, k: nat)
    requires RoomListed(pages, heads, NIL) && c !in pages && c != NIL && k < CLASSES && heads[k] == NIL
    ensures AtMostHead(heads, c, k)
  {
  }

  // ------------------------------------------------------- the walk along a list

  ghost function Counts(pages: Pages, c: Addr, more: nat): Pages
    requires c in pages
  {
    pages[c := pages[c].(foreignCells := pages[c].foreignCells + more)]
  }

  /** The cells in front of it are counted. */
  ghost predicate Counting(pages0: Pages, pages: Pages, c: Addr, size: nat, list: seq<Addr>, it: seq<Addr>, total: nat) {
    && c in pages0 && |it| <= |list| && total == Times(size, |list| - |it|) && Foreign(c, it) <= Foreign(c, list)
    && pages == Counts(pages0, c, Foreign(c, list) - Foreign(c, it))
  }

  lemma CountsNext(pages: Pages, c: Addr, n: nat, total: nat)
    requires c in pages
    ensures var now := Counts(pages, c, n);
            && c in now && now[c] == pages[c].(foreignCells := pages[c].foreignCells + n)
            && now[c := now[c].(foreignCells := now[c].foreignCells + 1)] == Counts(pages, c, n + 1)
            && now[c := now[c].(free := now[c].free + total)]
               == pages[c := pages[c].(free := pages[c].free + total, foreignCells := pages[c].foreignCells + n)]
    ensures Counts(pages, c, 0) == pages
  {
    assert pages[c := pages[c]] == pages;
  }

  lemma CountStart(pages: Pages, c: Addr, size: nat)
    requires c in pages
    ensures var list := pages[c].freeList; Counting(pages, pages, c, size, list, list, 0)
  {
    hide Counts, Foreign, Times;
    CountsNext(pages, c, 0, 0);
    TimesNext(size, 0);
  }

  lemma CountStep(pages0: Pages, pages: Pages, c: Addr, size: nat, list: seq<Addr>, it: seq<Addr>, total: nat)
    requires Counting(pages0, pages, c, size, list, it, total) && it != []
    ensures c in pages
    ensures var pages' := if PageAddr(it[0]) == c then pages else pages[c := pages[c].(foreignCells := pages[c].foreignCells + 1)];
            Counting(pages0, pages', c, size, list, it[1..], total + size)
  {
    hide Counts, Foreign, Times, PageAddr;
    CountsNext(pages0, c, Foreign(c, list) - Foreign(c, it), 0);
    TimesNext(size, |list| - |it|);
    ForeignHead(c, it);
  }

  lemma CountEnd(pages0: Pages, pages: Pages, c: Addr, size: nat, list: seq<Addr>, total: nat)
    requires Counting(pages0, pages, c, size, list, [], total)
    ensures c in pages && total == Times(size, |list|)
    ensures pages[c := pages[c].(free := pages[c].free + total)]
         == pages0[c := pages0[c].(free := pages0[c].free + total, foreignCells := pages0[c].foreignCells + Foreign(c, list))]
  {
    hide Counts, Foreign, Times;
    ForeignNil(c);
    CountsNext(pages0, c, Foreign(c, list), total);
  }

  /** After a step on the page c its class has the right head again. */
  lemma HeadsSettle(pages: Pages, heads: seq<Addr>, c: Addr)
    requires RoomListed(pages, heads, c) && c in pages && NIL !in pages && AtMostHead(heads, c, pages[c].size / MEM_ALIGN)
    requires pages[c].next == NIL && pages[c].prev == NIL
    ensures pages[c].size / MEM_ALIGN < CLASSES
    ensures RoomListed(pages, heads[pages[c].size / MEM_ALIGN := if pages[c].free >= pages[c].size then c else NIL], NIL)
  {
    var k := pages[c].size / MEM_ALIGN;
    var heads' := heads[k := if pages[c].free >= pages[c].size then c else NIL];
    forall q | q in pages ensures ListedIff(pages[q], heads', q) {
      if q != c { assert ListedIff(pages[q], heads, q); }
    }
  }

  lemma HeadsDropped(pages: Pages, heads: seq<Addr>, c: Addr)
    requires RoomListed(pages, heads, c) && c in pages && NIL !in pages && AtMostHead(heads, c, pages[c].size / MEM_ALIGN)
    ensures pages[c].size / MEM_ALIGN < CLASSES && |heads| == CLASSES
    ensures RoomListed(pages - {c}, heads[pages[c].size / MEM_ALIGN := NIL], NIL)
  {
    var k := pages[c].size / MEM_ALIGN;
    var heads', pages' := heads[k := NIL], pages - {c};
    forall q | q in pages' ensures ListedIff(pages'[q], heads', q) {
      assert ListedIff(pages[q], heads, q);
    }
  }

  lemma NilNoPage(pages: Pages)
    requires Accounts(pages)
    ensures NIL !in pages
    ensures forall q :: q in pages ==> 0 < pages[q].size <= CELL_SPACE && pages[q].size / MEM_ALIGN < CLASSES && PageAddr(q) == q
  {
    hide Multiple, PageAddr, Counted;
    forall q | q in pages
      ensures q != NIL && 0 < pages[q].size <= CELL_SPACE && pages[q].size / MEM_ALIGN < CLASSES && PageAddr(q) == q
    {
      assert PageShaped(q, pages[q]);
    }
  }

  function NextCell(q: Addr, pg: Page): Addr { if pg.freeList == [] then q + DATA + pg.acc else pg.freeList[0] }

  function RestList(pg: Page): seq<Addr> { if pg.freeList == [] then [] else pg.freeList[1..] }

  ghost predicate NoRoom(pages: Pages, size: nat) { forall q :: q in pages && pages[q].size == size ==> pages[q].free < size }

  /** Where a cell comes from: the next one of the page that heads the list of the class,
      or the first one of a new page. A page left with an empty list takes over what
      other threads have freed. */
  ghost predicate CellFrom(pages: Pages, head: Addr, shared: seq<Addr>, result: Addr, pages': Pages, shared': seq<Addr>) {
    if head == NIL then
      && result >= DATA && result - DATA !in pages && pages'.Keys == pages.Keys + {result - DATA}
      && pages'[result - DATA].freeList == shared && shared' == []
    else
      && head in pages && result == NextCell(head, pages[head]) && pages'.Keys == pages.Keys
      && if RestList(pages[head]) == [] then pages'[head].freeList == shared && shared' == []
         else pages'[head].freeList == RestList(pages[head]) && shared' == shared
  }

  function Refilled(pg: Page, p: Addr, foreign: nat): Page {
    pg.(freeList := [p] + pg.freeList, free := pg.free + pg.size, foreignCells := pg.foreignCells + foreign)
  }

  /** The cell p goes back to its own page c. If that had room already and is idle now,
      its memory is given back. */
  ghost predicate OwnBack(pages: Pages, c: Addr, p: Addr, pages': Pages, given: int)
    requires c in pages
  {
    var pg := Refilled(pages[c], p, 0);
    if pages[c].free >= pages[c].size && Idle(c, pg) then pages' == pages - {c} && given == PAGE_SIZE
    else pages' == pages[c := pg] && given == 0
  }

  /** The cell p goes to the page that heads the list of its class, as a foreign cell, or
      to its own if that is the one or there is none. */
  ghost predicate CellBack(pages: Pages, heads: seq<Addr>, p: Addr, pages': Pages, given: int)
    requires PageAddr(p) in pages
  {
    var c := PageAddr(p);
    var k := pages[c].size / MEM_ALIGN;
    && k < |heads|
    && if heads[k] in {NIL, c} then OwnBack(pages, c, p, pages', given)
       else heads[k] in pages && pages' == pages[heads[k] := Refilled(pages[heads[k]], p, 1)] && given == 0
  }

  class Allocator {
    const region: MemRegion
    var pages: Pages
    var freeSmallChunks: seq<Addr>
    var sharedFreeLists: seq<seq<Addr>>
    ghost var places: Places

    constructor ()
      ensures Valid() && Live() == map[] && Blocks() == map[] && fresh(region) && Debt() == 0
    {
      hide Cells, RoomListed, LiveCells;
      region := new MemRegion();
      pages, freeSmallChunks, sharedFreeLists := map[], seq(CLASSES, _ => NIL), seq(CLASSES, _ => []);
      places := map[];
      new;
      assert Charged(pages, places) == map[];
      NothingCarved(freeSmallChunks, sharedFreeLists);
    }

    ghost predicate Inner(but: Addr)
      reads this, region
    {
      && region.Valid() && Sited(pages, region.Live())
      && Cells(pages, sharedFreeLists, places) && RoomListed(pages, freeSmallChunks, but)
    }

    ghost predicate Valid()
      reads this, region
    {
      Inner(NIL)
    }

    /** The cells handed out, with their sizes. */
    ghost function Live(): map<Addr, nat>
      reads this
    {
      LiveCells(pages, places)
    }

    /** The larger blocks handed out, with the sizes of their chunks. */
    ghost function Blocks(): map<Addr, nat>
      reads this, region
    {
      BlocksOf(pages, region.Live())
    }

    /** What the account of the region says too much: nothing, between two operations. */
    ghost function Debt(): int
      reads this, region
    {
      region.occ - Sum(Charged(pages, places)) - Sum(Blocks())
    }

    /** Puts c in front of the list of class k. */
    method ListAdd(k: nat, c: Addr)
      requires k < |freeSmallChunks| && c in pages && (freeSmallChunks[k] != NIL ==> freeSmallChunks[k] in pages)
      modifies this`pages, this`freeSmallChunks
      ensures freeSmallChunks == old(freeSmallChunks)[k := c]
      ensures old(freeSmallChunks)[k] == NIL ==> pages == old(pages)[c := old(pages)[c].(next := NIL)]
    {
      pages := pages[c := pages[c].(next := freeSmallChunks[k])];
      if freeSmallChunks[k] != NIL {
        var h := freeSmallChunks[k];
        pages := pages[h := pages[h].(prev := c)];
      }
      freeSmallChunks := freeSmallChunks[k := c];
    }

    /** Takes c out of the list of class k. */
    method ListRemove(k: nat, c: Addr)
      requires k < |freeSmallChunks| && c in pages && (pages[c].next != NIL ==> pages[c].next in pages)
      requires c == freeSmallChunks[k] || pages[c].prev in pages
      modifies this`pages, this`freeSmallChunks
      ensures old(freeSmallChunks)[k] == c && old(pages)[c].next == NIL ==>
                pages == old(pages)[c := old(pages)[c].(next := NIL, prev := NIL)] && freeSmallChunks == old(freeSmallChunks)[k := NIL]
    {
      if c == freeSmallChunks[k] {
        freeSmallChunks := freeSmallChunks[k := pages[c].next];
        if freeSmallChunks[k] != NIL {
          var h := freeSmallChunks[k];
          pages := pages[h := pages[h].(prev := NIL)];
        }
      } else {
        var b := pages[c].prev;
        pages := pages[b := pages[b].(next := pages[c].next)];
        if pages[c].next != NIL {
          var n := pages[c].next;
          pages := pages[n := pages[n].(prev := pages[c].prev)];
        }
      }
      pages := pages[c := pages[c].(next := NIL, prev := NIL)];
    }

    /** Counts the cells that have come to the list of c from the shared list. */
    method CompensateCounters(c: Addr, size: nat)
      requires c in pages
      requires region.Valid()
      modifies this`pages, region`occ
      ensures region.Valid() && region.Live() == old(region.Live()) && region.Free() == old(region.Free()) && c in old(pages)
      ensures var pg := old(pages)[c];
              pages == old(pages)[c := pg.(free := pg.free + Times(size, |pg.freeList|), foreignCells := pg.foreignCells + Foreign(c, pg.freeList))]
      ensures region.occ == old(region.occ) - Times(size, |old(pages)[c].freeList|)
    {
      var it := pages[c].freeList;
      var total: nat := 0;
      hide MemRegion.Valid, MemRegion.Live, Times, Foreign, PageAddr, Counts, Counting;
      ghost var pages0, list := pages, it;
      CountStart(pages, c, size);
      while it != []
        modifies this`pages
        invariant Counting(pages0, pages, c, size, list, it, total)
        decreases |it|
      {
        CountStep(pages0, pages, c, size, list, it, total);
        total := total + size;
        var chunk := PageAddr(it[0]);
        if c != chunk {
          pages := pages[c := pages[c].(foreignCells := pages[c].foreignCells + 1)];
        }
        it := it[1..];
      }
      CountEnd(pages0, pages, c, size, list, total);
      pages := pages[c := pages[c].(free := pages[c].free + total)];
      region.AddOcc(0 - (total as int));
    }

    /** An empty list is replaced by the shared list of the class. */
    method FetchShared(c: Addr, k: nat)
      requires Inner(c) && c in pages && k == pages[c].size / MEM_ALIGN && k < CLASSES
      modifies this`pages, this`sharedFreeLists, this`places, region`occ
      ensures Inner(c) && pages.Keys == old(pages.Keys) && c in pages
      ensures pages[c].size == old(pages[c].size) && pages[c].next == old(pages[c].next) && pages[c].prev == old(pages[c].prev)
      ensures Live() == old(Live()) && Blocks() == old(Blocks()) && Debt() == old(Debt()) && region.Free() == old(region.Free())
      ensures k < |old(sharedFreeLists)| && if old(pages[c].freeList) != []
              then pages == old(pages) && sharedFreeLists == old(sharedFreeLists)
              else pages[c].freeList == old(sharedFreeLists)[k] && pages[c].acc == old(pages[c].acc) && sharedFreeLists == old(sharedFreeLists)[k := []]
    {
      hide MemRegion.Valid, MemRegion.Live, Cells, RoomListed, LiveCells, Foreign, Times, Moved, PageAddr, Charged, Sum;
      SharedLength(pages, sharedFreeLists, places);
      if pages[c].freeList == [] {
        ghost var s := sharedFreeLists[k];
        pages := pages[c := pages[c].(freeList := sharedFreeLists[k])];
        sharedFreeLists := sharedFreeLists[k := []];
        CompensateCounters(c, pages[c].size);
        DrainStep(old(pages), old(sharedFreeLists), places, c, k, pages[c]);
        NilNoPage2(old(pages), old(sharedFreeLists), places);
        HeadsChange(old(pages), freeSmallChunks, c, c, pages[c]);
        assert pages == old(pages)[c := pages[c]];
        DrainDebt(old(pages), old(sharedFreeLists), places, c, k, pages[c]);
        places := Moved(places, s, c);
      }
    }

    /** The first cell of a new page. */
    method NewPage(size: nat, k: nat, os: nat -> nat, refuse: bool) returns (c: Addr)
      requires Valid() && 0 < size <= CELL_SPACE && Multiple(size, MEM_ALIGN) && k == size / MEM_ALIGN < CLASSES
      requires |freeSmallChunks| == CLASSES && freeSmallChunks[k] == NIL
      requires forall n: nat :: FreshRegion(region.owned, os(n), n)
      modifies this, region
      ensures Valid() && Blocks() == old(Blocks())
      ensures c + DATA !in old(Live()) && Live() == old(Live())[c + DATA := size]
      ensures c !in old(pages) && pages.Keys == old(pages.Keys) + {c} && Debt() == old(Debt()) - size
      ensures region.freeMem == old(region.freeMem) + (region.currMem - old(region.currMem)) - PAGE_SIZE
      ensures k < |old(sharedFreeLists)| && sharedFreeLists == old(sharedFreeLists)[k := []] && pages[c].freeList == old(sharedFreeLists)[k]
    {
      hide MemRegion.Valid, MemRegion.Live, Cells, RoomListed, LiveCells, Multiple, BlocksOf, FreshRegion, AtMostHead, Charged, Sum, MemRegion.Free;
      c := StartPage(size, k, os, refuse);
      FetchShared(c, k);
      FileRoom(c, k, size);
    }

    /** A new page with its first cell carved; it is on no list yet. */
    method StartPage(size: nat, k: nat, os: nat -> nat, refuse: bool) returns (c: Addr)
      requires Valid() && 0 < size <= CELL_SPACE && Multiple(size, MEM_ALIGN) && k == size / MEM_ALIGN < CLASSES
      requires |freeSmallChunks| == CLASSES && freeSmallChunks[k] == NIL
      requires forall n: nat :: FreshRegion(region.owned, os(n), n)
      modifies this`pages, this`places, region
      ensures Inner(c) && Blocks() == old(Blocks()) && AtMostHead(freeSmallChunks, c, k)
      ensures c + DATA !in old(Live()) && Live() == old(Live())[c + DATA := size]
      ensures c !in old(pages) && pages == old(pages)[c := Page(size, size, CELL_SPACE - size, 0, [], NIL, NIL)]
      ensures Debt() == old(Debt()) - size
      ensures region.freeMem == old(region.freeMem) + (region.currMem - old(region.currMem)) - PAGE_SIZE
    {
      hide MemRegion.Valid, MemRegion.Live, Cells, RoomListed, LiveCells, Multiple, PageAddr, BlocksOf, FreshRegion, AtMostHead, SearchSize, PageShaped, Charged, Sum, HandedOut, FitsWell, LargeEnough, MemRegion.Free;
      PageRequest();
      c := region.GetBigChunk(PAGE_SIZE, os, refuse);
      region.SetCellSize(c, size);
      LiveStart(region, c);
      NilNoPage2(pages, sharedFreeLists, places);
      pages := pages[c := Page(size, size, CELL_SPACE - size, 0, [], NIL, NIL)];
      NewPageShaped(c, pages[c]);
      SitedNew(old(pages), old(region.Live()), c, pages[c]);
      NewPageStep(old(pages), sharedFreeLists, places, c, pages[c]);
      NotLiveYet(places, old(pages), c + DATA);
      PageAddrIs(c, c + DATA);
      NewDebt(old(pages), sharedFreeLists, places, c, pages[c], c + DATA);
      places := places[c + DATA := Place.Live];
      HeadNew(old(pages), freeSmallChunks, c, k);
      HeadsChange(old(pages), freeSmallChunks, NIL, c, pages[c]);
    }

    /** A page with room for a cell goes on the list of its class. */
    method FileRoom(c: Addr, k: nat, size: nat)
      requires Inner(c) && c in pages && AtMostHead(freeSmallChunks, c, k) && k == size / MEM_ALIGN < CLASSES
      requires |freeSmallChunks| == CLASSES && freeSmallChunks[k] == NIL
      requires pages[c].size == size && pages[c].next == pages[c].prev == NIL
      modifies this`pages, this`freeSmallChunks
      ensures Valid() && Blocks() == old(Blocks()) && Live() == old(Live()) && pages == old(pages)
    {
      hide MemRegion.Valid, MemRegion.Live, Cells, RoomListed, LiveCells, BlocksOf, AtMostHead;
      NilNoPage2(pages, sharedFreeLists, places);
      HeadsSettle(pages, freeSmallChunks, c);
      ghost var was := pages;
      AtMostEither(freeSmallChunks, c, k);
      if size <= pages[c].free {
        ListAdd(k, c);
      }
      assert pages == was;
    }

    /** A cell from the list of c, or the next one carved from c. */
    method Carve(c: Addr, k: nat, size: nat) returns (result: Addr)
      requires Valid() && k < |freeSmallChunks| && freeSmallChunks[k] == c != NIL && k == size / MEM_ALIGN && Multiple(size, MEM_ALIGN)
      modifies this`pages, this`places
      ensures Inner(c) && c in pages && AtMostHead(freeSmallChunks, c, k) && k < CLASSES
      ensures pages[c].size == size && pages[c].next == pages[c].prev == NIL
      ensures Blocks() == old(Blocks()) && result !in old(Live()) && Live() == old(Live())[result := size]
      ensures c in old(pages) && pages.Keys == old(pages.Keys) && Debt() == old(Debt()) - size
      ensures result == NextCell(c, old(pages)[c]) && pages[c].freeList == RestList(old(pages)[c])
    {
      hide MemRegion.Valid, MemRegion.Live, Cells, RoomListed, LiveCells, Multiple, PageAddr, BlocksOf, AtMostHead, Charged, Sum;
      NilNoPage2(pages, sharedFreeLists, places);
      HeadsLength(pages, freeSmallChunks, NIL);
      HeadPage(pages, sharedFreeLists, places, freeSmallChunks, k, size);
      var pg := pages[c];
      if pg.freeList == [] {
        result := c + DATA + pg.acc;
        pg := pg.(acc := pg.acc + size);
      } else {
        result := pg.freeList[0];
        pg := pg.(freeList := pg.freeList[1..]);
        if PageAddr(result) != c {
          pg := pg.(foreignCells := pg.foreignCells - 1);
        }
      }
      pg := pg.(free := pg.free - size);
      CarveStep(pages, sharedFreeLists, places, c, pg, result);
      HeadsChange(pages, freeSmallChunks, NIL, c, pg);
      SitedKept(pages, region.Live(), c, pg);
      CarveDebt(pages, sharedFreeLists, places, c, pg, result);
      pages := pages[c := pg];
      places := places[result := Place.Live];
    }

    /** Refills the list of c from the shared list, and takes c off the list of its
        class when there is no room left for a cell. */
    method Refill(c: Addr, k: nat, size: nat)
      requires Inner(c) && c in pages && AtMostHead(freeSmallChunks, c, k) && k == size / MEM_ALIGN < CLASSES && k < |freeSmallChunks|
      requires freeSmallChunks[k] == c && pages[c].size == size && pages[c].next == pages[c].prev == NIL
      modifies this, region`occ
      ensures Valid() && Blocks() == old(Blocks()) && Live() == old(Live())
      ensures pages.Keys == old(pages.Keys) && Debt() == old(Debt()) && region.Free() == old(region.Free())
      ensures k < |old(sharedFreeLists)| && if old(pages[c].freeList) != []
              then sharedFreeLists == old(sharedFreeLists) && pages[c].freeList == old(pages[c].freeList)
              else pages[c].freeList == old(sharedFreeLists)[k] && sharedFreeLists == old(sharedFreeLists)[k := []]
    {
      hide MemRegion.Valid, MemRegion.Live, Cells, RoomListed, LiveCells, Multiple, PageAddr, BlocksOf, AtMostHead, Charged, Sum;
      FetchShared(c, k);
      NilNoPage2(pages, sharedFreeLists, places);
      HeadsSettle(pages, freeSmallChunks, c);
      ghost var before, heads := pages, freeSmallChunks;
      if pages[c].free < size {
        ListRemove(k, c);
        assert pages == before;
      } else {
        assert heads[k := c] == heads;
      }
    }

    /** A cell of size bytes, from the page that heads the list of its class, or from
        a new page. */
    method AllocCell(size: nat, os: nat -> nat, refuse: bool) returns (result: Addr)
      requires Valid() && 0 < size <= CELL_SPACE && Multiple(size, MEM_ALIGN)
      requires forall n: nat :: FreshRegion(region.owned, os(n), n)
      modifies this, region
      ensures Valid() && Blocks() == old(Blocks())
      ensures result !in old(Live()) && Live() == old(Live())[result := size] && Debt() == old(Debt()) - size
      ensures var k := size / MEM_ALIGN;
              && k < |old(freeSmallChunks)| && k < |old(sharedFreeLists)|
              && (old(freeSmallChunks)[k] != NIL ==> region.Free() == old(region.Free()) && region.freeMem == old(region.freeMem))
              && CellFrom(old(pages), old(freeSmallChunks)[k], old(sharedFreeLists)[k], result, pages, sharedFreeLists[k])
              && sharedFreeLists == old(sharedFreeLists)[k := sharedFreeLists[k]]
              && (old(freeSmallChunks)[k] == NIL <==> NoRoom(old(pages), size))
    {
      hide MemRegion.Valid, MemRegion.Live, Cells, RoomListed, LiveCells, Multiple, PageAddr, BlocksOf, FreshRegion, Charged, Sum, MemRegion.Free, CellFrom, NoRoom, NextCell, RestList;
      SharedLength(pages, sharedFreeLists, places);
      HeadKnown(pages, sharedFreeLists, places, freeSmallChunks, size);
      NilNoPage2(pages, sharedFreeLists, places);
      HeadsLength(pages, freeSmallChunks, NIL);
      var k := size / MEM_ALIGN;
      var c := freeSmallChunks[k];
      if c == NIL {
        c := NewPage(size, k, os, refuse);
        result := c + DATA;
        FromNew(old(pages), old(sharedFreeLists)[k], c, pages);
      } else {
        result := Carve(c, k, size);
        ghost var was := pages[c].freeList;
        Refill(c, k, size);
        FromHead(old(pages), c, old(sharedFreeLists), k, result, was, pages, sharedFreeLists);
      }
    }

    /** The allocator's entry point, for every request that is not huge. */
    method RawAlloc(requestedSize: nat, os: nat -> nat, refuse: bool) returns (result: Addr)
      requires Valid() && 0 < requestedSize <= MAX_BIG_CHUNK - BIG_HEADER
      requires forall n: nat :: FreshRegion(region.owned, os(n), n)
      modifies this, region
      ensures Valid()
      ensures requestedSize <= CELL_SPACE ==>
                && Blocks() == old(Blocks())
                && result !in old(Live()) && Live() == old(Live())[result := Roundup(requestedSize, MEM_ALIGN)]
      ensures Debt() == old(Debt())
      ensures requestedSize <= CELL_SPACE ==>
                var k := Roundup(requestedSize, MEM_ALIGN) / MEM_ALIGN;
                && k < |old(freeSmallChunks)| && k < |old(sharedFreeLists)|
                && (old(freeSmallChunks)[k] == NIL <==> NoRoom(old(pages), Roundup(requestedSize, MEM_ALIGN)))
                && (old(freeSmallChunks)[k] != NIL ==> region.Free() == old(region.Free()) && region.freeMem == old(region.freeMem))
                && CellFrom(old(pages), old(freeSmallChunks)[k], old(sharedFreeLists)[k], result, pages, sharedFreeLists[k])
      ensures requestedSize > CELL_SPACE ==> pages == old(pages) && sharedFreeLists == old(sharedFreeLists)
      ensures requestedSize > CELL_SPACE ==>
                && Live() == old(Live()) && result >= BIG_HEADER && result - BIG_HEADER !in old(Blocks())
                && Blocks() == old(Blocks())[result - BIG_HEADER := SearchSize(requestedSize + BIG_HEADER)]
    {
      hide MemRegion.Valid, MemRegion.Live, Cells, RoomListed, LiveCells, Multiple, PageAddr, BlocksOf, FreshRegion, Roundup, SearchSize, Charged, Sum, CellFrom, NoRoom, MemRegion.Free;
      RoundedCell(requestedSize);
      var size := Roundup(requestedSize, MEM_ALIGN);
      if size <= CELL_SPACE {
        result := AllocCell(size, os, refuse);
        region.AddOcc(size);
      } else {
        result := AllocBlock(requestedSize + BIG_HEADER, os, refuse);
      }
    }

    /** A larger block of n bytes with its header. */
    method AllocBlock(n: nat, os: nat -> nat, refuse: bool) returns (result: Addr)
      requires Valid() && CELL_SPACE + BIG_HEADER < n <= MAX_BIG_CHUNK
      requires forall n: nat :: FreshRegion(region.owned, os(n), n)
      modifies region
      ensures Valid() && Debt() == old(Debt()) && result >= BIG_HEADER && result - BIG_HEADER !in old(Blocks())
      ensures Blocks() == old(Blocks())[result - BIG_HEADER := SearchSize(n)]
    {
      hide MemRegion.Valid, MemRegion.Live, Cells, RoomListed, BlocksOf, FreshRegion, SearchSize, Charged, Sum, MemRegion.Free, HandedOut, FitsWell, LargeEnough;
      var c := region.GetBigChunk(n, os, refuse);
      SearchFits(n);
      SitedBlock(pages, old(region.Live()), c, SearchSize(n));
      SumWith(old(Blocks()), c, SearchSize(n));
      HeaderSize(region, c);
      result := c + BIG_HEADER;
      region.AddOcc(region.mem[c].size);
    }

    /** Frees a cell or block of this region, called by the thread that owns it. */
    method RawDealloc(p: Addr)
      requires Valid() && (p in Live() || (p >= BIG_HEADER && p - BIG_HEADER in Blocks()))
      modifies this, region
      ensures Valid()
      ensures if old(p in Live())
              then Live() == old(Live()) - {p} && Blocks() == old(Blocks())
              else Live() == old(Live()) && Blocks() == old(Blocks()) - {p - BIG_HEADER}
      ensures Debt() == old(Debt()) && sharedFreeLists == old(sharedFreeLists)
      ensures if old(p in Live())
              then PageAddr(p) in old(pages)
                   && CellBack(old(pages), old(freeSmallChunks), p, pages, region.freeMem - old(region.freeMem))
              else pages == old(pages) && p >= BIG_HEADER && p - BIG_HEADER in old(Blocks())
                   && region.freeMem == old(region.freeMem) + old(Blocks())[p - BIG_HEADER]
    {
      hide MemRegion.Valid, MemRegion.Live, Cells, RoomListed, LiveCells, Multiple, PageAddr, BlocksOf, Charged, Sum, CellBack, MemRegion.Free, FreedWell, Coalesced;
      var c := PageAddr(p);
      WhereFreed(pages, sharedFreeLists, places, region, p);
      if region.mem[c].size <= SMALL_MAX {
        FreeCell(c, p);
      } else {
        region.AddOcc(0 - (region.mem[c].size as int));
        SitedFreed(pages, region.Live(), c);
        SumWithout(Blocks(), c);
        BlockIs(pages, region.Live(), c);
        region.FreeBigChunk(c);
      }
    }

    /** The cell p goes to the active page of its class, or back to its own page c,
        which becomes active again or, when it is full, is given back. */
    method FreeCell(c: Addr, p: Addr)
      requires Valid() && p in Live() && c == PageAddr(p) && c in pages
      modifies this, region
      ensures Valid() && Live() == old(Live()) - {p} && Blocks() == old(Blocks())
      ensures Debt() == old(Debt()) && sharedFreeLists == old(sharedFreeLists)
      ensures CellBack(old(pages), old(freeSmallChunks), p, pages, region.freeMem - old(region.freeMem))
    {
      hide MemRegion.Valid, MemRegion.Live, Cells, RoomListed, LiveCells, Multiple, PageAddr, BlocksOf, AtMostHead, Charged, Sum, Idle, MemRegion.Free;
      NilNoPage(pages) by { Unfold(pages, sharedFreeLists, places); }
      HeadsLength(pages, freeSmallChunks, NIL);
      var s := pages[c].size;
      var k := s / MEM_ALIGN;
      region.AddOcc(0 - (s as int));
      var activeChunk := freeSmallChunks[k];
      FreedCell(pages, sharedFreeLists, places, freeSmallChunks, p);
      if activeChunk != NIL && c != activeChunk {
        var pg := pages[activeChunk];
        pg := pg.(freeList := [p] + pg.freeList, free := pg.free + s, foreignCells := pg.foreignCells + 1);
        PushStep(pages, sharedFreeLists, places, activeChunk, pg, p);
        HeadsChange(pages, freeSmallChunks, NIL, activeChunk, pg);
        SitedKept(pages, region.Live(), activeChunk, pg);
        PageSizes(pages, places, activeChunk, pg);
        ChargeLess(pages, pages[activeChunk := pg], places, p, activeChunk);
        pages, places := pages[activeChunk := pg], places[p := On(activeChunk)];
        HeadsSettle(pages, freeSmallChunks, activeChunk);
        AtMostEither(freeSmallChunks, activeChunk, k);
      } else {
        GiveBack(c, p, k, s);
      }
    }

    method GiveBack(c: Addr, p: Addr, k: nat, s: nat)
      requires Valid() && p in Live() && c == PageAddr(p) && c in pages && s == pages[c].size && k == s / MEM_ALIGN < CLASSES
      requires k < |freeSmallChunks| && freeSmallChunks[k] in {NIL, c} && c != NIL
      modifies this, region
      ensures Valid() && Live() == old(Live()) - {p} && Blocks() == old(Blocks())
      ensures Debt() == old(Debt()) + s && sharedFreeLists == old(sharedFreeLists)
      ensures OwnBack(old(pages), c, p, pages, region.freeMem - old(region.freeMem))
    {
      hide MemRegion.Valid, MemRegion.Live, Cells, RoomListed, LiveCells, Multiple, PageAddr, BlocksOf, AtMostHead, Charged, Sum, Idle, MemRegion.Free, FreedWell;
      HeadsLength(pages, freeSmallChunks, NIL);
      OwnPageFreed(pages, sharedFreeLists, places, freeSmallChunks, c, p);
      var free := pages[c].free;
      var pg := pages[c].(freeList := [p] + pages[c].freeList, free := pages[c].free + s);
      PushStep(pages, sharedFreeLists, places, c, pg, p);
      HeadsChange(pages, freeSmallChunks, NIL, c, pg);
      SitedKept(pages, region.Live(), c, pg);
      PageSizes(pages, places, c, pg);
      ChargeLess(pages, pages[c := pg], places, p, c);
      pages, places := pages[c := pg], places[p := On(c)];
      IdleAt(pages, sharedFreeLists, places, c);
      NilNoPage2(pages, sharedFreeLists, places);
      HeadsSettle(pages, freeSmallChunks, c);
      ghost var was, heads := pages, freeSmallChunks;
      if free < s {
        ListAdd(k, c);
        assert pages == was;
      } else if pages[c].free == CELL_SPACE && pages[c].foreignCells == 0 {
        HeadsDropped(pages, freeSmallChunks, c);
        ListRemove(k, c);
        assert pages == was;
        DropPage(c);
      } else {
        assert heads[k := c] == heads;
      }
    }

    /** The memory of an idle page is given back. */
    method DropPage(c: Addr)
      requires region.Valid() && Sited(pages, region.Live()) && Cells(pages, sharedFreeLists, places) && c in pages && Idle(c, pages[c])
      requires pages[c].size <= CELL_SPACE && pages[c].free == CELL_SPACE && pages[c].foreignCells == 0
      modifies this`pages, this`places, region
      ensures region.Valid() && Sited(pages, region.Live()) && Cells(pages, sharedFreeLists, places) && pages == old(pages) - {c}
      ensures Live() == old(Live()) && Blocks() == old(Blocks()) && Debt() == old(Debt()) && region.freeMem == old(region.freeMem) + PAGE_SIZE
    {
      hide MemRegion.Valid, MemRegion.Live, Cells, LiveCells, PageAddr, BlocksOf, Charged, Sum, Idle, MemRegion.Free, FreedWell;
      DropStep(pages, sharedFreeLists, places, c);
      SitedDropped(pages, region.Live(), c);
      DropCharges(pages, sharedFreeLists, places, c);
      region.FreeSmallChunk(c);
      places := Kept(places, pages[c].freeList);
      pages := pages - {c};
    }

    /** Another thread frees the cell p: it is pushed on the shared list of its class. */
    method ForeignDealloc(p: Addr)
      requires Valid() && p in Live()
      modifies this`sharedFreeLists, this`places
      ensures Valid() && Live() == old(Live()) - {p} && Blocks() == old(Blocks()) && Debt() == old(Debt())
      ensures PageAddr(p) in pages && var k := pages[PageAddr(p)].size / MEM_ALIGN;
              k < |old(sharedFreeLists)| && sharedFreeLists == old(sharedFreeLists)[k := [p] + old(sharedFreeLists)[k]]
    {
      hide MemRegion.Valid, MemRegion.Live, Cells, RoomListed, LiveCells, Multiple, PageAddr, BlocksOf, Charged, Sum, SizeOf;
      var c := PageAddr(p);
      LivePlaced(pages, sharedFreeLists, places, p);
      var k := pages[c].size / MEM_ALIGN;
      ShareStep(pages, sharedFreeLists, places, p, k);
      ChargeSame(pages, pages, places, places[p := Shared]);
      sharedFreeLists := sharedFreeLists[k := [p] + sharedFreeLists[k]];
      places := places[p := Shared];
    }
  }

  lemma DrainDebt(pages: Pages, shared: seq<seq<Addr>>, places: Places, q: Addr, k: nat, pg: Page)
    requires Cells(pages, shared, places) && q in pages && k == pages[q].size / MEM_ALIGN && k < CLASSES && pg.size == pages[q].size
    ensures |shared| == CLASSES
    ensures Sum(Charged(pages[q := pg], Moved(places, shared[k], q))) + Times(pg.size, |shared[k]|) == Sum(Charged(pages, places))
  {
    hide SizeOf, Sum, Charged, AllPlaced, ListsPlaced, Accounts, Times;
    SharedSizes(pages, shared, places, k, q);
    PageSizes(pages, places, q, pg);
    ChargeDrained(pages, pages[q := pg], places, shared[k], q, pg.size);
  }

  lemma NewDebt(pages: Pages, shared: seq<seq<Addr>>, places: Places, q: Addr, pg: Page, x: Addr)
    requires Cells(pages, shared, places) && q !in pages && x !in places && PageAddr(x) == q
    ensures Sum(Charged(pages[q := pg], places[x := Place.Live])) == Sum(Charged(pages, places)) + pg.size
  {
    hide Sum, Charged, Cells, PageAddr;
    NewSizes(pages, shared, places, q, pg);
    ChargeMore(pages, pages[q := pg], places, x);
  }

  lemma CarveDebt(pages: Pages, shared: seq<seq<Addr>>, places: Places, q: Addr, pg: Page, x: Addr)
    requires Cells(pages, shared, places) && q in pages && pg.size == pages[q].size && 0 <= pages[q].free
    requires if pages[q].freeList == [] then x == q + DATA + pages[q].acc && pg.acc == pages[q].acc + pages[q].size && pages[q].free >= pages[q].size else x == pages[q].freeList[0]
    ensures Sum(Charged(pages[q := pg], places[x := Place.Live])) == Sum(Charged(pages, places)) + pg.size
  {
    hide Sum, Charged, PageAddr, SizeOf, CellOf, SharedPlaced;
    PageSizes(pages, places, q, pg);
    SameSizes(pages, q, pg, x);
    assert ListPlaced(pages, places, q) && PageShaped(q, pages[q]) && Counted(q, pages[q]);
    if pages[q].freeList == [] {
      TimesNext(pages[q].size, 0);
      Extended(q, pages[q], pages[q].(acc := pages[q].acc + pages[q].size), x);
      NotCarved(pages, shared, places, q, x);
    } else {
      assert x in pages[q].freeList;
    }
    ChargeMore(pages, pages[q := pg], places, x);
  }

  lemma NotCarved(pages: Pages, shared: seq<seq<Addr>>, places: Places, q: Addr, x: Addr)
    requires Placed(pages, shared, places) && q in pages && PageAddr(x) == q && !CellOf(q, pages[q], x)
    ensures x !in places && SizeOf(pages, x) == pages[q].size
  {
    hide PageAddr, CellOf;
  }

  lemma HeadKnown(pages: Pages, shared: seq<seq<Addr>>, places: Places, heads: seq<Addr>, size: nat)
    requires Cells(pages, shared, places) && RoomListed(pages, heads, NIL) && Multiple(size, MEM_ALIGN) && size <= CELL_SPACE
    ensures size / MEM_ALIGN < |heads| && (heads[size / MEM_ALIGN] == NIL <==> NoRoom(pages, size))
    ensures heads[size / MEM_ALIGN] != NIL ==> heads[size / MEM_ALIGN] in pages
  {
    hide PageAddr, Multiple, Placed, Counted;
    var k := size / MEM_ALIGN;
    NilNoPage(pages);
    if heads[k] != NIL { HeadPage(pages, shared, places, heads, k, size); }
    forall q | q in pages && pages[q].size == size ensures ListedIff(pages[q], heads, q) { }
  }

  lemma FromNew(pages: Pages, shared: seq<Addr>, c: Addr, pages': Pages)
    requires c !in pages && pages'.Keys == pages.Keys + {c} && pages'[c].freeList == shared
    ensures CellFrom(pages, NIL, shared, c + DATA, pages', [])
  {
  }

  lemma FromHead(pages: Pages, c: Addr, shared: seq<seq<Addr>>, k: nat, x: Addr, rest: seq<Addr>, pages': Pages, shared': seq<seq<Addr>>)
    requires c != NIL && c in pages && k < |shared| && x == NextCell(c, pages[c]) && rest == RestList(pages[c]) && pages'.Keys == pages.Keys
    requires if rest != [] then shared' == shared && pages'[c].freeList == rest else pages'[c].freeList == shared[k] && shared' == shared[k := []]
    ensures k < |shared'| && CellFrom(pages, c, shared[k], x, pages', shared'[k]) && shared' == shared[k := shared'[k]]
  {
  }

  lemma IdleAt(pages: Pages, shared: seq<seq<Addr>>, places: Places, q: Addr)
    requires Cells(pages, shared, places) && q in pages
    ensures Idle(q, pages[q]) <==> pages[q].free == CELL_SPACE && pages[q].foreignCells == 0
  {
    IdleIff(pages, shared, places, q);
  }

  lemma BlockIs(pages: Pages, live: map<Addr, nat>, c: Addr)
    requires c in live && c !in pages
    ensures c in BlocksOf(pages, live) && BlocksOf(pages, live)[c] == live[c]
  {
  }

  lemma SharedLength(pages: Pages, shared: seq<seq<Addr>>, places: Places)
    requires Cells(pages, shared, places)
    ensures |shared| == CLASSES
  {
  }

  lemma NilNoPage2(pages: Pages, shared: seq<seq<Addr>>, places: Places)
    requires Cells(pages, shared, places)
    ensures NIL !in pages
  {
    NilNoPage(pages);
  }

  lemma NothingCarved(heads: seq<Addr>, shared: seq<seq<Addr>>)
    requires |heads| == |shared| == CLASSES && forall k :: 0 <= k < CLASSES ==> heads[k] == NIL && shared[k] == []
    ensures Cells(map[], shared, map[]) && RoomListed(map[], heads, NIL) && LiveCells(map[], map[]) == map[]
  {
  }

  lemma HeadsLength(pages: Pages, heads: seq<Addr>, but: Addr)
    requires RoomListed(pages, heads, but)
    ensures |heads| == CLASSES
  {
  }

  lemma PageRequest()
    ensures SearchSize(PAGE_SIZE) == PAGE_SIZE
  {
    hide Pow2;
    Pow2Constants();
    Pow2Next(12);
    MsbitUnique(PAGE_SIZE, 12);
    RoundPage();
  }

  lemma RoundPage()
    ensures Roundup(128, PAGE_SIZE) == PAGE_SIZE && Roundup(PAGE_SIZE, PAGE_SIZE) == PAGE_SIZE
  {
  }

  lemma LiveStart(region: MemRegion, c: Addr)
    requires region.Valid() && c in region.Live()
    ensures c != NIL && PageAddr(c) == c
  {
    StartPaged(region.mem, region.starts, c);
    hide Tiles, CoverAll, Recorded, Booked, Total, Indexed;
  }

  lemma NewPageShaped(c: Addr, pg: Page)
    requires c != NIL && PageAddr(c) == c && 0 < pg.size <= CELL_SPACE && Multiple(pg.size, MEM_ALIGN) && pg.acc == pg.size
    ensures PageShaped(c, pg)
  {
    SelfMultiple(pg.size);
  }

  lemma SitedNew(pages: Pages, live: map<Addr, nat>, c: Addr, pg: Page)
    requires Sited(pages, live) && c !in live
    ensures c !in pages && Sited(pages[c := pg], live[c := PAGE_SIZE][c := pg.size])
    ensures BlocksOf(pages[c := pg], live[c := PAGE_SIZE][c := pg.size]) == BlocksOf(pages, live)
  {
  }

  lemma SitedKept(pages: Pages, live: map<Addr, nat>, c: Addr, pg: Page)
    requires Sited(pages, live) && c in pages && pg.size == pages[c].size
    ensures Sited(pages[c := pg], live) && BlocksOf(pages[c := pg], live) == BlocksOf(pages, live)
  {
  }

  lemma NotLiveYet(places: Places, pages: Pages, x: Addr)
    requires x !in places
    ensures x !in LiveCells(pages, places)
  {
  }

  lemma AtMostEither(heads: seq<Addr>, c: Addr, k: nat)
    requires AtMostHead(heads, c, k)
    ensures k < |heads| && (heads[k] == NIL || heads[k] == c) && heads[k := heads[k]] == heads
  {
  }

  /** The page at the head of the list of a class serves cells of that size. */
  lemma HeadPage(pages: Pages, shared: seq<seq<Addr>>, places: Places, heads: seq<Addr>, k: nat, size: nat)
    requires Cells(pages, shared, places) && RoomListed(pages, heads, NIL) && k < |heads| && heads[k] != NIL
    requires k == size / MEM_ALIGN && Multiple(size, MEM_ALIGN)
    ensures heads[k] in pages && pages[heads[k]].size == size && 0 < size && pages[heads[k]].free >= size
    ensures pages[heads[k]].next == NIL && pages[heads[k]].prev == NIL && AtMostHead(heads, heads[k], k)
  {
    hide PageAddr, Multiple, Placed, Counted;
    var c := heads[k];
    assert ListedIff(pages[c], heads, c) && PageShaped(c, pages[c]);
    ClassSize(pages[c].size, size);
  }

  lemma CarveStep(pages: Pages, shared: seq<seq<Addr>>, places: Places, c: Addr, pg: Page, x: Addr)
    requires Cells(pages, shared, places) && c in pages && pages[c].free >= pages[c].size
    requires if pages[c].freeList == []
             then x == c + DATA + pages[c].acc && pg == pages[c].(acc := pages[c].acc + pages[c].size, free := pages[c].free - pages[c].size)
             else x == pages[c].freeList[0]
                  && pg == pages[c].(freeList := pages[c].freeList[1..], free := pages[c].free - pages[c].size,
                                     foreignCells := pages[c].foreignCells - if PageAddr(x) != c then 1 else 0)
    ensures Cells(pages[c := pg], shared, places[x := Place.Live]) && x !in LiveCells(pages, places)
    ensures LiveCells(pages[c := pg], places[x := Place.Live]) == LiveCells(pages, places)[x := pg.size]
  {
    hide Cells, PageAddr;
    if pages[c].freeList == [] {
      BumpStep(pages, shared, places, c, pg);
    } else {
      PopStep(pages, shared, places, c, pg);
    }
  }

  lemma Unfold(pages: Pages, shared: seq<seq<Addr>>, places: Places)
    requires Cells(pages, shared, places)
    ensures Accounts(pages)
  {
  }

  lemma RoundedCell(r: nat)
    ensures Multiple(Roundup(r, MEM_ALIGN), MEM_ALIGN) && (Roundup(r, MEM_ALIGN) <= CELL_SPACE <==> r <= CELL_SPACE)
    ensures r > 0 ==> Roundup(r, MEM_ALIGN) > 0
  {
  }

  lemma SitedBlock(pages: Pages, live: map<Addr, nat>, c: Addr, n: nat)
    requires Sited(pages, live) && c !in live && n > SMALL_MAX
    ensures Sited(pages, live[c := n]) && BlocksOf(pages, live[c := n]) == BlocksOf(pages, live)[c := n]
    ensures c !in BlocksOf(pages, live)
  {
  }

  lemma SitedFreed(pages: Pages, live: map<Addr, nat>, c: Addr)
    requires Sited(pages, live) && c in live && c !in pages
    ensures Sited(pages, live - {c}) && BlocksOf(pages, live - {c}) == BlocksOf(pages, live) - {c}
    ensures live[c] > SMALL_MAX
  {
  }

  lemma SitedDropped(pages: Pages, live: map<Addr, nat>, c: Addr)
    requires Sited(pages, live) && c in pages && pages[c].size <= CELL_SPACE
    ensures c in live && Span(live[c]) == PAGE_SIZE
    ensures Sited(pages - {c}, live - {c}) && BlocksOf(pages - {c}, live - {c}) == BlocksOf(pages, live)
  {
  }

  lemma HeaderSize(region: MemRegion, c: Addr)
    requires c in region.Live()
    ensures c in region.mem && region.mem[c].size == region.Live()[c]
  {
  }

  lemma LivePlaced(pages: Pages, shared: seq<seq<Addr>>, places: Places, p: Addr)
    requires Cells(pages, shared, places) && p in LiveCells(pages, places)
    ensures PageAddr(p) in pages && p in places && places[p] == Place.Live && SizeOf(pages, p) == pages[PageAddr(p)].size
    ensures |shared| == CLASSES && pages[PageAddr(p)].size / MEM_ALIGN < CLASSES
    ensures 0 < pages[PageAddr(p)].size <= CELL_SPACE
  {
    hide PageAddr, Multiple, Counted;
    assert Carved(pages, p);
    NilNoPage(pages);
  }

  lemma WhereFreed(pages: Pages, shared: seq<seq<Addr>>, places: Places, region: MemRegion, p: Addr)
    requires Cells(pages, shared, places) && region.Valid() && Sited(pages, region.Live())
    requires p in LiveCells(pages, places) || (p >= BIG_HEADER && p - BIG_HEADER in BlocksOf(pages, region.Live()))
    ensures var c := PageAddr(p);
            && c in region.Live() && c in region.mem && region.mem[c].size == region.Live()[c]
            && (p in LiveCells(pages, places) <==> c in pages)
            && (c in pages <==> region.mem[c].size <= SMALL_MAX)
            && (c !in pages ==> c == p - BIG_HEADER)
  {
    hide MemRegion.Valid, MemRegion.Live, Cells, LiveCells, PageAddr;
    if p in LiveCells(pages, places) {
      LivePlaced(pages, shared, places, p);
    } else {
      LiveStart(region, p - BIG_HEADER);
      PageAddrIs(p - BIG_HEADER, p);
    }
    HeaderSize(region, PageAddr(p));
  }

  /** What freeing the cell p relies on, whichever page it goes to. */
  lemma FreedCell(pages: Pages, shared: seq<seq<Addr>>, places: Places, heads: seq<Addr>, p: Addr)
    requires Cells(pages, shared, places) && RoomListed(pages, heads, NIL) && p in LiveCells(pages, places)
    ensures PageAddr(p) in pages && p in places && places[p] == Place.Live && |heads| == CLASSES
    ensures var s := pages[PageAddr(p)].size;
            && s / MEM_ALIGN < CLASSES && SizeOf(pages, p) == s
            && (heads[s / MEM_ALIGN] != NIL ==>
                  && heads[s / MEM_ALIGN] in pages && pages[heads[s / MEM_ALIGN]].size == s
                  && pages[heads[s / MEM_ALIGN]].free >= s
                  && pages[heads[s / MEM_ALIGN]].next == NIL && pages[heads[s / MEM_ALIGN]].prev == NIL
                  && AtMostHead(heads, heads[s / MEM_ALIGN], s / MEM_ALIGN))
  {
    hide Cells, RoomListed, LiveCells, PageAddr, Multiple, AtMostHead;
    LivePlaced(pages, shared, places, p);
    HeadsLength(pages, heads, NIL);
    var s := pages[PageAddr(p)].size;
    if heads[s / MEM_ALIGN] != NIL {
      SizeMultiple(pages, shared, places, PageAddr(p));
      HeadPage(pages, shared, places, heads, s / MEM_ALIGN, s);
    }
  }

  lemma SizeMultiple(pages: Pages, shared: seq<seq<Addr>>, places: Places, c: Addr)
    requires Cells(pages, shared, places) && c in pages
    ensures Multiple(pages[c].size, MEM_ALIGN)
  {
    hide PageAddr, Multiple, Placed;
    assert PageShaped(c, pages[c]);
  }

  lemma OwnPageFreed(pages: Pages, shared: seq<seq<Addr>>, places: Places, heads: seq<Addr>, c: Addr, p: Addr)
    requires Cells(pages, shared, places) && RoomListed(pages, heads, NIL) && p in LiveCells(pages, places)
    requires c == PageAddr(p) && c in pages && |heads| == CLASSES
    requires pages[c].size / MEM_ALIGN < CLASSES && heads[pages[c].size / MEM_ALIGN] in {NIL, c}
    ensures p in places && places[p] == Place.Live && SizeOf(pages, p) == pages[c].size
    ensures NIL !in pages && pages[c].next == NIL && pages[c].prev == NIL && pages[c].size <= CELL_SPACE && pages[c].free >= 0
    ensures AtMostHead(heads, c, pages[c].size / MEM_ALIGN)
    ensures pages[c].free >= pages[c].size <==> heads[pages[c].size / MEM_ALIGN] == c
  {
    LivePlaced(pages, shared, places, p);
    NilNoPage(pages);
    HeadOwn(pages, heads, c);
    assert PageShaped(c, pages[c]) && Counted(c, pages[c]);
    hide Cells, RoomListed, LiveCells, PageAddr, Multiple;
  }

  /** In every state no cell handed out overlaps another cell or a larger block. */
  lemma HandedOutApart(a: Allocator, x: Addr, y: Addr)
    requires a.Valid() && x in a.Live() && x != y
    ensures y in a.Live() && x < y ==> x + a.Live()[x] <= y
    ensures y in a.Blocks() ==> x + a.Live()[x] <= y || y + a.Blocks()[y] <= x
  {
    hide MemRegion.Valid, MemRegion.Live, PageAddr, Multiple, ListsPlaced, SharedPlaced, RoomListed;
    assert Carved(a.pages, x);
    CellWithin(a.pages, x);
    if y in a.Live() && x < y {
      assert Carved(a.pages, y);
      CellsApart(a.pages, x, y);
    }
    if y in a.Blocks() {
      if PageAddr(x) < y { ChunksApart(a.region, PageAddr(x), y); } else { ChunksApart(a.region, y, PageAddr(x)); }
    }
  }

  lemma CellWithin(pages: Pages, x: Addr)
    requires Accounts(pages) && Carved(pages, x)
    ensures PageAddr(x) in pages && PageAddr(x) <= x && x + SizeOf(pages, x) <= PageAddr(x) + PAGE_SIZE
    ensures pages[PageAddr(x)].size <= SMALL_MAX
  {
    CellInside(PageAddr(x), pages[PageAddr(x)], x);
    assert PageShaped(PageAddr(x), pages[PageAddr(x)]);
  }

  /** Nor do two chunks in use. */
  lemma ChunksApart(region: MemRegion, a: Addr, b: Addr)
    requires region.Valid() && a in region.Live() && b in region.Live() && a < b
    ensures a + Span(region.Live()[a]) <= b
  {
    hide Indexed, CoverAll, Recorded, Booked, Total, PrevOk;
  }

  /** In every state the accounts of a page are exact, and of all pages of a class at
      most one has room for a cell. */
  lemma PageAccounts(a: Allocator, q: Addr, r: Addr)
    requires a.Valid() && q in a.pages && r in a.pages
    ensures var pg := a.pages[q];
            pg.free == CELL_SPACE - pg.acc + pg.size * |pg.freeList| && pg.foreignCells == Foreign(q, pg.freeList)
    ensures a.pages[q].size == a.pages[r].size && a.pages[q].free >= a.pages[q].size && a.pages[r].free >= a.pages[r].size ==> q == r
  {
    hide MemRegion.Valid, MemRegion.Live, PageAddr, Multiple, ListsPlaced, SharedPlaced, Placed;
    NilNoPage(a.pages);
    assert Counted(q, a.pages[q]);
    assert ListedIff(a.pages[q], a.freeSmallChunks, q) && ListedIff(a.pages[r], a.freeSmallChunks, r);
  }
}
