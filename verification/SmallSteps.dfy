/** What each small step of the cell allocator does to the accounts and the places. */
module SmallSteps {
  import opened SizeClasses
  import opened FreeMatrix
  import opened SmallPages

  ghost predicate Cells(pages: Pages, shared: seq<seq<Addr>>, places: Places) {
    Accounts(pages) && Placed(pages, shared, places)
  }

  lemma SameSizes(pages: Pages, q: Addr, pg: Page, x: Addr)
    requires q in pages && pg.size == pages[q].size
    ensures SizeOf(pages[q := pg], x) == SizeOf(pages, x)
    ensures pg.acc == pages[q].acc ==> (Carved(pages[q := pg], x) <==> Carved(pages, x))
  {
    hide PageAddr, Multiple;
  }

  /** A page whose list alone changes, with the places of the cells that move. */
  lemma Replaced(pages: Pages, places: Places, shared: seq<seq<Addr>>, q: Addr, pg: Page)
    requires Cells(pages, shared, places) && q in pages && pg.size == pages[q].size && pg.acc == pages[q].acc
    ensures forall x :: SizeOf(pages[q := pg], x) == SizeOf(pages, x)
    ensures AllPlaced(pages[q := pg], places)
    ensures Counted(q, pg) ==> Accounts(pages[q := pg])
  {
    hide PageAddr, Multiple, SizeOf, Carved, Counted, ListsPlaced, SharedPlaced;
    forall x ensures SizeOf(pages[q := pg], x) == SizeOf(pages, x) && (Carved(pages[q := pg], x) <==> Carved(pages, x)) {
      SameSizes(pages, q, pg, x);
    }
    assert PageShaped(q, pages[q]);
  }

  /** A cell moves to or from a place other than the shared lists. */
  lemma SharedKept(pages: Pages, pages': Pages, shared: seq<seq<Addr>>, places: Places, x: Addr, place: Place)
    requires SharedPlaced(pages, shared, places) && place != Shared && (x in places ==> places[x] != Shared)
    requires forall y :: y in places ==> SizeOf(pages', y) == SizeOf(pages, y)
    ensures SharedPlaced(pages', shared, places[x := place])
  {
    hide SizeOf, NoDup;
  }

  /** One cell x is carved and handed out; lists and sizes of pages stay. */
  lemma Minted(pages: Pages, pages': Pages, shared: seq<seq<Addr>>, places: Places, x: Addr)
    requires Placed(pages, shared, places) && pages.Keys <= pages'.Keys
    requires forall y :: Carved(pages', y) <==> Carved(pages, y) || y == x
    requires !Carved(pages, x)
    requires forall y :: y in places ==> SizeOf(pages', y) == SizeOf(pages, y)
    requires forall r :: r in pages ==> pages'[r].freeList == pages[r].freeList && pages'[r].size == pages[r].size
    requires forall r :: r in pages' && r !in pages ==> pages'[r].freeList == []
    ensures x !in places && Placed(pages', shared, places[x := Live])
    ensures LiveCells(pages', places[x := Live]) == LiveCells(pages, places)[x := SizeOf(pages', x)]
  {
    hide Carved, SizeOf, PageAddr;
    assert x !in places;
    MintedLists(pages, pages', places, x);
    SharedKept(pages, pages', shared, places, x, Live);
    hide ListsPlaced, SharedPlaced;
  }

  lemma MintedLists(pages: Pages, pages': Pages, places: Places, x: Addr)
    requires ListsPlaced(pages, places) && pages.Keys <= pages'.Keys && x !in places
    requires forall y :: y in places ==> SizeOf(pages', y) == SizeOf(pages, y)
    requires forall r :: r in pages ==> pages'[r].freeList == pages[r].freeList && pages'[r].size == pages[r].size
    requires forall r :: r in pages' && r !in pages ==> pages'[r].freeList == []
    ensures ListsPlaced(pages', places[x := Live])
  {
    hide SizeOf, PageAddr;
    forall r | r in pages' ensures ListPlaced(pages', places[x := Live], r) {
      if r in pages { assert ListPlaced(pages, places, r); }
    }
  }

  // --------------------------------------------------------------- a new page

  lemma NewPageStep(pages: Pages, shared: seq<seq<Addr>>, places: Places, q: Addr, pg: Page)
    requires Cells(pages, shared, places) && q !in pages && PageShaped(q, pg) && pg.acc == pg.size && pg.freeList == []
    requires pg.free == CELL_SPACE - pg.size && pg.foreignCells == 0
    ensures Cells(pages[q := pg], shared, places[q + DATA := Live])
    ensures q + DATA !in places && LiveCells(pages[q := pg], places[q + DATA := Live]) == LiveCells(pages, places)[q + DATA := pg.size]
  {
    hide PageAddr, Multiple, Placed, LiveCells, CellOf, PageShaped;
    forall x: Addr ensures Carved(pages[q := pg], x) <==> Carved(pages, x) || x == q + DATA {
      FirstCell(q, pg, x);
    }
    FirstCell(q, pg, q + DATA);
    TimesNext(pg.size, 0);
    forall y | y in places ensures SizeOf(pages[q := pg], y) == SizeOf(pages, y) {
      PlacedCarved(pages, places, y) by { assert Placed(pages, shared, places); PlacedAll(pages, shared, places); }
    }
    Minted(pages, pages[q := pg], shared, places, q + DATA);
  }

  lemma PlacedAll(pages: Pages, shared: seq<seq<Addr>>, places: Places)
    requires Placed(pages, shared, places)
    ensures AllPlaced(pages, places)
  {
  }

  lemma FirstCell(q: Addr, pg: Page, x: Addr)
    requires PageShaped(q, pg) && pg.acc == pg.size
    ensures CellOf(q, pg, x) <==> x == q + DATA
    ensures PageAddr(q + DATA) == q
  {
    hide PageAddr, Multiple;
    NoCells(q, pg);
    ZeroMultiple(pg.size);
    OneMoreCell(q, pg, 0, x);
    assert pg.(acc := 0 + pg.size) == pg;
    PageAddrIs(q, q + DATA);
  }

  lemma ZeroMultiple(s: nat)
    requires s > 0
    ensures Multiple(0, s)
  {
  }

  // ----------------------------------------------------- a cell from the bump

  lemma BumpStep(pages: Pages, shared: seq<seq<Addr>>, places: Places, q: Addr, pg: Page)
    requires Cells(pages, shared, places) && q in pages && pages[q].free >= pages[q].size && pages[q].freeList == []
    requires pg == pages[q].(acc := pages[q].acc + pages[q].size, free := pages[q].free - pages[q].size)
    ensures var x := q + DATA + pages[q].acc;
            && Cells(pages[q := pg], shared, places[x := Live])
            && x !in places && LiveCells(pages[q := pg], places[x := Live]) == LiveCells(pages, places)[x := pg.size]
  {
    hide PageAddr, Multiple, Times, Placed, LiveCells, CellOf;
    var was := pages[q];
    var x := q + DATA + was.acc;
    assert PageShaped(q, was) && Counted(q, was);
    TimesNext(was.size, 0);
    forall y: Addr ensures Carved(pages[q := pg], y) <==> Carved(pages, y) || y == x {
      Extended(q, was, pg, y);
    }
    Extended(q, was, pg, x);
    MultipleSum(was.acc, was.size, was.size);
    SelfMultiple(was.size);
    Minted(pages, pages[q := pg], shared, places, x);
  }

  lemma Extended(q: Addr, was: Page, pg: Page, y: Addr)
    requires PageShaped(q, was) && was.acc + was.size <= CELL_SPACE
    requires pg.acc == was.acc + was.size && pg.size == was.size
    ensures CellOf(q, pg, y) <==> CellOf(q, was, y) || y == q + DATA + was.acc
    ensures !CellOf(q, was, q + DATA + was.acc) && PageAddr(q + DATA + was.acc) == q
  {
    hide PageAddr, Multiple;
    OneMoreCell(q, was, was.acc, y);
    assert was.(acc := was.acc) == was;
    PageAddrIs(q, q + DATA + was.acc);
  }

  // ------------------------------------------------------ a cell from the list

  lemma PopStep(pages: Pages, shared: seq<seq<Addr>>, places: Places, q: Addr, pg: Page)
    requires Cells(pages, shared, places) && q in pages && pages[q].freeList != []
    requires pg == pages[q].(freeList := pages[q].freeList[1..], free := pages[q].free - pages[q].size,
                             foreignCells := pages[q].foreignCells - if PageAddr(pages[q].freeList[0]) != q then 1 else 0)
    ensures var x := pages[q].freeList[0];
            && x in places && places[x] == On(q)
            && Cells(pages[q := pg], shared, places[x := Live])
            && LiveCells(pages[q := pg], places[x := Live]) == LiveCells(pages, places)[x := pg.size]
  {
    hide PageAddr, Multiple, Times, SizeOf, Carved;
    var s := pages[q].freeList;
    assert Counted(q, pages[q]) && ListPlaced(pages, places, q);
    TimesNext(pg.size, |s| - 1);
    Replaced(pages, places, shared, q, pg);
    assert forall y :: y in s[1..] <==> y in s && y != s[0];
    assert s[0] in s;
    hide Counted, PageShaped;
    PopLists(pages, places, q, pg);
    SharedKept(pages, pages[q := pg], shared, places, s[0], Live);
    hide ListsPlaced, ListPlaced, SharedPlaced, Accounts, NoDup;
  }

  lemma PopLists(pages: Pages, places: Places, q: Addr, pg: Page)
    requires ListsPlaced(pages, places) && q in pages && pages[q].freeList != [] && pg.freeList == pages[q].freeList[1..]
    requires pg.size == pages[q].size && forall x :: SizeOf(pages[q := pg], x) == SizeOf(pages, x)
    ensures ListsPlaced(pages[q := pg], places[pages[q].freeList[0] := Live])
  {
    hide SizeOf, PageAddr;
    var s := pages[q].freeList;
    assert ListPlaced(pages, places, q) && s[0] in s;
    assert forall y :: y in s[1..] <==> y in s && y != s[0];
    forall r | r in pages ensures ListPlaced(pages[q := pg], places[s[0] := Live], r) {
      assert ListPlaced(pages, places, r);
    }
  }

  // --------------------------------------------------- a freed cell on a list

  lemma PushStep(pages: Pages, shared: seq<seq<Addr>>, places: Places, q: Addr, pg: Page, x: Addr)
    requires Cells(pages, shared, places) && q in pages && x in places && places[x] == Live && SizeOf(pages, x) == pages[q].size
    requires pg == pages[q].(freeList := [x] + pages[q].freeList, free := pages[q].free + pages[q].size,
                             foreignCells := pages[q].foreignCells + if PageAddr(x) != q then 1 else 0)
    ensures Cells(pages[q := pg], shared, places[x := On(q)])
    ensures LiveCells(pages[q := pg], places[x := On(q)]) == LiveCells(pages, places) - {x}
  {
    hide PageAddr, SizeOf, Carved, Counted, PageShaped, ListsPlaced, SharedPlaced, LiveCells;
    assert Counted(q, pages[q]);
    PushCounted(q, pages[q], pg, x);
    Replaced(pages, places, shared, q, pg);
    PushLists(pages, places, q, pg, x);
    SharedKept(pages, pages[q := pg], shared, places, x, On(q));
    LiveWithout(pages, pages[q := pg], places, x, On(q));
  }

  lemma PushCounted(q: Addr, was: Page, pg: Page, x: Addr)
    requires Counted(q, was)
    requires pg == was.(freeList := [x] + was.freeList, free := was.free + was.size,
                        foreignCells := was.foreignCells + if PageAddr(x) != q then 1 else 0)
    ensures Counted(q, pg)
  {
    hide PageAddr, Times, Foreign;
    TimesNext(was.size, |was.freeList|);
    ForeignHead(q, pg.freeList);
    assert pg.freeList[1..] == was.freeList;
  }

  lemma LiveWithout(pages: Pages, pages': Pages, places: Places, x: Addr, place: Place)
    requires x in places && place != Live && forall y :: SizeOf(pages', y) == SizeOf(pages, y)
    ensures LiveCells(pages', places[x := place]) == LiveCells(pages, places) - {x}
  {
    hide SizeOf;
  }

  lemma PushLists(pages: Pages, places: Places, q: Addr, pg: Page, x: Addr)
    requires ListsPlaced(pages, places) && q in pages && pg.freeList == [x] + pages[q].freeList && x in places && places[x] == Live
    requires pg.size == pages[q].size == SizeOf(pages, x) && forall y :: SizeOf(pages[q := pg], y) == SizeOf(pages, y)
    ensures ListsPlaced(pages[q := pg], places[x := On(q)])
  {
    hide SizeOf, PageAddr;
    assert ListPlaced(pages, places, q);
    forall r | r in pages ensures ListPlaced(pages[q := pg], places[x := On(q)], r) {
      assert ListPlaced(pages, places, r);
    }
  }

  /** Another thread frees the cell x. */
  lemma ShareStep(pages: Pages, shared: seq<seq<Addr>>, places: Places, x: Addr, k: nat)
    requires Cells(pages, shared, places) && x in places && places[x] == Live && k == SizeOf(pages, x) / MEM_ALIGN && k < CLASSES
    ensures Cells(pages, shared[k := [x] + shared[k]], places[x := Shared])
    ensures LiveCells(pages, places[x := Shared]) == LiveCells(pages, places) - {x}
  {
    hide PageAddr, Multiple, Times, SizeOf, Carved, Counted, PageShaped;
  }

  // ---------------------------------------------------- taking the shared list

  function Moved(places: Places, s: seq<Addr>, q: Addr): Places {
    map x | x in places :: if x in s then On(q) else places[x]
  }

  lemma DrainStep(pages: Pages, shared: seq<seq<Addr>>, places: Places, q: Addr, k: nat, pg: Page)
    requires Cells(pages, shared, places) && q in pages && pages[q].freeList == [] && k == pages[q].size / MEM_ALIGN && k < CLASSES
    requires pg == pages[q].(freeList := shared[k], free := pages[q].free + Times(pages[q].size, |shared[k]|),
                             foreignCells := pages[q].foreignCells + Foreign(q, shared[k]))
    ensures Cells(pages[q := pg], shared[k := []], Moved(places, shared[k], q))
    ensures LiveCells(pages[q := pg], Moved(places, shared[k], q)) == LiveCells(pages, places)
  {
    hide PageAddr, SizeOf, Carved, Counted, PageShaped, ListsPlaced, LiveCells;
    assert Counted(q, pages[q]);
    DrainCounted(q, pages[q], pg, shared[k]);
    Replaced(pages, places, shared, q, pg);
    SharedSizes(pages, shared, places, k, q);
    DrainLists(pages, shared, places, q, k, pg);
    LiveMoved(pages, pages[q := pg], places, shared[k], q);
  }

  lemma DrainCounted(q: Addr, was: Page, pg: Page, s: seq<Addr>)
    requires Counted(q, was) && was.freeList == []
    requires pg == was.(freeList := s, free := was.free + Times(was.size, |s|), foreignCells := was.foreignCells + Foreign(q, s))
    ensures Counted(q, pg)
  {
    hide Times, Foreign;
    TimesNext(was.size, 0);
    ForeignNil(q);
  }

  lemma LiveMoved(pages: Pages, pages': Pages, places: Places, s: seq<Addr>, q: Addr)
    requires forall y :: SizeOf(pages', y) == SizeOf(pages, y)
    requires forall x :: x in s ==> x in places && places[x] == Shared
    ensures LiveCells(pages', Moved(places, s, q)) == LiveCells(pages, places)
  {
    hide SizeOf;
  }

  lemma DrainLists(pages: Pages, shared: seq<seq<Addr>>, places: Places, q: Addr, k: nat, pg: Page)
    requires ListsPlaced(pages, places) && SharedPlaced(pages, shared, places) && q in pages && pages[q].freeList == []
    requires k < CLASSES && pg.freeList == shared[k] && pg.size == pages[q].size
    requires forall y :: SizeOf(pages[q := pg], y) == SizeOf(pages, y)
    requires forall x :: x in shared[k] ==> SizeOf(pages, x) == pages[q].size
    ensures ListsPlaced(pages[q := pg], Moved(places, shared[k], q))
  {
    hide SizeOf, PageAddr;
    forall r | r in pages ensures ListPlaced(pages[q := pg], Moved(places, shared[k], q), r) {
      assert ListPlaced(pages, places, r);
    }
  }

  /** The size of a cell is a multiple of 16, so cells of one class are of one size. */
  lemma SharedSizes(pages: Pages, shared: seq<seq<Addr>>, places: Places, k: nat, q: Addr)
    requires Cells(pages, shared, places) && k < |shared| && q in pages && k == pages[q].size / MEM_ALIGN
    ensures forall x :: x in shared[k] ==> SizeOf(pages, x) == pages[q].size
  {
    hide PageAddr;
    assert PageShaped(q, pages[q]);
    forall x | x in shared[k] ensures SizeOf(pages, x) == pages[q].size {
      assert x in places && Carved(pages, x);
      assert PageShaped(PageAddr(x), pages[PageAddr(x)]);
      ClassSize(SizeOf(pages, x), pages[q].size);
    }
  }

  lemma ClassSize(s: nat, t: nat)
    requires Multiple(s, MEM_ALIGN) && Multiple(t, MEM_ALIGN) && s / MEM_ALIGN == t / MEM_ALIGN
    ensures s == t
  {
  }

  // --------------------------------------------------------- giving a page back

  function Kept(places: Places, s: seq<Addr>): Places {
    map x | x in places && x !in s :: places[x]
  }

  /** A page that is full and holds no foreign cells can go: no cell of it is handed
      out or on another list. */
  lemma DropStep(pages: Pages, shared: seq<seq<Addr>>, places: Places, q: Addr)
    requires Cells(pages, shared, places) && q in pages && pages[q].free == CELL_SPACE && pages[q].foreignCells == 0
    ensures Cells(pages - {q}, shared, Kept(places, pages[q].freeList))
    ensures LiveCells(pages - {q}, Kept(places, pages[q].freeList)) == LiveCells(pages, places)
    ensures forall x :: x in LiveCells(pages, places) ==> PageAddr(x) != q
  {
    hide PageAddr, Multiple, Times, CellOf, Counted, PageShaped, Placed, LiveCells, Foreign;
    FullIsIdle(pages, shared, places, q);
    Dropped(pages, shared, places, q);
  }

  lemma Dropped(pages: Pages, shared: seq<seq<Addr>>, places: Places, q: Addr)
    requires Placed(pages, shared, places) && q in pages
    requires forall x :: CellOf(q, pages[q], x) <==> x in pages[q].freeList
    ensures Placed(pages - {q}, shared, Kept(places, pages[q].freeList))
    ensures LiveCells(pages - {q}, Kept(places, pages[q].freeList)) == LiveCells(pages, places)
    ensures forall x :: x in LiveCells(pages, places) ==> PageAddr(x) != q
  {
    hide PageAddr, Multiple, CellOf, NoDup, Carved, SizeOf, AllPlaced, ListsPlaced;
    DroppedCells(pages, places, q);
    DroppedLists(pages, places, q);
  }

  lemma DroppedCells(pages: Pages, places: Places, q: Addr)
    requires AllPlaced(pages, places) && ListsPlaced(pages, places) && q in pages
    requires forall x :: CellOf(q, pages[q], x) <==> x in pages[q].freeList
    ensures AllPlaced(pages - {q}, Kept(places, pages[q].freeList))
    ensures forall x :: x in places && x !in pages[q].freeList ==> PageAddr(x) != q && SizeOf(pages - {q}, x) == SizeOf(pages, x)
    ensures forall x :: x in pages[q].freeList ==> x in places && places[x] == On(q)
  {
    hide PageAddr, Multiple, CellOf, NoDup;
    var s, pages' := pages[q].freeList, pages - {q};
    assert ListPlaced(pages, places, q);
    forall x | x in s ensures PageAddr(x) == q { OwnPage(q, pages[q], x); }
    hide ListsPlaced, ListPlaced;
    forall x | x in places && x !in s ensures PageAddr(x) != q && Carved(pages', x) {
      assert Carved(pages, x);
    }
    forall x ensures Carved(pages', x) ==> Carved(pages, x) && x !in s {
    }
    hide Carved;
  }

  lemma DroppedLists(pages: Pages, places: Places, q: Addr)
    requires ListsPlaced(pages, places) && q in pages
    requires forall x :: x in places && x !in pages[q].freeList ==> SizeOf(pages - {q}, x) == SizeOf(pages, x)
    ensures ListsPlaced(pages - {q}, Kept(places, pages[q].freeList))
  {
    hide SizeOf, NoDup, PageAddr;
    var pages' := pages - {q};
    assert ListPlaced(pages, places, q);
    forall r | r in pages' ensures ListPlaced(pages', Kept(places, pages[q].freeList), r) {
      assert ListPlaced(pages, places, r);
    }
  }

  lemma OwnPage(q: Addr, pg: Page, x: Addr)
    requires CellOf(q, pg, x)
    ensures PageAddr(x) == q
  {
  }

  // ------------------------------------------------------- what stays accounted for

  lemma PageSizes(pages: Pages, places: Places, q: Addr, pg: Page)
    requires q in pages && pg.size == pages[q].size
    ensures SameSizesOf(pages, pages[q := pg], places)
  {
    hide SizeOf, Carved;
    forall y ensures SizeOf(pages[q := pg], y) == SizeOf(pages, y) { SameSizes(pages, q, pg, y); }
  }

  lemma NewSizes(pages: Pages, shared: seq<seq<Addr>>, places: Places, q: Addr, pg: Page)
    requires Cells(pages, shared, places) && q !in pages
    ensures SameSizesOf(pages, pages[q := pg], places)
  {
    hide PageAddr, ListsPlaced, SharedPlaced, CellOf;
  }

  lemma DropCharges(pages: Pages, shared: seq<seq<Addr>>, places: Places, q: Addr)
    requires Cells(pages, shared, places) && q in pages && Idle(q, pages[q])
    ensures Charged(pages - {q}, Kept(places, pages[q].freeList)) == Charged(pages, places)
  {
    hide CellOf, SizeOf, SharedPlaced, Carved, Counted, PageShaped, PageAddr;
    assert ListPlaced(pages, places, q);
    forall x | x in places && !places[x].On? ensures SizeOf(pages - {q}, x) == SizeOf(pages, x) && x !in pages[q].freeList {
      PlacedCarved(pages, places, x);
      KeptSize(pages, q, x);
    }
    ChargeSame(pages, pages - {q}, places, Kept(places, pages[q].freeList));
  }

  lemma KeptSize(pages: Pages, q: Addr, x: Addr)
    ensures PageAddr(x) != q ==> SizeOf(pages - {q}, x) == SizeOf(pages, x)
  {
  }
}
