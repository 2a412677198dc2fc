/** Pages that serve cells of one size: what their counters say about the cells, and
    where every cell carved so far is. */
module SmallPages {
  import opened SizeClasses
  import opened FreeMatrix

  const DATA := 64
  const CELL_SPACE := 4032
  const MEM_ALIGN := 16
  const CLASSES := 256

  /** A page: cells are carved from data by moving acc on; freed cells, also those of
      other pages, are on freeList. */
  datatype Page = Page(size: nat, acc: nat, free: int, foreignCells: int, freeList: seq<Addr>, next: Addr, prev: Addr)

  type Pages = map<Addr, Page>

  /** Where a carved cell is: handed out, on the list of some page, or on the list
      that other threads push to. */
  datatype Place = Live | On(page: Addr) | Shared

  type Places = map<Addr, Place>

  /** The address with its low twelve bits cleared. */
  function PageAddr(x: Addr): Addr { x / PAGE_SIZE * PAGE_SIZE }

  predicate Multiple(n: int, s: nat) { s > 0 && n % s == 0 }

  function Times(a: nat, b: nat): nat { a * b }

  /** The size of the cells of the page that x lies in. */
  function SizeOf(pages: Pages, x: Addr): nat {
    if PageAddr(x) in pages then pages[PageAddr(x)].size else 0
  }

  predicate CellOf(q: Addr, pg: Page, x: Addr) {
    PageAddr(x) == q && q + DATA <= x < q + DATA + pg.acc && Multiple(x - q - DATA, pg.size)
  }

  predicate Carved(pages: Pages, x: Addr) {
    PageAddr(x) in pages && CellOf(PageAddr(x), pages[PageAddr(x)], x)
  }

  predicate NoDup(s: seq<Addr>) { forall i, j :: 0 <= i < j < |s| ==> s[i] != s[j] }

  /** How many cells of s come from pages other than q. */
  function Foreign(q: Addr, s: seq<Addr>): nat {
    if s == [] then 0 else (if PageAddr(s[0]) != q then 1 else 0) + Foreign(q, s[1..])
  }

  ghost predicate PageShaped(q: Addr, pg: Page) {
    && q > 0 && PageAddr(q) == q
    && 0 < pg.size <= CELL_SPACE && Multiple(pg.size, MEM_ALIGN)
    && pg.acc <= CELL_SPACE && Multiple(pg.acc, pg.size)
  }

  /** The accounts of a page: free is what is not carved yet and what is on its list. */
  ghost predicate Counted(q: Addr, pg: Page) {
    && pg.free == CELL_SPACE - pg.acc + Times(pg.size, |pg.freeList|)
    && pg.foreignCells == Foreign(q, pg.freeList)
  }

  ghost predicate Accounts(pages: Pages) {
    forall q :: q in pages ==> PageShaped(q, pages[q]) && Counted(q, pages[q])
  }

  /** The free list of q holds exactly the cells placed there, all of its size. */
  ghost predicate ListPlaced(pages: Pages, places: Places, q: Addr)
    requires q in pages
  {
    && NoDup(pages[q].freeList)
    && forall x :: x in pages[q].freeList ==>
         x in places && places[x] == On(q) && SizeOf(pages, x) == pages[q].size
  }

  ghost predicate ListsPlaced(pages: Pages, places: Places) {
    && (forall q :: q in pages ==> ListPlaced(pages, places, q))
    && (forall x :: x in places && places[x].On? ==>
          places[x].page in pages && x in pages[places[x].page].freeList)
  }

  /** The shared list of class k holds exactly the shared cells of its size. */
  ghost predicate SharedPlaced(pages: Pages, shared: seq<seq<Addr>>, places: Places) {
    && |shared| == CLASSES
    && (forall k :: 0 <= k < CLASSES ==> NoDup(shared[k]))
    && (forall k, x :: 0 <= k < CLASSES && x in shared[k] ==>
          x in places && places[x] == Shared && SizeOf(pages, x) / MEM_ALIGN == k)
    && (forall x :: x in places && places[x] == Shared ==>
          SizeOf(pages, x) / MEM_ALIGN < CLASSES && x in shared[SizeOf(pages, x) / MEM_ALIGN])
  }

  /** Exactly the carved cells have a place. */
  ghost predicate AllPlaced(pages: Pages, places: Places) {
    forall x :: x in places <==> Carved(pages, x)
  }

  ghost predicate Placed(pages: Pages, shared: seq<seq<Addr>>, places: Places) {
    AllPlaced(pages, places) && ListsPlaced(pages, places) && SharedPlaced(pages, shared, places)
  }

  /** In every class at most one page has room for a cell, and it is the one on the
      list of the class, alone. */
  ghost predicate RoomListed(pages: Pages, heads: seq<Addr>, but: Addr) {
    && |heads| == CLASSES
    && (forall q :: q in pages && q != but ==> ListedIff(pages[q], heads, q))
    && (forall k :: 0 <= k < CLASSES && heads[k] != NIL && heads[k] != but ==>
          heads[k] in pages && pages[heads[k]].size / MEM_ALIGN == k)
  }

  ghost predicate ListedIff(pg: Page, heads: seq<Addr>, q: Addr) {
    && pg.next == NIL && pg.prev == NIL
    && pg.size / MEM_ALIGN < |heads|
    && (pg.free >= pg.size <==> heads[pg.size / MEM_ALIGN] == q)
  }

  /** The cells handed out, with their sizes. */
  ghost function LiveCells(pages: Pages, places: Places): map<Addr, nat> {
    map x | x in places && places[x] == Live :: SizeOf(pages, x)
  }

  // ------------------------------------------------------------------ arithmetic

  lemma PageAddrIs(q: Addr, x: Addr)
    requires PageAddr(q) == q && q <= x < q + PAGE_SIZE
    ensures PageAddr(x) == q
  {
  }

  lemma MultipleSum(a: int, b: int, s: nat)
    requires Multiple(a, s)
    ensures Multiple(b, s) ==> Multiple(a + b, s) && Multiple(a - b, s)
  {
    if Multiple(b, s) {
      var i, j := a / s, b / s;
      assert a == i * s && b == j * s;
      ModOfTimes(i + j, s);
      ModOfTimes(i - j, s);
      assert a + b == (i + j) * s && a - b == (i - j) * s;
    }
  }

  lemma ModOfTimes(i: int, s: nat)
    requires s > 0
    ensures Multiple(i * s, s)
  {
    var n := i * s;
    var k, r := n / s, n % s;
    assert n == k * s + r;
    assert r == (i - k) * s;
    Between(i - k, s);
  }

  lemma Between(d: int, s: nat)
    ensures d >= 1 ==> d * s >= s
    ensures d <= -1 ==> d * s + s <= 0
    ensures d == 0 ==> d * s == 0
  {
  }

  /** Two different multiples of s are at least s apart. */
  lemma MultipleApart(a: int, b: int, s: nat)
    requires Multiple(a, s) && Multiple(b, s) && a < b
    ensures a + s <= b
  {
    MultipleSum(b, a, s);
    var d := (b - a) / s;
    assert b - a == d * s;
    if d <= 0 { MulLe2(d, s); }
    assert d >= 1;
    assert d * s >= s;
  }

  lemma MulLe2(d: int, s: nat)
    requires d <= 0
    ensures d * s <= 0
  {
  }

  lemma ForeignHead(c: Addr, s: seq<Addr>)
    requires s != []
    ensures Foreign(c, s) == (if PageAddr(s[0]) != c then 1 else 0) + Foreign(c, s[1..])
  {
  }

  lemma ForeignNil(c: Addr)
    ensures Foreign(c, []) == 0
  {
  }

  lemma TimesNext(s: nat, n: nat)
    ensures Times(s, n + 1) == Times(s, n) + s && Times(s, 0) == 0
  {
  }

  // -------------------------------------------------------- what a cell occupies

  /** A carved cell lies within the data of its page. */
  lemma CellInside(q: Addr, pg: Page, x: Addr)
    requires PageShaped(q, pg) && CellOf(q, pg, x)
    ensures q + DATA <= x && x + pg.size <= q + PAGE_SIZE
  {
    MultipleApart(x - q - DATA, pg.acc, pg.size);
  }

  lemma PageOrder(x: Addr, y: Addr)
    requires x < y && PageAddr(x) != PageAddr(y)
    ensures PageAddr(x) + PAGE_SIZE <= y
  {
  }

  /** No two live cells share a byte. */
  lemma CellsApart(pages: Pages, x: Addr, y: Addr)
    requires Accounts(pages) && Carved(pages, x) && Carved(pages, y) && x < y
    ensures x + SizeOf(pages, x) <= y
  {
    hide PageAddr, Multiple;
    var q := PageAddr(x);
    CellInside(q, pages[q], x);
    if PageAddr(y) != q {
      PageOrder(x, y);
    } else {
      MultipleApart(x - q - DATA, y - q - DATA, pages[q].size);
    }
  }

  // --------------------------------------------------- the cells of a full list

  /** The cells of the first acc bytes of q. */
  ghost function CellsOf(q: Addr, size: nat, acc: nat): (r: set<Addr>)
    requires size > 0
    decreases acc
  {
    if acc < size then {} else CellsOf(q, size, acc - size) + {q + DATA + (acc - size)}
  }

  ghost predicate AreCells(S: set<Addr>, q: Addr, pg: Page, acc: nat) {
    && (forall x :: x in S <==> CellOf(q, pg.(acc := acc), x))
    && Times(pg.size, |S|) == acc
  }

  lemma {:induction false} CellsOfIs(q: Addr, pg: Page, acc: nat)
    requires PageAddr(q) == q && pg.size > 0 && Multiple(acc, pg.size) && acc <= CELL_SPACE
    ensures AreCells(CellsOf(q, pg.size, acc), q, pg, acc)
    decreases acc
  {
    hide PageAddr, Multiple, AreCells;
    if acc < pg.size {
      SmallMultiple(acc, pg.size);
      NoCells(q, pg);
    } else {
      MultipleSum(acc, pg.size, pg.size);
      SelfMultiple(pg.size);
      CellsOfIs(q, pg, acc - pg.size);
      CellsOfNext(q, pg, acc - pg.size, CellsOf(q, pg.size, acc - pg.size));
    }
  }

  lemma NoCells(q: Addr, pg: Page)
    ensures AreCells({}, q, pg, 0)
  {
    TimesNext(pg.size, 0);
  }

  lemma CellsOfNext(q: Addr, pg: Page, acc: nat, S: set<Addr>)
    requires PageAddr(q) == q && pg.size > 0 && Multiple(acc, pg.size) && acc + pg.size <= CELL_SPACE
    requires AreCells(S, q, pg, acc)
    ensures AreCells(S + {q + DATA + acc}, q, pg, acc + pg.size)
  {
    hide PageAddr, Multiple, Times;
    forall x: Addr ensures CellOf(q, pg.(acc := acc + pg.size), x) <==> CellOf(q, pg.(acc := acc), x) || x == q + DATA + acc {
      OneMoreCell(q, pg, acc, x);
    }
    assert q + DATA + acc !in S;
    TimesNext(pg.size, |S|);
  }

  /** Moving acc on by one cell carves exactly the cell where it stood. */
  lemma OneMoreCell(q: Addr, pg: Page, acc: nat, x: Addr)
    requires PageAddr(q) == q && pg.size > 0 && Multiple(acc, pg.size) && acc + pg.size <= CELL_SPACE
    ensures CellOf(q, pg.(acc := acc + pg.size), x) <==> CellOf(q, pg.(acc := acc), x) || x == q + DATA + acc
  {
    hide PageAddr, Multiple;
    PageAddrIs(q, q + DATA + acc);
    if CellOf(q, pg.(acc := acc + pg.size), x) && x > q + DATA + acc {
      MultipleApart(acc, x - q - DATA, pg.size);
    }
  }

  lemma SelfMultiple(s: nat)
    requires s > 0
    ensures Multiple(s, s)
  {
  }

  lemma SmallMultiple(a: nat, s: nat)
    requires Multiple(a, s) && a < s
    ensures a == 0
  {
  }

  lemma {:induction false} ForeignNone(q: Addr, s: seq<Addr>, i: nat)
    requires Foreign(q, s) == 0 && i < |s|
    ensures PageAddr(s[i]) == q
  {
    if i > 0 { ForeignNone(q, s[1..], i - 1); }
  }

  lemma {:induction false} ElementsOf(s: seq<Addr>) returns (e: set<Addr>)
    requires NoDup(s)
    ensures forall x :: x in e <==> x in s
    ensures |e| == |s|
  {
    if s == [] {
      e := {};
    } else {
      var f := ElementsOf(s[1..]);
      e := f + {s[0]};
      assert s == [s[0]] + s[1..];
    }
  }

  lemma {:induction false} SubsetFull(a: set<Addr>, b: set<Addr>)
    requires a <= b && |a| == |b|
    ensures a == b
  {
    if x :| x in a {
      SubsetFull(a - {x}, b - {x});
    }
  }

  lemma TimesCancel(s: nat, a: nat, b: nat)
    requires s > 0 && Times(s, a) == Times(s, b)
    ensures a == b
  {
    MulCancelOr(s, a, b);
    MulCancelOr(s, b, a);
  }

  lemma MulCancelOr(s: nat, a: nat, b: nat)
    requires s > 0
    ensures a < b ==> Times(s, a) < Times(s, b)
  {
    if a < b {
      assert s * b == s * a + s * (b - a);
    }
  }

  /** The test that gives a page back: its counters say that the list of the page
      holds each of its own cells, and nothing else. */
  lemma FullIsIdle(pages: Pages, shared: seq<seq<Addr>>, places: Places, q: Addr)
    requires Accounts(pages) && Placed(pages, shared, places) && q in pages
    requires pages[q].free == CELL_SPACE && pages[q].foreignCells == 0
    ensures forall x :: CellOf(q, pages[q], x) <==> x in pages[q].freeList
    ensures forall x :: CellOf(q, pages[q], x) ==> x in places && places[x] == On(q)
  {
    hide PageAddr, Multiple, Times, CellOf, SharedPlaced, AllPlaced;
    assert ListPlaced(pages, places, q);
    var pg := pages[q];
    CellsOfIs(q, pg, pg.acc);
    assert pg.(acc := pg.acc) == pg;
    assert AreCells(CellsOf(q, pg.size, pg.acc), q, pg, pg.acc);
    var e := ElementsOf(pg.freeList);
    forall x | x in e ensures x in CellsOf(q, pg.size, pg.acc) {
      var i :| 0 <= i < |pg.freeList| && pg.freeList[i] == x;
      ForeignNone(q, pg.freeList, i);
      PlacedCarved(pages, places, x) by { assert AllPlaced(pages, places); }
      assert CellOf(q, pg, x);
    }
    TimesCancel(pg.size, |e|, |CellsOf(q, pg.size, pg.acc)|);
    SubsetFull(e, CellsOf(q, pg.size, pg.acc));
  }

  lemma PlacedCarved(pages: Pages, places: Places, x: Addr)
    requires AllPlaced(pages, places) && x in places
    ensures PageAddr(x) in pages && CellOf(PageAddr(x), pages[PageAddr(x)], x)
  {
  }

  /** The list of the page holds each of its own carved cells, and nothing else. */
  ghost predicate Idle(q: Addr, pg: Page) { forall x :: CellOf(q, pg, x) <==> x in pg.freeList }

  lemma {:induction false} ForeignOwn(q: Addr, s: seq<Addr>)
    requires forall x :: x in s ==> PageAddr(x) == q
    ensures Foreign(q, s) == 0
  {
    hide PageAddr;
    if s != [] {
      assert s[0] in s && forall x :: x in s[1..] ==> x in s;
      ForeignOwn(q, s[1..]);
    }
  }

  /** The counters of a page tell exactly whether it is idle. */
  lemma IdleIff(pages: Pages, shared: seq<seq<Addr>>, places: Places, q: Addr)
    requires Accounts(pages) && Placed(pages, shared, places) && q in pages
    ensures Idle(q, pages[q]) <==> pages[q].free == CELL_SPACE && pages[q].foreignCells == 0
  {
    hide PageAddr, Multiple, Times, CellOf, SharedPlaced, AllPlaced, Foreign;
    var pg := pages[q];
    if pg.free == CELL_SPACE && pg.foreignCells == 0 { FullIsIdle(pages, shared, places, q); }
    if Idle(q, pg) {
      assert ListPlaced(pages, places, q) && Counted(q, pg) && PageShaped(q, pg);
      CellsOfIs(q, pg, pg.acc);
      assert pg.(acc := pg.acc) == pg;
      var e := ElementsOf(pg.freeList);
      assert e == CellsOf(q, pg.size, pg.acc);
      forall x | x in pg.freeList ensures PageAddr(x) == q { OwnCell(q, pg, x); }
      ForeignOwn(q, pg.freeList);
    }
  }

  lemma OwnCell(q: Addr, pg: Page, x: Addr)
    requires CellOf(q, pg, x)
    ensures PageAddr(x) == q
  {
  }

  // --------------------------------------------------- the bytes accounted for

  ghost function Sum(m: map<Addr, nat>): nat {
    if m == map[] then 0 else var a :| a in m; m[a] + Sum(m - {a})
  }

  lemma {:induction false} SumWithout(m: map<Addr, nat>, b: Addr)
    requires b in m
    ensures Sum(m) == m[b] + Sum(m - {b})
    decreases |m|
  {
    var a :| a in m && Sum(m) == m[a] + Sum(m - {a});
    if a != b {
      SumWithout(m - {a}, b);
      SumWithout(m - {b}, a);
      assert m - {a} - {b} == m - {b} - {a};
    }
  }

  lemma SumWith(m: map<Addr, nat>, b: Addr, n: nat)
    requires b !in m
    ensures Sum(m[b := n]) == Sum(m) + n
  {
    SumWithout(m[b := n], b);
    assert m[b := n] - {b} == m;
  }

  ghost function Except(m: map<Addr, nat>, s: seq<Addr>): map<Addr, nat> { map x | x in m && x !in s :: m[x] }

  lemma {:induction false} SumExcept(m: map<Addr, nat>, s: seq<Addr>, n: nat)
    requires NoDup(s) && forall x :: x in s ==> x in m && m[x] == n
    ensures Sum(m) == Sum(Except(m, s)) + Times(n, |s|)
  {
    if s == [] {
      TimesNext(n, 0);
      assert Except(m, s) == m;
    } else {
      hide Times, Sum;
      assert s == [s[0]] + s[1..];
      SumWithout(m, s[0]);
      SumExcept(m - {s[0]}, s[1..], n);
      assert Except(m - {s[0]}, s[1..]) == Except(m, s);
      TimesNext(n, |s| - 1);
    }
  }

  /** The cells that count as handed out: those freed by other threads do until the
      owner takes them over. */
  ghost function Charged(pages: Pages, places: Places): map<Addr, nat> {
    map x | x in places && !places[x].On? :: SizeOf(pages, x)
  }

  ghost predicate SameSizesOf(pages: Pages, pages': Pages, places: Places) {
    forall y :: y in places && !places[y].On? ==> SizeOf(pages', y) == SizeOf(pages, y)
  }

  /** x is handed out, from a list or newly carved. */
  lemma ChargeMore(pages: Pages, pages': Pages, places: Places, x: Addr)
    requires SameSizesOf(pages, pages', places) && (x in places ==> places[x].On?)
    ensures Sum(Charged(pages', places[x := Live])) == Sum(Charged(pages, places)) + SizeOf(pages', x)
  {
    hide SizeOf, Sum;
    assert Charged(pages', places[x := Live]) == Charged(pages, places)[x := SizeOf(pages', x)];
    SumWith(Charged(pages, places), x, SizeOf(pages', x));
  }

  /** x, handed out so far, goes on the list of a page. */
  lemma ChargeLess(pages: Pages, pages': Pages, places: Places, x: Addr, q: Addr)
    requires SameSizesOf(pages, pages', places) && x in places && places[x] == Live
    ensures Sum(Charged(pages', places[x := On(q)])) + SizeOf(pages, x) == Sum(Charged(pages, places))
  {
    hide SizeOf, Sum;
    assert Charged(pages', places[x := On(q)]) == Charged(pages, places) - {x};
    SumWithout(Charged(pages, places), x);
  }

  lemma ChargeSame(pages: Pages, pages': Pages, places: Places, places': Places)
    requires SameSizesOf(pages, pages', places)
    requires forall x :: (x in places && !places[x].On?) <==> (x in places' && !places'[x].On?)
    ensures Charged(pages', places') == Charged(pages, places)
  {
    hide SizeOf;
  }

  lemma ChargeDrained(pages: Pages, pages': Pages, places: Places, s: seq<Addr>, q: Addr, n: nat)
    requires SameSizesOf(pages, pages', places) && NoDup(s)
    requires forall x :: x in s ==> x in places && places[x] == Shared && SizeOf(pages, x) == n
    ensures Sum(Charged(pages', map x | x in places :: if x in s then On(q) else places[x])) + Times(n, |s|) == Sum(Charged(pages, places))
  {
    hide SizeOf, Sum, Times;
    var places' := map x | x in places :: if x in s then On(q) else places[x];
    assert Charged(pages', places') == Except(Charged(pages, places), s);
    SumExcept(Charged(pages, places), s, n);
  }
}
