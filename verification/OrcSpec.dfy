/** The invariants of the three phases of a cycle collection (marking, scanning,
    collecting), as predicates over values, with one lemma for each kind of step. */
module OrcSpec {
  import opened OrcGraph

  /** The reference-count word is 16 * (references - 1) + colour, and rootIdx is
      one more than the position in the list of candidate roots, or zero. */
  datatype Header = Header(rc: int, rootIdx: nat)

  const RC_INCREMENT := 16
  const BLACK := 0
  const GRAY := 1
  const WHITE := 2

  function Count(rc: int): int { rc / 16 }

  function Color(rc: int): int { rc % 4 }

  function WithColor(rc: int, col: int): int { rc - rc % 4 + col }

  lemma WordLaws(rc: int, col: int)
    requires 0 <= col < 4
    ensures Count(rc + RC_INCREMENT) == Count(rc) + 1 && Color(rc + RC_INCREMENT) == Color(rc)
    ensures Count(rc - RC_INCREMENT) == Count(rc) - 1 && Color(rc - RC_INCREMENT) == Color(rc)
    ensures Count(WithColor(rc, col)) == Count(rc) && Color(WithColor(rc, col)) == col
  {
    var n, flags, a, b := rc / 16, rc % 16, rc / 4, rc % 4;
    var k := a - 4 * n;
    assert flags - b == 4 * k && 0 <= k <= 3;
    Div16(rc + 16, n + 1, flags);
    Mod4(rc + 16, a + 4, b);
    Div16(rc - 16, n - 1, flags);
    Mod4(rc - 16, a - 4, b);
    Div16(rc - b + col, n, 4 * k + col);
    Mod4(rc - b + col, a, col);
  }

  lemma Div16(x: int, q: int, m: int)
    requires x == 16 * q + m && 0 <= m < 16
    ensures x / 16 == q
  {
  }

  lemma Mod4(x: int, q: int, m: int)
    requires x == 4 * q + m && 0 <= m < 4
    ensures x % 4 == m
  {
  }

  type Headers = map<Cell, Header>

  function SetColor(hd: Headers, c: Cell, col: int): (r: Headers)
    ensures r.Keys == hd.Keys
  {
    if c in hd then hd[c := hd[c].(rc := WithColor(hd[c].rc, col))] else hd
  }

  function AddRc(hd: Headers, c: Cell, k: int): (r: Headers)
    ensures r.Keys == hd.Keys
  {
    if c in hd then hd[c := hd[c].(rc := hd[c].rc + k)] else hd
  }

  lemma SetColorIs(hd: Headers, c: Cell, col: int)
    requires c in hd && 0 <= col < 4
    ensures var hd' := SetColor(hd, c, col);
            && hd'.Keys == hd.Keys
            && Color(hd'[c].rc) == col && Count(hd'[c].rc) == Count(hd[c].rc) && hd'[c].rootIdx == hd[c].rootIdx
            && forall d :: d in hd && d != c ==> hd'[d] == hd[d]
  {
    WordLaws(hd[c].rc, col);
  }

  lemma AddRcIs(hd: Headers, c: Cell)
    requires c in hd
    ensures var up, down := AddRc(hd, c, RC_INCREMENT), AddRc(hd, c, -RC_INCREMENT);
            && up.Keys == hd.Keys == down.Keys
            && Color(up[c].rc) == Color(down[c].rc) == Color(hd[c].rc)
            && Count(up[c].rc) == Count(hd[c].rc) + 1 && Count(down[c].rc) == Count(hd[c].rc) - 1
            && up[c].rootIdx == down[c].rootIdx == hd[c].rootIdx
            && forall d :: d in hd && d != c ==> up[d] == hd[d] == down[d]
  {
    WordLaws(hd[c].rc, 0);
  }

  /** The stored count of every cell is the number of references to it, less one. */
  ghost predicate Exact(g: Graph, hd: Headers) {
    && hd.Keys == g.fields.Keys
    && g.NoDangling()
    && forall c :: c in hd ==> Count(hd[c].rc) + 1 == |g.Into(g.AllRefs(), c)|
  }

  /** rootIdx and the list of candidate roots point at each other. */
  ghost predicate RootsAgree(hd: Headers, roots: seq<Cell>) {
    && (forall i :: 0 <= i < |roots| ==> roots[i] in hd && hd[roots[i]].rootIdx == i + 1)
    && (forall c :: c in hd && hd[c].rootIdx > 0 ==> hd[c].rootIdx <= |roots| && roots[hd[c].rootIdx - 1] == c)
  }

  lemma RootExists(g: Graph, hd0: Headers, hd: Headers, roots: seq<Cell>, i: int)
    requires RootsAgree(hd0, roots) && hd.Keys == hd0.Keys && 0 <= i < |roots|
    ensures roots[i] in hd
  {
  }

  ghost predicate SameShape(g: Graph, hd0: Headers, hd: Headers) {
    && hd.Keys == hd0.Keys == g.fields.Keys
    && forall c :: c in hd ==> hd[c].rootIdx == hd0[c].rootIdx
  }

  ghost predicate Colors(hd: Headers, gray: set<Cell>, white: set<Cell>) {
    forall c :: c in hd ==>
      Color(hd[c].rc) == if c in gray then GRAY else if c in white then WHITE else BLACK
  }

  /** Each count has lost one for every member of P that refers to the cell. */
  ghost predicate Decremented(g: Graph, hd0: Headers, hd: Headers, P: set<Ref>) {
    forall c :: c in hd && c in hd0 ==> Count(hd[c].rc) == Count(hd0[c].rc) - |g.Into(P, c)|
  }

  ghost predicate Incremented(g: Graph, hd0: Headers, hd: Headers, P: set<Ref>) {
    forall c :: c in hd && c in hd0 ==> Count(hd[c].rc) == Count(hd0[c].rc) + |g.Into(P, c)|
  }

  lemma Decrement(g: Graph, hd0: Headers, hd: Headers, P: set<Ref>, r: Ref, t: Cell)
    requires Decremented(g, hd0, hd, P) && r !in P && g.Target(r) == To(t) && t in hd
    ensures Decremented(g, hd0, AddRc(hd, t, -RC_INCREMENT), P + {r})
  {
    AddRcIs(hd, t);
    hide AddRc, Count, Color, Graph.Target, Graph.Into;
    forall c | c in hd && c in hd0 ensures |g.Into(P + {r}, c)| == |g.Into(P, c)| + (if c == t then 1 else 0) {
      IntoAdd(g, P, r, c);
    }
  }

  lemma Increment(g: Graph, hd0: Headers, hd: Headers, P: set<Ref>, r: Ref, t: Cell)
    requires Incremented(g, hd0, hd, P) && r !in P && g.Target(r) == To(t) && t in hd
    ensures Incremented(g, hd0, AddRc(hd, t, RC_INCREMENT), P + {r})
  {
    AddRcIs(hd, t);
    hide AddRc, Count, Color, Graph.Target, Graph.Into;
    forall c | c in hd && c in hd0 ensures |g.Into(P + {r}, c)| == |g.Into(P, c)| + (if c == t then 1 else 0) {
      IntoAdd(g, P, r, c);
    }
  }

  /** Painting a cell changes neither counts nor root positions. */
  lemma Paint(g: Graph, hd0: Headers, hd: Headers, gray: set<Cell>, white: set<Cell>, c: Cell, col: int)
    requires SameShape(g, hd0, hd) && c in hd && col in {BLACK, GRAY, WHITE}
    requires forall d :: d in hd && d != c ==> Color(hd[d].rc) == if d in gray then GRAY else if d in white then WHITE else BLACK
    requires (c in gray) == (col == GRAY) && (c in white) == (col == WHITE)
    ensures var hd' := SetColor(hd, c, col);
            && SameShape(g, hd0, hd') && Colors(hd', gray, white)
            && Count(hd'[c].rc) == Count(hd[c].rc)
            && (forall P :: Decremented(g, hd0, hd, P) ==> Decremented(g, hd0, hd', P))
            && (forall P :: Incremented(g, hd0, hd, P) ==> Incremented(g, hd0, hd', P))
  {
    hide Graph.Into, SetColor, Count, Color;
    SetColorIs(hd, c, col);
  }

  // ------------------------------------------------------------- trace stack

  ghost function Elems<T>(s: seq<T>): set<T> { set x | x in s }

  ghost predicate NoDup<T>(s: seq<T>) {
    forall i, j :: 0 <= i < j < |s| ==> s[i] != s[j]
  }

  /** What tracing the first n fields of c pushes: one entry per non-nil field, in order. */
  function Pushed(c: Cell, fs: seq<Slot>, n: nat): (r: seq<Ref>)
    requires n <= |fs|
  {
    if n == 0 then []
    else Pushed(c, fs, n - 1) + if fs[n - 1].To? then [Field(c, n - 1)] else []
  }

  /** What tracing c pushes. */
  function Traced(g: Graph, c: Cell): seq<Ref> {
    if c in g.fields then Pushed(c, g.fields[c], |g.fields[c]|) else []
  }

  lemma {:induction false} PushedIs(c: Cell, fs: seq<Slot>, n: nat)
    requires n <= |fs|
    ensures NoDup(Pushed(c, fs, n))
    ensures forall r :: r in Pushed(c, fs, n) <==> r.Field? && r.owner == c && r.index < n && fs[r.index].To?
  {
    if n > 0 {
      PushedIs(c, fs, n - 1);
    }
  }

  lemma PushedIsOut(g: Graph, c: Cell)
    requires c in g.fields
    ensures NoDup(Traced(g, c))
    ensures Elems(Traced(g, c)) == g.Out({c})
  {
    var s := Traced(g, c);
    PushedIs(c, g.fields[c], |g.fields[c]|);
    forall r ensures r in Elems(s) <==> r in g.Out({c}) {
      OutIs(g, {c}, r);
    }
  }

  lemma OutAdd(g: Graph, S: set<Cell>, c: Cell)
    requires c !in S
    ensures g.Out(S + {c}) == g.Out(S) + g.Out({c})
    ensures g.Out(S) !! g.Out({c})
  {
  }

  /** done have been handled, the stack holds the rest of the fields of the cells in S. */
  ghost predicate Pending(g: Graph, S: set<Cell>, done: set<Ref>, stack: seq<Ref>) {
    NoDup(stack) && done !! Elems(stack) && done + Elems(stack) == g.Out(S)
  }

  lemma PendingPop(g: Graph, S: set<Cell>, done: set<Ref>, stack: seq<Ref>) returns (r: Ref, t: Cell)
    requires Pending(g, S, done, stack) && stack != []
    ensures r == stack[|stack| - 1] && r !in done && r in g.Out(S)
    ensures r.Field? && r.owner in S && g.Target(r) == To(t) && g.Edge(r.owner, t)
    ensures Pending(g, S, done + {r}, stack[..|stack| - 1])
  {
    r := stack[|stack| - 1];
    assert r in Elems(stack);
    OutIs(g, S, r);
    t := g.Target(r).cell;
    OutEdge(g, r);
    var rest := stack[..|stack| - 1];
    assert stack == rest + [r];
    assert r !in rest;
    assert Elems(stack) == Elems(rest) + {r};
  }

  lemma PendingPush(g: Graph, S: set<Cell>, done: set<Ref>, stack: seq<Ref>, c: Cell)
    requires Pending(g, S, done, stack) && c !in S && c in g.fields
    ensures Pending(g, S + {c}, done, stack + Traced(g, c))
  {
    PushedIsOut(g, c);
    OutAdd(g, S, c);
    var t := Traced(g, c);
    forall i, j | 0 <= i < j < |stack + t| ensures (stack + t)[i] != (stack + t)[j] {
      if i < |stack| <= j {
        assert stack[i] in Elems(stack) && t[j - |stack|] in Elems(t);
      }
    }
    assert Elems(stack + t) == Elems(stack) + Elems(t);
  }

  lemma TargetExists(g: Graph, hd0: Headers, r: Ref, t: Cell)
    requires Exact(g, hd0) && g.Target(r) == To(t)
    ensures t in hd0 && t in g.fields
  {
    hide Graph.Into;
  }

  // ------------------------------------------------------------------ marking

  ghost predicate TargetsIn(g: Graph, P: set<Ref>, S: set<Cell>) {
    forall r :: r in P ==> g.Target(r).To? && g.Target(r).cell in S
  }

  /** done are the edges whose decrement has been made; the stack holds the others
      that leave gray cells. */
  ghost predicate Marking(g: Graph, hd0: Headers, hd: Headers, gray: set<Cell>, done: set<Ref>, stack: seq<Ref>) {
    && SameShape(g, hd0, hd)
    && gray <= hd.Keys
    && Colors(hd, gray, {})
    && Decremented(g, hd0, hd, done)
    && Pending(g, gray, done, stack)
  }

  /** All references, from anywhere, to members of S. */
  ghost function AllInto(g: Graph, S: set<Cell>): set<Ref> {
    set r | r in g.AllRefs() && g.Target(r).To? && g.Target(r).cell in S
  }

  lemma AllIntoAdd(g: Graph, hd0: Headers, S: set<Cell>, c: Cell)
    requires Exact(g, hd0) && c in hd0 && c !in S
    ensures |AllInto(g, S + {c})| == |AllInto(g, S)| + Count(hd0[c].rc) + 1
  {
    hide Graph.Target, Graph.AllRefs, Graph.NoDangling;
    assert AllInto(g, S + {c}) == AllInto(g, S) + g.Into(g.AllRefs(), c);
    assert AllInto(g, S) !! g.Into(g.AllRefs(), c);
  }

  lemma IntoNothing(g: Graph, P: set<Ref>, S: set<Cell>, c: Cell)
    requires TargetsIn(g, P, S) && c !in S
    ensures g.Into(P, c) == {}
  {
  }

  /** Marking together with its three counters. */
  ghost predicate MarkState(g: Graph, start: set<Cell>, hd0: Headers, hd: Headers, gray: set<Cell>, done: set<Ref>, stack: seq<Ref>,
                            edges: int, rcSum: int, touched: int) {
    && Marking(g, hd0, hd, gray, done, stack)
    && TargetsIn(g, done, gray)
    && gray <= g.Reach(start)
    && edges == |done| && rcSum == |AllInto(g, gray)| && touched == |gray|
  }

  lemma TargetsInGrow(g: Graph, P: set<Ref>, S: set<Cell>, S': set<Cell>)
    requires TargetsIn(g, P, S) && S <= S'
    ensures TargetsIn(g, P, S')
  {
    hide Graph.Target;
  }

  lemma TargetsInAdd(g: Graph, P: set<Ref>, S: set<Cell>, r: Ref)
    requires TargetsIn(g, P, S) && g.Target(r).To? && g.Target(r).cell in S
    ensures TargetsIn(g, P + {r}, S)
  {
    hide Graph.Target;
  }

  /** A cell that marking has not reached still has its first count. */
  lemma UnmarkedCount(g: Graph, hd0: Headers, hd: Headers, gray: set<Cell>, done: set<Ref>, c: Cell)
    requires Decremented(g, hd0, hd, done) && TargetsIn(g, done, gray) && c in hd && c in hd0 && c !in gray
    ensures Count(hd[c].rc) == Count(hd0[c].rc)
  {
    IntoNothing(g, done, gray, c);
  }

  /** Marking paints c gray, adds up its count and traces it. */
  lemma MarkCell(g: Graph, hd0: Headers, hd: Headers, gray: set<Cell>, done: set<Ref>, stack: seq<Ref>, c: Cell)
    requires Marking(g, hd0, hd, gray, done, stack) && c in hd && c !in gray
    ensures var hd' := SetColor(hd, c, GRAY);
            && Marking(g, hd0, hd', gray + {c}, done, stack + Traced(g, c))
            && Count(hd'[c].rc) == Count(hd[c].rc)
  {
    hide Pending, Decremented, Incremented, Traced, SetColor, AddRc, Count;
    Paint(g, hd0, hd, gray + {c}, {}, c, GRAY);
    PendingPush(g, gray, done, stack, c);
  }

  lemma MarkFirst(g: Graph, start: set<Cell>, hd0: Headers, hd: Headers, gray: set<Cell>, done: set<Ref>, edges: int, rcSum: int, touched: int, s: Cell)
    requires Exact(g, hd0) && MarkState(g, start, hd0, hd, gray, done, [], edges, rcSum, touched)
    requires s in start && s in hd
    ensures s in g.fields && (Color(hd[s].rc) != GRAY <==> s !in gray)
    ensures s !in gray ==>
              var hd' := SetColor(hd, s, GRAY);
              MarkState(g, start, hd0, hd', gray + {s}, done, [] + Traced(g, s),
                        edges, rcSum + (Count(hd'[s].rc) + 1), touched + 1)
  {
    hide Graph.Reach, Pending, Decremented, TargetsIn, Traced, Count, SetColor, AddRc, AllInto;
    if s !in gray {
      ReachStart(g, start, s);
      UnmarkedCount(g, hd0, hd, gray, done, s);
      MarkCell(g, hd0, hd, gray, done, [], s);
      TargetsInGrow(g, done, gray, gray + {s});
      AllIntoAdd(g, hd0, gray, s);
    }
  }

  /** The content of the field that a stack entry names. */
  ghost predicate Names(g: Graph, r: Ref, t: Cell) {
    r.Field? && r.owner in g.fields && r.index < |g.fields[r.owner]| && g.fields[r.owner][r.index] == To(t) && t in g.fields
  }

  lemma NamesIs(g: Graph, r: Ref, t: Cell)
    requires r.Field? && g.Target(r) == To(t) && t in g.fields
    ensures Names(g, r, t)
  {
  }

  /** markGray pops an entry and takes one off the count of the cell it names. */
  lemma MarkPop(g: Graph, start: set<Cell>, hd0: Headers, hd: Headers, gray: set<Cell>, done: set<Ref>, stack: seq<Ref>,
                edges: int, rcSum: int, touched: int)
    returns (r: Ref, t: Cell)
    requires Exact(g, hd0) && MarkState(g, start, hd0, hd, gray, done, stack, edges, rcSum, touched) && stack != []
    ensures r == stack[|stack| - 1] && Names(g, r, t) && t in hd && t in hd0 && g.Target(r) == To(t) && r !in done
    ensures TargetsIn(g, done, gray) && gray <= g.Reach(start) && gray <= hd.Keys
    ensures edges == |done| && rcSum == |AllInto(g, gray)| && touched == |gray|
    ensures Marking(g, hd0, AddRc(hd, t, -RC_INCREMENT), gray, done + {r}, stack[..|stack| - 1])
    ensures t in g.Reach(start)
  {
    hide Graph.Reach, Graph.Into, Graph.Out, Graph.Target, Graph.NoDangling, Pending, Decremented, Count, AddRc, TargetsIn, AllInto;
    r, t := PendingPop(g, gray, done, stack);
    TargetExists(g, hd0, r, t);
    NamesIs(g, r, t);
    Decrement(g, hd0, hd, done, r, t);
    ReachStep(g, start, r.owner, t);
    AddRcIs(hd, t);
  }

  /** The popped entry named a cell that was gray already. */
  lemma MarkSeen(g: Graph, start: set<Cell>, hd0: Headers, hd: Headers, gray: set<Cell>, done: set<Ref>, stack: seq<Ref>,
                 edges: int, rcSum: int, touched: int, r: Ref, t: Cell)
    requires Marking(g, hd0, hd, gray, done + {r}, stack) && TargetsIn(g, done, gray) && gray <= g.Reach(start)
    requires r !in done && g.Target(r) == To(t) && t in gray
    requires edges == |done| && rcSum == |AllInto(g, gray)| && touched == |gray|
    ensures MarkState(g, start, hd0, hd, gray, done + {r}, stack, edges + 1, rcSum, touched)
  {
    hide Graph.Reach, Marking, TargetsIn, AllInto;
    TargetsInAdd(g, done, gray, r);
  }

  /** The popped entry named a new cell, which is painted gray, added up and traced. */
  lemma MarkNew(g: Graph, start: set<Cell>, hd0: Headers, hd: Headers, gray: set<Cell>, done: set<Ref>, stack: seq<Ref>,
                edges: int, rcSum: int, touched: int, r: Ref, t: Cell)
    requires Exact(g, hd0) && Marking(g, hd0, hd, gray, done + {r}, stack) && TargetsIn(g, done, gray) && gray <= g.Reach(start)
    requires r !in done && g.Target(r) == To(t) && t !in gray && t in hd && t in hd0 && t in g.Reach(start)
    requires edges == |done| && rcSum == |AllInto(g, gray)| && touched == |gray|
    ensures MarkState(g, start, hd0, SetColor(hd, t, GRAY), gray + {t}, done + {r}, stack + Traced(g, t),
                      edges + 1, rcSum + (Count(SetColor(hd, t, GRAY)[t].rc) + 2), touched + 1)
  {
    hide Graph.Reach, Marking, TargetsIn, AllInto, Exact, SetColor, Count, Traced;
    NewCount(g, hd0, hd, gray, done, stack, r, t);
    MarkCell(g, hd0, hd, gray, done + {r}, stack, t);
    TargetsInGrow(g, done, gray, gray + {t});
    TargetsInAdd(g, done, gray + {t}, r);
    AllIntoAdd(g, hd0, gray, t);
  }

  lemma MarkColor(g: Graph, hd0: Headers, hd: Headers, gray: set<Cell>, done: set<Ref>, stack: seq<Ref>, t: Cell)
    requires Marking(g, hd0, hd, gray, done, stack) && t in hd
    ensures Color(hd[t].rc) == GRAY <==> t in gray
  {
    hide Pending, Decremented;
  }

  lemma NewCount(g: Graph, hd0: Headers, hd: Headers, gray: set<Cell>, done: set<Ref>, stack: seq<Ref>, r: Ref, t: Cell)
    requires Marking(g, hd0, hd, gray, done + {r}, stack) && TargetsIn(g, done, gray)
    requires r !in done && g.Target(r) == To(t) && t !in gray && t in hd && t in hd0
    ensures Count(hd[t].rc) + 1 == Count(hd0[t].rc)
  {
    hide Pending, TargetsIn, Colors, Count;
    IntoNothing(g, done, gray, t);
    IntoAdd(g, done, r, t);
  }

  /** One round of markGray's loop. */
  lemma MarkStep(g: Graph, start: set<Cell>, hd0: Headers, hd: Headers, gray: set<Cell>, done: set<Ref>, stack: seq<Ref>,
                 edges: int, rcSum: int, touched: int)
    returns (r: Ref, t: Cell, gray': set<Cell>)
    requires Exact(g, hd0) && MarkState(g, start, hd0, hd, gray, done, stack, edges, rcSum, touched) && stack != []
    ensures r == stack[|stack| - 1] && Names(g, r, t) && t in hd
    ensures var hd1 := AddRc(hd, t, -RC_INCREMENT);
            var rest := stack[..|stack| - 1];
            if Color(hd1[t].rc) != GRAY then
              var hd2 := SetColor(hd1, t, GRAY);
              && t !in gray && gray' == gray + {t}
              && MarkState(g, start, hd0, hd2, gray', done + {r}, rest + Traced(g, t), edges + 1, rcSum + (Count(hd2[t].rc) + 2), touched + 1)
            else
              && gray' == gray
              && MarkState(g, start, hd0, hd1, gray', done + {r}, rest, edges + 1, rcSum, touched)
  {
    hide *;
    r, t := MarkPop(g, start, hd0, hd, gray, done, stack, edges, rcSum, touched);
    var hd1 := AddRc(hd, t, -RC_INCREMENT);
    var rest := stack[..|stack| - 1];
    MarkColor(g, hd0, hd1, gray, done + {r}, rest, t);
    if t in gray {
      MarkSeen(g, start, hd0, hd1, gray, done, rest, edges, rcSum, touched, r, t);
      gray' := gray;
    } else {
      MarkNew(g, start, hd0, hd1, gray, done, rest, edges, rcSum, touched, r, t);
      gray' := gray + {t};
    }
  }

  lemma MarkDone(g: Graph, start: set<Cell>, hd0: Headers, hd: Headers, gray: set<Cell>, done: set<Ref>, edges: int, rcSum: int, touched: int)
    requires MarkState(g, start, hd0, hd, gray, done, [], edges, rcSum, touched)
    ensures done == g.Out(gray)
  {
    hide Graph.Reach, Graph.Out, Colors, Decremented, TargetsIn;
    assert done + Elems<Ref>([]) == done;
  }

  lemma MarkStart(g: Graph, start: set<Cell>, hd: Headers)
    requires Exact(g, hd) && Colors(hd, {}, {})
    ensures MarkState(g, start, hd, hd, {}, g.Out({}), [], 0, 0, 0)
  {
    hide Graph.Reach, Graph.Target;
    assert g.Out({}) == {};
    assert AllInto(g, {}) == {};
    forall c | c in hd ensures g.Into({}, c) == {} {
    }
  }

  /** What marking leaves behind. */
  ghost predicate Marked(g: Graph, hd0: Headers, hd: Headers, M: set<Cell>) {
    Marking(g, hd0, hd, M, g.Out(M), []) && TargetsIn(g, g.Out(M), M)
  }

  lemma MarkedKeys(g: Graph, hd0: Headers, hd: Headers, M: set<Cell>)
    requires Marked(g, hd0, hd, M)
    ensures hd.Keys == hd0.Keys == g.fields.Keys && M <= g.fields.Keys
  {
    hide Pending, Decremented, Colors, TargetsIn, Graph.Out;
  }

  /** The marked cells whose remaining count says that something outside refers to them. */
  ghost function Held(hd1: Headers, M: set<Cell>): set<Cell> {
    set c | c in M && c in hd1 && Count(hd1[c].rc) >= 0
  }

  /** Every marked cell keeps exactly the count of its references from elsewhere. */
  lemma MarkedCount(g: Graph, hd0: Headers, hd: Headers, M: set<Cell>, c: Cell)
    requires Exact(g, hd0) && Marked(g, hd0, hd, M) && c in M
    ensures Count(hd[c].rc) + 1 == |g.Into(g.AllRefs() - g.Out(M), c)|
    ensures Count(hd[c].rc) >= 0 <==> c in g.Anchors(M)
  {
    var rest := g.AllRefs() - g.Out(M);
    assert g.AllRefs() == rest + g.Out(M) by {
      forall r | r in g.Out(M) ensures r in g.AllRefs() { TargetIsRef(g, r); }
    }
    IntoSplit(g, rest, g.Out(M), c);
    if c in g.Anchors(M) {
      var r :| g.Target(r) == To(c) && !(r.Field? && r.owner in M);
      TargetIsRef(g, r);
      assert r in g.Into(rest, c);
    }
    if Count(hd[c].rc) >= 0 {
      assert g.Into(rest, c) != {};
      var r :| r in g.Into(rest, c);
      TargetIsRef(g, r);
      OutIs(g, M, r);
    }
  }

  lemma HeldIsAnchors(g: Graph, hd0: Headers, hd: Headers, M: set<Cell>)
    requires Exact(g, hd0) && Marked(g, hd0, hd, M)
    ensures Held(hd, M) == g.Anchors(M)
  {
    forall c | c in M ensures c in Held(hd, M) <==> c in g.Anchors(M) {
      MarkedCount(g, hd0, hd, M, c);
    }
  }

  /** rcSum - edges is the number of references into the marked set from outside it. */
  lemma SumMinusEdges(g: Graph, M: set<Cell>)
    requires TargetsIn(g, g.Out(M), M)
    ensures |AllInto(g, M)| - |g.Out(M)| == |AllInto(g, M) - g.Out(M)|
  {
    forall r | r in g.Out(M) ensures r in AllInto(g, M) { TargetIsRef(g, r); }
    var rest := AllInto(g, M) - g.Out(M);
    assert AllInto(g, M) == rest + g.Out(M);
  }

  /** Marking's two totals agree exactly when nothing outside holds any marked cell. */
  lemma TotalsAgreeIff(g: Graph, M: set<Cell>)
    requires TargetsIn(g, g.Out(M), M)
    ensures |AllInto(g, M)| == |g.Out(M)| <==> g.Anchors(M) == {}
  {
    SumMinusEdges(g, M);
    var rest := AllInto(g, M) - g.Out(M);
    if c :| c in g.Anchors(M) {
      AnchorHasRef(g, M, c);
    } else if r :| r in rest {
      OutsideRefHasAnchor(g, M, r);
    }
  }

  lemma AnchorHasRef(g: Graph, M: set<Cell>, c: Cell)
    requires c in g.Anchors(M)
    ensures AllInto(g, M) - g.Out(M) != {}
  {
    var r :| g.Target(r) == To(c) && !(r.Field? && r.owner in M);
    TargetIsRef(g, r);
    OutIs(g, M, r);
    assert r in AllInto(g, M) - g.Out(M);
  }

  lemma OutsideRefHasAnchor(g: Graph, M: set<Cell>, r: Ref)
    requires r in AllInto(g, M) - g.Out(M)
    ensures g.Anchors(M) != {}
  {
    TargetIsRef(g, r);
    OutIs(g, M, r);
    assert g.Target(r).cell in g.Anchors(M);
  }

  // ----------------------------------------------------------------- scanning

  /** The part of the scanning invariant that speaks of sets of cells and edges only.
      readded are the edges whose decrement has been taken back, pending the stack
      entries of scanBlack, stack those of scan. */
  ghost predicate ScanSets(g: Graph, M: set<Cell>, held: set<Cell>, gray: set<Cell>, white: set<Cell>,
                           readded: set<Ref>, pending: seq<Ref>, stack: seq<Ref>) {
    && M <= g.fields.Keys && gray <= M && white <= M && gray !! white
    && TargetsIn(g, g.Out(M), M)
    && Pending(g, M - gray - white, readded, pending)
    && M - gray - white <= g.Reach(held)
    && held !! white
    && (forall r :: r in g.Out(white) ==> r in stack || g.Target(r).cell !in gray)
    && (forall r :: r in stack ==> r in g.Out(M))
  }

  ghost predicate Scanning(g: Graph, hd1: Headers, hd: Headers, M: set<Cell>, gray: set<Cell>, white: set<Cell>,
                           readded: set<Ref>, pending: seq<Ref>, stack: seq<Ref>) {
    && SameShape(g, hd1, hd)
    && Colors(hd, gray, white)
    && Incremented(g, hd1, hd, readded)
    && ScanSets(g, M, Held(hd1, M), gray, white, readded, pending, stack)
  }

  lemma ScanStart(g: Graph, hd0: Headers, hd1: Headers, M: set<Cell>)
    requires Marked(g, hd0, hd1, M)
    ensures Scanning(g, hd1, hd1, M, M, {}, {}, [], []) && TargetsIn(g, {}, M - M - {})
  {
    assert M - M - {} == {};
    assert g.Out({}) == {};
    forall c | c in hd1 ensures g.Into({}, c) == {} {
    }
  }

  /** A cell that is not black still has the count that marking left. */
  lemma UnreachedCount(g: Graph, hd1: Headers, hd: Headers, M: set<Cell>, gray: set<Cell>, white: set<Cell>, readded: set<Ref>, c: Cell)
    requires Incremented(g, hd1, hd, readded) && TargetsIn(g, readded, M - gray - white)
    requires c in hd && c in hd1 && c in gray + white
    ensures Count(hd[c].rc) == Count(hd1[c].rc)
  {
    IntoNothing(g, readded, M - gray - white, c);
  }

  lemma WhitenSets(g: Graph, M: set<Cell>, held: set<Cell>, gray: set<Cell>, white: set<Cell>, readded: set<Ref>, stack: seq<Ref>, c: Cell)
    requires ScanSets(g, M, held, gray, white, readded, [], stack)
    requires c in gray && c !in held
    ensures ScanSets(g, M, held, gray - {c}, white + {c}, readded, [], stack + Traced(g, c))
  {
    PushedIsOut(g, c);
    OutAdd(g, white, c);
    assert M - gray - white == M - (gray - {c}) - (white + {c});
    var more := Traced(g, c);
    forall r | r in stack + more ensures r in g.Out(M) {
      if r in more { assert r in Elems(more); OutIs(g, {c}, r); OutIs(g, M, r); }
    }
    forall r | r in g.Out(white + {c}) ensures r in stack + more || g.Target(r).cell !in gray - {c} {
      if r in g.Out({c}) { assert r in Elems(more); }
    }
  }

  lemma BlackenSets(g: Graph, M: set<Cell>, held: set<Cell>, gray: set<Cell>, white: set<Cell>, readded: set<Ref>, pending: seq<Ref>, stack: seq<Ref>, c: Cell)
    requires ScanSets(g, M, held, gray, white, readded, pending, stack)
    requires c in gray + white && c in g.Reach(held)
    ensures ScanSets(g, M, held, gray - {c}, white - {c}, readded, pending + Traced(g, c), stack)
  {
    assert M - (gray - {c}) - (white - {c}) == (M - gray - white) + {c};
    PendingPush(g, M - gray - white, readded, pending, c);
  }

  lemma ReaddSets(g: Graph, M: set<Cell>, held: set<Cell>, gray: set<Cell>, white: set<Cell>, readded: set<Ref>, pending: seq<Ref>, stack: seq<Ref>)
    returns (r: Ref, t: Cell)
    requires ScanSets(g, M, held, gray, white, readded, pending, stack) && pending != []
    ensures r == pending[|pending| - 1] && r !in readded && g.Target(r) == To(t) && r.Field?
    ensures t in M && t in g.Reach(held)
    ensures ScanSets(g, M, held, gray, white, readded + {r}, pending[..|pending| - 1], stack)
  {
    r, t := PendingPop(g, M - gray - white, readded, pending);
    OutIs(g, M, r);
    ReachStep(g, held, r.owner, t);
  }

  /** What is above base on the stack. */
  ghost predicate Stacked<T>(stack: seq<T>, base: seq<T>, top: seq<T>) { stack == base + top }

  lemma StackStart<T>(stack: seq<T>)
    ensures Stacked(stack, stack, [])
  {
  }

  lemma StackTop<T>(stack: seq<T>, base: seq<T>, top: seq<T>)
    requires Stacked(stack, base, top)
    ensures |stack| == |base| + |top| && (top == [] ==> stack == base)
    ensures top != [] ==> stack[|stack| - 1] == top[|top| - 1] && Stacked(stack[..|stack| - 1], base, top[..|top| - 1])
  {
  }

  lemma StackMore<T>(stack: seq<T>, base: seq<T>, top: seq<T>, more: seq<T>)
    requires Stacked(stack, base, top)
    ensures Stacked(stack + more, base, top + more)
  {
  }

  lemma ScanKeys(g: Graph, hd1: Headers, hd: Headers, M: set<Cell>, gray: set<Cell>, white: set<Cell>,
                 readded: set<Ref>, pending: seq<Ref>, stack: seq<Ref>)
    requires Scanning(g, hd1, hd, M, gray, white, readded, pending, stack)
    ensures hd.Keys == hd1.Keys == g.fields.Keys && M <= g.fields.Keys && gray <= M && white <= M
  {
    hide Pending, TargetsIn, Incremented, Graph.Reach, Graph.Out, Held, Colors;
  }

  /** scanBlack pops one entry, takes its decrement back and paints its target black. */
  lemma ReaddStep(g: Graph, hd1: Headers, hd: Headers, M: set<Cell>, gray: set<Cell>, white: set<Cell>,
                  readded: set<Ref>, pending: seq<Ref>, stack: seq<Ref>) returns (r: Ref, t: Cell)
    requires Scanning(g, hd1, hd, M, gray, white, readded, pending, stack) && pending != []
    requires TargetsIn(g, readded, M - gray - white)
    ensures r == pending[|pending| - 1] && r !in readded && Names(g, r, t) && g.Target(r) == To(t) && t in M && t in hd
    ensures var hd' := AddRc(hd, t, RC_INCREMENT);
            var rest := pending[..|pending| - 1];
            && (Color(hd'[t].rc) != BLACK <==> t in gray + white)
            && (t !in gray + white ==>
                  && Scanning(g, hd1, hd', M, gray, white, readded + {r}, rest, stack)
                  && TargetsIn(g, readded + {r}, M - gray - white))
            && (t in gray + white ==>
                  var hd'' := SetColor(hd', t, BLACK);
                  && Scanning(g, hd1, hd'', M, gray - {t}, white - {t}, readded + {r}, rest + Traced(g, t), stack)
                  && TargetsIn(g, readded + {r}, M - (gray - {t}) - (white - {t})))
  {
    hide ScanSets, Incremented, Decremented, SetColor, AddRc, Count, Held, Graph.Reach, Graph.Into, Traced, TargetsIn;
    r, t := ReaddSets(g, M, Held(hd1, M), gray, white, readded, pending, stack);
    NamesIs(g, r, t);
    Increment(g, hd1, hd, readded, r, t);
    AddRcIs(hd, t);
    var hd' := AddRc(hd, t, RC_INCREMENT);
    if t in gray + white {
      BlackenStep(g, hd1, hd', M, gray, white, readded + {r}, pending[..|pending| - 1], stack, t);
      assert M - gray - white <= M - (gray - {t}) - (white - {t});
      TargetsInGrow(g, readded, M - gray - white, M - (gray - {t}) - (white - {t}));
      TargetsInAdd(g, readded, M - (gray - {t}) - (white - {t}), r);
    } else {
      TargetsInAdd(g, readded, M - gray - white, r);
    }
  }

  lemma NotHeld(hd1: Headers, M: set<Cell>, c: Cell)
    requires c in hd1 && Count(hd1[c].rc) < 0
    ensures c !in Held(hd1, M)
  {
  }

  lemma BlackenStep(g: Graph, hd1: Headers, hd: Headers, M: set<Cell>, gray: set<Cell>, white: set<Cell>,
                    readded: set<Ref>, pending: seq<Ref>, stack: seq<Ref>, t: Cell)
    requires Scanning(g, hd1, hd, M, gray, white, readded, pending, stack)
    requires t in gray + white && t in hd && t in g.Reach(Held(hd1, M))
    ensures var hd' := SetColor(hd, t, BLACK);
            Scanning(g, hd1, hd', M, gray - {t}, white - {t}, readded, pending + Traced(g, t), stack)
  {
    hide ScanSets, Incremented, Decremented, SetColor, AddRc, Count, Held, Graph.Reach, Traced;
    Paint(g, hd1, hd, gray - {t}, white - {t}, t, BLACK);
    BlackenSets(g, M, Held(hd1, M), gray, white, readded, pending, stack, t);
  }

  lemma WhitenStep(g: Graph, hd1: Headers, hd: Headers, M: set<Cell>, gray: set<Cell>, white: set<Cell>,
                   readded: set<Ref>, stack: seq<Ref>, t: Cell)
    requires Scanning(g, hd1, hd, M, gray, white, readded, [], stack)
    requires TargetsIn(g, readded, M - gray - white)
    requires t in gray && t in hd && Count(hd[t].rc) < 0
    ensures var hd' := SetColor(hd, t, WHITE);
            && Scanning(g, hd1, hd', M, gray - {t}, white + {t}, readded, [], stack + Traced(g, t))
            && TargetsIn(g, readded, M - (gray - {t}) - (white + {t}))
  {
    hide ScanSets, Incremented, Decremented, SetColor, AddRc, Count, Held, Graph.Reach, Traced, TargetsIn;
    UnreachedCount(g, hd1, hd, M, gray, white, readded, t);
    NotHeld(hd1, M, t);
    Paint(g, hd1, hd, gray - {t}, white + {t}, t, WHITE);
    WhitenSets(g, M, Held(hd1, M), gray, white, readded, stack, t);
    assert M - (gray - {t}) - (white + {t}) == M - gray - white;
  }

  /** Stack entries whose target is no longer gray may be dropped. */
  lemma Restack(g: Graph, hd1: Headers, hd: Headers, M: set<Cell>, gray: set<Cell>, white: set<Cell>,
                readded: set<Ref>, stack: seq<Ref>, stack': seq<Ref>)
    requires Scanning(g, hd1, hd, M, gray, white, readded, [], stack)
    requires forall r :: r in stack' ==> r in stack
    requires forall r :: r in stack && r !in stack' ==> g.Target(r).To? && g.Target(r).cell !in gray
    ensures Scanning(g, hd1, hd, M, gray, white, readded, [], stack')
  {
    hide Graph.Reach, Graph.Out, Graph.Target, Pending, TargetsIn, Incremented, Colors, SameShape, Held;
  }

  /** The target of a stack entry is a marked cell. */
  lemma EntryTarget(g: Graph, hd1: Headers, hd: Headers, M: set<Cell>, gray: set<Cell>, white: set<Cell>,
                    readded: set<Ref>, stack: seq<Ref>, r: Ref) returns (t: Cell)
    requires Scanning(g, hd1, hd, M, gray, white, readded, [], stack) && r in stack
    ensures Names(g, r, t) && g.Target(r) == To(t) && t in M && t in hd
    ensures Color(hd[t].rc) == GRAY <==> t in gray
  {
    hide Graph.Reach, Pending, Incremented, Held;
    assert r in g.Out(M);
    OutIs(g, M, r);
    t := g.Target(r).cell;
  }

  /** A gray cell that scan looks at is held from outside exactly when its count is not negative. */
  lemma GrayHeld(g: Graph, hd1: Headers, hd: Headers, M: set<Cell>, gray: set<Cell>, white: set<Cell>,
                 readded: set<Ref>, stack: seq<Ref>, c: Cell)
    requires Scanning(g, hd1, hd, M, gray, white, readded, [], stack)
    requires TargetsIn(g, readded, M - gray - white) && c in gray && c in hd
    ensures Count(hd[c].rc) >= 0 <==> c in Held(hd1, M)
  {
    hide Graph.Reach, Pending, Incremented, TargetsIn, Count;
    UnreachedCount(g, hd1, hd, M, gray, white, readded, c);
  }

  /** When scanning is over, black are exactly the marked cells reachable from a held one. */
  lemma ScanEnd(g: Graph, M: set<Cell>, start: set<Cell>, held: set<Cell>, gray: set<Cell>, white: set<Cell>, readded: set<Ref>)
    requires g.NoDangling()
    requires ScanSets(g, M, held, gray, white, readded, [], []) && TargetsIn(g, readded, M - gray - white)
    requires M == g.Reach(start) && held <= M
    requires forall c :: c in start && c in M ==> c !in gray
    ensures gray == {} && white == M - g.Reach(held)
  {
    var B := M - gray - white;
    forall a, b | a in B && g.Edge(a, b) && b in g.fields ensures b in B {
      var r := EdgeOut(g, a, b);
      OutIs(g, B, r);
      assert r in readded + Elems([]);
    }
    forall a, b | a in M - gray && g.Edge(a, b) && b in g.fields ensures b in M - gray {
      var r := EdgeOut(g, a, b);
      OutIs(g, M, r);
      OutIs(g, white, r);
    }
    forall c | c in start && c in g.fields ensures c in M { ReachStart(g, start, c); }
    ReachLeast(g, start, M - gray);
    assert gray == {};
    ReachLeast(g, held, B);
  }

  // --------------------------------------------------------------- collecting

  /** The fields in cut have been set to nil, all others are as they were. */
  ghost predicate Cut(g0: Graph, g: Graph, cut: set<Ref>) {
    && g.outside == g0.outside
    && g.fields.Keys == g0.fields.Keys
    && (forall c :: c in g0.fields ==> |g.fields[c]| == |g0.fields[c]|)
    && (forall c, i :: c in g0.fields && 0 <= i < |g0.fields[c]| ==>
          g.fields[c][i] == if Field(c, i) in cut then Nil else g0.fields[c][i])
  }

  /** W are the cells to free, freed those already put on the list toFree, pending
      those that are candidate roots whose turn has not come. */
  ghost predicate Collecting(g0: Graph, g: Graph, W: set<Cell>, freed: set<Cell>, pending: set<Cell>, cut: set<Ref>, stack: seq<Ref>, toFree: seq<Cell>) {
    && W <= g0.fields.Keys && freed <= W
    && g0.NoDangling()
    && NoDup(toFree) && Elems(toFree) == freed
    && Cut(g0, g, cut)
    && Pending(g0, freed, cut, stack)
    && pending !! freed
  }

  /** A target of a cut field is already listed, not to be freed, or a root whose turn is to come. */
  ghost predicate CutTargets(g0: Graph, W: set<Cell>, freed: set<Cell>, pending: set<Cell>, cut: set<Ref>) {
    forall r :: r in cut ==> g0.Target(r).To? && (g0.Target(r).cell in W ==> g0.Target(r).cell in freed + pending)
  }

  ghost predicate SameCounts(hd2: Headers, hd: Headers) {
    hd.Keys == hd2.Keys && forall c :: c in hd ==> Count(hd[c].rc) == Count(hd2[c].rc)
  }

  ghost predicate ColorsLeft(hd: Headers, W: set<Cell>, freed: set<Cell>, col: int) {
    forall c :: c in hd ==> Color(hd[c].rc) == if c in W && c !in freed then col else BLACK
  }

  ghost predicate RootsLeft(hd: Headers, pending: set<Cell>) {
    forall c :: c in hd ==> (hd[c].rootIdx != 0 <==> c in pending)
  }

  /** Everything that collectColor keeps; hd2 is what scanning left. */
  ghost predicate CollectState(g0: Graph, g: Graph, hd2: Headers, hd: Headers, W: set<Cell>, freed: set<Cell>, pending: set<Cell>,
                               cut: set<Ref>, stack: seq<Ref>, toFree: seq<Cell>, col: int) {
    && hd2.Keys == g0.fields.Keys
    && Collecting(g0, g, W, freed, pending, cut, stack, toFree)
    && CutTargets(g0, W, freed, pending, cut)
    && SameCounts(hd2, hd)
    && ColorsLeft(hd, W, freed, col)
    && RootsLeft(hd, pending)
  }

  lemma ListCell(g0: Graph, g: Graph, W: set<Cell>, freed: set<Cell>, pending: set<Cell>, cut: set<Ref>, stack: seq<Ref>, toFree: seq<Cell>, c: Cell)
    requires Collecting(g0, g, W, freed, pending, cut, stack, toFree) && c in W && c !in freed && c !in pending
    ensures g.fields[c] == g0.fields[c]
    ensures Collecting(g0, g, W, freed + {c}, pending, cut, stack + Traced(g, c), toFree + [c])
  {
    assert g.fields[c] == g0.fields[c] by {
      forall i | 0 <= i < |g0.fields[c]| ensures Field(c, i) !in cut {
        OutIs(g0, freed, Field(c, i));
      }
    }
    PendingPush(g0, freed, cut, stack, c);
    assert c !in Elems(toFree);
    assert Elems(toFree + [c]) == freed + {c};
  }

  lemma CutField(g0: Graph, g: Graph, W: set<Cell>, freed: set<Cell>, pending: set<Cell>, cut: set<Ref>, stack: seq<Ref>, toFree: seq<Cell>)
    returns (r: Ref, t: Cell)
    requires Collecting(g0, g, W, freed, pending, cut, stack, toFree) && stack != []
    ensures r == stack[|stack| - 1] && r.Field? && r.owner in g.fields && r.index < |g.fields[r.owner]|
    ensures g.fields[r.owner][r.index] == To(t) && g0.Target(r) == To(t) && t in g0.fields && t in g.fields
    ensures Collecting(g0, Graph(g.fields[r.owner := g.fields[r.owner][r.index := Nil]], g.outside),
                       W, freed, pending, cut + {r}, stack[..|stack| - 1], toFree)
  {
    r, t := PendingPop(g0, freed, cut, stack);
    assert r == Field(r.owner, r.index);
  }

  lemma ListBlackens(hd2: Headers, hd: Headers, W: set<Cell>, freed: set<Cell>, pending: set<Cell>, col: int, c: Cell)
    requires SameCounts(hd2, hd) && ColorsLeft(hd, W, freed, col) && RootsLeft(hd, pending) && c in hd
    ensures var hd' := SetColor(hd, c, BLACK);
            SameCounts(hd2, hd') && ColorsLeft(hd', W, freed + {c}, col) && RootsLeft(hd', pending)
  {
    hide SetColor, Count, Color;
    SetColorIs(hd, c, BLACK);
  }

  /** A cell is next to be listed exactly when it still has the colour and no root position. */
  lemma ListGuard(g0: Graph, g: Graph, hd2: Headers, hd: Headers, W: set<Cell>, freed: set<Cell>, pending: set<Cell>,
                  cut: set<Ref>, stack: seq<Ref>, toFree: seq<Cell>, col: int, c: Cell)
    requires CollectState(g0, g, hd2, hd, W, freed, pending, cut, stack, toFree, col) && c in hd && col != BLACK
    ensures Color(hd[c].rc) == col && hd[c].rootIdx == 0 <==> c in W && c !in freed && c !in pending
  {
    hide Collecting, CutTargets, SameCounts;
  }

  /** The state in which collectColor starts on the root s, whose turn has just come. */
  ghost predicate CollectEntry(g0: Graph, g: Graph, hd2: Headers, hd: Headers, W: set<Cell>, freed: set<Cell>, pending: set<Cell>,
                               toFree: seq<Cell>, col: int, s: Cell) {
    && hd2.Keys == g0.fields.Keys && s in hd && s !in pending
    && Collecting(g0, g, W, freed, pending, g0.Out(freed), [], toFree)
    && CutTargets(g0, W, freed, pending + {s}, g0.Out(freed))
    && SameCounts(hd2, hd)
    && ColorsLeft(hd, W, freed, col)
    && RootsLeft(hd, pending)
  }

  lemma EntryStep(g0: Graph, g: Graph, hd2: Headers, hd: Headers, W: set<Cell>, freed: set<Cell>, pending: set<Cell>,
                  toFree: seq<Cell>, col: int, s: Cell)
    requires CollectEntry(g0, g, hd2, hd, W, freed, pending, toFree, col, s) && col != BLACK
    ensures s in g.fields && (Color(hd[s].rc) == col && hd[s].rootIdx == 0 <==> s in W && s !in freed)
    ensures !(s in W && s !in freed) ==> CollectState(g0, g, hd2, hd, W, freed, pending, g0.Out(freed), [], toFree, col)
    ensures s in W && s !in freed ==>
              var hd' := SetColor(hd, s, BLACK);
              CollectState(g0, g, hd2, hd', W, freed + {s}, pending, g0.Out(freed), Traced(g, s), toFree + [s], col)
  {
    hide Pending, NoDup, Elems, SetColor, AddRc, Traced, Graph.NoDangling, Graph.Target, Graph.Out;
    if s in W && s !in freed {
      ListBlackens(hd2, hd, W, freed, pending, col, s);
      ListCell(g0, g, W, freed, pending, g0.Out(freed), [], toFree, s);
      assert [] + Traced(g, s) == Traced(g, s);
    }
  }

  /** The turn of the first pending root comes: its position is cleared. */
  lemma NextRoot(g0: Graph, g: Graph, hd2: Headers, hd: Headers, W: set<Cell>, freed: set<Cell>, roots: seq<Cell>, i: nat,
                 toFree: seq<Cell>, col: int)
    requires i < |roots| && NoDup(roots) && roots[i] in hd
    requires CollectState(g0, g, hd2, hd, W, freed, Elems(roots[i..]), g0.Out(freed), [], toFree, col)
    ensures CollectEntry(g0, g, hd2, hd[roots[i] := hd[roots[i]].(rootIdx := 0)], W, freed, Elems(roots[i + 1..]), toFree, col, roots[i])
  {
    hide Pending, Cut, Graph.NoDangling, Graph.Target, Graph.Out;
    assert roots[i..] == [roots[i]] + roots[i + 1..];
    assert Elems(roots[i..]) == Elems(roots[i + 1..]) + {roots[i]};
  }

  /** collectColor pops an entry and sets the field it names to nil; the cell it
      referred to is listed if it is next to be. */
  lemma CutStep(g0: Graph, g: Graph, hd2: Headers, hd: Headers, W: set<Cell>, freed: set<Cell>, pending: set<Cell>,
                cut: set<Ref>, stack: seq<Ref>, toFree: seq<Cell>, col: int) returns (r: Ref, t: Cell)
    requires CollectState(g0, g, hd2, hd, W, freed, pending, cut, stack, toFree, col) && stack != [] && col != BLACK
    ensures r == stack[|stack| - 1] && r.Field? && r.owner in g.fields && r.index < |g.fields[r.owner]|
    ensures g.fields[r.owner][r.index] == To(t) && t in hd && t in g.fields
    ensures var g' := Graph(g.fields[r.owner := g.fields[r.owner][r.index := Nil]], g.outside);
            var rest := stack[..|stack| - 1];
            var hd' := SetColor(hd, t, BLACK);
            && (Color(hd[t].rc) == col && hd[t].rootIdx == 0 <==> t in W && t !in freed && t !in pending)
            && (t in W && t !in freed && t !in pending ==>
                  CollectState(g0, g', hd2, hd', W, freed + {t}, pending, cut + {r},
                               rest + Traced(g', t), toFree + [t], col))
            && (!(t in W && t !in freed && t !in pending) ==>
                  CollectState(g0, g', hd2, hd, W, freed, pending, cut + {r}, rest, toFree, col))
  {
    hide Pending, NoDup, Elems, Cut, ColorsLeft, RootsLeft, SetColor, AddRc, Color, Traced, Graph.NoDangling, Graph.Target;
    r, t := CutField(g0, g, W, freed, pending, cut, stack, toFree);
    var g' := Graph(g.fields[r.owner := g.fields[r.owner][r.index := Nil]], g.outside);
    ListGuard(g0, g, hd2, hd, W, freed, pending, cut, stack, toFree, col, t);
    if t in W && t !in freed && t !in pending {
      ListBlackens(hd2, hd, W, freed, pending, col, t);
      ListCell(g0, g', W, freed, pending, cut + {r}, stack[..|stack| - 1], toFree, t);
    }
  }

  lemma CollectDone(g0: Graph, g: Graph, hd2: Headers, hd: Headers, W: set<Cell>, freed: set<Cell>, pending: set<Cell>,
                    cut: set<Ref>, toFree: seq<Cell>, col: int)
    requires CollectState(g0, g, hd2, hd, W, freed, pending, cut, [], toFree, col)
    ensures cut == g0.Out(freed)
  {
    hide Cut, CutTargets, SameCounts, ColorsLeft, RootsLeft, Graph.NoDangling, Graph.Target, Graph.Out;
    assert cut + Elems<Ref>([]) == cut;
  }

  /** Once every root has had its turn, everything to be freed is listed. */
  lemma CollectEnd(g0: Graph, M: set<Cell>, start: set<Cell>, roots: set<Cell>, W: set<Cell>, freed: set<Cell>)
    requires g0.NoDangling() && M == g0.Reach(start) && start <= roots
    requires W == M - g0.Reach(g0.Anchors(M)) && freed <= W
    requires forall c :: c in roots && c in W ==> c in freed
    requires CutTargets(g0, W, freed, {}, g0.Out(freed))
    ensures freed == W
  {
    var B := g0.Reach(g0.Anchors(M));
    var S := M * B + freed;
    forall a, b | a in S && g0.Edge(a, b) && b in g0.fields ensures b in S {
      ReachStep(g0, start, a, b);
      if a in B {
        ReachStep(g0, g0.Anchors(M), a, b);
      } else {
        var r := EdgeOut(g0, a, b);
        OutIs(g0, freed, r);
      }
    }
    forall c | c in start && c in g0.fields ensures c in S { ReachStart(g0, start, c); }
    ReachLeast(g0, start, S);
  }

  /** Everything marked is reachable from the roots, and everything reachable is marked. */
  lemma MarkEnd(g: Graph, start: set<Cell>, hd0: Headers, hd: Headers, gray: set<Cell>, edges: int, rcSum: int, touched: int)
    requires Exact(g, hd0) && MarkState(g, start, hd0, hd, gray, g.Out(gray), [], edges, rcSum, touched)
    requires start <= gray
    ensures gray == g.Reach(start) && Marked(g, hd0, hd, gray)
    ensures rcSum == edges <==> g.Anchors(gray) == {}
    ensures Held(hd, gray) == g.Anchors(gray) && touched == |gray|
  {
    hide Graph.Reach, Graph.Anchors, Pending, Decremented, Colors, Graph.Into, AllInto, Graph.Target, Held;
    forall a, b | a in gray && g.Edge(a, b) && b in g.fields ensures b in gray {
      var r := EdgeOut(g, a, b);
      OutIs(g, gray, r);
    }
    ReachLeast(g, start, gray);
    TotalsAgreeIff(g, gray);
    HeldIsAnchors(g, hd0, hd, gray);
  }

  /** What scanning, or the shortcut that skips it, hands to the collecting phase:
      W is what is to be freed, and only the edges out of the rest of M count again. */
  ghost predicate Scanned(g: Graph, hd0: Headers, hd1: Headers, hd2: Headers, M: set<Cell>, W: set<Cell>, col: int) {
    && col in {GRAY, WHITE}
    && SameShape(g, hd0, hd1) && SameShape(g, hd0, hd2)
    && Colors(hd2, if col == GRAY then W else {}, if col == WHITE then W else {})
    && W <= M <= g.fields.Keys
    && Decremented(g, hd0, hd1, g.Out(M))
    && Incremented(g, hd1, hd2, g.Out(M - W))
  }

  /** The shortcut: nothing is held from outside, so every marked cell is garbage. */
  lemma NothingHeld(g: Graph, hd0: Headers, hd1: Headers, M: set<Cell>)
    requires Marked(g, hd0, hd1, M) && g.Anchors(M) == {}
    ensures g.Reach(g.Anchors(M)) == {}
    ensures Scanned(g, hd0, hd1, hd1, M, M, GRAY)
  {
    hide Graph.Target;
    assert M - M == {};
    assert g.Out({}) == {};
    forall c | c in hd1 ensures g.Into({}, c) == {} {
    }
  }

  lemma ScanFinish(g: Graph, start: set<Cell>, hd0: Headers, hd1: Headers, hd: Headers, M: set<Cell>, gray: set<Cell>, white: set<Cell>, readded: set<Ref>)
    requires Exact(g, hd0) && Marked(g, hd0, hd1, M) && Held(hd1, M) == g.Anchors(M)
    requires Scanning(g, hd1, hd, M, gray, white, readded, [], []) && TargetsIn(g, readded, M - gray - white)
    requires M == g.Reach(start) && start !! gray
    ensures Scanned(g, hd0, hd1, hd, M, M - g.Reach(g.Anchors(M)), WHITE)
  {
    hide Graph.Reach, Graph.Target, Graph.Into, Graph.NoDangling;
    ScanEnd(g, M, start, g.Anchors(M), gray, white, readded);
    assert readded + Elems<Ref>([]) == readded;
    assert M - gray - white == M - white;
  }

  lemma CollectStart(g0: Graph, hd0: Headers, hd1: Headers, hd2: Headers, M: set<Cell>, W: set<Cell>, roots: seq<Cell>, col: int)
    requires Exact(g0, hd0) && RootsAgree(hd0, roots) && Scanned(g0, hd0, hd1, hd2, M, W, col)
    ensures CollectState(g0, g0, hd2, hd2, W, {}, Elems(roots), g0.Out({}), [], [], col)
    ensures NoDup(roots) && hd2.Keys == hd0.Keys && col != BLACK
  {
    hide Graph.Target, Decremented, Incremented, Count, Graph.Into;
    assert g0.Out({}) == {};
    forall c | c in hd2 ensures hd2[c].rootIdx != 0 <==> c in Elems(roots) {
    }
  }

  /** The two totals of the marking phase differ by the number of references into
      the marked set from outside; they agree exactly when all that was marked is
      garbage, so that skipping the scan then changes nothing. */
  lemma ShortcutIff(g: Graph, start: set<Cell>, hd0: Headers, hd: Headers, gray: set<Cell>, edges: int, rcSum: int, touched: int)
    requires Exact(g, hd0) && MarkState(g, start, hd0, hd, gray, g.Out(gray), [], edges, rcSum, touched) && start <= gray
    ensures rcSum - edges == |AllInto(g, g.Reach(start)) - g.Out(g.Reach(start))|
    ensures rcSum == edges <==> g.Garbage(start) == g.Reach(start)
  {
    hide Graph.Reach, Graph.Anchors, Graph.Out, Graph.Target, AllInto, TargetsIn, Marking;
    MarkEnd(g, start, hd0, hd, gray, edges, rcSum, touched);
    SumMinusEdges(g, gray);
    MarkedKeys(g, hd0, hd, gray);
    AnchorsStay(g, gray);
  }

  lemma MarkedWithin(g: Graph, hd0: Headers, hd1: Headers, M: set<Cell>)
    requires Exact(g, hd0) && Marked(g, hd0, hd1, M)
    ensures M <= g.fields.Keys
  {
  }

  lemma AnchorsStay(g: Graph, M: set<Cell>)
    requires M <= g.fields.Keys
    ensures M - g.Reach(g.Anchors(M)) == M <==> g.Anchors(M) == {}
  {
    var A := g.Anchors(M);
    if c :| c in A { ReachStart(g, A, c); }
    assert A == {} ==> forall p, c :: !g.PathFrom(A, p, c);
  }

  // ------------------------------------------------------- the whole collection

  /** The heap after the cells of W are disposed of, all of whose fields are nil. */
  ghost predicate Disposed(g0: Graph, g: Graph, W: set<Cell>) {
    && g.outside == g0.outside
    && g.fields.Keys == g0.fields.Keys - W
    && forall c :: c in g.fields ==> g.fields[c] == g0.fields[c]
  }

  /** Nothing that is left refers to a disposed cell. */
  lemma NoDanglingAfter(g0: Graph, g: Graph, start: set<Cell>)
    requires g0.NoDangling() && Disposed(g0, g, g0.Garbage(start))
    ensures g.NoDangling()
  {
    var M := g0.Reach(start);
    var B := g0.Reach(g0.Anchors(M));
    forall r: Ref | g.Target(r).To? ensures g.Target(r).cell in g.fields {
      var t := g.Target(r).cell;
      assert g0.Target(r) == To(t);
      if t in M && t !in B {
        if r.Field? && r.owner in M {
          OutEdge(g0, r);
          assert r.owner in B;
          ReachStep(g0, g0.Anchors(M), r.owner, t);
        } else {
          assert t in g0.Anchors(M);
          ReachStart(g0, g0.Anchors(M), t);
        }
      }
    }
  }

  /** While disposing: the first n listed cells are gone, the others on the list
      have no reference left in their fields, and all other cells are untouched. */
  ghost predicate Disposing(g0: Graph, g: Graph, hd2: Headers, hd: Headers, listed: seq<Cell>, n: nat) {
    && n <= |listed| && NoDup(listed) && g.outside == g0.outside
    && hd.Keys == g.fields.Keys == g0.fields.Keys - Elems(listed[..n])
    && Elems(listed) <= g0.fields.Keys == hd2.Keys
    && (forall c :: c in hd ==> Count(hd[c].rc) == Count(hd2[c].rc) && Color(hd[c].rc) == BLACK && hd[c].rootIdx == 0)
    && (forall c :: c in g.fields && c !in listed ==> g.fields[c] == g0.fields[c])
    && (forall c, i :: c in g.fields && c in listed && 0 <= i < |g.fields[c]| ==> g.fields[c][i] == Nil)
  }

  /** After the last root's turn everything to be freed is listed, with all fields nil. */
  lemma DisposeStart(g0: Graph, g: Graph, start: set<Cell>, hd2: Headers, hd: Headers, M: set<Cell>, W: set<Cell>, freed: set<Cell>,
                     roots: seq<Cell>, toFree: seq<Cell>, col: int)
    requires CollectState(g0, g, hd2, hd, W, freed, {}, g0.Out(freed), [], toFree, col)
    requires M == g0.Reach(start) && start <= Elems(roots) && W == M - g0.Reach(g0.Anchors(M))
    requires forall c :: c in roots && c in W ==> c in freed
    ensures freed == W && Elems(toFree) == W && Disposing(g0, g, hd2, hd, toFree, 0)
  {
    hide Graph.Reach, Graph.Anchors, Graph.NoDangling, Graph.Out, Pending;
    CollectEnd(g0, M, start, Elems(roots), W, freed);
    forall c | c in g.fields && c !in toFree ensures g.fields[c] == g0.fields[c] {
      forall i | 0 <= i < |g0.fields[c]| ensures Field(c, i) !in g0.Out(freed) {
        OutIs(g0, freed, Field(c, i));
      }
    }
    forall c, i | c in g.fields && c in toFree && 0 <= i < |g.fields[c]| ensures g.fields[c][i] == Nil {
      assert c in Elems(toFree);
      OutIs(g0, freed, Field(c, i));
    }
  }

  lemma DisposeStep(g0: Graph, g: Graph, hd2: Headers, hd: Headers, listed: seq<Cell>, n: nat)
    requires Disposing(g0, g, hd2, hd, listed, n) && n < |listed|
    ensures var s := listed[n];
            && s in hd && s in g.fields
            && (forall i :: 0 <= i < |g.fields[s]| ==> g.fields[s][i] == Nil)
            && Disposing(g0, Graph(g.fields - {s}, g.outside), hd2, hd - {s}, listed, n + 1)
  {
    hide Count, Color;
    assert listed[..n + 1] == listed[..n] + [listed[n]];
    assert Elems(listed[..n + 1]) == Elems(listed[..n]) + {listed[n]};
    assert listed[n] in Elems(listed);
  }

  lemma OutOfParts(g: Graph, B: set<Cell>, W: set<Cell>)
    requires B !! W
    ensures g.Out(B + W) == g.Out(B) + g.Out(W) && g.Out(B) !! g.Out(W)
  {
  }

  /** Disposing of W loses exactly the references out of W. */
  lemma RefsAfter(g0: Graph, g: Graph, W: set<Cell>, c: Cell)
    requires Disposed(g0, g, W)
    ensures |g0.Into(g0.AllRefs(), c)| == |g.Into(g.AllRefs(), c)| + |g0.Into(g0.Out(W), c)|
  {
    var A := g0.Into(g0.AllRefs(), c);
    var A' := g.Into(g.AllRefs(), c);
    var L := g0.Into(g0.Out(W), c);
    forall r ensures r in A <==> r in A' + L {
      TargetIsRef(g0, r); TargetIsRef(g, r); OutIs(g0, W, r);
    }
    forall r | r in A' ensures r !in L { TargetIsRef(g, r); OutIs(g0, W, r); }
    assert A == A' + L;
  }

  /** Marking took away the edges out of M, scanning gave back those out of the
      cells that stay; what is missing are exactly the edges out of the garbage. */
  lemma CountsAfter(g0: Graph, g: Graph, hd0: Headers, hd1: Headers, hd2: Headers, M: set<Cell>, B: set<Cell>, c: Cell)
    requires Exact(g0, hd0) && Decremented(g0, hd0, hd1, g0.Out(M)) && Incremented(g0, hd1, hd2, g0.Out(B))
    requires B <= M && Disposed(g0, g, M - B) && hd1.Keys == hd0.Keys == hd2.Keys && c in hd2
    ensures Count(hd2[c].rc) + 1 == |g.Into(g.AllRefs(), c)|
  {
    assert M == B + (M - B);
    OutOfParts(g0, B, M - B);
    IntoSplit(g0, g0.Out(B), g0.Out(M - B), c);
    RefsAfter(g0, g, M - B, c);
  }

  /** All listed cells are gone: the heap is as it should be between collections. */
  lemma DisposeEnd(g0: Graph, g: Graph, start: set<Cell>, hd0: Headers, hd1: Headers, hd2: Headers, hd: Headers,
                   M: set<Cell>, col: int, listed: seq<Cell>)
    requires Exact(g0, hd0) && M == g0.Reach(start) && Elems(listed) == M - g0.Reach(g0.Anchors(M))
    requires Scanned(g0, hd0, hd1, hd2, M, Elems(listed), col)
    requires Disposing(g0, g, hd2, hd, listed, |listed|)
    ensures NoDup(listed) && Disposed(g0, g, Elems(listed)) && Exact(g, hd) && Colors(hd, {}, {}) && RootsAgree(hd, [])
  {
    hide Graph.Reach, Graph.Anchors, Graph.NoDangling, Decremented, Incremented, Count, Colors, Graph.Into, Graph.AllRefs;
    var W := Elems(listed);
    assert listed[..|listed|] == listed;
    assert W == g0.Garbage(start);
    NoDanglingAfter(g0, g, start);
    forall c | c in hd ensures Count(hd[c].rc) + 1 == |g.Into(g.AllRefs(), c)| {
      assert M - (M - W) == W;
      CountsAfter(g0, g, hd0, hd1, hd2, M, M - W, c);
    }
    AllBlack(hd);
  }

  lemma AllBlack(hd: Headers)
    requires forall c :: c in hd ==> Color(hd[c].rc) == BLACK
    ensures Colors(hd, {}, {})
  {
  }

  lemma UnregisterElems(hd: Headers, roots: seq<Cell>, s: Cell)
    requires RootsAgree(hd, roots) && s in hd && hd[s].rootIdx > 0
    ensures var idx := hd[s].rootIdx - 1;
            Elems(roots[idx := roots[|roots| - 1]][..|roots| - 1]) == Elems(roots) - {s}
  {
    var idx := hd[s].rootIdx - 1;
    var after := roots[idx := roots[|roots| - 1]][..|roots| - 1];
    forall c | c in Elems(roots) - {s} ensures c in Elems(after) {
      var i :| 0 <= i < |roots| && roots[i] == c;
      assert i != idx;
      if i == |roots| - 1 { assert after[idx] == c; } else { assert after[i] == c; }
    }
    forall c | c in Elems(after) ensures c in Elems(roots) - {s} {
      var i :| 0 <= i < |after| && after[i] == c;
      assert c == if i == idx then roots[|roots| - 1] else roots[i];
    }
  }

  /** Root positions are no part of counts and colours. */
  lemma SameWords(g: Graph, hd: Headers, hd': Headers)
    requires Exact(g, hd) && Colors(hd, {}, {}) && hd'.Keys == hd.Keys
    requires forall c :: c in hd ==> hd'[c].rc == hd[c].rc
    ensures Exact(g, hd') && Colors(hd', {}, {})
  {
    hide Graph.Into, Graph.AllRefs, Count, Color, Graph.NoDangling;
  }

  lemma AddRoot(hd: Headers, roots: seq<Cell>, s: Cell)
    requires RootsAgree(hd, roots) && s in hd && hd[s].rootIdx == 0
    ensures RootsAgree(hd[s := hd[s].(rootIdx := |roots| + 1)], roots + [s])
  {
  }

  lemma DropRoot(hd: Headers, roots: seq<Cell>, s: Cell)
    requires RootsAgree(hd, roots) && s in hd && hd[s].rootIdx > 0
    ensures var idx := hd[s].rootIdx - 1;
            var roots' := roots[idx := roots[|roots| - 1]];
            var hd' := hd[roots'[idx] := hd[roots'[idx]].(rootIdx := idx + 1)];
            RootsAgree(hd'[s := hd'[s].(rootIdx := 0)], roots'[..|roots| - 1])
  {
  }

  // ------------------------------------------------------------- the mutator

  /** One more reference from outside, one more on the count. */
  lemma AddOutside(g: Graph, hd: Headers, k: nat, c: Cell)
    requires Exact(g, hd) && k !in g.outside && c in hd
    ensures Exact(Graph(g.fields, g.outside[k := c]), AddRc(hd, c, RC_INCREMENT))
  {
    hide Graph.Into, Graph.AllRefs, AddRc, Count;
    var g' := Graph(g.fields, g.outside[k := c]);
    AddRcIs(hd, c);
    OutsideTargets(g, g', k, c);
    forall d | d in hd ensures |g'.Into(g'.AllRefs(), d)| == |g.Into(g.AllRefs(), d)| + (if d == c then 1 else 0) {
      AddedRef(g, g', Outside(k), c, d);
    }
  }

  lemma DropOutside(g: Graph, hd: Headers, k: nat, c: Cell)
    requires Exact(g, hd) && k in g.outside && g.outside[k] == c && c in hd
    ensures Exact(Graph(g.fields, g.outside - {k}), AddRc(hd, c, -RC_INCREMENT))
  {
    hide Graph.Into, Graph.AllRefs, AddRc, Count;
    var g' := Graph(g.fields, g.outside - {k});
    AddRcIs(hd, c);
    assert g'.outside[k := c] == g.outside;
    OutsideTargets(g', g, k, c);
    forall d | d in hd ensures |g.Into(g.AllRefs(), d)| == |g'.Into(g'.AllRefs(), d)| + (if d == c then 1 else 0) {
      AddedRef(g', g, Outside(k), c, d);
    }
  }

  lemma OutsideTargets(g: Graph, g': Graph, k: nat, c: Cell)
    requires k !in g.outside && g' == Graph(g.fields, g.outside[k := c])
    ensures g.Target(Outside(k)) == Nil
    ensures forall r :: g'.Target(r) == if r == Outside(k) then To(c) else g.Target(r)
    ensures g'.NoDangling() <==> g.NoDangling() && c in g.fields
  {
    forall r ensures g'.Target(r) == if r == Outside(k) then To(c) else g.Target(r) {
    }
    TargetsAgree(g, g', Outside(k), c);
  }

  lemma TargetsAgree(g: Graph, g': Graph, r: Ref, c: Cell)
    requires g.fields.Keys == g'.fields.Keys && g.Target(r) == Nil
    requires forall q :: g'.Target(q) == if q == r then To(c) else g.Target(q)
    ensures g'.NoDangling() <==> g.NoDangling() && c in g.fields
  {
    hide Graph.Target;
    assert g'.Target(r) == To(c);
    if g'.NoDangling() {
      forall q | g.Target(q).To? ensures g.Target(q).cell in g.fields {
        assert g'.Target(q) == g.Target(q);
      }
    }
  }

  /** Moving a reference between an outside variable and a nil field changes no count. */
  lemma MoveRef(g: Graph, hd: Headers, k: nat, o: Cell, i: nat, c: Cell)
    requires Exact(g, hd) && k in g.outside && g.outside[k] == c
    requires o in g.fields && i < |g.fields[o]| && g.fields[o][i] == Nil
    ensures Exact(Graph(g.fields[o := g.fields[o][i := To(c)]], g.outside - {k}), hd)
  {
    hide Graph.Into, Graph.AllRefs, Graph.NoDangling, Count;
    var mid := Graph(g.fields, g.outside - {k});
    var g' := Graph(g.fields[o := g.fields[o][i := To(c)]], g.outside - {k});
    assert g.Target(Outside(k)) == To(c);
    MovedTargets(g, mid, g', k, o, i, c);
    forall d | d in hd ensures |g'.Into(g'.AllRefs(), d)| == |g.Into(g.AllRefs(), d)| {
      AddedRef(mid, g, Outside(k), c, d);
      AddedRef(mid, g', Field(o, i), c, d);
    }
  }

  lemma MoveRefOut(g: Graph, hd: Headers, k: nat, o: Cell, i: nat, c: Cell)
    requires Exact(g, hd) && k !in g.outside
    requires o in g.fields && i < |g.fields[o]| && g.fields[o][i] == To(c)
    ensures Exact(Graph(g.fields[o := g.fields[o][i := Nil]], g.outside[k := c]), hd)
  {
    hide Graph.Into, Graph.AllRefs, Graph.NoDangling, Count;
    var mid := Graph(g.fields[o := g.fields[o][i := Nil]], g.outside);
    var g' := Graph(g.fields[o := g.fields[o][i := Nil]], g.outside[k := c]);
    assert g.Target(Field(o, i)) == To(c);
    assert g.fields[o][i := Nil][i := To(c)] == g.fields[o];
    assert mid.fields[o := mid.fields[o][i := To(c)]] == g.fields;
    assert g'.outside - {k} == g.outside;
    MovedTargets(g', mid, g, k, o, i, c);
    forall d | d in hd ensures |g'.Into(g'.AllRefs(), d)| == |g.Into(g.AllRefs(), d)| {
      AddedRef(mid, g', Outside(k), c, d);
      AddedRef(mid, g, Field(o, i), c, d);
    }
  }

  lemma MovedTargets(g: Graph, mid: Graph, g': Graph, k: nat, o: Cell, i: nat, c: Cell)
    requires k in g.outside && g.outside[k] == c && o in g.fields && i < |g.fields[o]| && g.fields[o][i] == Nil
    requires mid == Graph(g.fields, g.outside - {k})
    requires g' == Graph(g.fields[o := g.fields[o][i := To(c)]], g.outside - {k})
    ensures forall r :: g.Target(r) == if r == Outside(k) then To(c) else mid.Target(r)
    ensures forall r :: g'.Target(r) == if r == Field(o, i) then To(c) else mid.Target(r)
    ensures mid.Target(Outside(k)) == Nil && mid.Target(Field(o, i)) == Nil
    ensures g.NoDangling() <==> g'.NoDangling()
  {
    hide Graph.NoDangling;
    forall r ensures g'.Target(r) == if r == Field(o, i) then To(c) else mid.Target(r) {
    }
    forall r ensures g.Target(r) == if r == Outside(k) then To(c) else mid.Target(r) {
    }
    TargetsAgree(mid, g, Outside(k), c);
    TargetsAgree(mid, g', Field(o, i), c);
  }

  /** g' has one reference more than g, namely r to c. */
  lemma AddedRef(g: Graph, g': Graph, r: Ref, c: Cell, d: Cell)
    requires g.Target(r) == Nil
    requires forall q :: g'.Target(q) == if q == r then To(c) else g.Target(q)
    ensures |g'.Into(g'.AllRefs(), d)| == |g.Into(g.AllRefs(), d)| + (if d == c then 1 else 0)
  {
    hide Graph.Target;
    var A, A' := g.Into(g.AllRefs(), d), g'.Into(g'.AllRefs(), d);
    forall q ensures q in A' <==> q in A || (q == r && d == c) {
      TargetIsRef(g, q); TargetIsRef(g', q);
    }
    TargetIsRef(g, r);
    if d == c { assert A' == A + {r}; } else { assert A' == A; }
  }

  /** A count of zero means that the reference at hand is the only one. */
  lemma LastReference(g: Graph, hd: Headers, r: Ref, c: Cell)
    requires Exact(g, hd) && g.Target(r) == To(c)
    ensures c in hd && Count(hd[c].rc) >= 0
    ensures Count(hd[c].rc) == 0 <==> g.Into(g.AllRefs(), c) == {r}
  {
    TargetIsRef(g, r);
    var A := g.Into(g.AllRefs(), c);
    assert r in A;
    if |A| == 1 {
      assert A - {r} == {} by { assert |A - {r}| == 0; }
      assert A == {r};
    }
  }

  lemma AlreadyBlack(hd: Headers, c: Cell)
    requires Colors(hd, {}, {}) && c in hd
    ensures WithColor(hd[c].rc, BLACK) == hd[c].rc
  {
  }

  lemma RootListed(hd: Headers, roots: seq<Cell>, c: Cell)
    requires RootsAgree(hd, roots) && c in hd
    ensures c in roots <==> hd[c].rootIdx > 0
  {
  }

  /** What follows when a reference to s is given up and s lives on: s is a candidate
      already or its type is acyclic, and nothing happens; or it becomes one, and if that
      makes enough of them, exactly the garbage of all candidates is disposed of. */
  ghost predicate Remembered(g: Graph, roots: seq<Cell>, threshold: int, s: Cell, acyclic: bool, g': Graph, roots': seq<Cell>, listed: seq<Cell>) {
    if acyclic || s in roots then listed == [] && roots' == roots && g' == g
    else if threshold <= |roots| + 1 - 128 then roots' == [] && Elems(listed) == g.Garbage(Elems(roots + [s]))
    else listed == [] && roots' == roots + [s] && g' == g
  }

  lemma NothingDisposed(g: Graph, listed: seq<Cell>)
    requires listed == []
    ensures Disposed(g, g, Elems(listed)) && NoDup(listed)
  {
  }

  /** Storing src over a field: the old content leaves to k2, the new one comes from k1. */
  lemma StoreField(g: Graph, hd: Headers, o: Cell, i: nat, src: Slot, k1: nat, k2: nat) returns (g': Graph)
    requires Exact(g, hd) && o in g.fields && i < |g.fields[o]| && k1 != k2 && k2 !in g.outside
    requires src.To? ==> k1 in g.outside && g.outside[k1] == src.cell
    ensures Exact(g', hd) && g'.fields == g.fields[o := g.fields[o][i := src]]
    ensures g'.outside == (if g.fields[o][i].To? then g.outside[k2 := g.fields[o][i].cell] else g.outside) - (if src.To? then {k1} else {})
  {
    hide Exact;
    var tmp := g.fields[o][i];
    g' := g;
    if tmp.To? {
      MoveRefOut(g, hd, k2, o, i, tmp.cell);
      g' := Graph(g.fields[o := g.fields[o][i := Nil]], g.outside[k2 := tmp.cell]);
    }
    assert g.fields[o][i := Nil] == if tmp.To? then g'.fields[o] else g.fields[o];
    assert g.fields[o][i := src] == g.fields[o][i := Nil][i := src];
    if src.To? {
      MoveRef(g', hd, k1, o, i, src.cell);
      g' := Graph(g'.fields[o := g'.fields[o][i := src]], g'.outside - {k1});
    }
    assert g'.fields == g.fields[o := g.fields[o][i := src]];
  }

  /** Changing a count leaves colours and root positions alone. */
  lemma Recounted(hd: Headers, c: Cell, k: int, roots: seq<Cell>)
    requires Colors(hd, {}, {}) && RootsAgree(hd, roots) && c in hd && k in {RC_INCREMENT, -RC_INCREMENT}
    ensures Colors(AddRc(hd, c, k), {}, {}) && RootsAgree(AddRc(hd, c, k), roots)
  {
    hide AddRc, Count;
    AddRcIs(hd, c);
  }
}
