/** The search for a promoted field, one level of embedding at a time. */
module FieldLookup {
  import opened FieldPaths

  /** An item of the work list, with the path that led to it. */
  datatype Scan = Scan(typ: TypeId, index: seq<nat>)

  datatype Found = Found(typ: TypeId, field: nat, index: seq<nat>)

  type Counts = map<TypeId, nat>

  function CountOf(count: Counts, x: TypeId): nat { if x in count then count[x] else 0 }

  // ----------------------------------------------------- between two levels

  /** Each item is a struct with a path of d embedded fields to it, once. */
  ghost predicate Queued(g: Types, t0: TypeId, d: nat, queue: seq<Scan>) {
    && (forall k :: 0 <= k < |queue| ==> queue[k].index in LevelTo(g, t0, d, queue[k].typ))
    && (forall k, n :: 0 <= k < n < |queue| ==> queue[k].typ != queue[n].typ)
  }

  ghost predicate Listed(queue: seq<Scan>, x: TypeId) { exists k :: 0 <= k < |queue| && queue[k].typ == x }

  /** For a struct not reached before: it is in the queue if a path of d leads to it,
      and its count tells one path from several. */
  ghost predicate Complete(g: Types, t0: TypeId, d: nat, queue: seq<Scan>, count: Counts, visited: set<TypeId>) {
    forall x :: x !in visited ==>
      && (LevelTo(g, t0, d, x) != {} <==> Listed(queue, x))
      && (CountOf(count, x) > 1 <==> |LevelTo(g, t0, d, x)| >= 2)
  }

  ghost predicate Seen(g: Types, t0: TypeId, d: nat, visited: set<TypeId>) {
    forall x :: x in visited <==> Early(g, t0, d, x)
  }

  ghost predicate Clear(g: Types, visited: set<TypeId>, wanted: string -> bool) {
    forall x :: x in visited ==> Matching(g, x, wanted) == {}
  }

  ghost predicate Frontier(g: Types, t0: TypeId, d: nat, wanted: string -> bool, queue: seq<Scan>, count: Counts, visited: set<TypeId>) {
    && Queued(g, t0, d, queue) && Complete(g, t0, d, queue, count, visited)
    && Seen(g, t0, d, visited) && Clear(g, visited, wanted) && visited <= g.Keys
  }

  // ---------------------------------------------------------- within a level

  /** Field j of struct y is among those looked at before field i of the k-th item. */
  ghost predicate Before(queue: seq<Scan>, earlier: set<TypeId>, k: nat, i: nat, y: TypeId, j: nat) {
    y !in earlier && exists n :: 0 <= n < |queue| && queue[n].typ == y && (n < k || (n == k && j < i))
  }

  predicate Matches(g: Types, y: TypeId, j: nat, wanted: string -> bool) { j < |Fields(g, y)| && wanted(Fields(g, y)[j].name) }

  /** The paths through the embedded fields looked at so far. */
  ghost predicate DoneIs(g: Types, t0: TypeId, d: nat, wanted: string -> bool, queue: seq<Scan>, earlier: set<TypeId>, k: nat, i: nat, done: set<seq<nat>>) {
    && [] !in done
    && forall q: seq<nat>, j: nat :: q + [j] in done <==>
         && q in Level(g, t0, d) && Opens(g, TypeAt(g, t0, q), j) && !Matches(g, TypeAt(g, t0, q), j, wanted)
         && Before(queue, earlier, k, i, TypeAt(g, t0, q), j)
  }

  /** The paths to the matching fields looked at so far. */
  ghost predicate HitsAre(g: Types, t0: TypeId, d: nat, wanted: string -> bool, queue: seq<Scan>, earlier: set<TypeId>, k: nat, i: nat, hits: set<seq<nat>>) {
    && [] !in hits
    && forall q: seq<nat>, j: nat :: q + [j] in hits <==>
         && q in Level(g, t0, d) && Matches(g, TypeAt(g, t0, q), j, wanted)
         && Before(queue, earlier, k, i, TypeAt(g, t0, q), j)
  }

  ghost function ToOf(g: Types, t0: TypeId, done: set<seq<nat>>, x: TypeId): set<seq<nat>> {
    set p | p in done && TypeAt(g, t0, p) == x
  }

  /** The next queue holds the end of each path looked at so far, once, with one of
      the paths. */
  ghost predicate NextQueue(g: Types, t0: TypeId, done: set<seq<nat>>, next: seq<Scan>) {
    && (forall k :: 0 <= k < |next| ==> next[k].index in ToOf(g, t0, done, next[k].typ))
    && (forall k, n :: 0 <= k < n < |next| ==> next[k].typ != next[n].typ)
    && (forall x :: ToOf(g, t0, done, x) != {} <==> Listed(next, x))
  }

  /** Its counts tell no path, one, and several. */
  ghost predicate NextCounts(g: Types, t0: TypeId, done: set<seq<nat>>, nextCount: Counts) {
    forall x ::
      && (CountOf(nextCount, x) > 0 <==> |ToOf(g, t0, done, x)| >= 1)
      && (CountOf(nextCount, x) > 1 <==> |ToOf(g, t0, done, x)| >= 2)
  }

  ghost predicate NextIs(g: Types, t0: TypeId, done: set<seq<nat>>, next: seq<Scan>, nextCount: Counts) {
    NextQueue(g, t0, done, next) && NextCounts(g, t0, done, nextCount)
  }

  /** With a match: there is one hit so far, and it is the result. */
  ghost predicate OneHit(g: Types, t0: TypeId, hits: set<seq<nat>>, result: Found) {
    && hits == {result.index} && result.index != [] && result.field == result.index[|result.index| - 1]
    && result.typ == TypeAt(g, t0, result.index[..|result.index| - 1])
  }

  // ----------------------------------------------------------- one field further

  lemma BeforeNext(queue: seq<Scan>, earlier: set<TypeId>, k: nat, i: nat, y: TypeId, j: nat)
    requires k < |queue| && forall a, b :: 0 <= a < b < |queue| ==> queue[a].typ != queue[b].typ
    ensures Before(queue, earlier, k, i + 1, y, j) <==> Before(queue, earlier, k, i, y, j) || (y !in earlier && y == queue[k].typ && j == i)
    ensures y == queue[k].typ && j == i ==> !Before(queue, earlier, k, i, y, j)
  {
    if y !in earlier && y == queue[k].typ && j == i {
      assert queue[k].typ == y && k == k && j < i + 1;
    }
  }

  lemma ExtendFrom(S: set<seq<nat>>, i: nat, p: seq<nat>) returns (q: seq<nat>)
    requires p in Extend(S, i)
    ensures q in S && p == q + [i] && p != []
  {
    q :| q in S && p == q + [i];
  }

  /** All paths to y, taken on by its field i. */
  lemma MoreDone(g: Types, t0: TypeId, d: nat, wanted: string -> bool, queue: seq<Scan>, earlier: set<TypeId>, k: nat, i: nat, done: set<seq<nat>>, hits: set<seq<nat>>)
    requires Queued(g, t0, d, queue) && k < |queue| && queue[k].typ !in earlier && i < |Fields(g, queue[k].typ)|
    requires DoneIs(g, t0, d, wanted, queue, earlier, k, i, done)
    ensures var y := queue[k].typ;
            var ext := Extend(LevelTo(g, t0, d, y), i);
            && (Opens(g, y, i) && !Matches(g, y, i, wanted) ==> DoneIs(g, t0, d, wanted, queue, earlier, k, i + 1, done + ext) && done !! ext)
            && (!Opens(g, y, i) || Matches(g, y, i, wanted) ==> DoneIs(g, t0, d, wanted, queue, earlier, k, i + 1, done))
  {
    hide Before, Level, Opens, Matches, TypeAt, Extend;
    var y := queue[k].typ;
    var S := LevelTo(g, t0, d, y);
    forall q: seq<nat>, j: nat
      ensures q + [j] in Extend(S, i) <==> q in S && j == i
      ensures Before(queue, earlier, k, i + 1, TypeAt(g, t0, q), j)
         <==> Before(queue, earlier, k, i, TypeAt(g, t0, q), j) || (TypeAt(g, t0, q) == y && j == i)
    {
      ExtendIs(S, i, q, j);
      BeforeNext(queue, earlier, k, i, TypeAt(g, t0, q), j);
    }
    BeforeNext(queue, earlier, k, i, y, i);
    forall p | p in Extend(S, i) ensures p !in done && p != [] {
      var q := ExtendFrom(S, i, p);
    }
    if Opens(g, y, i) && !Matches(g, y, i, wanted) {
      forall q: seq<nat>, j: nat
        ensures q + [j] in done + Extend(S, i) <==>
                  && q in Level(g, t0, d) && Opens(g, TypeAt(g, t0, q), j) && !Matches(g, TypeAt(g, t0, q), j, wanted)
                  && Before(queue, earlier, k, i + 1, TypeAt(g, t0, q), j)
      {
        ExtendIs(S, i, q, j);
        BeforeNext(queue, earlier, k, i, TypeAt(g, t0, q), j);
        assert q in S <==> q in Level(g, t0, d) && TypeAt(g, t0, q) == y;
        assert q + [j] in done <==>
                 && q in Level(g, t0, d) && Opens(g, TypeAt(g, t0, q), j) && !Matches(g, TypeAt(g, t0, q), j, wanted)
                 && Before(queue, earlier, k, i, TypeAt(g, t0, q), j);
      }
    }
  }

  lemma MoreHits(g: Types, t0: TypeId, d: nat, wanted: string -> bool, queue: seq<Scan>, earlier: set<TypeId>, k: nat, i: nat, hits: set<seq<nat>>)
    requires Queued(g, t0, d, queue) && k < |queue| && queue[k].typ !in earlier && i < |Fields(g, queue[k].typ)|
    requires HitsAre(g, t0, d, wanted, queue, earlier, k, i, hits)
    ensures var y := queue[k].typ;
            var ext := Extend(LevelTo(g, t0, d, y), i);
            && (Matches(g, y, i, wanted) ==> HitsAre(g, t0, d, wanted, queue, earlier, k, i + 1, hits + ext) && hits !! ext)
            && (!Matches(g, y, i, wanted) ==> HitsAre(g, t0, d, wanted, queue, earlier, k, i + 1, hits))
  {
    hide Before, Level, Matches, TypeAt, Extend;
    var y := queue[k].typ;
    var S := LevelTo(g, t0, d, y);
    forall q: seq<nat>, j: nat
      ensures q + [j] in Extend(S, i) <==> q in S && j == i
      ensures Before(queue, earlier, k, i + 1, TypeAt(g, t0, q), j)
         <==> Before(queue, earlier, k, i, TypeAt(g, t0, q), j) || (TypeAt(g, t0, q) == y && j == i)
    {
      ExtendIs(S, i, q, j);
      BeforeNext(queue, earlier, k, i, TypeAt(g, t0, q), j);
    }
    BeforeNext(queue, earlier, k, i, y, i);
    forall p | p in Extend(S, i) ensures p !in hits && p != [] {
      var q := ExtendFrom(S, i, p);
    }
    if Matches(g, y, i, wanted) {
      forall q: seq<nat>, j: nat
        ensures q + [j] in hits + Extend(S, i) <==>
                  q in Level(g, t0, d) && Matches(g, TypeAt(g, t0, q), j, wanted) && Before(queue, earlier, k, i + 1, TypeAt(g, t0, q), j)
      {
        ExtendIs(S, i, q, j);
        BeforeNext(queue, earlier, k, i, TypeAt(g, t0, q), j);
        assert q in S <==> q in Level(g, t0, d) && TypeAt(g, t0, q) == y;
        assert q + [j] in hits <==> q in Level(g, t0, d) && Matches(g, TypeAt(g, t0, q), j, wanted) && Before(queue, earlier, k, i, TypeAt(g, t0, q), j);
      }
    }
  }

  /** After the last field of an item, or without any for one seen before. */
  lemma ItemDone(g: Types, t0: TypeId, d: nat, wanted: string -> bool, queue: seq<Scan>, earlier: set<TypeId>, k: nat, i: nat, done: set<seq<nat>>, hits: set<seq<nat>>)
    requires k < |queue| && (queue[k].typ in earlier || i == |Fields(g, queue[k].typ)|)
    ensures DoneIs(g, t0, d, wanted, queue, earlier, k, i, done) ==> DoneIs(g, t0, d, wanted, queue, earlier, k + 1, 0, done)
    ensures HitsAre(g, t0, d, wanted, queue, earlier, k, i, hits) ==> HitsAre(g, t0, d, wanted, queue, earlier, k + 1, 0, hits)
  {
    forall y: TypeId, j: nat | j < |Fields(g, y)|
      ensures Before(queue, earlier, k + 1, 0, y, j) <==> Before(queue, earlier, k, i, y, j)
    {
      if y !in earlier && y == queue[k].typ { assert queue[k].typ == y; }
    }
    hide Before, Level;
  }

  lemma NothingYet(g: Types, t0: TypeId, d: nat, wanted: string -> bool, queue: seq<Scan>, earlier: set<TypeId>)
    ensures DoneIs(g, t0, d, wanted, queue, earlier, 0, 0, {}) && HitsAre(g, t0, d, wanted, queue, earlier, 0, 0, {})
    ensures NextIs(g, t0, {}, [], map[])
  {
    hide Level;
  }

  lemma ToOfMore(g: Types, t0: TypeId, done: set<seq<nat>>, ext: set<seq<nat>>, x: TypeId, y: TypeId)
    requires done !! ext && forall q :: q in ext ==> TypeAt(g, t0, q) == x
    ensures ToOf(g, t0, done + ext, y) == ToOf(g, t0, done, y) + if y == x then ext else {}
    ensures |ToOf(g, t0, done + ext, x)| == |ToOf(g, t0, done, x)| + |ext|
  {
    hide TypeAt;
    assert ToOf(g, t0, done + ext, x) == ToOf(g, t0, done, x) + ext;
  }

  lemma CountsMore(g: Types, t0: TypeId, done: set<seq<nat>>, nextCount: Counts, ext: set<seq<nat>>, x: TypeId, n: nat)
    requires NextCounts(g, t0, done, nextCount) && done !! ext && ext != {} && forall q :: q in ext ==> TypeAt(g, t0, q) == x
    requires n == if CountOf(nextCount, x) > 0 || |ext| >= 2 then 2 else 1
    ensures NextCounts(g, t0, done + ext, nextCount[x := n])
  {
    SomeSize(ext);
    hide ToOf;
    forall y ensures (CountOf(nextCount[x := n], y) > 0 <==> |ToOf(g, t0, done + ext, y)| >= 1)
                  && (CountOf(nextCount[x := n], y) > 1 <==> |ToOf(g, t0, done + ext, y)| >= 2)
    {
      ToOfMore(g, t0, done, ext, x, y);
      assert y != x ==> ToOf(g, t0, done + ext, y) == ToOf(g, t0, done, y);
    }
  }

  /** More paths come to the struct x, which is queued already: its count becomes two. */
  lemma NextAgain(g: Types, t0: TypeId, done: set<seq<nat>>, next: seq<Scan>, nextCount: Counts, ext: set<seq<nat>>, x: TypeId)
    requires NextIs(g, t0, done, next, nextCount) && done !! ext && ext != {} && forall q :: q in ext ==> TypeAt(g, t0, q) == x
    requires CountOf(nextCount, x) > 0
    ensures NextIs(g, t0, done + ext, next, nextCount[x := 2])
  {
    CountsMore(g, t0, done, nextCount, ext, x, 2);
    SomeSize(ToOf(g, t0, done, x));
    hide NextCounts;
    forall y ensures ToOf(g, t0, done + ext, y) == ToOf(g, t0, done, y) + if y == x then ext else {} {
      ToOfMore(g, t0, done, ext, x, y);
    }
    hide ToOf, Listed;
  }

  /** The first paths come to the struct x: it is queued with one of them. */
  lemma NextFirst(g: Types, t0: TypeId, done: set<seq<nat>>, next: seq<Scan>, nextCount: Counts, ext: set<seq<nat>>, x: TypeId, p: seq<nat>)
    requires NextIs(g, t0, done, next, nextCount) && done !! ext && p in ext && forall q :: q in ext ==> TypeAt(g, t0, q) == x
    requires CountOf(nextCount, x) == 0
    ensures NextIs(g, t0, done + ext, next + [Scan(x, p)], nextCount[x := if |ext| >= 2 then 2 else 1])
  {
    CountsMore(g, t0, done, nextCount, ext, x, if |ext| >= 2 then 2 else 1);
    SomeSize(ToOf(g, t0, done, x));
    hide NextCounts;
    QueueMore(g, t0, done, next, ext, x, p);
  }

  lemma QueueMore(g: Types, t0: TypeId, done: set<seq<nat>>, next: seq<Scan>, ext: set<seq<nat>>, x: TypeId, p: seq<nat>)
    requires NextQueue(g, t0, done, next) && done !! ext && p in ext && forall q :: q in ext ==> TypeAt(g, t0, q) == x
    requires ToOf(g, t0, done, x) == {}
    ensures NextQueue(g, t0, done + ext, next + [Scan(x, p)])
  {
    var more := next + [Scan(x, p)];
    forall y ensures ToOf(g, t0, done + ext, y) == ToOf(g, t0, done, y) + if y == x then ext else {} {
      ToOfMore(g, t0, done, ext, x, y);
    }
    forall y ensures Listed(more, y) <==> Listed(next, y) || y == x { ListedMore(next, x, p, y); }
    forall k | 0 <= k < |next| ensures next[k].typ != x { assert Listed(next, next[k].typ); }
    assert forall k :: 0 <= k < |more| ==> more[k] == if k < |next| then next[k] else Scan(x, p);
    hide ToOf, Listed;
  }

  lemma ListedMore(next: seq<Scan>, x: TypeId, p: seq<nat>, y: TypeId)
    ensures Listed(next + [Scan(x, p)], y) <==> Listed(next, y) || y == x
  {
    var more := next + [Scan(x, p)];
    if k :| 0 <= k < |next| && next[k].typ == y { assert more[k].typ == y; }
    assert more[|next|].typ == x;
  }

  lemma SomeSize(S: set<seq<nat>>)
    ensures S == {} <==> |S| == 0
  {
  }

  // ------------------------------------------------------------------- the search

  /** Looks at the fields of the k-th item of the queue. */
  method ScanFields(g: Types, t0: TypeId, wanted: string -> bool, queue: seq<Scan>, k: nat, several: bool,
                    ok0: bool, result0: Found, next0: seq<Scan>, nextCount0: Counts,
                    ghost d: nat, ghost earlier: set<TypeId>, ghost done0: set<seq<nat>>, ghost hits0: set<seq<nat>>)
    returns (clash: bool, ok: bool, result: Found, next: seq<Scan>, nextCount: Counts, ghost done: set<seq<nat>>, ghost hits: set<seq<nat>>)
    requires k < |queue| && queue[k].typ !in earlier && queue[k].typ in g && Queued(g, t0, d, queue)
    requires several <==> |LevelTo(g, t0, d, queue[k].typ)| >= 2
    requires HitsAre(g, t0, d, wanted, queue, earlier, k, 0, hits0) && (if ok0 then OneHit(g, t0, hits0, result0) else hits0 == {})
    requires !ok0 ==> DoneIs(g, t0, d, wanted, queue, earlier, k, 0, done0) && NextIs(g, t0, done0, next0, nextCount0)
    ensures !clash ==> HitsAre(g, t0, d, wanted, queue, earlier, k + 1, 0, hits) && (if ok then OneHit(g, t0, hits, result) else hits == {})
    ensures !clash && !ok ==> DoneIs(g, t0, d, wanted, queue, earlier, k + 1, 0, done) && NextIs(g, t0, done, next, nextCount)
    ensures !clash && !ok ==> Matching(g, queue[k].typ, wanted) == {}
    ensures !clash && ok0 ==> ok
    ensures clash ==> exists p, q :: p != q && p in Hits(g, t0, d, wanted) && q in Hits(g, t0, d, wanted)
  {
    hide HitsAre, DoneIs, NextIs, LevelTo, Hits, Matching, OneHit, Extend, Queued, TypeAt;
    clash, ok, result, next, nextCount, done, hits := false, ok0, result0, next0, nextCount0, done0, hits0;
    var t := queue[k].typ;
    var i := 0;
    while i < |g[t]|
      invariant i <= |g[t]|
      invariant HitsAre(g, t0, d, wanted, queue, earlier, k, i, hits) && (if ok then OneHit(g, t0, hits, result) else hits == {})
      invariant !ok ==> DoneIs(g, t0, d, wanted, queue, earlier, k, i, done) && NextIs(g, t0, done, next, nextCount)
      invariant !ok ==> forall j :: 0 <= j < i ==> !Matches(g, t, j, wanted)
      invariant ok0 ==> ok
    {
      var f := g[t][i];
      ghost var ext := Extend(LevelTo(g, t0, d, t), i);
      MoreHits(g, t0, d, wanted, queue, earlier, k, i, hits);
      if !ok { MoreDone(g, t0, d, wanted, queue, earlier, k, i, done, hits); }
      ExtFacts(g, t0, d, queue, k, i);
      if wanted(f.name) {
        if several || ok {
          TwoHits(g, t0, d, wanted, queue, earlier, k, i, hits, result, ok);
          return true, ok, result, next, nextCount, done, hits;
        }
        result := Found(t, i, queue[k].index + [i]);
        ok := true;
        hits := hits + ext;
        FirstHit(g, t0, d, queue, k, i, hits, result);
      } else if !ok && Embeds(f).Some? {
        var styp := Embeds(f).value;
        if CountOf(nextCount, styp) > 0 {
          NextAgain(g, t0, done, next, nextCount, ext, styp);
          nextCount := nextCount[styp := 2];
        } else {
          NextFirst(g, t0, done, next, nextCount, ext, styp, queue[k].index + [i]);
          SetTwice(nextCount, styp, 1, 2);
          nextCount := nextCount[styp := 1];
          if several { nextCount := nextCount[styp := 2]; }
          next := next + [Scan(styp, queue[k].index + [i])];
        }
        done := done + ext;
      }
      i := i + 1;
    }
    ItemDone(g, t0, d, wanted, queue, earlier, k, i, done, hits);
    if !ok { NoMatching(g, t, wanted); }
  }

  lemma NoMatching(g: Types, t: TypeId, wanted: string -> bool)
    requires forall j :: 0 <= j < |Fields(g, t)| ==> !Matches(g, t, j, wanted)
    ensures Matching(g, t, wanted) == {}
  {
    forall i: nat ensures i in Matching(g, t, wanted) ==> Matches(g, t, i, wanted) {
    }
  }

  lemma SetTwice(counts: Counts, x: TypeId, a: nat, b: nat)
    ensures counts[x := a][x := b] == counts[x := b]
  {
  }

  /** The paths to an item, taken on by its field i. */
  lemma ExtFacts(g: Types, t0: TypeId, d: nat, queue: seq<Scan>, k: nat, i: nat)
    requires Queued(g, t0, d, queue) && k < |queue|
    ensures var S := LevelTo(g, t0, d, queue[k].typ);
            var ext := Extend(S, i);
            && |ext| == |S| && queue[k].index + [i] in ext
            && (Opens(g, queue[k].typ, i) ==> forall q :: q in ext ==> TypeAt(g, t0, q) == Embeds(Fields(g, queue[k].typ)[i]).value)
  {
    ExtendSize(LevelTo(g, t0, d, queue[k].typ), i);
    ExtendIs(LevelTo(g, t0, d, queue[k].typ), i, queue[k].index, i);
    ExtendTypes(g, t0, d, queue[k].typ, i);
    hide Extend, LevelTo, TypeAt;
  }

  lemma ExtendTypes(g: Types, t0: TypeId, d: nat, y: TypeId, i: nat)
    ensures Opens(g, y, i) ==> forall q :: q in Extend(LevelTo(g, t0, d, y), i) ==> TypeAt(g, t0, q) == Embeds(Fields(g, y)[i]).value
  {
    if Opens(g, y, i) {
      forall q | q in Extend(LevelTo(g, t0, d, y), i) ensures TypeAt(g, t0, q) == Embeds(Fields(g, y)[i]).value {
        var r := ExtendFrom(LevelTo(g, t0, d, y), i, q);
        LevelNext(g, t0, d, r, i);
      }
    }
  }

  /** A second match, or a second path to the first, makes two hits. */
  lemma TwoHits(g: Types, t0: TypeId, d: nat, wanted: string -> bool, queue: seq<Scan>, earlier: set<TypeId>, k: nat, i: nat, hits: set<seq<nat>>, result: Found, ok: bool)
    requires Queued(g, t0, d, queue) && k < |queue| && HitsAre(g, t0, d, wanted, queue, earlier, k, i, hits)
    requires var ext := Extend(LevelTo(g, t0, d, queue[k].typ), i); hits !! ext && HitsAre(g, t0, d, wanted, queue, earlier, k, i + 1, hits + ext)
    requires if ok then OneHit(g, t0, hits, result) else |LevelTo(g, t0, d, queue[k].typ)| >= 2
    ensures exists p, q :: p != q && p in Hits(g, t0, d, wanted) && q in Hits(g, t0, d, wanted)
  {
    hide LevelTo, Extend, Hits, HitsAre;
    var ext := Extend(LevelTo(g, t0, d, queue[k].typ), i);
    ExtFacts(g, t0, d, queue, k, i);
    HitsWithin(g, t0, d, wanted, queue, earlier, k, i + 1, hits + ext);
    if ok {
      assert result.index in hits && queue[k].index + [i] in ext;
      assert result.index in hits + ext && queue[k].index + [i] in hits + ext;
    } else {
      var p, q := TwoOf(ext);
      assert p in hits + ext && q in hits + ext;
    }
  }

  lemma HitsWithin(g: Types, t0: TypeId, d: nat, wanted: string -> bool, queue: seq<Scan>, earlier: set<TypeId>, k: nat, i: nat, hits: set<seq<nat>>)
    requires HitsAre(g, t0, d, wanted, queue, earlier, k, i, hits)
    ensures hits <= Hits(g, t0, d, wanted)
  {
    hide Level, Hits, TypeAt, Before;
    forall p | p in hits ensures p in Hits(g, t0, d, wanted) {
      var q, j := p[..|p| - 1], p[|p| - 1];
      assert p == q + [j];
      HitsIs(g, t0, d, wanted, q, j);
    }
  }

  lemma TwoOf(S: set<seq<nat>>) returns (p: seq<nat>, q: seq<nat>)
    requires |S| >= 2
    ensures p in S && q in S && p != q
  {
    p :| p in S;
    assert |S - {p}| >= 1;
    q :| q in S - {p};
  }

  lemma FirstHit(g: Types, t0: TypeId, d: nat, queue: seq<Scan>, k: nat, i: nat, hits: set<seq<nat>>, result: Found)
    requires Queued(g, t0, d, queue) && k < |queue| && |LevelTo(g, t0, d, queue[k].typ)| <= 1
    requires hits == Extend(LevelTo(g, t0, d, queue[k].typ), i) && result == Found(queue[k].typ, i, queue[k].index + [i])
    ensures OneHit(g, t0, hits, result)
  {
    ExtFacts(g, t0, d, queue, k, i);
    OnlyOne(hits, result.index);
    assert result.index[..|result.index| - 1] == queue[k].index;
  }

  lemma OnlyOne(S: set<seq<nat>>, p: seq<nat>)
    requires p in S && |S| <= 1
    ensures S == {p}
  {
    var rest := S - {p};
    assert |rest| == |S| - 1;
    SomeSize(rest);
    assert S == rest + {p};
  }

  /** Looks at all items of the queue; visited grows by their structs. */
  method ScanLevel(g: Types, t0: TypeId, wanted: string -> bool, queue: seq<Scan>, count: Counts, visited0: set<TypeId>, ghost d: nat)
    returns (clash: bool, ok: bool, result: Found, next: seq<Scan>, nextCount: Counts, visited: set<TypeId>)
    requires Closed(g) && t0 in g && Frontier(g, t0, d, wanted, queue, count, visited0)
    ensures !clash && ok ==> OneHit(g, t0, Hits(g, t0, d, wanted), result)
    ensures clash ==> exists p, q :: p != q && p in Hits(g, t0, d, wanted) && q in Hits(g, t0, d, wanted)
    ensures !clash && !ok ==> Hits(g, t0, d, wanted) == {} && Frontier(g, t0, d + 1, wanted, next, nextCount, visited)
    ensures !clash && !ok ==> visited0 <= visited <= g.Keys && (visited == visited0 ==> next == [])
  {
    hide HitsAre, DoneIs, NextIs, LevelTo, Hits, Matching, OneHit, Queued, Complete, Seen, Clear, Closed, Listed;
    clash, ok, next, nextCount, visited := false, false, [], map[], visited0;
    result := Found(t0, 0, []);
    ghost var done, hits: set<seq<nat>> := {}, {};
    NothingYet(g, t0, d, wanted, queue, visited0);
    var k := 0;
    while k < |queue|
      invariant k <= |queue| && Visited(queue, visited0, k, visited)
      invariant HitsAre(g, t0, d, wanted, queue, visited0, k, 0, hits) && (if ok then OneHit(g, t0, hits, result) else hits == {})
      invariant !ok ==> DoneIs(g, t0, d, wanted, queue, visited0, k, 0, done) && NextIs(g, t0, done, next, nextCount)
      invariant !ok ==> ClearItems(g, wanted, queue, visited0, k)
    {
      ItemIn(g, t0, d, queue, k);
      NotTwice(g, t0, d, queue, visited0, visited, k);
      if queue[k].typ in visited {
        ItemDone(g, t0, d, wanted, queue, visited0, k, 0, done, hits);
      } else {
        visited := visited + {queue[k].typ};
        CountIs(g, t0, d, queue, count, visited0, queue[k].typ);
        var several := CountOf(count, queue[k].typ) > 1;
        clash, ok, result, next, nextCount, done, hits :=
          ScanFields(g, t0, wanted, queue, k, several, ok, result, next, nextCount, d, visited0, done, hits);
        if clash {
          return;
        }
      }
      k := k + 1;
    }
    AllHits(g, t0, d, wanted, queue, count, visited0, hits);
    if !ok {
      NextFrontier(g, t0, d, wanted, queue, count, visited0, visited, done, next, nextCount);
    }
  }

  /** visited holds the old structs and those of the first k items. */
  ghost predicate Visited(queue: seq<Scan>, earlier: set<TypeId>, k: nat, visited: set<TypeId>) {
    forall x :: x in visited <==> x in earlier || exists n :: 0 <= n < |queue| && n < k && queue[n].typ == x
  }

  ghost predicate ClearItems(g: Types, wanted: string -> bool, queue: seq<Scan>, earlier: set<TypeId>, k: nat) {
    forall n :: 0 <= n < |queue| && n < k && queue[n].typ !in earlier ==> Matching(g, queue[n].typ, wanted) == {}
  }

  lemma ItemIn(g: Types, t0: TypeId, d: nat, queue: seq<Scan>, k: nat)
    requires Closed(g) && t0 in g && Queued(g, t0, d, queue) && k < |queue|
    ensures queue[k].typ in g
  {
    TypeIn(g, t0, d, queue[k].index);
  }

  lemma NotTwice(g: Types, t0: TypeId, d: nat, queue: seq<Scan>, earlier: set<TypeId>, visited: set<TypeId>, k: nat)
    requires Queued(g, t0, d, queue) && k < |queue| && Visited(queue, earlier, k, visited)
    ensures queue[k].typ in visited <==> queue[k].typ in earlier
    ensures Visited(queue, earlier, k + 1, visited + {queue[k].typ})
    ensures queue[k].typ in earlier ==> Visited(queue, earlier, k + 1, visited)
  {
    hide LevelTo;
  }

  lemma CountIs(g: Types, t0: TypeId, d: nat, queue: seq<Scan>, count: Counts, visited: set<TypeId>, x: TypeId)
    requires Complete(g, t0, d, queue, count, visited) && x !in visited
    ensures CountOf(count, x) > 1 <==> |LevelTo(g, t0, d, x)| >= 2
  {
    hide LevelTo;
  }

  /** At the end of a level every hit of the level has been found. */
  lemma AllHits(g: Types, t0: TypeId, d: nat, wanted: string -> bool, queue: seq<Scan>, count: Counts, earlier: set<TypeId>, hits: set<seq<nat>>)
    requires Frontier(g, t0, d, wanted, queue, count, earlier) && HitsAre(g, t0, d, wanted, queue, earlier, |queue|, 0, hits)
    ensures hits == Hits(g, t0, d, wanted)
  {
    HitsWithin(g, t0, d, wanted, queue, earlier, |queue|, 0, hits);
    forall p | p in Hits(g, t0, d, wanted) ensures p in hits {
      var q, j :| q in Level(g, t0, d) && j in Matching(g, TypeAt(g, t0, q), wanted) && p == q + [j];
      var y := TypeAt(g, t0, q);
      assert y !in earlier;
      assert q in LevelTo(g, t0, d, y);
      assert Listed(queue, y);
      assert Before(queue, earlier, |queue|, 0, y, j);
    }
  }

  lemma NextFrontier(g: Types, t0: TypeId, d: nat, wanted: string -> bool, queue: seq<Scan>, count: Counts, earlier: set<TypeId>, visited: set<TypeId>, done: set<seq<nat>>, next: seq<Scan>, nextCount: Counts)
    requires Closed(g) && t0 in g && Frontier(g, t0, d, wanted, queue, count, earlier) && Visited(queue, earlier, |queue|, visited)
    requires ClearItems(g, wanted, queue, earlier, |queue|)
    requires DoneIs(g, t0, d, wanted, queue, earlier, |queue|, 0, done) && NextIs(g, t0, done, next, nextCount)
    ensures Frontier(g, t0, d + 1, wanted, next, nextCount, visited)
    ensures earlier <= visited <= g.Keys && (visited == earlier ==> next == [])
  {
    hide LevelTo, Level, Matching, NextIs, DoneIs, TypeAt, Early;
    forall x ensures x in visited <==> Early(g, t0, d + 1, x) {
      EarlyNext(g, t0, d, x);
    }
    forall k | 0 <= k < |queue| ensures queue[k].typ in g { ItemIn(g, t0, d, queue, k); }
    forall x | x !in visited ensures LevelTo(g, t0, d + 1, x) == ToOf(g, t0, done, x) {
      DoneAll(g, t0, d, wanted, queue, count, earlier, visited, done, x);
    }
    DoneQueued(g, t0, d, wanted, queue, earlier, done, next, nextCount);
    NextComplete(g, t0, d, done, next, nextCount, visited);
    if visited == earlier { NothingNew(g, t0, d, wanted, queue, earlier, visited, done, next, nextCount); }
  }

  /** A struct first reached at the next level is reached only through structs first
      reached at this one. */
  lemma DoneAll(g: Types, t0: TypeId, d: nat, wanted: string -> bool, queue: seq<Scan>, count: Counts, earlier: set<TypeId>, visited: set<TypeId>, done: set<seq<nat>>, x: TypeId)
    requires Frontier(g, t0, d, wanted, queue, count, earlier) && DoneIs(g, t0, d, wanted, queue, earlier, |queue|, 0, done)
    requires ClearItems(g, wanted, queue, earlier, |queue|) && !Early(g, t0, d + 1, x)
    ensures LevelTo(g, t0, d + 1, x) == ToOf(g, t0, done, x)
  {
    forall p ensures p in LevelTo(g, t0, d + 1, x) <==> p in ToOf(g, t0, done, x) {
      if p in LevelTo(g, t0, d + 1, x) {
        var q, j :| q in Level(g, t0, d) && j in Opening(g, TypeAt(g, t0, q)) && p == q + [j];
        var y := TypeAt(g, t0, q);
        LevelNext(g, t0, d, q, j);
        if y in earlier {
          EarlyOpens(g, t0, d, y, j);
        } else {
          assert q in LevelTo(g, t0, d, y);
          assert Listed(queue, y);
          ListedAll(g, wanted, queue, earlier, y, j);
        }
      }
      if p in done {
        var q, j := p[..|p| - 1], p[|p| - 1];
        assert p == q + [j];
        LevelNext(g, t0, d, q, j);
      }
    }
  }

  lemma ListedAll(g: Types, wanted: string -> bool, queue: seq<Scan>, earlier: set<TypeId>, y: TypeId, j: nat)
    requires Listed(queue, y) && y !in earlier && ClearItems(g, wanted, queue, earlier, |queue|)
    ensures Before(queue, earlier, |queue|, 0, y, j) && !Matches(g, y, j, wanted)
  {
    var k :| 0 <= k < |queue| && queue[k].typ == y;
    assert Matches(g, y, j, wanted) ==> j in Matching(g, y, wanted);
  }

  lemma DoneQueued(g: Types, t0: TypeId, d: nat, wanted: string -> bool, queue: seq<Scan>, earlier: set<TypeId>, done: set<seq<nat>>, next: seq<Scan>, nextCount: Counts)
    requires DoneIs(g, t0, d, wanted, queue, earlier, |queue|, 0, done) && NextIs(g, t0, done, next, nextCount)
    ensures Queued(g, t0, d + 1, next)
  {
    hide Before, Level, TypeAt;
    forall k | 0 <= k < |next| ensures next[k].index in LevelTo(g, t0, d + 1, next[k].typ) {
      var p := next[k].index;
      assert p in ToOf(g, t0, done, next[k].typ);
      var q, j := p[..|p| - 1], p[|p| - 1];
      assert p == q + [j];
      LevelNext(g, t0, d, q, j);
    }
  }

  lemma NextComplete(g: Types, t0: TypeId, d: nat, done: set<seq<nat>>, next: seq<Scan>, nextCount: Counts, visited: set<TypeId>)
    requires NextIs(g, t0, done, next, nextCount) && forall x :: x !in visited ==> LevelTo(g, t0, d + 1, x) == ToOf(g, t0, done, x)
    ensures Complete(g, t0, d + 1, next, nextCount, visited)
  {
    hide LevelTo, ToOf, Listed;
  }

  lemma NothingNew(g: Types, t0: TypeId, d: nat, wanted: string -> bool, queue: seq<Scan>, earlier: set<TypeId>, visited: set<TypeId>, done: set<seq<nat>>, next: seq<Scan>, nextCount: Counts)
    requires Visited(queue, earlier, |queue|, visited) && visited == earlier
    requires DoneIs(g, t0, d, wanted, queue, earlier, |queue|, 0, done) && NextIs(g, t0, done, next, nextCount)
    ensures next == []
  {
    forall y: TypeId, j: nat ensures !Before(queue, earlier, |queue|, 0, y, j) {
      BeforeVisited(queue, earlier, visited, y, j);
    }
    hide Before, Level, TypeAt;
    forall p: seq<nat> ensures p !in done {
      if p != [] {
        var q, j := p[..|p| - 1], p[|p| - 1];
        assert !Before(queue, earlier, |queue|, 0, TypeAt(g, t0, q), j);
        assert q + [j] !in done;
        assert p == q + [j];
      }
    }
    assert |next| > 0 ==> next[0].index in ToOf(g, t0, done, next[0].typ);
  }

  lemma BeforeVisited(queue: seq<Scan>, earlier: set<TypeId>, visited: set<TypeId>, y: TypeId, j: nat)
    requires Visited(queue, earlier, |queue|, visited)
    ensures Before(queue, earlier, |queue|, 0, y, j) ==> y in visited && y !in earlier
  {
    if Before(queue, earlier, |queue|, 0, y, j) {
      var n :| 0 <= n < |queue| && queue[n].typ == y;
    }
  }

  // -------------------------------------------------------------------- the answer

  ghost predicate NoneBefore(g: Types, t0: TypeId, d: nat, wanted: string -> bool) {
    forall e: nat :: e < d ==> Hits(g, t0, e, wanted) == {}
  }

  lemma Start(g: Types, t0: TypeId, wanted: string -> bool)
    ensures Frontier(g, t0, 0, wanted, [Scan(t0, [])], map[], {}) && NoneBefore(g, t0, 0, wanted)
  {
    forall x ensures LevelTo(g, t0, 0, x) == if x == t0 then {[]} else {} {
    }
    assert [Scan(t0, [])][0].typ == t0;
  }

  lemma ShortNoHit(g: Types, t0: TypeId, d: nat, wanted: string -> bool, q: seq<nat>)
    requires NoneBefore(g, t0, d, wanted) && |q| <= d
    ensures !IsHit(g, t0, wanted, q)
  {
    hide Hits;
    assert q != [] ==> Hits(g, t0, |q| - 1, wanted) == {};
  }

  /** The one hit of the first level that has any is what the language selects. */
  lemma OneSelects(g: Types, t0: TypeId, d: nat, wanted: string -> bool, result: Found)
    requires NoneBefore(g, t0, d, wanted) && OneHit(g, t0, Hits(g, t0, d, wanted), result)
    ensures Selects(g, t0, wanted, result.index) && |result.index| == d + 1
  {
    HitLength(g, t0, d, wanted, result.index);
    forall q ensures IsHit(g, t0, wanted, q) ==> q == result.index || |q| > |result.index| {
      if |q| <= d { ShortNoHit(g, t0, d, wanted, q); }
    }
  }

  lemma HitLength(g: Types, t0: TypeId, d: nat, wanted: string -> bool, p: seq<nat>)
    requires p in Hits(g, t0, d, wanted)
    ensures |p| == d + 1 && IsHit(g, t0, wanted, p)
  {
    var q, i :| q in Level(g, t0, d) && i in Matching(g, TypeAt(g, t0, q), wanted) && p == q + [i];
    LevelLength(g, t0, d, q);
  }

  /** Two hits at one level, and nothing is selected. */
  lemma TwoSelectNone(g: Types, t0: TypeId, d: nat, wanted: string -> bool, p: seq<nat>, q: seq<nat>)
    requires NoneBefore(g, t0, d, wanted) && p != q && p in Hits(g, t0, d, wanted) && q in Hits(g, t0, d, wanted)
    ensures forall r :: !Selects(g, t0, wanted, r)
  {
    HitLength(g, t0, d, wanted, p);
    HitLength(g, t0, d, wanted, q);
    forall r ensures !Selects(g, t0, wanted, r) {
      if |r| <= d { ShortNoHit(g, t0, d, wanted, r); }
    }
  }

  /** No path is as long as an empty level is deep, so there is no hit at all. */
  lemma EmptyEnds(g: Types, t0: TypeId, d: nat, wanted: string -> bool, count: Counts, visited: set<TypeId>)
    requires Frontier(g, t0, d, wanted, [], count, visited) && NoneBefore(g, t0, d, wanted)
    ensures forall r :: !Selects(g, t0, wanted, r)
  {
    forall r ensures !IsHit(g, t0, wanted, r) {
      if IsHit(g, t0, wanted, r) {
        var q, i :| q in Level(g, t0, |r| - 1) && i in Matching(g, TypeAt(g, t0, q), wanted) && r == q + [i];
        EarlyAll(g, t0, d, wanted, count, visited, |r| - 1, q);
      }
    }
  }

  /** Beyond an empty queue every path ends at a struct seen before. */
  lemma {:induction false} EarlyAll(g: Types, t0: TypeId, d: nat, wanted: string -> bool, count: Counts, visited: set<TypeId>, e: nat, q: seq<nat>)
    requires Frontier(g, t0, d, wanted, [], count, visited) && q in Level(g, t0, e)
    ensures TypeAt(g, t0, q) in visited && Matching(g, TypeAt(g, t0, q), wanted) == {}
  {
    hide LevelTo, Matching, TypeAt;
    assert q in LevelTo(g, t0, e, TypeAt(g, t0, q)) by { InLevelTo(g, t0, e, q); }
    if e > d {
      var r, i :| r in Level(g, t0, e - 1) && i in Opening(g, TypeAt(g, t0, r)) && q == r + [i];
      EarlyAll(g, t0, d, wanted, count, visited, e - 1, r);
      LevelNext(g, t0, e - 1, r, i);
      EarlyOpens(g, t0, d, TypeAt(g, t0, r), i);
      EarlyNext(g, t0, d, TypeAt(g, t0, q));
    } else if e == d {
      assert !Listed([], TypeAt(g, t0, q));
    }
  }

  lemma InLevelTo(g: Types, t0: TypeId, e: nat, q: seq<nat>)
    requires q in Level(g, t0, e)
    ensures q in LevelTo(g, t0, e, TypeAt(g, t0, q))
  {
  }

  /** The field the language selects, if there is one; structs may embed each other in
      cycles. */
  method FieldByNameFunc(g: Types, t0: TypeId, wanted: string -> bool) returns (ok: bool, result: Found)
    requires Closed(g) && t0 in g
    ensures ok ==> Selects(g, t0, wanted, result.index)
    ensures ok ==> result.index != [] && FoundAt(g, t0, result)
    ensures !ok ==> forall p :: !Selects(g, t0, wanted, p)
  {
    hide Frontier, NoneBefore, Hits, Selects, TypeAt;
    var next, nextCount: Counts, visited := [Scan(t0, [])], map[], {};
    ghost var d: nat := 0;
    Start(g, t0, wanted);
    VisitedIn(g, t0, 0, wanted, next, nextCount, visited);
    while next != []
      invariant Frontier(g, t0, d, wanted, next, nextCount, visited) && NoneBefore(g, t0, d, wanted) && visited <= g.Keys
      decreases |g.Keys - visited|, |next|
    {
      ghost var before := visited;
      var clash;
      clash, ok, result, next, nextCount, visited := ScanLevel(g, t0, wanted, next, nextCount, visited, d);
      if clash {
        ghost var p, q :| p != q && p in Hits(g, t0, d, wanted) && q in Hits(g, t0, d, wanted);
        TwoSelectNone(g, t0, d, wanted, p, q);
        return false, result;
      }
      if ok {
        OneSelects(g, t0, d, wanted, result);
        NotAtStart(g, t0, wanted, result.index);
        return;
      }
      NoneNext(g, t0, d, wanted);
      Fewer(g.Keys, before, visited);
      d := d + 1;
    }
    EmptyEnds(g, t0, d, wanted, nextCount, visited);
    return false, Found(t0, 0, []);
  }

  lemma NotAtStart(g: Types, t0: TypeId, wanted: string -> bool, p: seq<nat>)
    requires Selects(g, t0, wanted, p)
    ensures p != []
  {
  }

  lemma VisitedIn(g: Types, t0: TypeId, d: nat, wanted: string -> bool, queue: seq<Scan>, count: Counts, visited: set<TypeId>)
    requires Frontier(g, t0, d, wanted, queue, count, visited)
    ensures visited <= g.Keys
  {
  }

  lemma NoneNext(g: Types, t0: TypeId, d: nat, wanted: string -> bool)
    requires NoneBefore(g, t0, d, wanted) && Hits(g, t0, d, wanted) == {}
    ensures NoneBefore(g, t0, d + 1, wanted)
  {
    hide Hits;
  }

  lemma Fewer(all: set<TypeId>, before: set<TypeId>, visited: set<TypeId>)
    requires before <= visited <= all
    ensures visited != before ==> |all - visited| < |all - before|
    ensures |all - visited| <= |all - before|
  {
    var a, b := all - visited, all - before;
    assert b == a + (visited - before) && a !! (visited - before);
    if visited != before {
      var x :| x in visited - before;
    }
  }

  /** At most one selection: what is found does not depend on the order of the search. */
  lemma SelectsOnce(g: Types, t0: TypeId, wanted: string -> bool, p: seq<nat>, q: seq<nat>)
    requires Selects(g, t0, wanted, p) && Selects(g, t0, wanted, q)
    ensures p == q
  {
  }

  // ------------------------------------------------------------ the other lookups

  function Named(name: string): string -> bool { s => s == name }

  /** FieldByName finds the first top-level field of the name at once, and searches
      only when there is none and a field is embedded. */
  method FieldByName(g: Types, t0: TypeId, name: string) returns (present: bool, result: Found)
    requires Closed(g) && t0 in g
    ensures name == "" ==> !present
    ensures name != "" && |Matching(g, t0, Named(name))| <= 1 ==>
              && (present ==> Selects(g, t0, Named(name), result.index))
              && (!present ==> forall p :: !Selects(g, t0, Named(name), p))
    ensures name != "" && |Matching(g, t0, Named(name))| >= 2 ==> present && forall p :: !Selects(g, t0, Named(name), p)
    ensures present ==> result.index != [] && FoundAt(g, t0, result)
    ensures present && Matching(g, t0, Named(name)) != {} ==> First(g, t0, name, result)
  {
    hide Matching, Selects, TypeAt, Opening;
    TypeAtStart(g, t0);
    present, result := false, Found(t0, 0, []);
    var hasEmbeds := false;
    if name != "" {
      var i := 0;
      while i < |g[t0]|
        invariant i <= |g[t0]|
        invariant forall j :: 0 <= j < i ==> !Matches(g, t0, j, Named(name)) && (Embeds(g[t0][j]).Some? ==> hasEmbeds)
      {
        if g[t0][i].name == name {
          TopLevel(g, t0, name, i);
          assert [i][..0] == [];
          return true, Found(t0, i, [i]);
        }
        if g[t0][i].embedded {
          hasEmbeds := true;
        }
        i := i + 1;
      }
      NoMatching(g, t0, Named(name));
    }
    if !hasEmbeds {
      if name != "" { NoEmbeds(g, t0, name); }
      return;
    }
    present, result := FieldByNameFunc(g, t0, Named(name));
  }

  /** What is found is the field at the end of the path, in the struct there. */
  ghost predicate FoundAt(g: Types, t0: TypeId, f: Found)
    requires f.index != []
  {
    f.typ == TypeAt(g, t0, f.index[..|f.index| - 1]) && f.field == f.index[|f.index| - 1]
  }

  /** The first top-level field of the name. */
  ghost predicate First(g: Types, t0: TypeId, name: string, f: Found) {
    && f == Found(t0, f.field, [f.field]) && Matches(g, t0, f.field, Named(name))
    && forall j :: 0 <= j < f.field ==> !Matches(g, t0, j, Named(name))
  }

  /** Two top-level fields of one name occur: every struct may have several blank ones. */
  const TWO_BLANKS: Types := map[0 := [Field("_", false, OtherType), Field("_", false, OtherType)]]

  /** FieldByName gives the first of them, while the language selects none. */
  method FindBlank() returns (present: bool, result: Found)
    ensures present && result == Found(0, 0, [0]) && forall p :: !Selects(TWO_BLANKS, 0, Named("_"), p)
  {
    hide Selects;
    BlanksMatch();
    present, result := FieldByName(TWO_BLANKS, 0, "_");
  }

  lemma BlanksMatch()
    ensures Matching(TWO_BLANKS, 0, Named("_")) == {0, 1} && Matches(TWO_BLANKS, 0, 0, Named("_"))
  {
    var fs := Fields(TWO_BLANKS, 0);
    assert |fs| == 2 && fs[0].name == fs[1].name == "_";
    assert forall i: nat :: i in Matching(TWO_BLANKS, 0, Named("_")) <==> i in {0, 1};
  }

  /** One top-level field of the name is selected; two annihilate each other. */
  lemma TopLevel(g: Types, t0: TypeId, name: string, i: nat)
    requires i < |Fields(g, t0)| && Fields(g, t0)[i].name == name
    ensures |Matching(g, t0, Named(name))| <= 1 ==> Selects(g, t0, Named(name), [i])
    ensures |Matching(g, t0, Named(name))| >= 2 ==> forall p :: !Selects(g, t0, Named(name), p)
  {
    var M := Matching(g, t0, Named(name));
    assert i in M;
    hide Matching, Selects, Hits, Level;
    if |M| <= 1 {
      OneTop(g, t0, name, i);
    } else {
      var j := AnotherIndex(M, i);
      TopHit(g, t0, name, i);
      TopHit(g, t0, name, j);
      assert [i][0] != [j][0];
      assert NoneBefore(g, t0, 0, Named(name));
      TwoSelectNone(g, t0, 0, Named(name), [i], [j]);
    }
  }

  lemma TopHit(g: Types, t0: TypeId, name: string, j: nat)
    ensures [j] in Hits(g, t0, 0, Named(name)) <==> j in Matching(g, t0, Named(name))
  {
    HitsIs(g, t0, 0, Named(name), [], j);
    assert [] + [j] == [j];
    hide Hits;
  }

  lemma OneTop(g: Types, t0: TypeId, name: string, i: nat)
    requires i in Matching(g, t0, Named(name)) && |Matching(g, t0, Named(name))| <= 1
    ensures Selects(g, t0, Named(name), [i])
  {
    hide Matching, Hits;
    TopHit(g, t0, name, i);
    forall q ensures IsHit(g, t0, Named(name), q) ==> q == [i] || |q| > 1 {
      if IsHit(g, t0, Named(name), q) && |q| == 1 {
        assert q == [q[0]];
        TopHit(g, t0, name, q[0]);
        OneIndex(Matching(g, t0, Named(name)), i, q[0]);
      }
    }
  }

  lemma OneIndex(M: set<nat>, i: nat, j: nat)
    requires i in M && j in M && |M| <= 1
    ensures i == j
  {
    var rest := M - {i};
    assert |rest| == |M| - 1 && (rest == {} <==> |rest| == 0);
    assert M == rest + {i};
  }

  lemma AnotherIndex(M: set<nat>, i: nat) returns (j: nat)
    requires i in M && |M| >= 2
    ensures j in M && j != i
  {
    var rest := M - {i};
    assert |rest| == |M| - 1;
    j :| j in rest;
  }

  lemma NoEmbeds(g: Types, t0: TypeId, name: string)
    requires Matching(g, t0, Named(name)) == {} && forall j :: 0 <= j < |Fields(g, t0)| ==> Embeds(Fields(g, t0)[j]).None?
    ensures forall p :: !Selects(g, t0, Named(name), p)
  {
    forall p ensures !IsHit(g, t0, Named(name), p) {
      if p != [] { NoPath(g, t0, |p| - 1, name, p); }
    }
  }

  lemma {:induction false} NoPath(g: Types, t0: TypeId, d: nat, name: string, p: seq<nat>)
    requires Matching(g, t0, Named(name)) == {} && forall j :: 0 <= j < |Fields(g, t0)| ==> Embeds(Fields(g, t0)[j]).None?
    ensures p !in Hits(g, t0, d, Named(name))
    ensures d > 0 ==> Level(g, t0, d) == {}
  {
    if d > 0 {
      if d > 1 { NoPath(g, t0, d - 1, name, p); }
      forall q ensures q !in Level(g, t0, d) {
        if d == 1 { assert Opening(g, t0) == {}; }
      }
    }
  }

  /** Follows an index path, through pointers to structs too. There is no field where the
      source panics, because the path leaves the structs, and none on the empty path. */
  method FieldByIndex(g: Types, t0: TypeId, index: seq<nat>) returns (field: Option<(TypeId, nat)>)
    requires Closed(g) && t0 in g
    ensures field.Some? <==> index != [] && exists ts :: Trail(g, t0, index, ts)
    ensures forall ts :: index != [] && Trail(g, t0, index, ts) ==> field == Some((ts[|index| - 1], index[|index| - 1]))
    ensures forall wanted :: IsHit(g, t0, wanted, index) ==> field == Some((TypeAt(g, t0, index[..|index| - 1]), index[|index| - 1]))
  {
    hide TypeAt, Opens, Valid, IsHit, Trail;
    field := None;
    HitTrail(g, t0, index);
    var typ := StructType(t0);
    var i := 0;
    ghost var ts: seq<TypeId> := [];
    TrailStart(g, t0, index);
    while i < |index|
      invariant i <= |index| && |ts| == i && Trail(g, t0, index[..i], ts) && Next(g, t0, index, ts, typ)
      invariant field == if i > 0 then Some((ts[i - 1], index[i - 1])) else None
    {
      ghost var here := typ;
      if i > 0 {
        typ := Deref(typ);
      }
      if !typ.StructType? || index[i] >= |Fields(g, typ.id)| {
        TrailStops(g, t0, index, ts, here);
        return None;
      }
      TrailMore(g, t0, index, ts, here, typ.id);
      field := Some((typ.id, index[i]));
      ts := ts + [typ.id];
      typ := Fields(g, typ.id)[index[i]].typ;
      i := i + 1;
    }
    assert index[..i] == index;
    assert Trail(g, t0, index, ts);
    TrailOnly(g, t0, index, ts);
  }

  /** The structs along a path, whose fields the indices name. */
  ghost predicate Trail(g: Types, t0: TypeId, index: seq<nat>, ts: seq<TypeId>) {
    && |ts| == |index| && (ts != [] ==> ts[0] == t0)
    && (forall i :: 0 <= i < |ts| ==> index[i] < |Fields(g, ts[i])|)
    && (forall i :: 0 < i < |ts| ==> Leads(g, ts[i - 1], index[i - 1], ts[i]))
  }

  /** Field i of x is the struct y or a pointer to it. */
  predicate Leads(g: Types, x: TypeId, i: nat, y: TypeId) {
    i < |Fields(g, x)| && (Fields(g, x)[i].typ == StructType(y) || Fields(g, x)[i].typ == PointerTo(StructType(y)))
  }

  /** The rule of the language without its search: a path leads to a match if every field
      on it but the last is embedded, is a struct or a pointer to one, and the last field
      has a name that is wanted. */
  lemma HitIff(g: Types, t0: TypeId, wanted: string -> bool, index: seq<nat>)
    requires index != []
    ensures IsHit(g, t0, wanted, index) <==> exists ts :: Trail(g, t0, index, ts) && Embedded(g, index, ts) && wanted(LastName(g, index, ts))
  {
    hide Trail, Embedded, IsHit, TypesAlong;
    if IsHit(g, t0, wanted, index) {
      HitTrail(g, t0, index);
      HitEmbedded(g, t0, wanted, index);
    }
    if ts :| Trail(g, t0, index, ts) && Embedded(g, index, ts) && wanted(LastName(g, index, ts)) {
      TrailHit(g, t0, wanted, index, ts);
    }
  }

  ghost predicate Embedded(g: Types, index: seq<nat>, ts: seq<TypeId>) {
    |ts| == |index| && forall i :: 0 <= i < |index| - 1 ==> index[i] < |Fields(g, ts[i])| && Fields(g, ts[i])[index[i]].embedded
  }

  ghost function LastName(g: Types, index: seq<nat>, ts: seq<TypeId>): string {
    var n := |index| - 1;
    if 0 <= n < |ts| && index[n] < |Fields(g, ts[n])| then Fields(g, ts[n])[index[n]].name else ""
  }

  lemma HitEmbedded(g: Types, t0: TypeId, wanted: string -> bool, index: seq<nat>)
    requires IsHit(g, t0, wanted, index)
    ensures var ts := TypesAlong(g, t0, index); Embedded(g, index, ts) && wanted(LastName(g, index, ts))
  {
    var q, j :| q in Level(g, t0, |index| - 1) && j in Matching(g, TypeAt(g, t0, q), wanted) && index == q + [j];
    assert index[..|index| - 1] == q;
    var ts := TypesAlong(g, t0, index);
    NotHit(g, t0, index);
    hide TypeAt, Level, TypesAlong;
    forall i | 0 <= i < |index| - 1 ensures index[i] < |Fields(g, ts[i])| && Fields(g, ts[i])[index[i]].embedded {
      assert Opens(g, TypeAt(g, t0, index[..i]), index[i]);
    }
  }

  lemma TrailHit(g: Types, t0: TypeId, wanted: string -> bool, index: seq<nat>, ts: seq<TypeId>)
    requires index != [] && Trail(g, t0, index, ts) && Embedded(g, index, ts) && wanted(LastName(g, index, ts))
    ensures IsHit(g, t0, wanted, index)
  {
    var n := |index| - 1;
    TrailLevel(g, t0, index, ts, n);
    assert index == index[..n] + [index[n]];
    assert index[n] in Matching(g, TypeAt(g, t0, index[..n]), wanted);
  }

  lemma {:induction false} TrailLevel(g: Types, t0: TypeId, index: seq<nat>, ts: seq<TypeId>, i: nat)
    requires i < |index| && Trail(g, t0, index, ts) && Embedded(g, index, ts)
    ensures index[..i] in Level(g, t0, i) && TypeAt(g, t0, index[..i]) == ts[i]
    decreases i
  {
    hide Level, TypeAt, Fields;
    if i > 0 {
      TrailLevel(g, t0, index, ts, i - 1);
      assert Leads(g, ts[i - 1], index[i - 1], ts[i]);
      assert index[..i] == index[..i - 1] + [index[i - 1]];
      LevelMore(g, t0, i - 1, index[..i - 1], index[i - 1], ts[i]);
    } else {
      assert index[..0] == [];
      LevelStart(g, t0);
    }
  }

  lemma LevelStart(g: Types, t0: TypeId)
    ensures [] in Level(g, t0, 0) && TypeAt(g, t0, []) == t0
  {
  }

  lemma LevelMore(g: Types, t0: TypeId, d: nat, q: seq<nat>, i: nat, y: TypeId)
    requires q in Level(g, t0, d) && Leads(g, TypeAt(g, t0, q), i, y) && Fields(g, TypeAt(g, t0, q))[i].embedded
    ensures q + [i] in Level(g, t0, d + 1) && TypeAt(g, t0, q + [i]) == y
  {
    assert i in Opening(g, TypeAt(g, t0, q));
    assert (q + [i])[..|q + [i]| - 1] == q;
  }

  /** The type that the path has led to. */
  ghost predicate Next(g: Types, t0: TypeId, index: seq<nat>, ts: seq<TypeId>, typ: FieldType)
    requires |ts| <= |index|
  {
    var i := |ts|;
    if i == 0 then typ == StructType(t0)
    else index[i - 1] < |Fields(g, ts[i - 1])| && typ == Fields(g, ts[i - 1])[index[i - 1]].typ
  }

  lemma TrailStart(g: Types, t0: TypeId, index: seq<nat>)
    ensures Trail(g, t0, index[..0], [])
  {
  }

  lemma TrailMore(g: Types, t0: TypeId, index: seq<nat>, ts: seq<TypeId>, typ: FieldType, x: TypeId)
    requires |ts| < |index| && Trail(g, t0, index[..|ts|], ts) && Next(g, t0, index, ts, typ)
    requires (if |ts| > 0 then Deref(typ) else typ) == StructType(x) && index[|ts|] < |Fields(g, x)|
    ensures Trail(g, t0, index[..|ts| + 1], ts + [x])
  {
  }

  /** There is at most one way along a path. */
  lemma {:induction false} TrailSame(g: Types, t0: TypeId, index: seq<nat>, ts: seq<TypeId>, us: seq<TypeId>, i: nat)
    requires |ts| <= |index| && Trail(g, t0, index[..|ts|], ts) && Trail(g, t0, index, us) && i < |ts|
    ensures ts[i] == us[i]
  {
    if i > 0 {
      TrailSame(g, t0, index, ts, us, i - 1);
      assert index[..|ts|][i - 1] == index[i - 1];
    }
  }

  lemma TrailLength(g: Types, t0: TypeId, index: seq<nat>)
    ensures forall us :: Trail(g, t0, index, us) ==> |us| == |index|
  {
  }

  lemma TrailAt(g: Types, t0: TypeId, index: seq<nat>, us: seq<TypeId>, i: nat)
    requires i < |us| && Trail(g, t0, index, us)
    ensures index[i] < |Fields(g, us[i])| && if i == 0 then us[i] == t0 else Leads(g, us[i - 1], index[i - 1], us[i])
  {
  }

  lemma TrailStops(g: Types, t0: TypeId, index: seq<nat>, ts: seq<TypeId>, typ: FieldType)
    requires |ts| < |index| && Trail(g, t0, index[..|ts|], ts) && Next(g, t0, index, ts, typ)
    requires var to := if |ts| > 0 then Deref(typ) else typ; !to.StructType? || index[|ts|] >= |Fields(g, to.id)|
    ensures forall us :: !Trail(g, t0, index, us)
  {
    hide Trail;
    var i := |ts|;
    TrailLength(g, t0, index);
    forall us ensures !Trail(g, t0, index, us) {
      if Trail(g, t0, index, us) {
        if i > 0 { TrailSame(g, t0, index, ts, us, i - 1); }
        TrailAt(g, t0, index, us, i);
      }
    }
  }

  lemma TrailOnly(g: Types, t0: TypeId, index: seq<nat>, ts: seq<TypeId>)
    requires Trail(g, t0, index, ts)
    ensures forall us :: Trail(g, t0, index, us) ==> us == ts
  {
    assert index[..|ts|] == index;
    forall us | Trail(g, t0, index, us) ensures us == ts {
      forall i | 0 <= i < |ts| ensures us[i] == ts[i] { TrailSame(g, t0, index, ts, us, i); }
      assert |us| == |ts| && us == ts;
    }
  }

  /** A path to a match is such a path. */
  lemma HitTrail(g: Types, t0: TypeId, p: seq<nat>)
    ensures forall wanted :: IsHit(g, t0, wanted, p) ==> p != []
    ensures forall wanted :: IsHit(g, t0, wanted, p) ==> Trail(g, t0, p, TypesAlong(g, t0, p))
  {
    hide TypeAt, Opens, Valid, IsHit, Trail;
    NotHit(g, t0, p);
    if Valid(g, t0, p) { ValidTrail(g, t0, p); }
  }

  ghost function TypesAlong(g: Types, t0: TypeId, p: seq<nat>): (ts: seq<TypeId>)
    ensures |ts| == |p| && forall i :: 0 <= i < |p| ==> ts[i] == TypeAt(g, t0, p[..i])
  {
    seq(|p|, i requires 0 <= i < |p| => TypeAt(g, t0, p[..i]))
  }

  lemma ValidTrail(g: Types, t0: TypeId, p: seq<nat>)
    requires Valid(g, t0, p)
    ensures p != [] && Trail(g, t0, p, TypesAlong(g, t0, p))
  {
    var ts := TypesAlong(g, t0, p);
    EmptyNotValid(g, t0);
    TypeAtStart(g, t0);
    hide TypeAt, Opens, Valid, TypesAlong, Fields;
    forall i | 0 <= i < |p| ensures p[i] < |Fields(g, ts[i])| { ValidAt(g, t0, p, i); }
    assert p[..0] == [];
    forall i | 0 < i < |ts| ensures Leads(g, ts[i - 1], p[i - 1], ts[i]) { ValidAt(g, t0, p, i - 1); }
  }

  lemma EmptyNotValid(g: Types, t0: TypeId)
    ensures !Valid(g, t0, [])
  {
  }

  lemma TypeAtStart(g: Types, t0: TypeId)
    ensures TypeAt(g, t0, []) == t0
  {
  }

  function Deref(t: FieldType): FieldType { if t.PointerTo? && t.elem.StructType? then t.elem else t }

  /** All but the last index open up a struct, and the last is a field. */
  ghost predicate Valid(g: Types, t0: TypeId, p: seq<nat>) {
    && p != [] && p[|p| - 1] < |Fields(g, TypeAt(g, t0, p[..|p| - 1]))|
    && forall i :: 0 <= i < |p| - 1 ==> Opens(g, TypeAt(g, t0, p[..i]), p[i])
  }

  lemma ValidAt(g: Types, t0: TypeId, p: seq<nat>, i: nat)
    requires i < |p| && Valid(g, t0, p)
    ensures i < |p| - 1 ==> Opens(g, TypeAt(g, t0, p[..i]), p[i])
    ensures i < |p| - 1 ==> Deref(Fields(g, TypeAt(g, t0, p[..i]))[p[i]].typ) == StructType(TypeAt(g, t0, p[..i + 1]))
    ensures p[i] < |Fields(g, TypeAt(g, t0, p[..i]))|
  {
    assert p[..i + 1][..i] == p[..i];
  }

  /** A path of the level d is one of the level before and one more embedded field. */
  lemma LevelLast(g: Types, t0: TypeId, d: nat, q: seq<nat>) returns (r: seq<nat>)
    requires d > 0 && q in Level(g, t0, d)
    ensures r in Level(g, t0, d - 1) && |r| < |q| && q == r + [q[|r|]] && Opens(g, TypeAt(g, t0, r), q[|r|])
  {
    hide TypeAt, Opens, Fields;
    var r', j :| r' in Level(g, t0, d - 1) && j in Opening(g, TypeAt(g, t0, r')) && q == r' + [j];
    r := r';
  }

  lemma {:induction false} LevelValid(g: Types, t0: TypeId, d: nat, q: seq<nat>)
    requires q in Level(g, t0, d)
    ensures |q| == d && forall i :: 0 <= i < d ==> Opens(g, TypeAt(g, t0, q[..i]), q[i])
  {
    if d > 0 {
      hide Level, TypeAt, Opens;
      var r := LevelLast(g, t0, d, q);
      LevelValid(g, t0, d - 1, r);
      forall i | 0 <= i < d ensures Opens(g, TypeAt(g, t0, q[..i]), q[i]) {
        assert q[..i] == r[..i] && (i < d - 1 ==> q[i] == r[i]);
        if i == d - 1 { assert r[..i] == r; }
      }
    }
  }

  lemma NotHit(g: Types, t0: TypeId, p: seq<nat>)
    ensures forall wanted :: IsHit(g, t0, wanted, p) ==> Valid(g, t0, p)
  {
    forall wanted | IsHit(g, t0, wanted, p) ensures Valid(g, t0, p) {
      var q, j :| q in Level(g, t0, |p| - 1) && j in Matching(g, TypeAt(g, t0, q), wanted) && p == q + [j];
      LevelValid(g, t0, |p| - 1, q);
      assert p[..|p| - 1] == q;
      forall i | 0 <= i < |p| - 1 ensures Opens(g, TypeAt(g, t0, p[..i]), p[i]) {
        assert p[..i] == q[..i];
      }
    }
  }
}
