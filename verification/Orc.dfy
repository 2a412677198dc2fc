/** The ORC cycle collector: marking, scanning, collecting and freeing over
    headers and fields that are changed in place. */
module Orc {
  import opened OrcGraph
  import opened OrcSpec
  import opened OrcComplete

  const MAX_INT := 9223372036854775807

  /** The state of one collection. */
  class GcEnv {
    var traceStack: seq<Ref>
    var toFree: seq<Cell>
    var freed: int
    var touched: int
    var edges: int
    var rcSum: int
    var keepThreshold: bool

    constructor ()
      ensures traceStack == [] && toFree == []
      ensures freed == touched == edges == rcSum == 0 && !keepThreshold
    {
      traceStack, toFree := [], [];
      freed, touched, edges, rcSum, keepThreshold := 0, 0, 0, 0, false;
    }
  }

  /** How many candidates start the next collection: as many as now if all that was
      reached was garbage, fewer if at least half of it was, more otherwise. */
  function Retuned(threshold: int, garbage: set<Cell>, reached: set<Cell>, freed: nat): int {
    if garbage == reached then threshold
    else if |reached| <= 2 * freed then
      var t := TruncatedThird(threshold) * 2;
      if t >= 16 then t else 16
    else if threshold < MAX_INT / 4 then
      var t := if threshold <= 0 then 128 else threshold;
      t / 2 + t
    else threshold
  }

  /** The threshold only falls, to no less than 16, when much was garbage, and only rises
      when little was; once it is at least 16 it stays so. */
  lemma RetunedMoves(threshold: int, garbage: set<Cell>, reached: set<Cell>, freed: nat)
    ensures var t := Retuned(threshold, garbage, reached, freed);
            && (garbage == reached ==> t == threshold)
            && (garbage != reached && |reached| <= 2 * freed ==> t >= 16 && (threshold > 16 ==> t < threshold))
            && (garbage != reached && |reached| > 2 * freed && threshold < MAX_INT / 4 ==> t >= threshold + threshold / 2 && (threshold != 1 ==> t > threshold))
            && (garbage != reached && |reached| <= 2 * freed && t > 16 ==> 3 * t <= 2 * threshold < 3 * t + 6)
            && (garbage != reached && |reached| > 2 * freed && 1 <= threshold < MAX_INT / 4 ==> 2 * t <= 3 * threshold <= 2 * t + 1)
            && (threshold >= 16 ==> t >= 16)
  {
  }

  /** The original divides towards zero. */
  function TruncatedThird(n: int): int { if n < 0 then -(-n / 3) else n / 3 }

  class Heap {
    var headers: Headers
    var fields: map<Cell, seq<Slot>>
    ghost var outside: map<nat, Cell>
    var roots: seq<Cell>
    var rootsThreshold: int

    ghost function View(): Graph
      reads this`fields, this`outside
    {
      Graph(fields, outside)
    }

    /** What holds whenever no collection is running. */
    ghost predicate Valid()
      reads this
    {
      && Exact(View(), headers)
      && Colors(headers, {}, {})
      && RootsAgree(headers, roots)
    }

    /** A candidate or a variable reaches every cell; what holds of a heap whose acyclic
        types are on no cycle. */
    ghost predicate Complete()
      reads this`fields, this`outside, this`roots
    {
      Covered(View(), Elems(roots))
    }

    /** Pushes one entry for every non-nil field of s. */
    method Trace(s: Cell, j: GcEnv)
      requires s in fields
      modifies j`traceStack
      ensures j.traceStack == old(j.traceStack) + Traced(View(), s)
    {
      for i := 0 to |fields[s]|
        invariant j.traceStack == old(j.traceStack) + Pushed(s, fields[s], i)
      {
        if fields[s][i].To? {
          j.traceStack := j.traceStack + [Field(s, i)];
        }
      }
    }

    method MarkGray(s: Cell, j: GcEnv, ghost start: set<Cell>, ghost hd0: Headers, ghost gray0: set<Cell>)
      returns (ghost gray: set<Cell>)
      requires Exact(View(), hd0) && j.traceStack == [] && s in start && s in headers
      requires MarkState(View(), start, hd0, headers, gray0, View().Out(gray0), [], j.edges, j.rcSum, j.touched)
      modifies this`headers, j`traceStack, j`edges, j`rcSum, j`touched
      ensures j.traceStack == []
      ensures MarkState(View(), start, hd0, headers, gray, View().Out(gray), [], j.edges, j.rcSum, j.touched)
      ensures gray0 + {s} <= gray && headers.Keys == old(headers.Keys)
    {
      hide Exact, Marking, MarkState, Graph.Out, Graph.Reach, Graph.Target, AllInto, TargetsIn, SetColor, AddRc, Count, Color, Traced;
      gray := gray0;
      ghost var g := View();
      ghost var done := g.Out(gray0);
      MarkFirst(g, start, hd0, headers, gray, done, j.edges, j.rcSum, j.touched, s);
      if Color(headers[s].rc) != GRAY {
        headers := SetColor(headers, s, GRAY);
        j.touched := j.touched + 1;
        j.rcSum := j.rcSum + (Count(headers[s].rc) + 1);
        Trace(s, j);
        gray := gray + {s};
        while 0 < |j.traceStack|
          invariant View() == g
          invariant MarkState(g, start, hd0, headers, gray, done, j.traceStack, j.edges, j.rcSum, j.touched)
          invariant gray0 + {s} <= gray && headers.Keys == old(headers.Keys)
          decreases headers.Keys - gray, |j.traceStack|
        {
          ghost var r, u, after := MarkStep(g, start, hd0, headers, gray, done, j.traceStack, j.edges, j.rcSum, j.touched);
          var entry := j.traceStack[|j.traceStack| - 1];
          j.traceStack := j.traceStack[..|j.traceStack| - 1];
          var t := fields[entry.owner][entry.index].cell;
          headers := AddRc(headers, t, -RC_INCREMENT);
          j.edges := j.edges + 1;
          if Color(headers[t].rc) != GRAY {
            headers := SetColor(headers, t, GRAY);
            j.touched := j.touched + 1;
            j.rcSum := j.rcSum + (Count(headers[t].rc) + 2);
            Trace(t, j);
          }
          gray, done := after, done + {r};
        }
        MarkDone(g, start, hd0, headers, gray, done, j.edges, j.rcSum, j.touched);
      }
    }

    /** Paints s and what it reaches black, above whatever the shared stack already
        holds; below are the entries that scan still counts on. */
    method ScanBlack(s: Cell, j: GcEnv, ghost below: seq<Ref>, ghost hd1: Headers, ghost M: set<Cell>, ghost gray0: set<Cell>, ghost white0: set<Cell>, ghost readded0: set<Ref>)
      returns (ghost gray: set<Cell>, ghost white: set<Cell>, ghost readded: set<Ref>)
      requires Scanning(View(), hd1, headers, M, gray0, white0, readded0, [], below)
      requires TargetsIn(View(), readded0, M - gray0 - white0)
      requires s in gray0 && s in headers && s in Held(hd1, M)
      modifies this`headers, j`traceStack
      ensures j.traceStack == old(j.traceStack)
      ensures Scanning(View(), hd1, headers, M, gray, white, readded, [], below)
      ensures TargetsIn(View(), readded, M - gray - white)
      ensures gray <= gray0 - {s}
    {
      hide Scanning, Graph.Reach, Graph.Target, TargetsIn, Held, SetColor, AddRc, Count, Color, Traced, Stacked;
      ghost var g := View();
      ScanKeys(g, hd1, headers, M, gray0, white0, readded0, [], below);
      ReachStart(g, Held(hd1, M), s);
      TargetsInGrow(g, readded0, M - gray0 - white0, M - (gray0 - {s}) - (white0 - {s}));
      BlackenStep(g, hd1, headers, M, gray0, white0, readded0, [], below, s);
      headers := SetColor(headers, s, BLACK);
      var until := |j.traceStack|;
      ghost var base := j.traceStack;
      ghost var pending := [] + Traced(View(), s);
      StackStart(base);
      StackMore(base, base, [], Traced(View(), s));
      Trace(s, j);
      gray, white, readded := gray0 - {s}, white0 - {s}, readded0;
      while until < |j.traceStack|
        invariant View() == g
        invariant |base| == until && Stacked(j.traceStack, base, pending)
        invariant Scanning(g, hd1, headers, M, gray, white, readded, pending, below)
        invariant TargetsIn(g, readded, M - gray - white)
        invariant gray <= gray0 - {s}
        decreases gray + white, |pending|
      {
        StackTop(j.traceStack, base, pending);
        ghost var r, u := ReaddStep(g, hd1, headers, M, gray, white, readded, pending, below);
        var entry := j.traceStack[|j.traceStack| - 1];
        j.traceStack := j.traceStack[..|j.traceStack| - 1];
        var t := fields[entry.owner][entry.index].cell;
        headers := AddRc(headers, t, RC_INCREMENT);
        readded, pending := readded + {r}, pending[..|pending| - 1];
        if Color(headers[t].rc) != BLACK {
          headers := SetColor(headers, t, BLACK);
          StackMore(j.traceStack, base, pending, Traced(g, t));
          pending := pending + Traced(g, t);
          Trace(t, j);
          gray, white := gray - {t}, white - {t};
        }
      }
      StackTop(j.traceStack, base, pending);
    }

    /** Paints s and the gray cells it reaches white, or black where something holds them. */
    method Scan(s: Cell, j: GcEnv, ghost hd1: Headers, ghost M: set<Cell>, ghost gray0: set<Cell>, ghost white0: set<Cell>, ghost readded0: set<Ref>)
      returns (ghost gray: set<Cell>, ghost white: set<Cell>, ghost readded: set<Ref>)
      requires Scanning(View(), hd1, headers, M, gray0, white0, readded0, [], []) && j.traceStack == []
      requires TargetsIn(View(), readded0, M - gray0 - white0)
      requires s in headers && s in fields
      modifies this`headers, j`traceStack
      ensures Scanning(View(), hd1, headers, M, gray, white, readded, [], []) && j.traceStack == []
      ensures TargetsIn(View(), readded, M - gray - white)
      ensures gray <= gray0 - {s}
    {
      hide ScanSets, Incremented, SameShape, Graph.Reach, TargetsIn, Held, SetColor, AddRc, Count, Traced;
      ghost var g := View();
      gray, white, readded := gray0, white0, readded0;
      if Color(headers[s].rc) == GRAY {
        GrayHeld(g, hd1, headers, M, gray, white, readded, [], s);
        if 0 <= Count(headers[s].rc) {
          gray, white, readded := ScanBlack(s, j, [], hd1, M, gray, white, readded);
        } else {
          WhitenStep(g, hd1, headers, M, gray, white, readded, [], s);
          headers := SetColor(headers, s, WHITE);
          Trace(s, j);
          gray, white := gray - {s}, white + {s};
          while 0 < |j.traceStack|
            invariant View() == g
            invariant Scanning(g, hd1, headers, M, gray, white, readded, [], j.traceStack)
            invariant TargetsIn(g, readded, M - gray - white)
            invariant gray <= gray0 - {s}
            decreases gray, |j.traceStack|
          {
            ghost var stack := j.traceStack;
            var entry := j.traceStack[|j.traceStack| - 1];
            ghost var u := EntryTarget(g, hd1, headers, M, gray, white, readded, stack, entry);
            j.traceStack := j.traceStack[..|j.traceStack| - 1];
            assert stack == j.traceStack + [entry];
            var t := fields[entry.owner][entry.index].cell;
            if Color(headers[t].rc) == GRAY {
              GrayHeld(g, hd1, headers, M, gray, white, readded, stack, t);
              if 0 <= Count(headers[t].rc) {
                gray, white, readded := ScanBlack(t, j, stack, hd1, M, gray, white, readded);
              } else {
                WhitenStep(g, hd1, headers, M, gray, white, readded, stack, t);
                headers := SetColor(headers, t, WHITE);
                stack := stack + Traced(View(), t);
                Trace(t, j);
                gray, white := gray - {t}, white + {t};
              }
            }
            Restack(g, hd1, headers, M, gray, white, readded, stack, j.traceStack);
          }
        }
      }
    }

    /** Lists s and the cells it reaches that have the colour, setting every field
        it goes through to nil. */
    method CollectColor(s: Cell, col: int, j: GcEnv, ghost g0: Graph, ghost hd2: Headers, ghost W: set<Cell>,
                        ghost freed0: set<Cell>, ghost pending: set<Cell>)
      returns (ghost freed: set<Cell>)
      requires CollectEntry(g0, View(), hd2, headers, W, freed0, pending, j.toFree, col, s)
      requires j.traceStack == [] && col != BLACK && s in headers
      modifies this`headers, this`fields, j`traceStack, j`toFree
      ensures CollectState(g0, View(), hd2, headers, W, freed, pending, g0.Out(freed), [], j.toFree, col)
      ensures j.traceStack == [] && freed0 <= freed && (s in W ==> s in freed)
      ensures headers.Keys == old(headers.Keys)
    {
      hide CollectState, CollectEntry, Graph.Out, SetColor, AddRc, Color, Traced;
      freed := freed0;
      ghost var cut := g0.Out(freed0);
      EntryStep(g0, View(), hd2, headers, W, freed, pending, j.toFree, col, s);
      if Color(headers[s].rc) == col && headers[s].rootIdx == 0 {
        headers := SetColor(headers, s, BLACK);
        j.toFree := j.toFree + [s];
        Trace(s, j);
        freed := freed + {s};
        assert j.traceStack == Traced(View(), s);
        while 0 < |j.traceStack|
          invariant CollectState(g0, View(), hd2, headers, W, freed, pending, cut, j.traceStack, j.toFree, col)
          invariant freed0 + {s} <= freed && headers.Keys == old(headers.Keys)
          decreases W - freed, |j.traceStack|
        {
          ghost var r, u := CutStep(g0, View(), hd2, headers, W, freed, pending, cut, j.traceStack, j.toFree, col);
          var entry := j.traceStack[|j.traceStack| - 1];
          j.traceStack := j.traceStack[..|j.traceStack| - 1];
          var t := fields[entry.owner][entry.index].cell;
          fields := fields[entry.owner := fields[entry.owner][entry.index := Nil]];
          if Color(headers[t].rc) == col && headers[t].rootIdx == 0 {
            j.toFree := j.toFree + [t];
            headers := SetColor(headers, t, BLACK);
            Trace(t, j);
            freed := freed + {t};
          }
          cut := cut + {r};
        }
        CollectDone(g0, View(), hd2, headers, W, freed, pending, cut, j.toFree, col);
      }
    }

    /** Disposes of a cell. Its destructor would release what its fields refer to,
        which is nothing: every field must have been set to nil. */
    method Free(s: Cell)
      requires s in headers && s in fields
      requires forall i :: 0 <= i < |fields[s]| ==> fields[s][i] == Nil
      modifies this`headers, this`fields
      ensures headers == old(headers) - {s} && fields == old(fields) - {s}
    {
      headers, fields := headers - {s}, fields - {s};
    }

    /** Marks from every candidate root at lowMark and above. */
    method MarkRoots(j: GcEnv, lowMark: nat, ghost start: set<Cell>) returns (ghost M: set<Cell>)
      requires Valid() && lowMark <= |roots| && start == Elems(roots[lowMark..])
      requires j.traceStack == [] && j.touched == j.edges == j.rcSum == 0
      modifies this`headers, j`traceStack, j`edges, j`rcSum, j`touched
      ensures Marked(View(), old(headers), headers, M) && j.traceStack == []
      ensures M == View().Reach(start) && j.touched == |M|
      ensures j.rcSum == j.edges <==> View().Anchors(M) == {}
      ensures Held(headers, M) == View().Anchors(M)
    {
      hide Exact, MarkState, Colors, Marked, Graph.Reach, Graph.Out, Graph.Anchors, Held;
      ghost var g0, hd0 := View(), headers;
      M := {};
      MarkStart(g0, start, hd0);
      var i := |roots| - 1;
      while lowMark <= i
        invariant View() == g0 && j.traceStack == []
        invariant lowMark - 1 <= i < |roots| && headers.Keys == hd0.Keys
        invariant MarkState(g0, start, hd0, headers, M, g0.Out(M), [], j.edges, j.rcSum, j.touched)
        invariant Elems(roots[i + 1..]) <= M
      {
        RootExists(g0, hd0, headers, roots, i);
        assert roots[i] in roots[lowMark..];
        M := MarkGray(roots[i], j, start, hd0, M);
        assert roots[i..] == [roots[i]] + roots[i + 1..];
        i := i - 1;
      }
      assert roots[i + 1..] == roots[lowMark..];
      MarkEnd(g0, start, hd0, headers, M, j.edges, j.rcSum, j.touched);
    }

    /** Scans from the same roots. */
    method ScanRoots(j: GcEnv, lowMark: nat, ghost start: set<Cell>, ghost hd0: Headers, ghost M: set<Cell>)
      requires Exact(View(), hd0) && RootsAgree(hd0, roots) && lowMark <= |roots| && start == Elems(roots[lowMark..])
      requires Marked(View(), hd0, headers, M) && j.traceStack == []
      requires M == View().Reach(start) && Held(headers, M) == View().Anchors(M)
      modifies this`headers, j`traceStack
      ensures Scanned(View(), hd0, old(headers), headers, M, M - View().Reach(View().Anchors(M)), WHITE)
      ensures j.traceStack == []
    {
      hide Exact, Scanning, RootsAgree, Marked, Scanned, Graph.Reach, Graph.Anchors, TargetsIn, Held;
      ghost var g0, hd1 := View(), headers;
      ghost var gray, white, readded := M, {}, {};
      ScanStart(g0, hd0, hd1, M);
      ScanKeys(g0, hd1, headers, M, gray, white, readded, [], []);
      MarkedKeys(g0, hd0, hd1, M);
      var i := |roots| - 1;
      assert roots[i + 1..] == [];
      while lowMark <= i
        invariant View() == g0 && j.traceStack == []
        invariant lowMark - 1 <= i < |roots| && headers.Keys == hd0.Keys == g0.fields.Keys
        invariant Scanning(g0, hd1, headers, M, gray, white, readded, [], [])
        invariant TargetsIn(g0, readded, M - gray - white)
        invariant Elems(roots[i + 1..]) !! gray
      {
        RootExists(g0, hd0, headers, roots, i);
        gray, white, readded := Scan(roots[i], j, hd1, M, gray, white, readded);
        ScanKeys(g0, hd1, headers, M, gray, white, readded, [], []);
        assert roots[i..] == [roots[i]] + roots[i + 1..];
        i := i - 1;
      }
      assert roots[i + 1..] == roots[lowMark..];
      ScanFinish(g0, start, hd0, hd1, headers, M, gray, white, readded);
    }

    /** Gives every candidate root its turn to be collected. */
    method CollectRoots(j: GcEnv, col: int, ghost start: set<Cell>, ghost hd0: Headers, ghost hd1: Headers, ghost M: set<Cell>, ghost W: set<Cell>)
      requires Exact(View(), hd0) && RootsAgree(hd0, roots) && start <= Elems(roots) && M == View().Reach(start)
      requires W == M - View().Reach(View().Anchors(M)) && Scanned(View(), hd0, hd1, headers, M, W, col)
      requires j.traceStack == [] && j.toFree == []
      modifies this`headers, this`fields, j`traceStack, j`toFree
      ensures Disposing(old(View()), View(), old(headers), headers, j.toFree, 0) && Elems(j.toFree) == W
    {
      hide Exact, CollectState, CollectEntry, RootsAgree, Scanned, Disposing, Graph.Reach, Graph.Out, Graph.Anchors;
      ghost var g0, hd2 := View(), headers;
      CollectStart(g0, hd0, hd1, hd2, M, W, roots, col);
      ghost var freed := {};
      assert roots[0..] == roots;
      for k := 0 to |roots|
        invariant j.traceStack == [] && headers.Keys == hd0.Keys
        invariant CollectState(g0, View(), hd2, headers, W, freed, Elems(roots[k..]), g0.Out(freed), [], j.toFree, col)
        invariant forall c :: c in roots[..k] && c in W ==> c in freed
      {
        var s := roots[k];
        RootExists(g0, hd0, headers, roots, k);
        NextRoot(g0, View(), hd2, headers, W, freed, roots, k, j.toFree, col);
        headers := headers[s := headers[s].(rootIdx := 0)];
        freed := CollectColor(s, col, j, g0, hd2, W, freed, Elems(roots[k + 1..]));
        assert roots[..k + 1] == roots[..k] + [roots[k]];
      }
      assert roots[|roots|..] == [] && roots[..|roots|] == roots && Elems(roots[|roots|..]) == {};
      DisposeStart(g0, View(), start, hd2, headers, M, W, freed, roots, j.toFree, col);
    }

    /** One collection, from the candidate roots at lowMark and above. The cells
        listed for disposal are the garbage of those roots, each once; the others
        keep their fields, and their counts are exact again. */
    method CollectCyclesBacon(j: GcEnv, lowMark: nat) returns (ghost listed: seq<Cell>)
      requires Valid() && lowMark <= |roots|
      requires j.traceStack == [] && j.toFree == [] && j.touched == j.edges == j.rcSum == 0
      modifies this`headers, this`fields, this`roots, this`rootsThreshold, j
      ensures Valid() && roots == [] && rootsThreshold == old(rootsThreshold)
      ensures NoDup(listed) && Elems(listed) == old(View()).Garbage(Elems(old(roots)[lowMark..]))
      ensures Disposed(old(View()), View(), Elems(listed))
      ensures j.freed == old(j.freed) + |listed|
      ensures j.touched == |old(View()).Reach(Elems(old(roots)[lowMark..]))|
      ensures j.keepThreshold == (old(j.keepThreshold) || Elems(listed) == old(View()).Reach(Elems(old(roots)[lowMark..])))
    {
      hide Exact, Marked, Scanned, Disposing, Disposed, Colors, RootsAgree, Graph.Reach, Graph.Anchors, Held, NoDup;
      ghost var g0, hd0 := View(), headers;
      ghost var start := Elems(roots[lowMark..]);
      ghost var M := MarkRoots(j, lowMark, start);
      ghost var W := M - g0.Reach(g0.Anchors(M));
      ghost var hd1 := headers;
      MarkedWithin(g0, hd0, hd1, M);
      AnchorsStay(g0, M);
      var colToCollect := WHITE;
      if j.rcSum == j.edges {
        colToCollect := GRAY;
        j.keepThreshold := true;
        NothingHeld(g0, hd0, hd1, M);
        assert W == M;
      } else {
        ScanRoots(j, lowMark, start, hd0, M);
      }
      ghost var hd2 := headers;
      CollectRoots(j, colToCollect, start, hd0, hd1, M, W);
      listed := j.toFree;
      var oldThreshold := rootsThreshold;
      rootsThreshold := MAX_INT;
      roots := [];
      for k := 0 to |j.toFree|
        invariant j.toFree == listed && j.freed == old(j.freed) && j.touched == |M| && roots == []
        invariant j.keepThreshold == (old(j.keepThreshold) || W == M)
        invariant Disposing(g0, View(), hd2, headers, listed, k)
      {
        DisposeStep(g0, View(), hd2, headers, listed, k);
        Free(j.toFree[k]);
      }
      rootsThreshold := oldThreshold;
      j.freed := j.freed + |j.toFree|;
      j.toFree := [];
      DisposeEnd(g0, View(), start, hd0, hd1, hd2, headers, M, colToCollect, listed);
    }

    /** Collects from all candidate roots, then retunes the threshold. */
    method CollectCycles() returns (ghost listed: seq<Cell>)
      requires Valid()
      modifies this`headers, this`fields, this`roots, this`rootsThreshold
      ensures Valid() && roots == []
      ensures NoDup(listed) && Elems(listed) == old(View()).Garbage(Elems(old(roots)))
      ensures Disposed(old(View()), View(), Elems(listed))
      ensures rootsThreshold == Retuned(old(rootsThreshold), Elems(listed), old(View()).Reach(Elems(old(roots))), |listed|)
      ensures old(Complete()) ==> Complete() && View().fields.Keys == Alive(View())
    {
      hide Exact, Colors, RootsAgree, Graph.Garbage, Graph.Reach, Disposed, Covered, Alive;
      assert roots[0..] == roots;
      ghost var g, start := View(), Elems(roots);
      ExactNoDangling(View(), headers);
      var j := new GcEnv();
      listed := CollectCyclesBacon(j, 0);
      if j.keepThreshold {
      } else if j.touched <= j.freed * 2 {
        var t := TruncatedThird(rootsThreshold) * 2;
        rootsThreshold := if t >= 16 then t else 16;
      } else if rootsThreshold < MAX_INT / 4 {
        rootsThreshold := if rootsThreshold <= 0 then 128 else rootsThreshold;
        rootsThreshold := rootsThreshold / 2 + rootsThreshold;
      }
      ExactNoDangling(View(), headers);
      if Covered(g, start) {
        NoGarbageLeft(g, View(), start);
        assert Elems(roots) == {};
      }
    }

    /** Makes s a candidate root; enough of them start a collection. */
    method RegisterCycle(s: Cell) returns (ghost listed: seq<Cell>)
      requires Valid() && s in headers && headers[s].rootIdx == 0
      modifies this`headers, this`fields, this`roots, this`rootsThreshold
      ensures Valid()
      ensures Disposed(old(View()), View(), Elems(listed)) && NoDup(listed)
      ensures if old(rootsThreshold) <= |old(roots)| + 1 - 128
              then roots == [] && Elems(listed) == old(View()).Garbage(Elems(old(roots) + [s]))
              else listed == [] && roots == old(roots) + [s] && View() == old(View()) && rootsThreshold == old(rootsThreshold)
    {
      hide Exact, Colors, RootsAgree, Graph.Garbage;
      listed := [];
      AddRoot(headers, roots, s);
      SameWords(View(), headers, headers[s := headers[s].(rootIdx := |roots| + 1)]);
      headers := headers[s := headers[s].(rootIdx := |roots| + 1)];
      roots := roots + [s];
      if rootsThreshold <= |roots| - 128 {
        listed := CollectCycles();
      }
    }

    /** Takes s off the list of candidates; the last candidate takes its position. */
    method UnregisterCycle(s: Cell)
      requires Valid() && s in headers && headers[s].rootIdx > 0
      modifies this`headers, this`roots
      ensures Valid() && headers.Keys == old(headers.Keys) && headers[s].rootIdx == 0
      ensures Elems(roots) == Elems(old(roots)) - {s} && |roots| == |old(roots)| - 1
    {
      hide Exact, Colors;
      DropRoot(headers, roots, s);
      UnregisterElems(headers, roots, s);
      var idx := headers[s].rootIdx - 1;
      roots := roots[idx := roots[|roots| - 1]];
      headers := headers[roots[idx] := headers[roots[idx]].(rootIdx := idx + 1)];
      roots := roots[..|roots| - 1];
      headers := headers[s := headers[s].(rootIdx := 0)];
      SameWords(View(), old(headers), headers);
    }

    /** A new reference to c, held outside the traced heap under the number k. */
    method IncRefCyclic(c: Cell, ghost k: nat)
      requires Valid() && c in headers && k !in outside
      modifies this`headers, this`outside
      ensures Valid() && outside == old(outside)[k := c] && headers.Keys == old(headers.Keys)
      ensures old(Complete()) ==> Complete()
    {
      hide Exact, Colors, RootsAgree, Covered;
      ExactNoDangling(View(), headers);
      if Complete() { NewVariable(View(), k, c, Elems(roots)); }
      AddOutside(View(), headers, k, c);
      Recounted(headers, c, RC_INCREMENT, roots);
      headers := AddRc(headers, c, RC_INCREMENT);
      outside := outside[k := c];
    }

    /** After a reference to s has gone: forget s as a candidate if it is about to
        be destroyed, otherwise remember it as one unless its type is acyclic. */
    method RememberCycle(isDestroyAction: bool, s: Cell, acyclic: bool) returns (ghost listed: seq<Cell>)
      requires Valid() && s in headers
      modifies this`headers, this`fields, this`roots, this`rootsThreshold
      ensures Valid() && NoDup(listed) && Disposed(old(View()), View(), Elems(listed))
      ensures isDestroyAction ==> listed == [] && View() == old(View()) && s in headers && headers[s].rootIdx == 0
      ensures isDestroyAction ==> Elems(roots) == Elems(old(roots)) - {s}
      ensures !isDestroyAction ==> Remembered(old(View()), old(roots), old(rootsThreshold), s, acyclic, View(), roots, listed)
    {
      hide Exact, Colors, RootsAgree, Graph.Garbage, Disposed, NoDup;
      listed := [];
      RootListed(headers, roots, s);
      NothingDisposed(View(), listed);
      if isDestroyAction {
        if 0 < headers[s].rootIdx {
          UnregisterCycle(s);
        }
      } else if headers[s].rootIdx == 0 && !acyclic {
        AlreadyBlack(headers, s);
        headers := SetColor(headers, s, BLACK);
        assert headers == old(headers);
        listed := RegisterCycle(s);
      }
    }

    /** Gives up the outside reference k, which p is the content of. When it is the
        last one to its cell the count stays and the caller has to destroy the
        cell; otherwise the counts are exact without it, and whatever a collection
        triggered here disposed of was garbage without it. */
    method DecRefIsLastCyclicDyn(p: Slot, acyclic: bool, ghost k: nat) returns (last: bool, ghost listed: seq<Cell>)
      requires Valid()
      requires p.To? ==> k in outside && outside[k] == p.cell
      modifies this`headers, this`fields, this`outside, this`roots, this`rootsThreshold
      ensures Valid() && NoDup(listed)
      ensures last || p == Nil ==> listed == []
      ensures last <==> p.To? && old(View().Into(View().AllRefs(), p.cell)) == {Outside(k)}
      ensures last ==> View() == old(View()) && headers[p.cell].rootIdx == 0
      ensures p == Nil ==> View() == old(View())
      ensures p.To? && !last ==>
                Disposed(Graph(old(fields), old(outside) - {k}), View(), Elems(listed))
      ensures p == Nil ==> roots == old(roots)
      ensures last ==> Elems(roots) == Elems(old(roots)) - {p.cell}
      ensures p.To? && !last ==>
                Remembered(Graph(old(fields), old(outside) - {k}), old(roots), old(rootsThreshold), p.cell, acyclic, View(), roots, listed)
      ensures old(Complete()) && (p.To? && acyclic ==> OffCycles(old(View()), p.cell)) ==> Complete()
    {
      hide Exact, Colors, RootsAgree, AddRc, Graph.Into, Graph.AllRefs, Disposed, Remembered, Covered, OffCycles, Graph.NoDangling;
      ghost var g, complete := View(), Complete() && (p.To? && acyclic ==> OffCycles(View(), p.cell));
      ExactNoDangling(g, headers);
      last, listed := false, [];
      if p.To? {
        var cell := p.cell;
        LastReference(View(), headers, Outside(k), cell);
        if headers[cell].rc / 16 * 16 == 0 {
          last := true;
        } else {
          DropOutside(View(), headers, k, cell);
          Recounted(headers, cell, -RC_INCREMENT, roots);
          headers := AddRc(headers, cell, -RC_INCREMENT);
          outside := outside - {k};
        }
        ghost var g1, roots0, threshold0 := View(), roots, rootsThreshold;
        ExactNoDangling(g1, headers);
        listed := RememberCycle(last, cell, acyclic);
        ExactNoDangling(View(), headers);
        if complete {
          if last {
            LastIsAlive(g, k, cell, Elems(roots0));
          } else {
            DropRemembered(g, k, roots0, acyclic);
            RememberedCovers(g1, roots0, threshold0, cell, acyclic, View(), roots, listed);
          }
        }
      }
    }

    /** Copying a reference into a field: the new one is counted before the old one
        is given up. k1 and k2 number the two temporary references. */
    method CopyIntoField(o: Cell, i: nat, src: Slot, acyclic: bool, ghost k1: nat, ghost k2: nat)
      returns (last: bool, ghost listed: seq<Cell>)
      requires Valid() && o in fields && i < |fields[o]| && (src.To? ==> src.cell in headers)
      requires k1 !in outside && k2 !in outside && k1 != k2
      modifies this`headers, this`fields, this`outside, this`roots, this`rootsThreshold
      ensures Valid() && NoDup(listed)
      ensures !last ==> Disposed(Graph(old(fields)[o := old(fields[o])[i := src]], old(outside)), View(), Elems(listed))
      ensures last ==>
                && old(fields[o][i]).To?
                && View() == Graph(old(fields)[o := old(fields[o])[i := src]], old(outside)[k2 := old(fields[o][i]).cell])
                && View().Into(View().AllRefs(), old(fields[o][i]).cell) == {Outside(k2)}
      ensures old(fields[o][i]) == Nil ==> roots == old(roots)
      ensures last ==> Elems(roots) == Elems(old(roots)) - {old(fields[o][i]).cell}
      ensures old(fields[o][i]).To? && !last ==>
                Remembered(Graph(old(fields)[o := old(fields[o])[i := src]], old(outside)), old(roots), old(rootsThreshold),
                           old(fields[o][i]).cell, acyclic, View(), roots, listed)
      ensures var g := Graph(old(fields)[o := old(fields[o])[i := src]], if old(fields[o][i]).To? then old(outside)[k2 := old(fields[o][i]).cell] else old(outside));
              old(Complete()) && (old(fields[o][i]).To? && acyclic ==> OffCycles(g, old(fields[o][i]).cell)) ==> Complete()
    {
      hide Exact, Graph.Into, Graph.AllRefs, Graph.Target, Colors, RootsAgree, Disposed, Remembered, Covered, OffCycles, Graph.NoDangling;
      ExactNoDangling(View(), headers);
      if Complete() { StoreCovers(View(), o, i, src, k2, Elems(roots)); }
      var tmp := fields[o][i];
      if src.To? {
        IncRefCyclic(src.cell, k1);
      }
      ghost var g := StoreField(View(), headers, o, i, src, k1, k2);
      fields := fields[o := fields[o][i := src]];
      outside := g.outside;
      assert outside == if tmp.To? then old(outside)[k2 := tmp.cell] else old(outside);
      assert tmp.To? ==> outside - {k2} == old(outside);
      if tmp == Nil { NothingDisposed(View(), []); }
      last, listed := DecRefIsLastCyclicDyn(tmp, acyclic, k2);
    }
  }
}
