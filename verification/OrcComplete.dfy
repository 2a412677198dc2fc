/** Why the candidates suffice: between collections every cell that no variable reaches is
    reached by a candidate, so a collection from all candidates leaves no garbage. */
module OrcComplete {
  import opened OrcGraph
  import opened OrcSpec

  /** The cells that a variable reaches. */
  ghost function Alive(g: Graph): set<Cell> { g.Reach(g.outside.Values) }

  ghost predicate Covered(g: Graph, roots: set<Cell>) {
    forall c :: c in g.fields ==> c in Alive(g) || c in g.Reach(roots)
  }

  ghost function Successors(g: Graph, s: Cell): set<Cell> { set b | b in g.fields && g.Edge(s, b) }

  /** No path leads from s back to s. */
  ghost predicate OffCycles(g: Graph, s: Cell) { s !in g.Reach(Successors(g, s)) }

  // --------------------------------------------------------------- reachability

  lemma ReachWithin(g: Graph, A: set<Cell>, B: set<Cell>)
    requires g.NoDangling() && forall c :: c in A && c in g.fields ==> c in g.Reach(B)
    ensures g.Reach(A) <= g.Reach(B)
  {
    hide Graph.Reachable, Graph.Edge;
    forall a, b | a in g.Reach(B) && g.Edge(a, b) && b in g.fields ensures b in g.Reach(B) { ReachStep(g, B, a, b); }
    ReachLeast(g, A, g.Reach(B));
  }

  lemma ReachMono(g: Graph, A: set<Cell>, B: set<Cell>)
    requires g.NoDangling() && A <= B
    ensures g.Reach(A) <= g.Reach(B)
  {
    hide Graph.Reach;
    forall c | c in A && c in g.fields ensures c in g.Reach(B) { ReachStart(g, B, c); }
    ReachWithin(g, A, B);
  }

  lemma ReachUnion(g: Graph, A: set<Cell>, B: set<Cell>)
    requires g.NoDangling()
    ensures g.Reach(A + B) <= g.Reach(A) + g.Reach(B)
  {
    hide Graph.Reach, Graph.Edge;
    var S := g.Reach(A) + g.Reach(B);
    forall c | c in A + B && c in g.fields ensures c in S {
      if c in A { ReachStart(g, A, c); } else { ReachStart(g, B, c); }
    }
    forall a, b | a in S && g.Edge(a, b) && b in g.fields ensures b in S {
      if a in g.Reach(A) { ReachStep(g, A, a, b); } else { ReachStep(g, B, a, b); }
    }
    ReachLeast(g, A + B, S);
  }

  /** A cell reaches itself and what its successors reach. */
  lemma ReachOne(g: Graph, s: Cell)
    requires g.NoDangling()
    ensures g.Reach({s}) <= {s} + g.Reach(Successors(g, s))
  {
    hide Graph.Reach, Graph.Edge;
    var N := Successors(g, s);
    var S := {s} + g.Reach(N);
    forall a, b | a in S && g.Edge(a, b) && b in g.fields ensures b in S {
      if a == s { ReachStart(g, N, b); } else { ReachStep(g, N, a, b); }
    }
    ReachLeast(g, {s}, S);
  }

  /** What is reached in g is reached in g' if g' starts from as much and has the edges,
      or reaches their targets all the same. */
  lemma ReachKept(g: Graph, g': Graph, A: set<Cell>, B: set<Cell>)
    requires g.NoDangling() && g'.NoDangling()
    requires forall c :: c in A && c in g.fields ==> c in g'.Reach(B)
    requires forall a, b :: a in g'.Reach(B) && g.Edge(a, b) && b in g.fields ==> g'.Edge(a, b) || b in g'.Reach(B)
    ensures g.Reach(A) <= g'.Reach(B)
  {
    hide Graph.Reach, Graph.Edge;
    forall a, b | a in g'.Reach(B) && g.Edge(a, b) && b in g.fields ensures b in g'.Reach(B) {
      if g'.Edge(a, b) {
        EdgeKnown(g', a, b);
        ReachStep(g', B, a, b);
      }
    }
    ReachLeast(g, A, g'.Reach(B));
  }

  lemma EdgeKnown(g: Graph, a: Cell, b: Cell)
    requires g.NoDangling() && g.Edge(a, b)
    ensures b in g.fields
  {
    var r := EdgeOut(g, a, b);
  }

  // ------------------------------------------------------------- the collection

  /** A collection from candidates that cover the heap frees exactly what no variable
      reaches. */
  lemma GarbageIsAll(g: Graph, roots: set<Cell>)
    requires g.NoDangling() && Covered(g, roots)
    ensures g.Garbage(roots) == g.fields.Keys - Alive(g)
  {
    hide Graph.Garbage, Graph.Anchors;
    forall c | c in g.fields.Keys ensures c in g.Garbage(roots) <==> c !in Alive(g) {
      GarbageIff(g, roots, c);
      UncoveredReach(g, roots, c);
    }
    forall c | c in g.Garbage(roots) ensures c in g.fields.Keys { GarbageIff(g, roots, c); }
  }

  lemma UncoveredReach(g: Graph, roots: set<Cell>, c: Cell)
    requires g.NoDangling() && Covered(g, roots) && c in g.fields
    ensures g.Reachable(g.fields.Keys - g.Reach(roots), c) ==> c in Alive(g)
  {
    hide Graph.Reachable;
    ReachWithin(g, g.fields.Keys - g.Reach(roots), g.outside.Values);
  }

  /** Afterwards a variable reaches every cell there is. */
  lemma NoGarbageLeft(g: Graph, g': Graph, roots: set<Cell>)
    requires g.NoDangling() && g'.NoDangling() && Covered(g, roots) && Disposed(g, g', g.Garbage(roots))
    ensures g'.fields.Keys == Alive(g') == Alive(g) && Covered(g', {})
  {
    hide Graph.Garbage, Graph.Reach;
    GarbageIsAll(g, roots);
    forall c | c in g'.fields.Keys ensures c in Alive(g) { }
    AliveWithin(g);
    AliveKept(g, g');
  }

  lemma AliveWithin(g: Graph)
    ensures Alive(g) <= g.fields.Keys
  {
  }

  lemma AliveKept(g: Graph, g': Graph)
    requires g.NoDangling() && g'.NoDangling() && g'.outside == g.outside && g'.fields.Keys == Alive(g)
    requires forall c :: c in g'.fields ==> c in g.fields && g'.fields[c] == g.fields[c]
    ensures g'.fields.Keys == Alive(g')
  {
    forall c | c in g.outside.Values && c in g.fields ensures c in Alive(g') {
      ReachStart(g, g.outside.Values, c);
      ReachStart(g', g'.outside.Values, c);
    }
    hide Graph.Reachable;
    ReachKept(g, g', g.outside.Values, g'.outside.Values);
  }

  // ------------------------------------------------------------------ the mutator

  lemma NothingToCover(g: Graph)
    requires g.fields == map[]
    ensures Covered(g, {})
  {
  }

  /** Nothing is lost while the edges stay and no variable goes. */
  lemma CoversMore(g: Graph, g': Graph, roots: set<Cell>, roots': set<Cell>)
    requires g.NoDangling() && g'.NoDangling() && Covered(g, roots) && g'.fields.Keys == g.fields.Keys
    requires g.outside.Values <= g'.outside.Values && roots <= roots'
    requires forall a, b :: g.Edge(a, b) ==> g'.Edge(a, b) || b in g'.outside.Values
    ensures Covered(g', roots')
  {
    hide Graph.Reach, Graph.Edge;
    var B := g'.outside.Values + roots';
    forall c | c in B && c in g'.fields ensures c in g'.Reach(B) { ReachStart(g', B, c); }
    ReachMono(g, g.outside.Values, g.outside.Values + roots);
    ReachMono(g, roots, g.outside.Values + roots);
    ReachKept(g, g', g.outside.Values + roots, B);
    ReachUnion(g', g'.outside.Values, roots');
  }

  /** The variable k gives up its reference to s, which something else refers to as well.
      If s is a candidate, or on no cycle, the candidates still cover everything. */
  lemma DropCovers(g: Graph, k: nat, roots: set<Cell>, roots': set<Cell>)
    requires g.NoDangling() && Covered(g, roots) && k in g.outside && roots <= roots'
    requires g.outside[k] in roots' || OffCycles(g, g.outside[k])
    requires g.Into(g.AllRefs(), g.outside[k]) != {Outside(k)}
    ensures Covered(Graph(g.fields, g.outside - {k}), roots')
  {
    var s := g.outside[k];
    var g' := Graph(g.fields, g.outside - {k});
    assert g.Target(Outside(k)) == To(s);
    assert g'.NoDangling() by { FewerVariables(g, k); }
    var r := OtherReference(g, k);
    SameReach(g, g', roots);
    SameReach(g, g', roots');
    SameReach(g, g', g'.outside.Values);
    AliveSplit(g, k);
    ReachMono(g, roots, roots');
    hide Graph.Reach, Graph.Target, Graph.NoDangling, Successors, Graph.Into, Graph.AllRefs;
    if s in roots' {
      ReachMono(g, {s}, roots');
    } else if r.Outside? {
      VariableReaches(g, g', r.id, s);
      ReachMono(g, {s}, g'.outside.Values);
    } else {
      FieldReference(g, g', r, s, roots, roots');
    }
  }

  lemma FewerVariables(g: Graph, k: nat)
    requires g.NoDangling()
    ensures Graph(g.fields, g.outside - {k}).NoDangling()
  {
    var g' := Graph(g.fields, g.outside - {k});
    forall r: Ref | g'.Target(r).To? ensures g'.Target(r).cell in g'.fields { assert g'.Target(r) == g.Target(r); }
  }

  lemma OtherReference(g: Graph, k: nat) returns (r: Ref)
    requires k in g.outside && g.Into(g.AllRefs(), g.outside[k]) != {Outside(k)}
    ensures r != Outside(k) && g.Target(r) == To(g.outside[k])
  {
    var s := g.outside[k];
    TargetIsRef(g, Outside(k));
    assert Outside(k) in g.Into(g.AllRefs(), s);
    r :| r in g.Into(g.AllRefs(), s) && r != Outside(k);
  }

  lemma SameReach(g: Graph, g': Graph, A: set<Cell>)
    requires g.NoDangling() && g'.NoDangling() && g'.fields == g.fields
    ensures g'.Reach(A) == g.Reach(A)
  {
    forall c | c in A && c in g.fields ensures c in g.Reach(A) && c in g'.Reach(A) {
      ReachStart(g, A, c);
      ReachStart(g', A, c);
    }
    assert forall a, b :: g.Edge(a, b) <==> g'.Edge(a, b);
    hide Graph.Reach, Graph.Edge;
    ReachKept(g, g', A, A);
    ReachKept(g', g, A, A);
  }

  lemma AliveSplit(g: Graph, k: nat)
    requires g.NoDangling() && k in g.outside
    ensures Alive(g) <= g.Reach((g.outside - {k}).Values) + g.Reach({g.outside[k]})
  {
    hide Graph.Reach;
    var V := (g.outside - {k}).Values;
    forall c | c in g.outside.Values ensures c in V + {g.outside[k]} {
      var j :| j in g.outside && g.outside[j] == c;
      if j != k { assert (g.outside - {k})[j] == c; }
    }
    ReachMono(g, g.outside.Values, V + {g.outside[k]});
    ReachUnion(g, V, {g.outside[k]});
  }

  lemma VariableReaches(g: Graph, g': Graph, j: nat, s: Cell)
    requires g.NoDangling() && g.Target(Outside(j)) == To(s) && g'.fields == g.fields && j in g'.outside && g'.outside[j] == g.outside[j]
    ensures s in g'.outside.Values
  {
  }

  /** The other reference is a field of p: if no variable reaches p, and s does not, then
      a candidate does. */
  lemma FieldReference(g: Graph, g': Graph, r: Ref, s: Cell, roots: set<Cell>, roots': set<Cell>)
    requires g.NoDangling() && g'.NoDangling() && Covered(g, roots) && roots <= roots' && OffCycles(g, s)
    requires r.Field? && g.Target(r) == To(s) && g'.fields == g.fields
    requires Alive(g) <= g.Reach(g'.outside.Values) + g.Reach({s})
    requires g'.Reach(g'.outside.Values) == g.Reach(g'.outside.Values) && g'.Reach(roots') == g.Reach(roots') && g.Reach(roots) <= g.Reach(roots')
    ensures Covered(g', roots')
  {
    var p := r.owner;
    assert p in g.fields && s in g.fields;
    OutEdge(g, r);
    ReachOne(g, s);
    if p in g.Reach({s}) {
      if p == s {
        ReachStart(g, Successors(g, s), s);
      } else {
        ReachStep(g, Successors(g, s), p, s);
      }
    }
    hide Graph.Reach, Graph.Target, Graph.NoDangling, Successors, Graph.Edge;
    if p in g.Reach(g'.outside.Values) {
      ReachStep(g, g'.outside.Values, p, s);
      ReachWithin(g, {s}, g'.outside.Values);
    } else {
      ReachStep(g, roots, p, s);
      ReachWithin(g, {s}, roots);
    }
  }

  /** A candidate that a variable reaches is not needed. */
  lemma ForgetCovers(g: Graph, s: Cell, roots: set<Cell>)
    requires g.NoDangling() && Covered(g, roots) && s in Alive(g)
    ensures Covered(g, roots - {s})
  {
    hide Graph.Reach;
    ReachWithin(g, {s}, g.outside.Values);
    ReachMono(g, roots, (roots - {s}) + {s});
    ReachUnion(g, roots - {s}, {s});
  }

  /** What is done with s as a candidate keeps the heap covered, and a collection that it
      starts leaves nothing but what variables reach. */
  lemma RememberedCovers(g: Graph, roots: seq<Cell>, threshold: int, s: Cell, acyclic: bool, g': Graph, roots': seq<Cell>, listed: seq<Cell>)
    requires g.NoDangling() && g'.NoDangling() && Disposed(g, g', Elems(listed))
    requires Remembered(g, roots, threshold, s, acyclic, g', roots', listed)
    requires Covered(g, if acyclic then Elems(roots) else Elems(roots) + {s})
    ensures Covered(g', Elems(roots'))
    ensures !acyclic && s !in roots && threshold <= |roots| + 1 - 128 ==> g'.fields.Keys == Alive(g')
  {
    hide Covered, Graph.Garbage, Graph.Reach, Disposed;
    assert Elems(roots + [s]) == Elems(roots) + {s};
    if !acyclic && s !in roots && threshold <= |roots| + 1 - 128 {
      NoGarbageLeft(g, g', Elems(roots + [s]));
      assert Elems<Cell>([]) == {};
    } else if s in roots {
      assert Elems(roots) + {s} == Elems(roots);
    }
  }

  lemma DropRemembered(g: Graph, k: nat, roots: seq<Cell>, acyclic: bool)
    requires g.NoDangling() && Covered(g, Elems(roots)) && k in g.outside
    requires acyclic ==> OffCycles(g, g.outside[k])
    requires g.Into(g.AllRefs(), g.outside[k]) != {Outside(k)}
    ensures Covered(Graph(g.fields, g.outside - {k}), if acyclic then Elems(roots) else Elems(roots) + {g.outside[k]})
  {
    hide Covered, OffCycles;
    DropCovers(g, k, Elems(roots), if acyclic then Elems(roots) else Elems(roots) + {g.outside[k]});
  }

  lemma LastIsAlive(g: Graph, k: nat, s: Cell, roots: set<Cell>)
    requires g.NoDangling() && Covered(g, roots) && k in g.outside && g.outside[k] == s && s in g.fields
    ensures Covered(g, roots - {s})
  {
    hide Graph.Reach, Covered;
    ReachStart(g, g.outside.Values, s);
    ForgetCovers(g, s, roots);
  }

  /** One field is stored over; what it held is with a variable from now on. */
  lemma StoreCovers(g: Graph, o: Cell, i: nat, src: Slot, k: nat, roots: set<Cell>)
    requires g.NoDangling() && Covered(g, roots) && o in g.fields && i < |g.fields[o]| && k !in g.outside
    requires src.To? ==> src.cell in g.fields
    ensures var tmp := g.fields[o][i];
            Covered(Graph(g.fields[o := g.fields[o][i := src]], if tmp.To? then g.outside[k := tmp.cell] else g.outside), roots)
  {
    var tmp := g.fields[o][i];
    var g' := Graph(g.fields[o := g.fields[o][i := src]], if tmp.To? then g.outside[k := tmp.cell] else g.outside);
    assert tmp.To? ==> g.Target(Field(o, i)) == tmp;
    forall r: Ref | g'.Target(r).To? ensures g'.Target(r).cell in g'.fields {
      if r != Field(o, i) && r != Outside(k) { assert g'.Target(r) == g.Target(r); }
    }
    forall c | c in g.outside.Values ensures c in g'.outside.Values {
      var j :| j in g.outside && g.outside[j] == c;
      assert g'.outside[j] == c;
    }
    forall a, b | g.Edge(a, b) ensures g'.Edge(a, b) || b in g'.outside.Values {
      var r := EdgeOut(g, a, b);
      if r == Field(o, i) {
        assert g'.outside[k] == b;
      } else {
        assert g'.fields[a][r.index] == To(b);
      }
    }
    CoversMore(g, g', roots, roots);
  }

  lemma NewVariable(g: Graph, k: nat, c: Cell, roots: set<Cell>)
    requires g.NoDangling() && Covered(g, roots) && k !in g.outside && c in g.fields
    ensures Covered(Graph(g.fields, g.outside[k := c]), roots)
  {
    var g' := Graph(g.fields, g.outside[k := c]);
    forall r: Ref | g'.Target(r).To? ensures g'.Target(r).cell in g'.fields {
      if r != Outside(k) { assert g'.Target(r) == g.Target(r); }
    }
    forall c | c in g.outside.Values ensures c in g'.outside.Values {
      var j :| j in g.outside && g.outside[j] == c;
      assert g'.outside[j] == c;
    }
    CoversMore(g, g', roots, roots);
  }

  lemma ExactNoDangling(g: Graph, hd: Headers)
    requires Exact(g, hd)
    ensures g.NoDangling() && hd.Keys == g.fields.Keys
  {
  }
}
