/** The object graph that the ORC cycle collector walks: cells, the traced
    fields they own, and the references held outside the traced heap.
    Reachability is stated with explicit paths. */
module OrcGraph {

  type Cell = nat

  /** The content of one traced field. */
  datatype Slot = Nil | To(cell: Cell)

  /** One place that can hold a reference: a traced field of a cell, or a
      variable, global or untraced field, known only by a number. */
  datatype Ref = Field(owner: Cell, index: nat) | Outside(id: nat)

  datatype Graph = Graph(fields: map<Cell, seq<Slot>>, outside: map<nat, Cell>)
  {
    /** What the place holds; Nil when there is no such place. */
    ghost function Target(r: Ref): Slot {
      match r
      case Field(c, i) => if c in fields && i < |fields[c]| then fields[c][i] else Nil
      case Outside(k) => if k in outside then To(outside[k]) else Nil
    }

    /** Every non-nil reference refers to a cell that exists. */
    ghost predicate NoDangling() {
      forall r: Ref :: Target(r).To? ==> Target(r).cell in fields
    }

    ghost function FieldRefs(): set<Ref> {
      set c, i | c in fields && 0 <= i < |fields[c]| && fields[c][i].To? :: Field(c, i)
    }

    /** The non-nil fields of the cells in S. */
    ghost function Out(S: set<Cell>): set<Ref> {
      set r | r in FieldRefs() && r.owner in S
    }

    ghost function AllRefs(): set<Ref> {
      FieldRefs() + set k | k in outside :: Outside(k)
    }

    /** The members of P that refer to c. */
    ghost function Into(P: set<Ref>, c: Cell): set<Ref> {
      set r | r in P && Target(r) == To(c)
    }

    ghost predicate Edge(a: Cell, b: Cell) {
      a in fields && To(b) in fields[a]
    }

    ghost predicate IsPath(p: seq<Cell>) {
      |p| > 0 && forall k :: 0 <= k < |p| - 1 ==> Edge(p[k], p[k + 1])
    }

    ghost predicate PathFrom(start: set<Cell>, p: seq<Cell>, c: Cell) {
      IsPath(p) && p[0] in start && p[|p| - 1] == c
    }

    ghost predicate Reachable(start: set<Cell>, c: Cell) {
      exists p :: PathFrom(start, p, c)
    }

    ghost function Reach(start: set<Cell>): set<Cell> {
      set c | c in fields && Reachable(start, c)
    }

    /** Something other than a traced field of a member of M refers to c. */
    ghost predicate HeldFromOutside(M: set<Cell>, c: Cell) {
      exists r :: Target(r) == To(c) && !(r.Field? && r.owner in M)
    }

    ghost function Anchors(M: set<Cell>): set<Cell> {
      set c | c in M && HeldFromOutside(M, c)
    }

    /** What a collection that starts from the given candidate roots must free. */
    ghost function Garbage(start: set<Cell>): set<Cell> {
      Reach(start) - Reach(Anchors(Reach(start)))
    }
  }

  lemma TargetIsRef(g: Graph, r: Ref)
    ensures r in g.AllRefs() <==> g.Target(r).To?
    ensures r in g.FieldRefs() <==> r.Field? && g.Target(r).To?
  {
  }

  lemma OutIs(g: Graph, S: set<Cell>, r: Ref)
    ensures r in g.Out(S) <==> r.Field? && r.owner in S && g.Target(r).To?
  {
    TargetIsRef(g, r);
  }

  lemma OutEdge(g: Graph, r: Ref)
    requires r.Field? && g.Target(r).To?
    ensures g.Edge(r.owner, g.Target(r).cell)
  {
  }

  lemma EdgeOut(g: Graph, a: Cell, b: Cell) returns (r: Ref)
    requires g.Edge(a, b)
    ensures r.Field? && r.owner == a && g.Target(r) == To(b)
  {
    var i :| 0 <= i < |g.fields[a]| && g.fields[a][i] == To(b);
    r := Field(a, i);
  }

  /** Adding one reference to P changes one count by one. */
  lemma IntoAdd(g: Graph, P: set<Ref>, r: Ref, c: Cell)
    requires r !in P
    ensures |g.Into(P + {r}, c)| == |g.Into(P, c)| + (if g.Target(r) == To(c) then 1 else 0)
  {
    if g.Target(r) == To(c) {
      assert g.Into(P + {r}, c) == g.Into(P, c) + {r};
    } else {
      assert g.Into(P + {r}, c) == g.Into(P, c);
    }
  }

  lemma IntoSplit(g: Graph, P: set<Ref>, Q: set<Ref>, c: Cell)
    requires P !! Q
    ensures |g.Into(P + Q, c)| == |g.Into(P, c)| + |g.Into(Q, c)|
  {
    assert g.Into(P + Q, c) == g.Into(P, c) + g.Into(Q, c);
  }

  lemma ReachStart(g: Graph, start: set<Cell>, c: Cell)
    requires c in start && c in g.fields
    ensures c in g.Reach(start)
  {
    assert g.PathFrom(start, [c], c);
  }

  lemma ReachStep(g: Graph, start: set<Cell>, a: Cell, b: Cell)
    requires a in g.Reach(start) && g.Edge(a, b) && b in g.fields
    ensures b in g.Reach(start)
  {
    var p :| g.PathFrom(start, p, a);
    var q := p + [b];
    forall k | 0 <= k < |q| - 1 ensures g.Edge(q[k], q[k + 1]) {
      assert q[k] == p[k];
    }
    assert g.PathFrom(start, q, b);
  }

  /** A set that contains the start and is closed under edges contains everything reachable. */
  lemma ReachLeast(g: Graph, start: set<Cell>, S: set<Cell>)
    requires forall c :: c in start && c in g.fields ==> c in S
    requires forall a, b :: a in S && g.Edge(a, b) && b in g.fields ==> b in S
    requires g.NoDangling()
    ensures g.Reach(start) <= S
  {
    forall c | c in g.Reach(start) ensures c in S {
      var p :| g.PathFrom(start, p, c);
      PathStaysIn(g, start, S, p);
    }
  }

  lemma {:induction false} PathStaysIn(g: Graph, start: set<Cell>, S: set<Cell>, p: seq<Cell>)
    requires forall c :: c in start && c in g.fields ==> c in S
    requires forall a, b :: a in S && g.Edge(a, b) && b in g.fields ==> b in S
    requires g.NoDangling()
    requires g.IsPath(p) && p[0] in start && p[|p| - 1] in g.fields
    ensures p[|p| - 1] in S
    decreases |p|
  {
    if |p| > 1 {
      var q := p[..|p| - 1];
      assert g.IsPath(q) by {
        forall k | 0 <= k < |q| - 1 ensures g.Edge(q[k], q[k + 1]) {
          assert q[k] == p[k] && q[k + 1] == p[k + 1];
        }
      }
      assert g.Edge(p[|p| - 2], p[|p| - 1]);
      PathStaysIn(g, start, S, q);
    }
  }

  /** Independent reading of Garbage: a cell reachable from the candidates is
      freed exactly when no path leads to it from a cell that something outside
      the traced heap refers to, nor from a cell the candidates do not reach. */
  lemma GarbageIff(g: Graph, start: set<Cell>, c: Cell)
    requires g.NoDangling()
    ensures c in g.Garbage(start) <==>
            c in g.Reach(start)
            && !g.Reachable(g.outside.Values, c)
            && !g.Reachable(g.fields.Keys - g.Reach(start), c)
  {
    var M := g.Reach(start);
    var H := g.Reach(g.Anchors(M));
    if c in M && c in H {
      var p :| g.PathFrom(g.Anchors(M), p, c);
      var r :| g.Target(r) == To(p[0]) && !(r.Field? && r.owner in M);
      if r.Outside? {
        assert g.PathFrom(g.outside.Values, p, c);
      } else {
        OutEdge(g, r);
        var q := [r.owner] + p;
        forall k | 0 <= k < |q| - 1 ensures g.Edge(q[k], q[k + 1]) {
          if k > 0 { assert q[k] == p[k - 1] && q[k + 1] == p[k]; }
        }
        assert g.PathFrom(g.fields.Keys - M, q, c);
      }
    }
    if c in M && g.Reachable(g.outside.Values, c) {
      var p :| g.PathFrom(g.outside.Values, p, c);
      var k :| k in g.outside && g.outside[k] == p[0];
      assert g.Target(Outside(k)) == To(p[0]);
      PathToMarkedIsHeld(g, start, p);
    }
    if c in M && g.Reachable(g.fields.Keys - M, c) {
      var p :| g.PathFrom(g.fields.Keys - M, p, c);
      PathToMarkedIsHeld(g, start, p);
    }
  }

  /** A path into the marked set enters it through an anchor. */
  lemma {:induction false} PathToMarkedIsHeld(g: Graph, start: set<Cell>, p: seq<Cell>)
    requires g.NoDangling() && g.IsPath(p)
    requires p[0] !in g.Reach(start) || g.HeldFromOutside(g.Reach(start), p[0])
    requires p[|p| - 1] in g.Reach(start)
    ensures p[|p| - 1] in g.Reach(g.Anchors(g.Reach(start)))
    decreases |p|
  {
    var M := g.Reach(start);
    var c := p[|p| - 1];
    if |p| == 1 {
      ReachStart(g, g.Anchors(M), c);
    } else {
      var q := p[..|p| - 1];
      assert g.IsPath(q) by {
        forall k | 0 <= k < |q| - 1 ensures g.Edge(q[k], q[k + 1]) {
          assert q[k] == p[k] && q[k + 1] == p[k + 1];
        }
      }
      var b := q[|q| - 1];
      assert g.Edge(p[|p| - 2], p[|p| - 1]);
      if b in M {
        PathToMarkedIsHeld(g, start, q);
        ReachStep(g, g.Anchors(M), b, c);
      } else {
        var r := EdgeOut(g, b, c);
        assert g.HeldFromOutside(M, c);
        ReachStart(g, g.Anchors(M), c);
      }
    }
  }
}
