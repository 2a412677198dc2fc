/** Struct types that embed each other, in cycles too, and the paths of field indices
    that lead through embedded fields. */
module FieldPaths {

  type TypeId = nat

  datatype FieldType = StructType(id: TypeId) | PointerTo(elem: FieldType) | OtherType

  datatype Field = Field(name: string, embedded: bool, typ: FieldType)

  datatype Option<T> = None | Some(value: T)

  type Types = map<TypeId, seq<Field>>

  /** The struct type that an embedded field, of type T or *T, opens up. */
  function Embeds(f: Field): Option<TypeId> {
    if !f.embedded then None
    else
      var ntyp := if f.typ.PointerTo? then f.typ.elem else f.typ;
      if ntyp.StructType? then Some(ntyp.id) else None
  }

  ghost predicate Closed(g: Types) {
    forall t, i :: t in g && 0 <= i < |g[t]| && Embeds(g[t][i]).Some? ==> Embeds(g[t][i]).value in g
  }

  function Fields(g: Types, t: TypeId): seq<Field> { if t in g then g[t] else [] }

  /** Field i of t is embedded and opens up another struct. */
  predicate Opens(g: Types, t: TypeId, i: nat) { i < |Fields(g, t)| && Embeds(Fields(g, t)[i]).Some? }

  /** The type at the end of a path of embedded fields. */
  function TypeAt(g: Types, t0: TypeId, p: seq<nat>): TypeId {
    if p == [] then t0
    else
      var t, i := TypeAt(g, t0, p[..|p| - 1]), p[|p| - 1];
      if Opens(g, t, i) then Embeds(Fields(g, t)[i]).value else t
  }

  function Opening(g: Types, t: TypeId): set<nat> { set i | 0 <= i < |Fields(g, t)| && Opens(g, t, i) }

  function Matching(g: Types, t: TypeId, wanted: string -> bool): set<nat> {
    set i | 0 <= i < |Fields(g, t)| && wanted(Fields(g, t)[i].name)
  }

  /** All paths of d embedded fields. */
  ghost function Level(g: Types, t0: TypeId, d: nat): set<seq<nat>> {
    if d == 0 then {[]}
    else set q, i | q in Level(g, t0, d - 1) && i in Opening(g, TypeAt(g, t0, q)) :: q + [i]
  }

  ghost function LevelTo(g: Types, t0: TypeId, d: nat, x: TypeId): set<seq<nat>> {
    set p | p in Level(g, t0, d) && TypeAt(g, t0, p) == x
  }

  /** All paths to a matching field below d embedded ones. */
  ghost function Hits(g: Types, t0: TypeId, d: nat, wanted: string -> bool): set<seq<nat>> {
    set q, i | q in Level(g, t0, d) && i in Matching(g, TypeAt(g, t0, q), wanted) :: q + [i]
  }

  ghost predicate IsHit(g: Types, t0: TypeId, wanted: string -> bool, p: seq<nat>) {
    p != [] && p in Hits(g, t0, |p| - 1, wanted)
  }

  /** The rule of the language: p leads to a match, and every other path to a match is
      longer. */
  ghost predicate Selects(g: Types, t0: TypeId, wanted: string -> bool, p: seq<nat>) {
    && IsHit(g, t0, wanted, p)
    && forall q :: IsHit(g, t0, wanted, q) ==> q == p || |q| > |p|
  }

  function Extend(S: set<seq<nat>>, i: nat): set<seq<nat>> { set q | q in S :: q + [i] }

  // ------------------------------------------------------------------------ laws

  lemma {:induction false} LevelLength(g: Types, t0: TypeId, d: nat, p: seq<nat>)
    requires p in Level(g, t0, d)
    ensures |p| == d
  {
    if d > 0 {
      var q, i :| q in Level(g, t0, d - 1) && i in Opening(g, TypeAt(g, t0, q)) && p == q + [i];
      LevelLength(g, t0, d - 1, q);
    }
  }

  lemma LevelNext(g: Types, t0: TypeId, d: nat, q: seq<nat>, i: nat)
    ensures q + [i] in Level(g, t0, d + 1) <==> q in Level(g, t0, d) && Opens(g, TypeAt(g, t0, q), i)
    ensures Opens(g, TypeAt(g, t0, q), i) ==> TypeAt(g, t0, q + [i]) == Embeds(Fields(g, TypeAt(g, t0, q))[i]).value
  {
    assert (q + [i])[..|q + [i]| - 1] == q;
    if q + [i] in Level(g, t0, d + 1) {
      var q', i' :| q' in Level(g, t0, d) && i' in Opening(g, TypeAt(g, t0, q')) && q + [i] == q' + [i'];
      Last(q, i, q', i');
    }
  }

  lemma Last(q: seq<nat>, i: nat, q': seq<nat>, i': nat)
    requires q + [i] == q' + [i']
    ensures q == q' && i == i'
  {
    assert (q + [i])[..|q|] == q && (q' + [i'])[..|q'|] == q' && |q| == |q'|;
    assert (q + [i])[|q|] == i && (q' + [i'])[|q|] == i';
  }

  lemma HitsIs(g: Types, t0: TypeId, d: nat, wanted: string -> bool, q: seq<nat>, i: nat)
    ensures q + [i] in Hits(g, t0, d, wanted)
       <==> q in Level(g, t0, d) && i < |Fields(g, TypeAt(g, t0, q))| && wanted(Fields(g, TypeAt(g, t0, q))[i].name)
  {
    if q + [i] in Hits(g, t0, d, wanted) {
      var q', i' :| q' in Level(g, t0, d) && i' in Matching(g, TypeAt(g, t0, q'), wanted) && q + [i] == q' + [i'];
      Last(q, i, q', i');
    }
  }

  /** Extending all paths of a set by the same index keeps their number. */
  lemma {:induction false} ExtendSize(S: set<seq<nat>>, i: nat)
    ensures |Extend(S, i)| == |S|
  {
    if S != {} {
      var q :| q in S;
      ExtendSize(S - {q}, i);
      if q + [i] in Extend(S - {q}, i) {
        var q' :| q' in S - {q} && q' + [i] == q + [i];
        Last(q, i, q', i);
      }
      assert Extend(S, i) == Extend(S - {q}, i) + {q + [i]};
    }
  }

  lemma ExtendIs(S: set<seq<nat>>, i: nat, q: seq<nat>, j: nat)
    ensures q + [j] in Extend(S, i) <==> q in S && j == i
  {
    if q + [j] in Extend(S, i) {
      var q' :| q' in S && q' + [i] == q + [j];
      Last(q, j, q', i);
    }
  }

  lemma {:induction false} TypeIn(g: Types, t0: TypeId, d: nat, p: seq<nat>)
    requires Closed(g) && t0 in g && p in Level(g, t0, d)
    ensures TypeAt(g, t0, p) in g
  {
    if d > 0 {
      var q, i :| q in Level(g, t0, d - 1) && i in Opening(g, TypeAt(g, t0, q)) && p == q + [i];
      TypeIn(g, t0, d - 1, q);
      LevelNext(g, t0, d - 1, q, i);
    }
  }

  /** x is reached by a path shorter than d. */
  ghost predicate Early(g: Types, t0: TypeId, d: nat, x: TypeId) {
    exists e: nat :: e < d && LevelTo(g, t0, e, x) != {}
  }

  /** What is opened up by a type reached early is reached early too. */
  lemma EarlyOpens(g: Types, t0: TypeId, d: nat, x: TypeId, i: nat)
    requires Early(g, t0, d, x) && Opens(g, x, i)
    ensures Early(g, t0, d + 1, Embeds(Fields(g, x)[i]).value)
  {
    var e: nat :| e < d && LevelTo(g, t0, e, x) != {};
    var q :| q in LevelTo(g, t0, e, x);
    LevelNext(g, t0, e, q, i);
    assert q + [i] in LevelTo(g, t0, e + 1, Embeds(Fields(g, x)[i]).value);
  }

  lemma EarlyNext(g: Types, t0: TypeId, d: nat, x: TypeId)
    ensures Early(g, t0, d + 1, x) <==> Early(g, t0, d, x) || LevelTo(g, t0, d, x) != {}
  {
  }
}
