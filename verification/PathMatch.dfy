/** Matching a name against a pattern chunk by chunk, each at its leftmost place and
    without going back, and what that decides. */
module PathMatch {
  import opened PathPattern

  datatype Chunk = Chunk(star: bool, terms: seq<Term>)

  function SkipStars(p: Bytes): (q: Bytes)
    ensures |q| <= |p| && (q == [] || q[0] != STAR) && (q == p || |q| < |p|) && (p != [] && p[0] == STAR ==> |q| < |p|)
  {
    if p != [] && p[0] == STAR then SkipStars(p[1..]) else p
  }

  /** The chunks of a pattern, or nothing if one is malformed. */
  function Chunks(p: Bytes): Option<seq<Chunk>>
    decreases |p|
  {
    if p == [] then Some([])
    else
      var q := SkipStars(p);
      var i := ScanEnd(q, false);
      match Parse(q[..i], true)
      case None => None
      case Some(terms) =>
        match Chunks(q[i..])
        case None => None
        case Some(chunks) => Some([Chunk(|q| < |p|, terms)] + chunks)
  }

  /** The leftmost place for the terms, where a star may skip bytes before them that
      are no slash; the last chunk must reach the end of the name. */
  function Place(terms: seq<Term>, star: bool, last: bool, name: Bytes): Option<Bytes>
    decreases |name|
  {
    var t := Fixed(terms, name);
    if t.Some? && (t.value == [] || !last) then t
    else if star && name != [] && name[0] != SLASH then Place(terms, star, last, name[1..])
    else None
  }

  /** What the matcher decides: every chunk is put at its leftmost place. */
  predicate Greedy(cs: seq<Chunk>, name: Bytes)
    decreases |cs|
  {
    if cs == [] then name == []
    else if cs[0].star && cs[0].terms == [] then NoSlash(name)
    else
      match Place(cs[0].terms, cs[0].star, |cs| == 1, name)
      case None => false
      case Some(t) => Greedy(cs[1..], t)
  }

  // ------------------------------------------------------------ what chunks stand for

  function Front(star: bool): seq<Term> { if star then [Star] else [] }

  function TermsOf(cs: seq<Chunk>): seq<Term> {
    if cs == [] then [] else Front(cs[0].star) + cs[0].terms + TermsOf(cs[1..])
  }

  predicate NoStars(terms: seq<Term>) { forall i :: 0 <= i < |terms| ==> !terms[i].Star? }

  /** Behind the first chunk each begins with a star, and only the last can be empty. */
  predicate Proper(cs: seq<Chunk>) {
    && (forall i :: 0 <= i < |cs| ==> NoStars(cs[i].terms))
    && (forall i :: 0 < i < |cs| ==> cs[i].star)
    && (forall i :: 0 <= i < |cs| && cs[i].terms == [] ==> cs[i].star && i == |cs| - 1)
  }

  lemma {:induction false} ChunkNoStars(p: Bytes)
    requires Parse(p, true).Some?
    ensures NoStars(Parse(p, true).value)
    ensures p != [] ==> Parse(p, true).value != []
    decreases |p|
  {
    hide GetClass;
    if p != [] {
      var n := GetTerm(p, true).value.1;
      ChunkNoStars(p[n..]);
    }
  }

  lemma {:induction false} ChunksProper(p: Bytes)
    requires Chunks(p).Some?
    ensures Proper(Chunks(p).value)
    ensures p != [] ==> Chunks(p).value != [] && (p[0] == STAR ==> Chunks(p).value[0].star)
    decreases |p|
  {
    hide Chunks, SkipStars, ScanEnd, Parse, Proper;
    NoChunks();
    if p != [] {
      var q := SkipStars(p);
      var i := ScanEnd(q, false);
      ScanStops(q);
      ChunksNext(p);
      ChunkNoStars(q[..i]);
      ChunksProper(q[i..]);
      assert q[i..] == [] ==> Chunks(q[i..]) == Some([]);
      assert q[i..] != [] ==> q[i..][0] == q[i];
      ProperNext(Chunk(|q| < |p|, Parse(q[..i], true).value), Chunks(q[i..]).value);
    }
  }

  lemma NoChunks()
    ensures Chunks([]) == Some([]) && Proper([])
  {
  }

  /** The chunks of a pattern are its first one and those of the rest. */
  lemma ChunksNext(p: Bytes)
    requires p != []
    ensures var q := SkipStars(p); |q[ScanEnd(q, false)..]| < |p|
    ensures var q := SkipStars(p);
            var a, cs := Parse(q[..ScanEnd(q, false)], true), Chunks(q[ScanEnd(q, false)..]);
            Chunks(p) == if a.None? || cs.None? then None else Some([Chunk(|q| < |p|, a.value)] + cs.value)
  {
    ScanStops(SkipStars(p));
    hide ScanEnd, Parse;
  }

  lemma ProperNext(c: Chunk, cs: seq<Chunk>)
    requires Proper(cs) && NoStars(c.terms) && (c.terms == [] ==> c.star && cs == []) && (cs != [] ==> cs[0].star)
    ensures Proper([c] + cs)
  {
    hide NoStars;
    var ds := [c] + cs;
    assert forall i :: 0 < i < |ds| ==> ds[i] == cs[i - 1];
  }

  lemma {:induction false} ScanStops(p: Bytes)
    ensures ScanEnd(p, false) < |p| ==> p[ScanEnd(p, false)] == STAR
    ensures p != [] && p[0] != STAR ==> ScanEnd(p, false) > 0
  {
    ScanStopsFrom(p, false);
  }

  lemma {:induction false} ScanStopsFrom(p: Bytes, inrange: bool)
    ensures ScanEnd(p, inrange) < |p| ==> p[ScanEnd(p, inrange)] == STAR
    decreases |p|
  {
    if p != [] {
      if p[0] == BACKSLASH && |p| > 1 {
        ScanStopsFrom(p[2..], inrange);
      } else if p[0] == OPEN {
        ScanStopsFrom(p[1..], true);
      } else if p[0] == CLOSE {
        ScanStopsFrom(p[1..], false);
      } else {
        ScanStopsFrom(p[1..], inrange);
      }
    }
  }

  /** Two stars match what one does. */
  lemma StarStar(rest: seq<Term>, name: Bytes)
    ensures Matches([Star] + ([Star] + rest), name) <==> Matches([Star] + rest, name)
  {
    hide Matches;
    if Matches([Star] + ([Star] + rest), name) {
      var k := SpanOf([Star] + rest, name);
      var n := SpanOf(rest, name[k..]);
      assert name[..k + n] == name[..k] + name[k..][..n] && name[k..][n..] == name[k + n..];
      WithSpan(rest, name, k + n);
    }
    if Matches([Star] + rest, name) {
      assert name[0..] == name;
      WithSpan([Star] + rest, name, 0);
    }
  }

  lemma SpanOf(rest: seq<Term>, name: Bytes) returns (k: nat)
    requires Matches([Star] + rest, name)
    ensures k <= |name| && NoSlash(name[..k]) && Matches(rest, name[k..])
  {
    assert ([Star] + rest)[1..] == rest && ([Star] + rest)[0] == Star;
    k :| k <= |name| && NoSlash(name[..k]) && Matches(rest, name[k..]);
  }

  lemma WithSpan(rest: seq<Term>, name: Bytes, k: nat)
    requires k <= |name| && NoSlash(name[..k]) && Matches(rest, name[k..])
    ensures Matches([Star] + rest, name)
  {
    assert ([Star] + rest)[1..] == rest && ([Star] + rest)[0] == Star;
  }

  ghost predicate SameMatches(a: seq<Term>, b: seq<Term>) { forall name :: Matches(a, name) <==> Matches(b, name) }

  /** Leading stars are as good as one. */
  lemma {:induction false} ManyStars(p: Bytes)
    requires p != [] && p[0] == STAR
    ensures var q := SkipStars(p);
            && (Parse(p, false).None? <==> Parse(q, false).None?)
            && (Parse(p, false).Some? ==> SameMatches(Parse(p, false).value, [Star] + Parse(q, false).value))
    decreases |p|
  {
    hide Matches, GetClass;
    if p[1..] != [] && p[1] == STAR {
      ManyStars(p[1..]);
      if Parse(p, false).Some? {
        var q := SkipStars(p);
        StarFront(Parse(p[1..], false).value, [Star] + Parse(q, false).value);
        forall name ensures Matches([Star] + ([Star] + Parse(q, false).value), name) <==> Matches([Star] + Parse(q, false).value, name) {
          StarStar(Parse(q, false).value, name);
        }
      }
    }
  }

  lemma StarFront(a: seq<Term>, b: seq<Term>)
    requires SameMatches(a, b)
    ensures SameMatches([Star] + a, [Star] + b)
  {
    forall name ensures Matches([Star] + a, name) <==> Matches([Star] + b, name) {
      if Matches([Star] + a, name) { var k := SpanOf(a, name); WithSpan(b, name, k); }
      if Matches([Star] + b, name) { var k := SpanOf(b, name); WithSpan(a, name, k); }
    }
  }

  ghost predicate Agree(a: Option<seq<Term>>, cs: Option<seq<Chunk>>) {
    && (a.None? <==> cs.None?)
    && (a.Some? ==> SameMatches(a.value, TermsOf(cs.value)))
  }

  /** The chunks say the same as the grammar: malformed or not, and what matches. */
  lemma {:induction false} ChunksParse(p: Bytes)
    ensures Agree(Parse(p, false), Chunks(p))
    decreases |p|
  {
    hide Parse, Matches, SameMatches, Chunks, SkipStars, ScanEnd, Join;
    if p == [] {
      EmptyAgrees();
    } else {
      var q := SkipStars(p);
      var i := ScanEnd(q, false);
      ChunkSplit(q);
      JoinIs(Parse(q[..i], true), Parse(q[i..], false));
      ChunksNext(p);
      ChunksParse(q[i..]);
      Stripped(p);
      if Parse(q[..i], true).Some? && Chunks(q[i..]).Some? {
        ChunkAgrees(p, q, Parse(q[..i], true).value, Parse(q[i..], false).value, Chunks(q[i..]).value);
      }
    }
  }

  lemma JoinIs(a: Option<seq<Term>>, b: Option<seq<Term>>)
    ensures Join(a, b) == if a.None? || b.None? then None else Some(a.value + b.value)
  {
  }

  lemma Stripped(p: Bytes)
    requires p != []
    ensures var q := SkipStars(p);
            && (Parse(p, false).None? <==> Parse(q, false).None?)
            && (Parse(p, false).Some? ==> SameMatches(Parse(p, false).value, Front(|q| < |p|) + Parse(q, false).value))
  {
    if p[0] == STAR {
      ManyStars(p);
    } else {
      NoStarSkipped(p);
      hide Parse, Matches;
      if Parse(p, false).Some? { assert [] + Parse(p, false).value == Parse(p, false).value; }
    }
  }

  lemma NoStarSkipped(p: Bytes)
    requires p != [] && p[0] != STAR
    ensures SkipStars(p) == p
  {
  }

  lemma EmptyAgrees()
    ensures Agree(Parse([], false), Chunks([]))
  {
  }

  lemma ChunkAgrees(p: Bytes, q: Bytes, a: seq<Term>, b: seq<Term>, cs: seq<Chunk>)
    requires SameMatches(b, TermsOf(cs))
    requires Parse(p, false).Some? && SameMatches(Parse(p, false).value, Front(|q| < |p|) + (a + b))
    ensures SameMatches(Parse(p, false).value, TermsOf([Chunk(|q| < |p|, a)] + cs))
  {
    hide Matches, Parse, TermsOf;
    var c := Chunk(|q| < |p|, a);
    TermsNext(c, cs);
    SameBehind(a, b, TermsOf(cs));
    SameFront(c.star, a + b, a + TermsOf(cs));
  }

  lemma TermsNext(c: Chunk, cs: seq<Chunk>)
    ensures TermsOf([c] + cs) == Front(c.star) + (c.terms + TermsOf(cs))
  {
    assert ([c] + cs)[1..] == cs && ([c] + cs)[0] == c;
    assert Front(c.star) + c.terms + TermsOf(cs) == Front(c.star) + (c.terms + TermsOf(cs));
  }

  lemma SameFront(star: bool, b: seq<Term>, c: seq<Term>)
    requires SameMatches(b, c)
    ensures SameMatches(Front(star) + b, Front(star) + c)
  {
    hide Matches;
    if star {
      StarFront(b, c);
    } else {
      assert [] + b == b && [] + c == c;
    }
  }

  lemma {:induction false} SameBehind(a: seq<Term>, b: seq<Term>, c: seq<Term>)
    requires SameMatches(b, c)
    ensures SameMatches(a + b, a + c)
    decreases |a|
  {
    if a == [] {
      assert [] + b == b && [] + c == c;
    } else {
      SameBehind(a[1..], b, c);
      hide SameMatches;
      SameFirst(a[0], a[1..] + b, a[1..] + c);
      assert [a[0]] + (a[1..] + b) == a + b && [a[0]] + (a[1..] + c) == a + c;
    }
  }

  lemma SameFirst(t: Term, b: seq<Term>, c: seq<Term>)
    requires SameMatches(b, c)
    ensures SameMatches([t] + b, [t] + c)
  {
    if t == Star {
      StarFront(b, c);
    } else {
      forall name ensures Matches([t] + b, name) <==> Matches([t] + c, name) {
        assert ([t] + b)[1..] == b && ([t] + c)[1..] == c;
      }
    }
  }

  // ------------------------------------------------------------------- soundness

  /** Terms without stars match what they take and what the rest matches. */
  lemma {:induction false} FixedMatches(terms: seq<Term>, rest: seq<Term>, s: Bytes)
    requires NoStars(terms)
    ensures Matches(terms + rest, s) <==> Fixed(terms, s).Some? && Matches(rest, Fixed(terms, s).value)
    decreases |terms|
  {
    if terms == [] {
      assert terms + rest == rest;
    } else {
      assert (terms + rest)[0] == terms[0] && (terms + rest)[1..] == terms[1..] + rest;
      hide Take;
      if Take(terms[0], s).Some? { FixedMatches(terms[1..], rest, Take(terms[0], s).value); }
    }
  }

  /** Where a place was found: behind a span without slash, which only a star allows. */
  lemma {:induction false} PlaceIs(terms: seq<Term>, star: bool, last: bool, name: Bytes) returns (a: nat)
    requires Place(terms, star, last, name).Some?
    ensures a <= |name| && NoSlash(name[..a]) && (a > 0 ==> star)
    ensures Fixed(terms, name[a..]) == Place(terms, star, last, name)
    ensures last ==> Place(terms, star, last, name).value == []
    decreases |name|
  {
    hide Fixed;
    var t := Fixed(terms, name);
    if t.Some? && (t.value == [] || !last) {
      a := 0;
      assert name[0..] == name;
    } else {
      var b := PlaceIs(terms, star, last, name[1..]);
      a := b + 1;
      assert name[..a] == [name[0]] + name[1..][..b] && name[1..][b..] == name[a..];
    }
  }

  /** What the matcher accepts, the grammar accepts: for every pattern and name. */
  lemma {:induction false} Sound(cs: seq<Chunk>, name: Bytes)
    requires Proper(cs) && Greedy(cs, name)
    ensures Matches(TermsOf(cs), name)
    decreases |cs|
  {
    if cs != [] {
      var c := cs[0];
      assert Proper(cs[1..]) && NoStars(c.terms);
      hide Matches, Proper;
      if c.star && c.terms == [] {
        LastStar(cs, name);
      } else {
        var t := Place(c.terms, c.star, |cs| == 1, name).value;
        Sound(cs[1..], t);
        var a := PlaceIs(c.terms, c.star, |cs| == 1, name);
        FixedMatches(c.terms, TermsOf(cs[1..]), name[a..]);
        FrontMatches(cs, name, a);
      }
    }
  }

  lemma LastStar(cs: seq<Chunk>, name: Bytes)
    requires cs != [] && cs[0].star && cs[0].terms == [] && Proper(cs)
    ensures Matches(TermsOf(cs), name) <==> NoSlash(name)
  {
    assert cs[1..] == [] && TermsOf(cs) == [Star] + [];
    if NoSlash(name) {
      assert name[..|name|] == name && name[|name|..] == [];
      assert Matches([], []);
      WithSpan([], name, |name|);
    }
    if Matches([Star] + [], name) {
      var k := SpanOf([], name);
      assert name[k..] == [] && k == |name| && name[..k] == name;
    }
  }

  lemma FrontMatches(cs: seq<Chunk>, name: Bytes, a: nat)
    requires cs != [] && a <= |name| && NoSlash(name[..a]) && (a > 0 ==> cs[0].star)
    requires Matches(cs[0].terms + TermsOf(cs[1..]), name[a..])
    ensures Matches(TermsOf(cs), name)
  {
    hide Matches;
    var rest := cs[0].terms + TermsOf(cs[1..]);
    assert TermsOf(cs) == Front(cs[0].star) + rest;
    if cs[0].star {
      WithSpan(rest, name, a);
    } else {
      assert [] + rest == rest && name[0..] == name;
    }
  }

  // ---------------------------------------------------------------- completeness

  predicate Ascii(s: Bytes) { forall i :: 0 <= i < |s| ==> s[i] < 0x80 }

  /** The class does not match a slash. */
  predicate NoSlashClass(t: Term) { t.Class? ==> InRanges(t.ranges, SLASH) == t.negated }

  predicate NoSlashClasses(terms: seq<Term>) { forall i :: 0 <= i < |terms| ==> NoSlashClass(terms[i]) }

  /** Every term takes one byte. */
  predicate Bytewise(terms: seq<Term>, name: Bytes) { Ascii(name) || forall i :: 0 <= i < |terms| ==> terms[i].Lit? }

  lemma AsciiTake(t: Term, s: Bytes)
    requires Ascii(s) || t.Lit?
    ensures Take(t, s).Some? ==> Take(t, s).value == s[1..]
    ensures Take(t, s).Some? && s[0] == SLASH && NoSlashClass(t) ==> t == Lit(SLASH)
    ensures t == Lit(SLASH) && Take(t, s).Some? ==> s[0] == SLASH
  {
    hide InRanges;
  }

  /** Then the j-th term takes the j-th byte. */
  lemma {:induction false} FixedAt(terms: seq<Term>, s: Bytes, j: nat)
    requires Bytewise(terms, s) && Fixed(terms, s).Some?
    ensures |terms| <= |s| && Fixed(terms, s).value == s[|terms|..]
    ensures j < |terms| ==> Take(terms[j], s[j..]).Some?
    decreases |terms|
  {
    if terms == [] {
      assert s[0..] == s;
    } else {
      AsciiTake(terms[0], s);
      hide Take;
      var k := if j > 0 then j - 1 else 0;
      FixedAt(terms[1..], s[1..], k);
      assert s[1..][|terms| - 1..] == s[|terms|..] && s[0..] == s;
      if 0 < j < |terms| {
        assert s[1..][j - 1..] == s[j..] && terms[1..][j - 1] == terms[j];
      }
    }
  }

  /** Where terms fit at two places behind a span without slash, they match no slash
      at the later one. */
  lemma {:induction false} LaterNoSlash(terms: seq<Term>, name: Bytes, a: nat, b: nat, j: nat)
    requires Bytewise(terms, name) && NoSlashClasses(terms) && a < b <= |name| && NoSlash(name[..b]) && j < |terms|
    requires Fixed(terms, name[a..]).Some? && Fixed(terms, name[b..]).Some?
    ensures b + j < |name| && name[b + j] != SLASH
  {
    hide Take, Fixed, NoSlashClass;
    FixedAt(terms, name[a..], j);
    FixedAt(terms, name[b..], j);
    assert name[a..][j..] == name[a + j..] && name[b..][j..] == name[b + j..];
    AsciiTake(terms[j], name[a + j..]);
    AsciiTake(terms[j], name[b + j..]);
    if a + j < b {
      assert name[a + j] == name[..b][a + j];
    } else {
      LaterNoSlash(terms, name, a, b, a + j - b);
    }
  }

  lemma FixedEnd(terms: seq<Term>, name: Bytes, a: nat)
    requires Bytewise(terms, name) && a <= |name| && Fixed(terms, name[a..]).Some?
    ensures a + |terms| <= |name| && Fixed(terms, name[a..]).value == name[a + |terms|..]
  {
    hide Fixed;
    assert Bytewise(terms, name[a..]);
    FixedAt(terms, name[a..], 0);
    assert name[a..][|terms|..] == name[a + |terms|..];
  }

  lemma GapNoSlash(terms: seq<Term>, name: Bytes, a: nat, b: nat)
    requires Bytewise(terms, name) && NoSlashClasses(terms) && a <= b <= |name| && NoSlash(name[..b])
    requires Fixed(terms, name[a..]).Some? && Fixed(terms, name[b..]).Some?
    ensures a + |terms| <= b + |terms| <= |name|
    ensures NoSlash(name[a + |terms|..b + |terms|])
    ensures Fixed(terms, name[a..]).value == name[a + |terms|..] && Fixed(terms, name[b..]).value == name[b + |terms|..]
  {
    hide Fixed, NoSlashClasses, Bytewise;
    FixedEnd(terms, name, a);
    FixedEnd(terms, name, b);
    var gap := name[a + |terms|..b + |terms|];
    forall i | 0 <= i < |gap| ensures gap[i] != SLASH {
      var x := a + |terms| + i;
      if x < b {
        assert name[x] == name[..b][x];
      } else {
        LaterNoSlash(terms, name, a, b, x - b);
      }
    }
  }

  /** A star takes in more bytes without slash. */
  lemma StarAbsorbs(rest: seq<Term>, gap: Bytes, s: Bytes)
    requires NoSlash(gap) && Matches([Star] + rest, s)
    ensures Matches([Star] + rest, gap + s)
  {
    hide Matches;
    var k := SpanOf(rest, s);
    assert (gap + s)[..|gap| + k] == gap + s[..k] && (gap + s)[|gap| + k..] == s[k..];
    WithSpan(rest, gap + s, |gap| + k);
  }

  /** The search finds a place at or before any that would do. */
  lemma {:induction false} PlaceFinds(terms: seq<Term>, star: bool, last: bool, name: Bytes, b: nat) returns (a: nat)
    requires b <= |name| && NoSlash(name[..b]) && (b > 0 ==> star)
    requires Fixed(terms, name[b..]).Some? && (last ==> Fixed(terms, name[b..]).value == [])
    ensures Place(terms, star, last, name).Some?
    ensures a <= b && Fixed(terms, name[a..]) == Place(terms, star, last, name)
    ensures last ==> Place(terms, star, last, name).value == []
    decreases |name|
  {
    hide Fixed;
    var t := Fixed(terms, name);
    assert name[0..] == name;
    if t.Some? && (t.value == [] || !last) {
      a := 0;
    } else {
      assert b > 0 && name[..b][0] == name[0];
      assert name[1..][b - 1..] == name[b..] && name[1..][..b - 1] == name[..b][1..];
      var c := PlaceFinds(terms, star, last, name[1..], b - 1);
      a := c + 1;
      assert name[1..][c..] == name[a..];
    }
  }

  /** A chunk behind a star and in front of another one has no class that matches a
      slash, and in a name with characters of several bytes it has literals only. */
  ghost predicate Simple(cs: seq<Chunk>, name: Bytes) {
    forall i :: 0 <= i < |cs| - 1 && cs[i].star ==> NoSlashClasses(cs[i].terms) && Bytewise(cs[i].terms, name)
  }

  /** For such patterns and names the matcher accepts what the grammar accepts: going
      for the leftmost place loses nothing. */
  lemma {:induction false} Complete(cs: seq<Chunk>, name: Bytes)
    requires Proper(cs) && Simple(cs, name) && Matches(TermsOf(cs), name)
    ensures Greedy(cs, name)
    decreases |cs|
  {
    hide Matches, Proper, Simple, Fixed, NoSlashClasses, Bytewise, Greedy, Place, TermsOf, NoStars;
    if cs == [] {
      NoTerms(name);
    } else {
      var c := cs[0];
      Split(cs, name);
      GreedyNext(cs, name);
      if c.star && c.terms == [] {
        LastStar(cs, name);
      } else {
        var b := FirstSpan(cs, name);
        FixedMatches(c.terms, TermsOf(cs[1..]), name[b..]);
        var s := Fixed(c.terms, name[b..]).value;
        if |cs| == 1 { NothingLeft(cs, s); }
        var a := PlaceFinds(c.terms, c.star, |cs| == 1, name, b);
        var gap := Gap(c.terms, name, a, b, |cs| == 1);
        RestMatches(cs, gap, s);
        SimpleRest(cs, name, a, gap + s);
        Complete(cs[1..], gap + s);
      }
    }
  }

  /** What the leftmost place leaves in front of what a later one leaves. */
  lemma Gap(terms: seq<Term>, name: Bytes, a: nat, b: nat, last: bool) returns (gap: Bytes)
    requires a <= b <= |name| && NoSlash(name[..b])
    requires Fixed(terms, name[a..]).Some? && Fixed(terms, name[b..]).Some?
    requires last ==> Fixed(terms, name[a..]).value == Fixed(terms, name[b..]).value == []
    requires a < b && !last ==> NoSlashClasses(terms) && Bytewise(terms, name)
    ensures NoSlash(gap) && Fixed(terms, name[a..]).value == gap + Fixed(terms, name[b..]).value
    ensures last ==> gap == []
  {
    hide Fixed, NoSlashClasses, Bytewise;
    if a < b && !last {
      GapNoSlash(terms, name, a, b);
      gap := name[a + |terms|..b + |terms|];
    } else {
      gap := [];
    }
  }

  /** Terms without stars leave a part of the end of the name. */
  lemma {:induction false} FixedSuffix(terms: seq<Term>, s: Bytes) returns (k: nat)
    requires Fixed(terms, s).Some?
    ensures k <= |s| && Fixed(terms, s).value == s[k..]
    decreases |terms|
  {
    if terms == [] {
      k := 0;
    } else {
      var n := if terms[0].Lit? then 1 else Size(s);
      var j := FixedSuffix(terms[1..], s[n..]);
      k := n + j;
      assert s[n..][j..] == s[k..];
    }
  }

  lemma SimpleRest(cs: seq<Chunk>, name: Bytes, a: nat, t: Bytes)
    requires cs != [] && Simple(cs, name) && a <= |name| && Fixed(cs[0].terms, name[a..]) == Some(t)
    ensures Simple(cs[1..], t)
  {
    hide Fixed, NoSlashClasses;
    var k := FixedSuffix(cs[0].terms, name[a..]);
    assert name[a..][k..] == name[a + k..] == t;
    assert Ascii(name) ==> Ascii(t);
  }

  lemma NoTerms(name: Bytes)
    ensures Matches(TermsOf([]), name) <==> Greedy([], name)
  {
  }

  lemma Split(cs: seq<Chunk>, name: Bytes)
    requires cs != [] && Proper(cs) && Simple(cs, name)
    ensures Proper(cs[1..]) && NoStars(cs[0].terms)
    ensures cs[0].star && |cs| > 1 ==> NoSlashClasses(cs[0].terms) && Bytewise(cs[0].terms, name)
  {
    hide NoStars, NoSlashClasses, Bytewise;
  }

  lemma GreedyNext(cs: seq<Chunk>, name: Bytes)
    requires cs != []
    ensures cs[0].star && cs[0].terms == [] ==> (Greedy(cs, name) <==> NoSlash(name))
    ensures !(cs[0].star && cs[0].terms == []) ==>
              var t := Place(cs[0].terms, cs[0].star, |cs| == 1, name);
              (Greedy(cs, name) <==> t.Some? && Greedy(cs[1..], t.value))
  {
    hide Place;
  }

  lemma NothingLeft(cs: seq<Chunk>, t: Bytes)
    requires |cs| == 1 && Matches(TermsOf(cs[1..]), t)
    ensures t == []
  {
    assert cs[1..] == [];
  }

  lemma FirstSpan(cs: seq<Chunk>, name: Bytes) returns (b: nat)
    requires cs != [] && Matches(TermsOf(cs), name)
    ensures b <= |name| && NoSlash(name[..b]) && (b > 0 ==> cs[0].star)
    ensures Matches(cs[0].terms + TermsOf(cs[1..]), name[b..])
  {
    hide Matches;
    var rest := cs[0].terms + TermsOf(cs[1..]);
    assert TermsOf(cs) == Front(cs[0].star) + rest;
    if cs[0].star {
      b := SpanOf(rest, name);
    } else {
      b := 0;
      assert [] + rest == rest && name[0..] == name;
    }
  }

  lemma RestMatches(cs: seq<Chunk>, gap: Bytes, s: Bytes)
    requires cs != [] && Proper(cs) && NoSlash(gap) && Matches(TermsOf(cs[1..]), s)
    requires |cs| == 1 ==> gap == []
    ensures Matches(TermsOf(cs[1..]), gap + s)
  {
    if |cs| > 1 {
      var ds := cs[1..];
      assert cs[1].star && ds[0] == cs[1];
      var rest := ds[0].terms + TermsOf(ds[1..]);
      assert TermsOf(ds) == [Star] + rest;
      StarAbsorbs(rest, gap, s);
    } else {
      assert gap + s == s;
    }
  }

  // ---------------------------------------------- where the greedy search loses

  const NOT_B := Class(true, [Range(98, 98)])
  const C := Lit(99)

  /** With a class that admits a slash the leftmost place can be wrong: the pattern
      *[^b]*c and the name x/c. */
  lemma LeftmostLoses()
    ensures var p: Bytes := [42, 91, 94, 98, 93, 42, 99];
            var name: Bytes := [120, 47, 99];
            && Parse(p, false) == Some([Star, NOT_B, Star, C]) && Matches([Star, NOT_B, Star, C], name)
            && Chunks(p) == Some([Chunk(true, [NOT_B]), Chunk(true, [C])])
            && !Greedy([Chunk(true, [NOT_B]), Chunk(true, [C])], name)
  {
    hide Matches, Greedy, TermsOf, Parse, Chunks;
    LosingParse([42, 91, 94, 98, 93, 42, 99]);
    LosingChunks([42, 91, 94, 98, 93, 42, 99]);
    GreedyRefuses([120, 47, 99]);
    GrammarAccepts([120, 47, 99]);
  }

  /** So it is in a name with a character of several bytes, of which a star may take a
      part: the pattern *?*? and the euro sign. */
  lemma LeftmostLosesBytes()
    ensures var p: Bytes := [42, 63, 42, 63];
            var name: Bytes := [226, 130, 172];
            && Parse(p, false) == Some([Star, Any, Star, Any]) && Matches([Star, Any, Star, Any], name)
            && Chunks(p) == Some([Chunk(true, [Any]), Chunk(true, [Any])])
            && !Greedy([Chunk(true, [Any]), Chunk(true, [Any])], name)
  {
    hide Matches, Greedy, Parse, Chunks;
    AnyParse([42, 63, 42, 63]);
    AnyChunks([42, 63, 42, 63]);
    AnyRefuses([226, 130, 172]);
    AnyAccepts([226, 130, 172]);
  }

  /** What Match answers there, where the grammar says otherwise. */
  method MatchLoses() returns (matched: bool, bad: bool, matched2: bool, bad2: bool)
    ensures !matched && !bad && Matches([Star, NOT_B, Star, C], [120, 47, 99])
    ensures !matched2 && !bad2 && Matches([Star, Any, Star, Any], [226, 130, 172])
  {
    hide Parse, Matches, Greedy, Chunks, Simple;
    LeftmostLoses();
    LeftmostLosesBytes();
    matched, bad := Match([42, 91, 94, 98, 93, 42, 99], [120, 47, 99]);
    matched2, bad2 := Match([42, 63, 42, 63], [226, 130, 172]);
  }

  lemma OneTerm(p: Bytes, chunk: bool, t: Term, n: nat, ts: seq<Term>, all: seq<Term>)
    requires p != [] && GetTerm(p, chunk) == Some((t, n)) && Parse(p[n..], chunk) == Some(ts) && all == [t] + ts
    ensures Parse(p, chunk) == Some(all)
  {
    hide GetTerm;
  }

  lemma NoTerm(p: Bytes, chunk: bool)
    ensures p == [] ==> Parse(p, chunk) == Some([])
  {
  }

  lemma ClassTerm(p: Bytes, chunk: bool)
    requires |p| >= 4 && p[0] == OPEN && p[1] == CARET && p[2] == 98 && p[3] == CLOSE
    ensures GetTerm(p, chunk) == Some((NOT_B, 4))
  {
    hide Rune, Width;
    var s := p[1..][1..];
    LetterB(s);
    hide GetRange;
    assert GetRanges(s[1..], false) == Some(([], 1));
    assert [Range(98, 98)] + [] == [Range(98, 98)];
    assert GetRanges(s, true) == Some(([Range(98, 98)], 2));
    assert GetClass(p[1..]) == Some((NOT_B, 3));
    hide GetClass;
  }

  lemma LetterB(s: Bytes)
    requires |s| >= 2 && s[0] == 98 && s[1] == CLOSE
    ensures GetRange(s) == Some((Range(98, 98), 1))
  {
    assert s[0..] == s && Width(s) == 1 && Rune(s) == 98;
  }

  /** Single terms that the patterns below consist of, whatever follows them. */
  lemma StarAt(p: Bytes)
    requires p != [] && p[0] == STAR
    ensures GetTerm(p, false) == Some((Star, 1))
  {
  }

  lemma LetterAt(p: Bytes, chunk: bool)
    requires p != [] && p[0] in {99, QUESTION}
    ensures GetTerm(p, chunk) == Some((if p[0] == 99 then C else Any, 1))
  {
    hide GetClass;
  }

  lemma LosingParse(p: Bytes)
    requires p == [42, 91, 94, 98, 93, 42, 99]
    ensures Parse(p, false) == Some([Star, NOT_B, Star, C])
  {
    hide Parse, GetTerm;
    var a, b := p[1..], p[5..];
    assert a[4..] == b;
    StarLetter(b, C);
    ClassTerm(a, false);
    OneTerm(a, false, NOT_B, 4, [Star, C], [NOT_B, Star, C]);
    StarAt(p);
    OneTerm(p, false, Star, 1, [NOT_B, Star, C], [Star, NOT_B, Star, C]);
  }

  lemma StarLetter(p: Bytes, t: Term)
    requires |p| == 2 && p[0] == STAR && p[1] in {99, QUESTION} && t == (if p[1] == 99 then C else Any)
    ensures Parse(p, false) == Some([Star, t])
  {
    hide Parse, GetTerm;
    var q := p[1..];
    NoTerm(q[1..], false);
    LetterAt(q, false);
    OneTerm(q, false, t, 1, [], [t]);
    StarAt(p);
    OneTerm(p, false, Star, 1, [t], [Star, t]);
  }

  lemma OneChunk(p: Bytes, i: nat, ts: seq<Term>, cs: seq<Chunk>, all: seq<Chunk>)
    requires p != [] && p[0] == STAR && p[1..] != [] && p[1..][0] != STAR && i == ScanEnd(p[1..], false)
    requires Parse(p[1..][..i], true) == Some(ts) && Chunks(p[1..][i..]) == Some(cs)
    requires all == [Chunk(true, ts)] + cs
    ensures Chunks(p) == Some(all)
  {
    hide Parse, ScanEnd;
    ChunksNext(p);
    assert SkipStars(p[1..]) == p[1..] && SkipStars(p) == p[1..];
  }

  lemma LosingChunks(p: Bytes)
    requires p == [42, 91, 94, 98, 93, 42, 99]
    ensures Chunks(p) == Some([Chunk(true, [NOT_B]), Chunk(true, [C])])
  {
    hide Parse, Chunks, ScanEnd, GetTerm;
    var q, r := p[1..], p[5..];
    assert q == [91, 94, 98, 93, 42, 99] && q[4..] == r;
    LastChunk(r, C);
    ClassEnd(q);
    var t := q[..4];
    ClassTerm(t, true);
    NoTerm(t[4..], true);
    OneTerm(t, true, NOT_B, 4, [], [NOT_B]);
    OneChunk(p, 4, [NOT_B], [Chunk(true, [C])], [Chunk(true, [NOT_B]), Chunk(true, [C])]);
  }

  /** A star and one byte that ends the pattern. */
  lemma LastChunk(p: Bytes, t: Term)
    requires |p| == 2 && p[0] == STAR && p[1] in {99, QUESTION} && t == (if p[1] == 99 then C else Any)
    ensures Chunks(p) == Some([Chunk(true, [t])])
  {
    hide Parse, Chunks, GetTerm, ScanEnd;
    var q := p[1..];
    assert q[1..] == [] && q[..1] == q;
    OneByte(q);
    NoTerm(q[1..], true);
    OneTerm(q, true, t, 1, [], [t]);
    NoChunks();
    OneChunk(p, 1, [t], [], [Chunk(true, [t])]);
  }

  lemma OneByte(q: Bytes)
    requires |q| == 1 && q[0] in {99, QUESTION}
    ensures ScanEnd(q, false) == 1 && GetTerm(q, true) == Some((if q[0] == 99 then C else Any, 1))
  {
    LetterAt(q, true);
    hide GetTerm;
    assert ScanEnd(q[1..], false) == 0;
  }

  lemma ClassEnd(q: Bytes)
    requires q == [91, 94, 98, 93, 42, 99]
    ensures ScanEnd(q, false) == 4
  {
    assert q[1..] == [94, 98, 93, 42, 99] && q[1..][1..] == [98, 93, 42, 99] && q[1..][1..][1..] == [93, 42, 99];
    assert q[1..][1..][1..][1..] == [42, 99] && ScanEnd(q[1..][1..][1..][1..], false) == 0;
    assert ScanEnd(q[1..][1..][1..], true) == 1;
    assert ScanEnd(q[1..][1..], true) == 2;
    assert ScanEnd(q[1..], true) == 3;
  }

  lemma AnyParse(p: Bytes)
    requires p == [42, 63, 42, 63]
    ensures Parse(p, false) == Some([Star, Any, Star, Any])
  {
    hide Parse, GetTerm;
    var a, b := p[1..], p[2..];
    assert a[1..] == b;
    StarLetter(b, Any);
    LetterAt(a, false);
    OneTerm(a, false, Any, 1, [Star, Any], [Any, Star, Any]);
    StarAt(p);
    OneTerm(p, false, Star, 1, [Any, Star, Any], [Star, Any, Star, Any]);
  }

  lemma AnyChunks(p: Bytes)
    requires p == [42, 63, 42, 63]
    ensures Chunks(p) == Some([Chunk(true, [Any]), Chunk(true, [Any])])
  {
    hide Parse, Chunks, ScanEnd, GetTerm;
    var q, r := p[1..], p[2..];
    assert q[1..] == r;
    LastChunk(r, Any);
    AnyEnd(q);
    var t := q[..1];
    LetterAt(t, true);
    NoTerm(t[1..], true);
    OneTerm(t, true, Any, 1, [], [Any]);
    OneChunk(p, 1, [Any], [Chunk(true, [Any])], [Chunk(true, [Any]), Chunk(true, [Any])]);
  }

  lemma AnyEnd(q: Bytes)
    requires |q| >= 2 && q[0] == QUESTION && q[1] == STAR
    ensures ScanEnd(q, false) == 1
  {
    assert ScanEnd(q[1..], false) == 0;
  }

  lemma Euro(name: Bytes)
    requires name == [226, 130, 172]
    ensures Size(name) == 3 && Size(name[1..]) == 1 && Size(name[1..][1..]) == 1
  {
  }

  lemma AnyTakes(s: Bytes)
    ensures s != [] && s[0] != SLASH ==> Fixed([Any], s) == Some(s[Size(s)..])
    ensures s == [] ==> Fixed([Any], s) == None && Place([Any], true, true, s) == None
  {
    assert [Any][1..] == [];
  }

  lemma AnyRefuses(name: Bytes)
    requires name == [226, 130, 172]
    ensures !Greedy([Chunk(true, [Any]), Chunk(true, [Any])], name)
  {
    var cs := [Chunk(true, [Any]), Chunk(true, [Any])];
    Euro(name);
    hide Greedy, Fixed, Size;
    AnyTakes(name);
    AnyTakes([]);
    GreedyNext(cs, name);
    GreedyNext(cs[1..], []);
    assert name[3..] == [] && cs[1..] == [Chunk(true, [Any])];
    assert Place([Any], true, false, name) == Some([]);
  }

  lemma AnyAccepts(name: Bytes)
    requires name == [226, 130, 172]
    ensures Matches([Star, Any, Star, Any], name)
  {
    hide Matches, Fixed, Size;
    Euro(name);
    var s, t := name[1..], name[1..][1..];
    assert s == [130, 172] && t == [172] && t[1..] == [] && t[0..] == t && t[..0] == [];
    AnyTakes(t);
    AnyTakes(s);
    Nothing();
    FixedMatches([Any], [], t);
    assert [Any] + [] == [Any] && [Star] + [Any] == [Star, Any];
    WithSpan([Any], t, 0);
    FixedMatches([Any], [Star, Any], s);
    assert [Any] + [Star, Any] == [Any, Star, Any] && [Star] + [Any, Star, Any] == [Star, Any, Star, Any];
    assert name[..1] == [226];
    WithSpan([Any, Star, Any], name, 1);
  }

  lemma Nothing()
    ensures Matches([], [])
  {
  }

  lemma GreedyRefuses(name: Bytes)
    requires name == [120, 47, 99]
    ensures !Greedy([Chunk(true, [NOT_B]), Chunk(true, [C])], name)
  {
    hide Greedy, Place, Fixed;
    var cs := [Chunk(true, [NOT_B]), Chunk(true, [C])];
    GreedyNext(cs, name);
    FirstPlace(name);
    assert cs[1..] == [Chunk(true, [C])] && name[1..] == [47, 99];
    GreedyNext([Chunk(true, [C])], [47, 99]);
    NoPlace([47, 99]);
  }

  lemma GrammarAccepts(name: Bytes)
    requires name == [120, 47, 99]
    ensures Matches([Star, NOT_B, Star, C], name)
  {
    hide Matches, Fixed;
    MatchesC([99]);
    TakesClass([47, 99]);
    assert [47, 99][1..] == [99];
    FixedMatches([NOT_B], [Star, C], [47, 99]);
    assert name[1..] == [47, 99] && name[..1] == [120];
    WithSpan([NOT_B] + [Star, C], name, 1);
    assert [Star] + ([NOT_B] + [Star, C]) == [Star, NOT_B, Star, C];
  }

  lemma FirstPlace(name: Bytes)
    requires name == [120, 47, 99]
    ensures Place([NOT_B], true, false, name) == Some(name[1..])
  {
    TakesClass(name);
  }

  lemma NoPlace(s: Bytes)
    requires s == [47, 99]
    ensures Place([C], true, true, s) == None
  {
  }

  lemma MatchesC(s: Bytes)
    requires s == [99]
    ensures Matches([Star, C], s)
  {
    assert s[1..] == [] && [C][1..] == [];
    assert Matches([C], s);
    assert s[0..] == s;
    WithSpan([C], s, 0);
    assert [Star] + [C] == [Star, C];
  }

  lemma TakesClass(s: Bytes)
    requires s != [] && s[0] in {120, 47}
    ensures Fixed([NOT_B], s) == Some(s[1..])
  {
    assert !InRanges([Range(98, 98)], Rune(s));
    assert [NOT_B][1..] == [];
  }

  // ------------------------------------------------------------------- the program

  /** The next chunk: whether a star stands in front of it, its bytes, and the rest. */
  method ScanChunk(pattern0: Bytes) returns (star: bool, chunk: Bytes, rest: Bytes)
    ensures var q := SkipStars(pattern0); star == (|q| < |pattern0|) && chunk == q[..ScanEnd(q, false)] && rest == q[ScanEnd(q, false)..]
  {
    hide ScanEnd;
    var pattern := pattern0;
    star := false;
    while pattern != [] && pattern[0] == STAR
      invariant SkipStars(pattern) == SkipStars(pattern0) && |pattern| <= |pattern0| && star == (|pattern| < |pattern0|)
    {
      pattern := pattern[1..];
      star := true;
    }
    assert SkipStars(pattern) == pattern;
    hide SkipStars;
    var inrange := false;
    var i := 0;
    assert pattern[0..] == pattern;
    while i < |pattern|
      invariant i <= |pattern| && ScanEnd(pattern, false) == i + ScanEnd(pattern[i..], inrange)
    {
      ScanStep(pattern, i, inrange);
      if pattern[i] == BACKSLASH {
        if i + 1 < |pattern| {
          i := i + 1;
        }
      } else if pattern[i] == OPEN {
        inrange := true;
      } else if pattern[i] == CLOSE {
        inrange := false;
      } else if pattern[i] == STAR && !inrange {
        return star, pattern[..i], pattern[i..];
      }
      i := i + 1;
    }
    NothingToScan(pattern, inrange);
    return star, pattern[..i], pattern[i..];
  }

  lemma NothingToScan(p: Bytes, inrange: bool)
    ensures ScanEnd(p[|p|..], inrange) == 0
  {
  }

  lemma ScanStep(p: Bytes, i: nat, inrange: bool)
    requires i < |p|
    ensures var n := ScanEnd(p[i..], inrange);
            if p[i] == BACKSLASH then n == (if i + 1 < |p| then 2 + ScanEnd(p[i + 2..], inrange) else 1 + ScanEnd(p[i + 1..], inrange))
            else if p[i] == OPEN then n == 1 + ScanEnd(p[i + 1..], true)
            else if p[i] == CLOSE then n == 1 + ScanEnd(p[i + 1..], false)
            else if p[i] == STAR && !inrange then n == 0
            else n == 1 + ScanEnd(p[i + 1..], inrange)
  {
    assert p[i..][1..] == p[i + 1..];
    if i + 1 < |p| { assert p[i..][2..] == p[i + 2..]; }
  }

  /** A possibly escaped character of a class. */
  method ReadEsc(chunk0: Bytes) returns (r: nat, nchunk: Bytes, bad: bool)
    ensures bad <==> GetEsc(chunk0).None?
    ensures !bad ==> GetEsc(chunk0) == Some((r, |chunk0| - |nchunk|)) && nchunk != [] && nchunk == chunk0[|chunk0| - |nchunk|..]
  {
    var chunk := chunk0;
    if chunk == [] || chunk[0] == DASH || chunk[0] == CLOSE {
      return 0, [], true;
    }
    if chunk[0] == BACKSLASH {
      chunk := chunk[1..];
      if chunk == [] {
        return 0, [], true;
      }
    }
    r := Rune(chunk);
    var n := Size(chunk);
    bad := Width(chunk) == 0;
    nchunk := chunk[n..];
    if nchunk == [] {
      bad := true;
    }
  }

  /** The class behind an opening bracket, and whether the rune r passes it. */
  method MatchClass(chunk0: Bytes, r: nat) returns (bad: bool, passes: bool, rest: Bytes)
    ensures bad <==> GetClass(chunk0).None?
    ensures !bad ==> rest == chunk0[GetClass(chunk0).value.1..]
    ensures !bad ==> passes == (InRanges(GetClass(chunk0).value.0.ranges, r) != GetClass(chunk0).value.0.negated)
  {
    hide GetRanges, InRanges;
    var chunk := chunk0;
    var negated := false;
    assert chunk0[0..] == chunk0;
    if chunk != [] && chunk[0] == CARET {
      negated := true;
      chunk := chunk[1..];
    }
    var found;
    bad, found, rest := MatchRanges(chunk, r);
    passes := found != negated;
    if !bad && negated {
      var n := GetRanges(chunk, true).value.1;
      assert chunk0[1..][n..] == chunk0[1 + n..];
    }
  }

  /** The ranges of a class up to its closing bracket, and whether r is in one. */
  method MatchRanges(chunk0: Bytes, r: nat) returns (bad: bool, found: bool, rest: Bytes)
    ensures bad <==> GetRanges(chunk0, true).None?
    ensures !bad ==> rest == chunk0[GetRanges(chunk0, true).value.1..] && found == InRanges(GetRanges(chunk0, true).value.0, r)
  {
    hide GetRanges, InRanges, GetEsc, RangesFrom;
    var chunk := chunk0;
    ghost var acc: seq<Range> := [];
    bad, rest := false, [];
    var nrange := 0;
    found := false;
    RangesStart(chunk0, r);
    while true
      invariant |chunk| <= |chunk0| && chunk == chunk0[|chunk0| - |chunk|..] && nrange == |acc|
      invariant RangesFrom(chunk0, acc, chunk)
      invariant found == InRanges(acc, r)
      decreases |chunk|
    {
      if chunk != [] && chunk[0] == CLOSE && nrange > 0 {
        RangesClosed(chunk0, acc, chunk);
        rest := chunk[1..];
        return;
      }
      ghost var here := chunk;
      var lo, hi;
      lo, chunk, bad := ReadEsc(chunk);
      if bad {
        RangesBad(chunk0, acc, here);
        return;
      }
      hi := lo;
      if chunk[0] == DASH {
        DashRest(here, chunk);
        hi, chunk, bad := ReadEsc(chunk[1..]);
        if bad {
          RangesBad(chunk0, acc, here);
          return;
        }
      }
      RangesMore(chunk0, acc, here, Range(lo, hi), |here| - |chunk|);
      MoreInRanges(acc, Range(lo, hi), r);
      if lo <= r <= hi {
        found := true;
      }
      acc := acc + [Range(lo, hi)];
      nrange := nrange + 1;
    }
  }

  lemma DashRest(here: Bytes, chunk: Bytes)
    requires chunk != [] && |chunk| < |here| && chunk == here[|here| - |chunk|..]
    ensures here[|here| - |chunk|..] == chunk && here[|here| - |chunk| + 1..] == chunk[1..]
  {
  }

  lemma RangesStart(q0: Bytes, r: nat)
    ensures RangesFrom(q0, [], q0) && !InRanges([], r)
  {
    hide GetRange;
    if GetRanges(q0, true).Some? { assert [] + GetRanges(q0, true).value.0 == GetRanges(q0, true).value.0; }
  }

  lemma RangesBad(q0: Bytes, acc: seq<Range>, chunk: Bytes)
    requires RangesFrom(q0, acc, chunk) && GetRange(chunk).None? && (chunk == [] || chunk[0] != CLOSE || acc == [])
    ensures GetRanges(q0, true).None?
  {
    hide GetRange;
  }

  /** The ranges acc have been read, chunk is left. */
  ghost predicate RangesFrom(q0: Bytes, acc: seq<Range>, chunk: Bytes) {
    && |chunk| <= |q0|
    && (GetRanges(q0, true).None? <==> GetRanges(chunk, acc == []).None?)
    && (GetRanges(q0, true).Some? ==>
          GetRanges(q0, true).value == (acc + GetRanges(chunk, acc == []).value.0, |q0| - |chunk| + GetRanges(chunk, acc == []).value.1))
  }

  lemma RangesClosed(q0: Bytes, acc: seq<Range>, chunk: Bytes)
    requires RangesFrom(q0, acc, chunk) && chunk != [] && chunk[0] == CLOSE && acc != []
    ensures GetRanges(q0, true) == Some((acc, |q0| - |chunk| + 1))
  {
    assert acc + [] == acc;
  }

  lemma RangesMore(q0: Bytes, acc: seq<Range>, chunk: Bytes, range: Range, n: nat)
    requires RangesFrom(q0, acc, chunk) && GetRange(chunk) == Some((range, n)) && (chunk[0] != CLOSE || acc == [])
    ensures RangesFrom(q0, acc + [range], chunk[n..])
  {
    hide GetRange;
    var more := GetRanges(chunk[n..], false);
    assert acc + [range] != [];
    if more.Some? { assert acc + ([range] + more.value.0) == (acc + [range]) + more.value.0; }
  }

  lemma MoreInRanges(acc: seq<Range>, range: Range, r: nat)
    ensures InRanges(acc + [range], r) <==> InRanges(acc, r) || range.lo <= r <= range.hi
  {
    var more := acc + [range];
    if i :| 0 <= i < |acc| && acc[i].lo <= r <= acc[i].hi { assert more[i].lo <= r <= more[i].hi; }
    if range.lo <= r <= range.hi { assert more[|acc|].lo <= r <= more[|acc|].hi; }
  }

  /** The chunk against the beginning of s: it goes on reading the chunk after the match
      has failed, so a malformed chunk is found whatever s is. */
  method MatchChunk(chunk0: Bytes, s0: Bytes) returns (rest: Bytes, ok: bool, bad: bool)
    ensures bad <==> Parse(chunk0, true).None?
    ensures !bad ==> (ok <==> Fixed(Parse(chunk0, true).value, s0).Some?)
    ensures !bad && ok ==> Fixed(Parse(chunk0, true).value, s0) == Some(rest)
    ensures bad ==> !ok
  {
    hide Parse, Fixed, Take, GetClass, ChunkFrom;
    var chunk, s, failed := chunk0, s0, false;
    ChunkStart(chunk0, s0);
    while chunk != []
      invariant ChunkFrom(chunk0, s0, chunk, s, failed)
      decreases |chunk|
    {
      if !failed && s == [] {
        failed := true;
        EmptyFails(chunk0, s0, chunk);
      }
      ghost var here, term, left, lost := chunk, Any, s, failed;
      if chunk[0] == OPEN {
        var r := 0;
        if !failed {
          r := Rune(s);
        }
        var isBad, passes, more := MatchClass(chunk[1..], r);
        if isBad {
          BadTerm(chunk0, s0, chunk, s, failed);
          return [], false, true;
        }
        term := GetClass(chunk[1..]).value.0;
        ClassAfter(chunk, more);
        if !failed {
          ClassTake(term, s, passes);
          s := s[Size(s)..];
        }
        chunk := more;
        if !passes {
          failed := true;
        }
      } else if chunk[0] == QUESTION {
        AnyTake(s);
        if !failed {
          if s[0] == SLASH {
            failed := true;
          }
          s := s[Size(s)..];
        }
        chunk := chunk[1..];
      } else {
        if chunk[0] == BACKSLASH {
          chunk := chunk[1..];
          if chunk == [] {
            BadTerm(chunk0, s0, here, s, failed);
            return [], false, true;
          }
        }
        term := Lit(chunk[0]);
        LitTake(chunk[0], s);
        if !failed {
          if chunk[0] != s[0] {
            failed := true;
          }
          s := s[1..];
        }
        chunk := chunk[1..];
      }
      TermDone(chunk0, s0, here, left, lost, term, chunk, s, failed);
    }
    ChunkDone(chunk0, s0, s, failed);
    if failed {
      return [], false, false;
    }
    return s, true, false;
  }

  /** What is left of the chunk and of s says the same as the beginning. */
  ghost predicate ChunkFrom(chunk0: Bytes, s0: Bytes, chunk: Bytes, s: Bytes, failed: bool) {
    && (Parse(chunk0, true).None? <==> Parse(chunk, true).None?)
    && (Parse(chunk0, true).Some? ==>
          Fixed(Parse(chunk0, true).value, s0) == if failed then None else Fixed(Parse(chunk, true).value, s))
  }

  lemma ChunkStart(chunk0: Bytes, s0: Bytes)
    ensures ChunkFrom(chunk0, s0, chunk0, s0, false)
  {
  }

  lemma ChunkDone(chunk0: Bytes, s0: Bytes, s: Bytes, failed: bool)
    requires ChunkFrom(chunk0, s0, [], s, failed)
    ensures Parse(chunk0, true).Some? && Fixed(Parse(chunk0, true).value, s0) == if failed then None else Some(s)
  {
  }

  lemma EmptyFails(chunk0: Bytes, s0: Bytes, chunk: Bytes)
    requires ChunkFrom(chunk0, s0, chunk, [], false) && chunk != []
    ensures ChunkFrom(chunk0, s0, chunk, [], true)
  {
    if Parse(chunk, true).Some? { ChunkNoStars(chunk); }
    hide GetTerm;
  }

  lemma BadTerm(chunk0: Bytes, s0: Bytes, chunk: Bytes, s: Bytes, failed: bool)
    requires ChunkFrom(chunk0, s0, chunk, s, failed) && chunk != [] && GetTerm(chunk, true).None?
    ensures Parse(chunk0, true).None?
  {
    hide GetTerm;
  }

  lemma TermDone(chunk0: Bytes, s0: Bytes, chunk: Bytes, left: Bytes, lost: bool, term: Term, chunk': Bytes, s': Bytes, failed: bool)
    requires chunk != [] && ChunkFrom(chunk0, s0, chunk, left, lost)
    requires |chunk'| < |chunk| && GetTerm(chunk, true) == Some((term, |chunk| - |chunk'|)) && chunk' == chunk[|chunk| - |chunk'|..]
    requires if lost then failed else Take(term, left) == if failed then None else Some(s')
    ensures ChunkFrom(chunk0, s0, chunk', s', failed)
  {
    hide GetTerm, Take;
    var more := Parse(chunk', true);
    if more.Some? {
      assert ([term] + more.value)[0] == term && ([term] + more.value)[1..] == more.value;
    }
  }

  lemma ClassAfter(chunk: Bytes, more: Bytes)
    requires chunk != [] && chunk[0] == OPEN && GetClass(chunk[1..]).Some? && more == chunk[1..][GetClass(chunk[1..]).value.1..]
    ensures |more| < |chunk| && more == chunk[|chunk| - |more|..]
    ensures GetTerm(chunk, true) == Some((GetClass(chunk[1..]).value.0, |chunk| - |more|))
  {
    hide GetClass;
  }

  lemma ClassTake(term: Term, s: Bytes, passes: bool)
    requires term.Class? && (s != [] ==> passes == (InRanges(term.ranges, Rune(s)) != term.negated))
    ensures s != [] ==> Take(term, s) == if passes then Some(s[Size(s)..]) else None
  {
    hide InRanges, Rune;
  }

  lemma AnyTake(s: Bytes)
    ensures s != [] ==> Take(Any, s) == if s[0] == SLASH then None else Some(s[Size(s)..])
  {
  }

  lemma LitTake(b: Byte, s: Bytes)
    ensures s != [] ==> Take(Lit(b), s) == if s[0] == b then Some(s[1..]) else None
  {
  }

  /** Whether the name matches the pattern, or whether the pattern is malformed. */
  method Match(pattern0: Bytes, name0: Bytes) returns (matched: bool, bad: bool)
    ensures bad <==> Parse(pattern0, false).None?
    ensures bad ==> !matched
    ensures !bad ==> Chunks(pattern0).Some? && matched == Greedy(Chunks(pattern0).value, name0)
    ensures !bad && matched ==> Matches(Parse(pattern0, false).value, name0)
    ensures !bad && Simple(Chunks(pattern0).value, name0) ==> (matched <==> Matches(Parse(pattern0, false).value, name0))
  {
    hide Parse, Matches, Greedy, Chunks, Fixed, Place, TermsOf, Simple, Proper, SameMatches;
    matched, bad := MatchChunks(pattern0, name0);
    ChunksParse(pattern0);
    if !bad {
      Decides(pattern0, name0);
    }
  }

  lemma Decides(p: Bytes, name: Bytes)
    requires Parse(p, false).Some? && Chunks(p).Some? && SameMatches(Parse(p, false).value, TermsOf(Chunks(p).value))
    ensures Greedy(Chunks(p).value, name) ==> Matches(Parse(p, false).value, name)
    ensures Simple(Chunks(p).value, name) ==> (Greedy(Chunks(p).value, name) <==> Matches(Parse(p, false).value, name))
  {
    hide Parse, Matches, Greedy, Chunks, Simple, Proper, TermsOf;
    ChunksProper(p);
    if Greedy(Chunks(p).value, name) { Sound(Chunks(p).value, name); }
    if Simple(Chunks(p).value, name) && Matches(Parse(p, false).value, name) { Complete(Chunks(p).value, name); }
  }

  method MatchChunks(pattern0: Bytes, name0: Bytes) returns (matched: bool, bad: bool)
    ensures bad <==> Chunks(pattern0).None?
    ensures !bad ==> matched == Greedy(Chunks(pattern0).value, name0)
    ensures bad ==> !matched
  {
    hide Parse, Greedy, Chunks, Fixed, Place, SkipStars, ScanEnd, From;
    var pattern, name := pattern0, name0;
    FromStart(pattern, name);
    while pattern != []
      invariant From(pattern0, name0, pattern, name)
      decreases |pattern|
    {
      ghost var here := pattern;
      var star, chunk;
      ChunksNext(pattern);
      star, chunk, pattern := ScanChunk(pattern);
      if star && chunk == [] {
        TrailingStar(pattern0, name0, here, star, chunk, pattern, name);
        return SLASH !in name, false;
      }
      var t, ok, isBad := MatchChunk(chunk, name);
      if isBad {
        BadChunk(pattern0, name0, here, star, chunk, pattern, name);
        return false, true;
      }
      NotTrailing(here, star, chunk);
      RestChunks(pattern);
      PlaceStep(Parse(chunk, true).value, star, pattern == [], name);
      if ok && (t == [] || pattern != []) {
        PlacedHere(pattern0, name0, here, star, chunk, pattern, name, t);
        name := t;
      } else {
        var placed := false;
        if star {
          placed, t := SkipAndMatch(chunk, pattern == [], name);
        } else {
          NoSkip(Parse(chunk, true).value, pattern == [], name);
        }
        if placed {
          PlacedHere(pattern0, name0, here, star, chunk, pattern, name, t);
          name := t;
        } else {
          var restBad := CheckRest(pattern);
          NotPlaced(pattern0, name0, here, star, chunk, pattern, name, restBad);
          return false, restBad;
        }
      }
    }
    FromEnd(pattern0, name0, name);
    return name == [], false;
  }

  /** Before the answer no: the rest of the pattern is still checked. */
  method CheckRest(pattern0: Bytes) returns (bad: bool)
    ensures bad <==> Chunks(pattern0).None?
  {
    hide Parse, Chunks, Fixed, SkipStars, ScanEnd;
    var pattern := pattern0;
    bad := false;
    NoChunks();
    while pattern != []
      invariant Chunks(pattern0).None? <==> Chunks(pattern).None?
      decreases |pattern|
    {
      ChunksNext(pattern);
      var star, chunk;
      star, chunk, pattern := ScanChunk(pattern);
      var t, ok, isBad := MatchChunk(chunk, []);
      if isBad {
        return true;
      }
    }
  }

  /** The places behind the first, which a star may skip to. */
  method SkipAndMatch(chunk: Bytes, last: bool, name: Bytes) returns (placed: bool, t: Bytes)
    requires Parse(chunk, true).Some?
    requires var f := Fixed(Parse(chunk, true).value, name); !(f.Some? && (f.value == [] || !last))
    ensures Place(Parse(chunk, true).value, true, last, name) == if placed then Some(t) else None
  {
    hide Parse, Fixed, Place;
    ghost var terms := Parse(chunk, true).value;
    var i := 0;
    assert name[0..] == name;
    while i < |name| && name[i] != SLASH
      invariant i <= |name| && Place(terms, true, last, name) == Place(terms, true, last, name[i..])
      invariant var f := Fixed(terms, name[i..]); !(f.Some? && (f.value == [] || !last))
    {
      PlaceStep(terms, true, last, name[i..]);
      assert name[i..][1..] == name[i + 1..];
      var ok, isBad;
      t, ok, isBad := MatchChunk(chunk, name[i + 1..]);
      if ok {
        if !(last && t != []) {
          PlaceStep(terms, true, last, name[i + 1..]);
          return true, t;
        }
      }
      i := i + 1;
    }
    PlaceStep(terms, true, last, name[i..]);
    return false, [];
  }

  lemma PlaceStep(terms: seq<Term>, star: bool, last: bool, name: Bytes)
    ensures var t := Fixed(terms, name);
            Place(terms, star, last, name) == if t.Some? && (t.value == [] || !last) then t
                                              else if star && name != [] && name[0] != SLASH then Place(terms, star, last, name[1..]) else None
  {
    hide Fixed;
  }

  lemma NoSkip(terms: seq<Term>, last: bool, name: Bytes)
    requires var f := Fixed(terms, name); !(f.Some? && (f.value == [] || !last))
    ensures Place(terms, false, last, name) == None
  {
    PlaceStep(terms, false, last, name);
    hide Fixed, Place;
  }

  /** What is left of the pattern and of the name says the same as the beginning. */
  ghost predicate From(pattern0: Bytes, name0: Bytes, pattern: Bytes, name: Bytes) {
    && (Chunks(pattern0).None? <==> Chunks(pattern).None?)
    && (Chunks(pattern0).Some? ==> (Greedy(Chunks(pattern0).value, name0) <==> Greedy(Chunks(pattern).value, name)))
  }

  lemma FromStart(pattern: Bytes, name: Bytes)
    ensures From(pattern, name, pattern, name)
  {
  }

  lemma FromEnd(pattern0: Bytes, name0: Bytes, name: Bytes)
    requires From(pattern0, name0, [], name)
    ensures Chunks(pattern0).Some? && (Greedy(Chunks(pattern0).value, name0) <==> name == [])
  {
  }

  /** A chunk is empty only behind a star at the end of the pattern. */
  lemma TrailingStar(pattern0: Bytes, name0: Bytes, pattern: Bytes, star: bool, chunk: Bytes, rest: Bytes, name: Bytes)
    requires From(pattern0, name0, pattern, name) && Scanned(pattern, star, chunk, rest) && star && chunk == []
    ensures Chunks(pattern0).Some? && (Greedy(Chunks(pattern0).value, name0) <==> NoSlash(name))
  {
    hide Scanned, Greedy, Chunks, Parse;
    EmptyIsLast(pattern, star, chunk, rest);
    ScannedChunks(pattern, star, chunk, rest);
    NoChunks();
    EmptyParse();
    assert [Chunk(true, [])] + [] == [Chunk(true, [])];
    GreedyNext([Chunk(true, [])], name);
  }

  lemma EmptyParse()
    ensures Parse([], true) == Some([])
  {
  }

  lemma EmptyIsLast(pattern: Bytes, star: bool, chunk: Bytes, rest: Bytes)
    requires Scanned(pattern, star, chunk, rest) && chunk == []
    ensures rest == []
  {
    hide SkipStars;
    ScanStops(SkipStars(pattern));
    hide ScanEnd;
  }

  lemma BadChunk(pattern0: Bytes, name0: Bytes, pattern: Bytes, star: bool, chunk: Bytes, rest: Bytes, name: Bytes)
    requires From(pattern0, name0, pattern, name) && Scanned(pattern, star, chunk, rest) && Parse(chunk, true).None?
    ensures Chunks(pattern0).None?
  {
    hide Scanned, Greedy, Chunks, Parse;
    ScannedChunks(pattern, star, chunk, rest);
  }

  lemma NotTrailing(pattern: Bytes, star: bool, chunk: Bytes)
    requires Parse(chunk, true).Some? && !(star && chunk == [])
    ensures !(star && Parse(chunk, true).value == [])
  {
    ChunkNoStars(chunk);
    hide Parse;
  }

  lemma RestChunks(pattern: Bytes)
    ensures Chunks(pattern).Some? ==> (Chunks(pattern).value == [] <==> pattern == [])
  {
    NoChunks();
    if Chunks(pattern).Some? { ChunksProper(pattern); }
    hide Chunks, Proper;
  }

  /** star, chunk and rest are what the scan makes of the pattern. */
  predicate Scanned(pattern: Bytes, star: bool, chunk: Bytes, rest: Bytes) {
    var q := SkipStars(pattern);
    pattern != [] && star == (|q| < |pattern|) && chunk == q[..ScanEnd(q, false)] && rest == q[ScanEnd(q, false)..]
  }

  lemma ScannedChunks(pattern: Bytes, star: bool, chunk: Bytes, rest: Bytes)
    requires Scanned(pattern, star, chunk, rest)
    ensures Parse(chunk, true).None? || Chunks(rest).None? ==> Chunks(pattern).None?
    ensures Parse(chunk, true).Some? && Chunks(rest).Some? ==>
              Chunks(pattern) == Some([Chunk(star, Parse(chunk, true).value)] + Chunks(rest).value)
  {
    hide ScanEnd, SkipStars, Chunks, Parse;
    ChunksNext(pattern);
  }

  lemma GreedyPlace(c: Chunk, cs: seq<Chunk>, name: Bytes)
    requires !(c.star && c.terms == [])
    ensures var t := Place(c.terms, c.star, cs == [], name);
            Greedy([c] + cs, name) <==> t.Some? && Greedy(cs, t.value)
  {
    hide Greedy, Place;
    var ds := [c] + cs;
    assert ds[0] == c && ds[1..] == cs && (|ds| == 1 <==> cs == []);
    GreedyNext(ds, name);
  }

  lemma PlacedHere(pattern0: Bytes, name0: Bytes, pattern: Bytes, star: bool, chunk: Bytes, rest: Bytes, name: Bytes, t: Bytes)
    requires From(pattern0, name0, pattern, name) && Scanned(pattern, star, chunk, rest)
    requires Parse(chunk, true).Some? && !(star && Parse(chunk, true).value == [])
    requires Chunks(rest).Some? ==> (Chunks(rest).value == [] <==> rest == [])
    requires Place(Parse(chunk, true).value, star, rest == [], name) == Some(t)
    ensures From(pattern0, name0, rest, t)
  {
    hide Scanned, Greedy, Chunks, Parse, Place;
    ScannedChunks(pattern, star, chunk, rest);
    if Chunks(rest).Some? { GreedyPlace(Chunk(star, Parse(chunk, true).value), Chunks(rest).value, name); }
  }

  lemma NotPlaced(pattern0: Bytes, name0: Bytes, pattern: Bytes, star: bool, chunk: Bytes, rest: Bytes, name: Bytes, restBad: bool)
    requires From(pattern0, name0, pattern, name) && Scanned(pattern, star, chunk, rest)
    requires Parse(chunk, true).Some? && !(star && Parse(chunk, true).value == [])
    requires Chunks(rest).Some? ==> (Chunks(rest).value == [] <==> rest == [])
    requires Place(Parse(chunk, true).value, star, rest == [], name) == None && restBad == Chunks(rest).None?
    ensures restBad <==> Chunks(pattern0).None?
    ensures !restBad ==> !Greedy(Chunks(pattern0).value, name0)
  {
    hide Scanned, Greedy, Chunks, Parse, Place;
    ScannedChunks(pattern, star, chunk, rest);
    if Chunks(rest).Some? { GreedyPlace(Chunk(star, Parse(chunk, true).value), Chunks(rest).value, name); }
  }
}
