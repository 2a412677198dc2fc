/** Shell patterns: the grammar of a whole pattern, what it matches, and how a pattern
    falls into chunks between its stars. */
module PathPattern {

  type Byte = x: nat | x < 256
  type Bytes = seq<Byte>

  const STAR: Byte := 42
  const DASH: Byte := 45
  const SLASH: Byte := 47
  const QUESTION: Byte := 63
  const OPEN: Byte := 91
  const BACKSLASH: Byte := 92
  const CLOSE: Byte := 93
  const CARET: Byte := 94

  const RUNE_ERROR: nat := 0xFFFD

  datatype Option<T> = None | Some(value: T)

  // ------------------------------------------------------------------------ runes

  predicate Cont(s: Bytes, i: nat, lo: nat, hi: nat) { i < |s| && lo <= s[i] <= hi }

  /** How many bytes the character at the start of s has; 0 where its bytes are not
      well-formed (table 3-7 of the Unicode Standard). */
  function Width(s: Bytes): (n: nat)
    ensures n <= 4 && n <= |s|
  {
    if s == [] then 0
    else if s[0] < 0x80 then 1
    else if 0xC2 <= s[0] <= 0xDF && Cont(s, 1, 0x80, 0xBF) then 2
    else if s[0] == 0xE0 && Cont(s, 1, 0xA0, 0xBF) && Cont(s, 2, 0x80, 0xBF) then 3
    else if (0xE1 <= s[0] <= 0xEC || 0xEE <= s[0] <= 0xEF) && Cont(s, 1, 0x80, 0xBF) && Cont(s, 2, 0x80, 0xBF) then 3
    else if s[0] == 0xED && Cont(s, 1, 0x80, 0x9F) && Cont(s, 2, 0x80, 0xBF) then 3
    else if s[0] == 0xF0 && Cont(s, 1, 0x90, 0xBF) && Cont(s, 2, 0x80, 0xBF) && Cont(s, 3, 0x80, 0xBF) then 4
    else if 0xF1 <= s[0] <= 0xF3 && Cont(s, 1, 0x80, 0xBF) && Cont(s, 2, 0x80, 0xBF) && Cont(s, 3, 0x80, 0xBF) then 4
    else if s[0] == 0xF4 && Cont(s, 1, 0x80, 0x8F) && Cont(s, 2, 0x80, 0xBF) && Cont(s, 3, 0x80, 0xBF) then 4
    else 0
  }

  function Rune(s: Bytes): nat {
    var n := Width(s);
    if n == 0 then RUNE_ERROR
    else if n == 1 then s[0]
    else if n == 2 then Bits(s[0], 0xC0) * 64 + Bits(s[1], 0x80)
    else if n == 3 then Bits(s[0], 0xE0) * 4096 + Bits(s[1], 0x80) * 64 + Bits(s[2], 0x80)
    else Bits(s[0], 0xF0) * 262144 + Bits(s[1], 0x80) * 4096 + Bits(s[2], 0x80) * 64 + Bits(s[3], 0x80)
  }

  /** The bits of a byte that carry the character. */
  function Bits(b: Byte, mark: nat): nat { if b >= mark then b as nat - mark else 0 }

  /** The bytes that decoding takes: one where they are not well-formed. */
  function Size(s: Bytes): (n: nat)
    ensures n <= |s| && (s != [] ==> n > 0)
  {
    if s != [] && Width(s) == 0 then 1 else Width(s)
  }

  /** A well-formed character stands for itself whatever follows, and its later bytes
      are not ASCII. */
  lemma WidthLocal(s: Bytes, k: nat)
    requires k <= |s|
    ensures Width(s) != 0 && Width(s) <= k ==> Width(s[..k]) == Width(s) && Rune(s[..k]) == Rune(s)
    ensures Width(s[..k]) != 0 ==> Width(s) == Width(s[..k]) && Rune(s) == Rune(s[..k])
    ensures forall i :: 0 < i < Width(s) ==> s[i] >= 0x80
  {
  }

  // ---------------------------------------------------------------------- grammar

  datatype Range = Range(lo: nat, hi: nat)

  datatype Term = Star | Any | Class(negated: bool, ranges: seq<Range>) | Lit(b: Byte)

  /** A character of a class, with the bytes it takes; something must follow it. */
  function GetEsc(s: Bytes): (r: Option<(nat, nat)>)
    ensures r.Some? ==> 0 < r.value.1 < |s|
  {
    if s == [] || s[0] == DASH || s[0] == CLOSE then None
    else
      var e := if s[0] == BACKSLASH then 1 else 0;
      var c := s[e..];
      if Width(c) == 0 || e + Width(c) == |s| then None else Some((Rune(c), e + Width(c)))
  }

  /** A range, with the bytes it takes; something must follow it. */
  function GetRange(s: Bytes): (r: Option<(Range, nat)>)
    ensures r.Some? ==> 0 < r.value.1 < |s|
  {
    match GetEsc(s)
    case None => None
    case Some((lo, n)) =>
      if s[n] != DASH then Some((Range(lo, lo), n))
      else
        match GetEsc(s[n + 1..])
        case None => None
        case Some((hi, k)) => Some((Range(lo, hi), n + 1 + k))
  }

  /** The ranges of a class and its closing bracket; there must be a range. */
  function GetRanges(s: Bytes, first: bool): (r: Option<(seq<Range>, nat)>)
    ensures r.Some? ==> 0 < r.value.1 <= |s|
    decreases |s|
  {
    if s != [] && s[0] == CLOSE && !first then Some(([], 1))
    else
      match GetRange(s)
      case None => None
      case Some((range, n)) =>
        match GetRanges(s[n..], false)
        case None => None
        case Some((ranges, k)) => Some(([range] + ranges, n + k))
  }

  /** A class behind its opening bracket, with the bytes it takes. */
  function GetClass(s: Bytes): (r: Option<(Term, nat)>)
    ensures r.Some? ==> r.value.0.Class? && 0 < r.value.1 <= |s|
  {
    var neg := s != [] && s[0] == CARET;
    var e := if neg then 1 else 0;
    match GetRanges(s[e..], true)
    case None => None
    case Some((ranges, n)) => Some((Class(neg, ranges), e + n))
  }

  /** One term at the start of a pattern, with the bytes it takes; a chunk has no stars,
      and one that does stands for itself. */
  function GetTerm(p: Bytes, chunk: bool): (r: Option<(Term, nat)>)
    requires p != []
    ensures r.Some? ==> 0 < r.value.1 <= |p|
  {
    if p[0] == STAR && !chunk then Some((Star, 1))
    else if p[0] == QUESTION then Some((Any, 1))
    else if p[0] == OPEN then
      match GetClass(p[1..])
      case None => None
      case Some((c, n)) => Some((c, 1 + n))
    else if p[0] == BACKSLASH then
      if |p| == 1 then None else Some((Lit(p[1]), 2))
    else Some((Lit(p[0]), 1))
  }

  /** The terms of a whole pattern, or nothing if it is malformed. */
  function Parse(p: Bytes, chunk: bool): Option<seq<Term>>
    decreases |p|
  {
    if p == [] then Some([])
    else
      match GetTerm(p, chunk)
      case None => None
      case Some((term, n)) =>
        match Parse(p[n..], chunk)
        case None => None
        case Some(terms) => Some([term] + terms)
  }

  // --------------------------------------------------------------------- semantics

  predicate InRanges(ranges: seq<Range>, r: nat) { exists i :: 0 <= i < |ranges| && ranges[i].lo <= r <= ranges[i].hi }

  predicate NoSlash(s: Bytes) { SLASH !in s }

  /** How much of s one term that is no star takes, if it matches. */
  function Take(t: Term, s: Bytes): (r: Option<Bytes>)
    ensures r.Some? ==> |r.value| < |s|
  {
    if s == [] then None
    else
      match t
      case Star => None
      case Any => if s[0] == SLASH then None else Some(s[Size(s)..])
      case Class(negated, ranges) => if InRanges(ranges, Rune(s)) == negated then None else Some(s[Size(s)..])
      case Lit(b) => if s[0] == b then Some(s[1..]) else None
  }

  /** The terms match the whole of the name: each star some bytes without a slash. */
  ghost predicate Matches(terms: seq<Term>, name: Bytes)
    decreases |terms|
  {
    if terms == [] then name == []
    else if terms[0].Star? then exists k: nat :: k <= |name| && NoSlash(name[..k]) && Matches(terms[1..], name[k..])
    else
      match Take(terms[0], name)
      case None => false
      case Some(rest) => Matches(terms[1..], rest)
  }

  /** What is left of s behind terms without stars. */
  function Fixed(terms: seq<Term>, s: Bytes): Option<Bytes>
    decreases |terms|
  {
    if terms == [] then Some(s)
    else
      match Take(terms[0], s)
      case None => None
      case Some(rest) => Fixed(terms[1..], rest)
  }

  // ------------------------------------------------------------------------ chunks

  /** Where the scan for the end of a chunk stops. */
  function ScanEnd(p: Bytes, inrange: bool): (n: nat)
    ensures n <= |p|
    decreases |p|
  {
    if p == [] then 0
    else if p[0] == BACKSLASH then if |p| > 1 then 2 + ScanEnd(p[2..], inrange) else 1
    else if p[0] == OPEN then 1 + ScanEnd(p[1..], true)
    else if p[0] == CLOSE then 1 + ScanEnd(p[1..], false)
    else if p[0] == STAR && !inrange then 0
    else 1 + ScanEnd(p[1..], inrange)
  }

  lemma {:induction false} ScanPlain(p: Bytes, n: nat, inrange: bool)
    requires n <= |p| && forall i :: 0 <= i < n ==> p[i] >= 0x80
    ensures ScanEnd(p, inrange) == n + ScanEnd(p[n..], inrange)
  {
    if n > 0 {
      ScanPlain(p[1..], n - 1, inrange);
      assert p[1..][n - 1..] == p[n..];
    } else {
      assert p[0..] == p;
    }
  }

  /** A character of a class does not stop the scan. */
  lemma ScanEsc(s: Bytes)
    requires GetEsc(s).Some?
    ensures ScanEnd(s, true) == GetEsc(s).value.1 + ScanEnd(s[GetEsc(s).value.1..], true)
  {
    var e := if s[0] == BACKSLASH then 1 else 0;
    var c := s[e..];
    var n := Width(c);
    WidthLocal(c, |c|);
    assert s[e + 1..] == c[1..];
    ScanPlain(s[e + 1..], n - 1, true);
    assert s[e + 1..][n - 1..] == s[e + n..];
  }

  lemma ScanRange(s: Bytes)
    requires GetRange(s).Some?
    ensures ScanEnd(s, true) == GetRange(s).value.1 + ScanEnd(s[GetRange(s).value.1..], true)
  {
    ScanEsc(s);
    var n := GetEsc(s).value.1;
    if s[n] == DASH {
      ScanDash(s[n..]);
      hide GetEsc, ScanEnd;
      assert s[n..][1..] == s[n + 1..];
      ScanEsc(s[n + 1..]);
      var k := GetEsc(s[n + 1..]).value.1;
      assert s[n + 1..][k..] == s[n + 1 + k..];
    }
  }

  lemma ScanDash(s: Bytes)
    requires s != [] && s[0] == DASH
    ensures ScanEnd(s, true) == 1 + ScanEnd(s[1..], true)
  {
  }

  lemma {:induction false} ScanRanges(s: Bytes, first: bool)
    requires GetRanges(s, first).Some?
    ensures ScanEnd(s, true) == GetRanges(s, first).value.1 + ScanEnd(s[GetRanges(s, first).value.1..], false)
    decreases |s|
  {
    hide GetRange, ScanEnd;
    if !(s[0] == CLOSE && !first) {
      ScanRange(s);
      var n := GetRange(s).value.1;
      ScanRanges(s[n..], false);
      DropDrop(s, n, GetRanges(s[n..], false).value.1);
    } else {
      ScanClose(s);
    }
  }

  lemma ScanClose(s: Bytes)
    requires s != [] && s[0] == CLOSE
    ensures ScanEnd(s, true) == 1 + ScanEnd(s[1..], false)
  {
  }

  lemma DropDrop(s: Bytes, n: nat, k: nat)
    requires n + k <= |s|
    ensures s[n..][k..] == s[n + k..] && s[0..] == s
  {
  }

  lemma ScanClass(s: Bytes)
    requires GetClass(s).Some?
    ensures ScanEnd(s, true) == GetClass(s).value.1 + ScanEnd(s[GetClass(s).value.1..], false)
  {
    hide GetRanges;
    if s[0] == CARET {
      ScanCaret(s);
      hide ScanEnd;
      ScanRanges(s[1..], true);
      DropDrop(s, 1, GetRanges(s[1..], true).value.1);
    } else {
      hide ScanEnd;
      DropDrop(s, 0, 0);
      ScanRanges(s, true);
    }
  }

  lemma ScanCaret(s: Bytes)
    requires s != [] && s[0] == CARET
    ensures ScanEnd(s, true) == 1 + ScanEnd(s[1..], true)
  {
  }

  // ------------------------------------------ parsing depends on what is parsed only

  lemma EscLocal(s: Bytes, k: nat)
    requires k <= |s|
    ensures GetEsc(s).Some? && GetEsc(s).value.1 < k ==> GetEsc(s[..k]) == GetEsc(s)
    ensures GetEsc(s[..k]).Some? ==> GetEsc(s) == GetEsc(s[..k])
  {
    if k > 0 {
      var e := if s[0] == BACKSLASH then 1 else 0;
      if e <= k {
        WidthLocal(s[e..], k - e);
        assert s[..k][e..] == s[e..][..k - e];
      }
    }
  }

  lemma RangeLocal(s: Bytes, k: nat)
    requires k <= |s|
    ensures GetRange(s).Some? && GetRange(s).value.1 < k ==> GetRange(s[..k]) == GetRange(s)
    ensures GetRange(s[..k]).Some? ==> GetRange(s) == GetRange(s[..k])
  {
    hide GetEsc;
    EscLocal(s, k);
    if GetEsc(s).Some? {
      var n := GetEsc(s).value.1;
      if n + 1 <= k {
        EscLocal(s[n + 1..], k - n - 1);
        assert s[..k][n + 1..] == s[n + 1..][..k - n - 1];
      }
    }
  }

  lemma {:induction false} RangesLocal(s: Bytes, first: bool, k: nat)
    requires k <= |s|
    ensures GetRanges(s, first).Some? && GetRanges(s, first).value.1 <= k ==> GetRanges(s[..k], first) == GetRanges(s, first)
    ensures GetRanges(s[..k], first).Some? ==> GetRanges(s, first) == GetRanges(s[..k], first)
    decreases |s|
  {
    hide GetRange;
    if k > 0 && !(s[0] == CLOSE && !first) {
      RangeLocal(s, k);
      if GetRange(s).Some? {
        var n := GetRange(s).value.1;
        if n <= k {
          RangesLocal(s[n..], false, k - n);
          assert s[..k][n..] == s[n..][..k - n];
        }
      }
    }
  }

  lemma ClassLocal(s: Bytes, k: nat)
    requires k <= |s|
    ensures GetClass(s).Some? && GetClass(s).value.1 <= k ==> GetClass(s[..k]) == GetClass(s)
    ensures GetClass(s[..k]).Some? ==> GetClass(s) == GetClass(s[..k])
  {
    hide GetRanges;
    if k > 0 {
      var e := if s[0] == CARET then 1 else 0;
      RangesLocal(s[e..], true, k - e);
      assert s[..k][e..] == s[e..][..k - e];
    } else {
      assert s[..0] == [] && GetClass([]).None?;
    }
  }

  function Join(a: Option<seq<Term>>, b: Option<seq<Term>>): Option<seq<Term>> {
    if a.None? || b.None? then None else Some(a.value + b.value)
  }

  /** A pattern that begins with a term of n bytes. */
  lemma ParseNext(p: Bytes, chunk: bool)
    requires p != []
    ensures GetTerm(p, chunk).None? ==> Parse(p, chunk) == None
    ensures GetTerm(p, chunk).Some? ==>
              Parse(p, chunk) == Join(Some([GetTerm(p, chunk).value.0]), Parse(p[GetTerm(p, chunk).value.1..], chunk))
  {
    hide GetTerm;
  }

  /** The naive tracking of brackets finds the stars of the grammar: a pattern is its
      first chunk, parsed on its own, and the rest; it is malformed exactly when one of
      the two is. */
  lemma {:induction false} ChunkSplit(p: Bytes)
    ensures var i := ScanEnd(p, false); Parse(p, false) == Join(Parse(p[..i], true), Parse(p[i..], false))
    decreases |p|
  {
    hide GetClass, Parse, Join, GetTerm;
    var i := ScanEnd(p, false);
    if p == [] || p[0] == STAR {
      assert p[..0] == [] && p[0..] == p;
      EmptyChunk(p);
    } else {
      SameTerm(p);
      ParseNext(p[..i], true);
      ParseNext(p, false);
      if GetTerm(p, false).Some? {
        var t, n := GetTerm(p, false).value.0, GetTerm(p, false).value.1;
        ChunkSplit(p[n..]);
        assert p[..i][n..] == p[n..][..i - n] && p[n..][i - n..] == p[i..];
        JoinAll(Some([t]), Parse(p[n..][..i - n], true), Parse(p[i..], false));
      } else {
        JoinNone(Parse(p[i..], false));
      }
    }
  }

  lemma JoinNone(b: Option<seq<Term>>)
    ensures Join(None, b) == None
  {
  }

  lemma JoinAll(a: Option<seq<Term>>, b: Option<seq<Term>>, c: Option<seq<Term>>)
    ensures Join(a, Join(b, c)) == Join(Join(a, b), c)
  {
    if a.Some? && b.Some? && c.Some? { assert a.value + (b.value + c.value) == (a.value + b.value) + c.value; }
  }

  lemma EmptyChunk(p: Bytes)
    ensures Join(Parse([], true), Parse(p, false)) == Parse(p, false)
  {
    if Parse(p, false).Some? { assert [] + Parse(p, false).value == Parse(p, false).value; }
  }

  /** The scan passes the first term of a pattern, if it is no star, and the chunk then
      begins with the same term. */
  lemma SameTerm(p: Bytes)
    requires p != [] && p[0] != STAR
    ensures 0 < ScanEnd(p, false) && GetTerm(p[..ScanEnd(p, false)], true) == GetTerm(p, false)
    ensures GetTerm(p, false).Some? ==> ScanEnd(p, false) == GetTerm(p, false).value.1 + ScanEnd(p[GetTerm(p, false).value.1..], false)
  {
    hide GetClass;
    if p[0] == OPEN {
      ClassTerm(p);
    }
  }

  lemma ClassTerm(p: Bytes)
    requires p != [] && p[0] == OPEN
    ensures 0 < ScanEnd(p, false) && GetTerm(p[..ScanEnd(p, false)], true) == GetTerm(p, false)
    ensures GetTerm(p, false).Some? ==> ScanEnd(p, false) == GetTerm(p, false).value.1 + ScanEnd(p[GetTerm(p, false).value.1..], false)
  {
    hide GetClass, ScanEnd;
    OpenScan(p);
    var i := ScanEnd(p, false);
    ClassLocal(p[1..], i - 1);
    assert p[..i][1..] == p[1..][..i - 1];
    if GetClass(p[1..]).Some? {
      ScanClass(p[1..]);
      var n := GetClass(p[1..]).value.1;
      assert p[1..][n..] == p[1 + n..];
    }
  }

  lemma OpenScan(p: Bytes)
    requires p != [] && p[0] == OPEN
    ensures ScanEnd(p, false) == 1 + ScanEnd(p[1..], true)
  {
  }
}
