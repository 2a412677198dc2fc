/** What patterns of each kind of term mean, from their bytes: letters, quoted letters, ?,
    * and classes; and how characters are decoded. */
module PathForms {
  import opened PathPattern
  import PathMatch

  // ------------------------------------------------------------------- characters

  /** The code points that UTF-8 encodes. */
  predicate Scalar(r: nat) { r <= 0x10FFFF && !(0xD800 <= r <= 0xDFFF) }

  /** The encoding of a code point (section 3 of RFC 3629). */
  function Utf8(r: nat): (s: Bytes)
    requires Scalar(r)
    ensures 1 <= |s| <= 4
  {
    if r < 0x80 then [r]
    else if r < 0x800 then [0xC0 + r / 0x40, 0x80 + r % 0x40]
    else if r < 0x10000 then [0xE0 + r / 0x1000, 0x80 + r / 0x40 % 0x40, 0x80 + r % 0x40]
    else [0xF0 + r / 0x40000, 0x80 + r / 0x1000 % 0x40, 0x80 + r / 0x40 % 0x40, 0x80 + r % 0x40]
  }

  lemma ThreeDigits(r: nat)
    ensures r == r / 0x1000 * 0x1000 + r / 0x40 % 0x40 * 0x40 + r % 0x40
  {
    assert r / 0x40 / 0x40 == r / 0x1000;
  }

  lemma FourDigits(r: nat)
    ensures r == r / 0x40000 * 0x40000 + r / 0x1000 % 0x40 * 0x1000 + r / 0x40 % 0x40 * 0x40 + r % 0x40
  {
    ThreeDigits(r);
    assert r / 0x1000 / 0x40 == r / 0x40000;
  }

  /** What is encoded is decoded, whatever follows. */
  lemma Decodes(r: nat, rest: Bytes)
    requires Scalar(r)
    ensures Width(Utf8(r) + rest) == |Utf8(r)| && Rune(Utf8(r) + rest) == r
  {
    ThreeDigits(r);
    FourDigits(r);
    var s := Utf8(r) + rest;
    assert forall i :: 0 <= i < |Utf8(r)| ==> s[i] == Utf8(r)[i];
  }

  /** And nothing else is decoded. */
  lemma OnlyEncoded(s: Bytes)
    requires Width(s) > 0
    ensures Scalar(Rune(s)) && s[..Width(s)] == Utf8(Rune(s))
  {
    Leading(s);
    hide Width, Utf8;
    if Width(s) == 1 {
      Encoded1(s[0]);
    } else if Width(s) == 2 {
      Encoded2(s[0], s[1]);
    } else if Width(s) == 3 {
      Encoded3(s[0], s[1], s[2]);
    } else {
      Encoded4(s[0], s[1], s[2], s[3]);
    }
  }

  lemma Encoded1(a: Byte)
    requires a < 0x80
    ensures Scalar(a) && Utf8(a) == [a]
  {
  }

  lemma Encoded2(a: Byte, b: Byte)
    requires 0xC2 <= a < 0xE0 && 0x80 <= b < 0xC0
    ensures var r := (a - 0xC0) * 0x40 + (b - 0x80); Scalar(r) && Utf8(r) == [a, b]
  {
  }

  lemma Encoded3(a: Byte, b: Byte, c: Byte)
    requires 0xE0 <= a < 0xF0 && 0x80 <= b < 0xC0 && 0x80 <= c < 0xC0 && (a == 0xE0 ==> b >= 0xA0) && (a == 0xED ==> b < 0xA0)
    ensures var r := (a - 0xE0) * 0x1000 + (b - 0x80) * 0x40 + (c - 0x80); Scalar(r) && Utf8(r) == [a, b, c]
  {
    ThreeBytes(a - 0xE0, b - 0x80, c - 0x80);
  }

  lemma Encoded4(a: Byte, b: Byte, c: Byte, d: Byte)
    requires 0xF0 <= a <= 0xF4 && 0x80 <= b < 0xC0 && 0x80 <= c < 0xC0 && 0x80 <= d < 0xC0
    requires (a == 0xF0 ==> b >= 0x90) && (a == 0xF4 ==> b < 0x90)
    ensures var r := (a - 0xF0) * 0x40000 + (b - 0x80) * 0x1000 + (c - 0x80) * 0x40 + (d - 0x80); Scalar(r) && Utf8(r) == [a, b, c, d]
  {
    FourBytes(a - 0xF0, b - 0x80, c - 0x80, d - 0x80);
  }

  /** The bytes of a well-formed character. */
  lemma Leading(s: Bytes)
    requires Width(s) > 0
    ensures var n := Width(s);
            && n <= |s| && (forall i :: 0 < i < n ==> 0x80 <= s[i] < 0xC0)
            && (n == 1 ==> s[0] < 0x80 && s[..1] == [s[0]]) && (n == 2 ==> 0xC2 <= s[0] < 0xE0 && s[..2] == [s[0], s[1]])
            && (n == 3 ==> 0xE0 <= s[0] < 0xF0 && (s[0] == 0xE0 ==> s[1] >= 0xA0) && (s[0] == 0xED ==> s[1] < 0xA0) && s[..3] == [s[0], s[1], s[2]])
            && (n == 4 ==> 0xF0 <= s[0] <= 0xF4 && (s[0] == 0xF0 ==> s[1] >= 0x90) && (s[0] == 0xF4 ==> s[1] < 0x90) && s[..4] == [s[0], s[1], s[2], s[3]])
  {
  }

  lemma ThreeBytes(a: nat, b: nat, c: nat)
    requires b < 0x40 && c < 0x40
    ensures var r := a * 0x1000 + b * 0x40 + c; r / 0x1000 == a && r / 0x40 % 0x40 == b && r % 0x40 == c
  {
    var r := a * 0x1000 + b * 0x40 + c;
    assert r / 0x40 == a * 0x40 + b;
  }

  lemma FourBytes(a: nat, b: nat, c: nat, d: nat)
    requires b < 0x40 && c < 0x40 && d < 0x40
    ensures var r := a * 0x40000 + b * 0x1000 + c * 0x40 + d;
            r / 0x40000 == a && r / 0x1000 % 0x40 == b && r / 0x40 % 0x40 == c && r % 0x40 == d
  {
    var r := a * 0x40000 + b * 0x1000 + c * 0x40 + d;
    assert r / 0x40 == a * 0x1000 + b * 0x40 + c;
    ThreeBytes(a, b, c);
  }

  // ---------------------------------------------------------------------- letters

  predicate Special(b: Byte) { b in {STAR, QUESTION, OPEN, BACKSLASH} }

  function Lits(s: Bytes): seq<Term> { seq(|s|, i requires 0 <= i < |s| => Lit(s[i])) }

  function Quoted(s: Bytes): Bytes { if s == [] then [] else [BACKSLASH, s[0]] + Quoted(s[1..]) }

  lemma LitsNext(s: Bytes)
    requires s != []
    ensures Lits(s) == [Lit(s[0])] + Lits(s[1..])
  {
  }

  /** Bytes that are not special stand for themselves. */
  lemma {:induction false} PlainParse(s: Bytes)
    requires forall i :: 0 <= i < |s| ==> !Special(s[i])
    ensures Parse(s, false) == Some(Lits(s))
    decreases |s|
  {
    hide GetClass;
    if s != [] {
      PlainParse(s[1..]);
      LitsNext(s);
    } else {
      assert Lits(s) == [];
    }
  }

  /** Any byte stands for itself behind a backslash. */
  lemma {:induction false} QuotedParse(s: Bytes)
    ensures Parse(Quoted(s), false) == Some(Lits(s))
    decreases |s|
  {
    hide GetClass;
    if s != [] {
      QuotedParse(s[1..]);
      LitsNext(s);
      assert Quoted(s)[2..] == Quoted(s[1..]) && Quoted(s)[1] == s[0];
    } else {
      assert Lits(s) == [];
    }
  }

  /** A backslash at the end stands for nothing. */
  lemma {:induction false} LoneBackslash(s: Bytes)
    ensures Parse(Quoted(s) + [BACKSLASH], false) == None
    decreases |s|
  {
    hide GetClass;
    var p := Quoted(s) + [BACKSLASH];
    if s != [] {
      LoneBackslash(s[1..]);
      assert p[0] == BACKSLASH && p[1] == s[0] && p[2..] == Quoted(s[1..]) + [BACKSLASH];
    } else {
      assert p == [BACKSLASH];
    }
  }

  /** Letters match themselves, and only themselves. */
  lemma {:induction false} LettersMatch(s: Bytes, name: Bytes)
    ensures Matches(Lits(s), name) <==> name == s
    decreases |s|
  {
    if s != [] {
      LitsNext(s);
      assert Lits(s)[1..] == Lits(s[1..]);
      if name != [] {
        LettersMatch(s[1..], name[1..]);
        assert name == [name[0]] + name[1..] && s == [s[0]] + s[1..];
      }
    }
  }

  // --------------------------------------------------------------- ?, * and classes

  /** The name is a single character; bytes that are not well-formed count as one each. */
  predicate OneCharacter(name: Bytes) { name != [] && Size(name) == |name| }

  lemma OneByteParse(b: Byte, t: Term)
    requires GetTerm([b], false) == Some((t, 1))
    ensures Parse([b], false) == Some([t])
  {
    hide GetTerm;
    assert [b][1..] == [] && Parse([], false) == Some([]) && [t] + [] == [t];
  }

  lemma QuestionForm(name: Bytes)
    ensures Parse([QUESTION], false) == Some([Any])
    ensures Matches([Any], name) <==> OneCharacter(name) && name[0] != SLASH
  {
    OneByteParse(QUESTION, Any) by { hide GetClass; }
    AnyMatches(name);
  }

  lemma AnyMatches(name: Bytes)
    ensures Matches([Any], name) <==> OneCharacter(name) && name[0] != SLASH
  {
    hide Size;
    assert [Any][1..] == [];
    if name != [] {
      var rest := name[Size(name)..];
      assert Matches([], rest) <==> Size(name) == |name|;
    }
  }

  lemma StarForm(name: Bytes)
    ensures Parse([STAR], false) == Some([Star])
    ensures Matches([Star], name) <==> NoSlash(name)
  {
    OneByteParse(STAR, Star) by { hide GetClass; }
    StarMatches(name);
  }

  lemma StarMatches(name: Bytes)
    ensures Matches([Star], name) <==> NoSlash(name)
  {
    var terms := [Star];
    assert terms[1..] == [];
    if NoSlash(name) {
      assert name[..|name|] == name && name[|name|..] == [];
      assert Matches(terms[1..], name[|name|..]);
    }
    if Matches(terms, name) {
      var k: nat :| k <= |name| && NoSlash(name[..k]) && Matches(terms[1..], name[k..]);
      assert name[..k] == name;
    }
  }

  /** A letter that needs no backslash in a class. */
  predicate Letter(b: Byte) { b < 0x80 && b !in {DASH, CLOSE, BACKSLASH, CARET} }

  function Bracketed(negated: bool, s: Bytes): Bytes { if negated then [OPEN, CARET] + s + [CLOSE] else [OPEN] + s + [CLOSE] }

  /** Between brackets, a range of letters matches the characters from the first to the
      last, both included; behind ^ the others. */
  lemma RangeForm(negated: bool, lo: Byte, hi: Byte, name: Bytes)
    requires Letter(lo) && Letter(hi)
    ensures Parse(Bracketed(negated, [lo, DASH, hi]), false) == Some([Class(negated, [Range(lo, hi)])])
    ensures Matches([Class(negated, [Range(lo, hi)])], name) <==> OneCharacter(name) && (lo <= Rune(name) <= hi) != negated
  {
    hide Parse, Matches, Rune, InRanges;
    RangeParse(negated, lo, hi);
    ClassMatches(negated, [Range(lo, hi)], name);
    InOne(lo, hi, Rune(name));
  }

  lemma InOne(lo: nat, hi: nat, r: nat)
    ensures InRanges([Range(lo, hi)], r) <==> lo <= r <= hi
  {
    assert [Range(lo, hi)][0] == Range(lo, hi);
  }

  lemma RangeParse(negated: bool, lo: Byte, hi: Byte)
    requires Letter(lo) && Letter(hi)
    ensures Parse(Bracketed(negated, [lo, DASH, hi]), false) == Some([Class(negated, [Range(lo, hi)])])
  {
    hide GetRange, GetRanges, Parse;
    var p := Bracketed(negated, [lo, DASH, hi]);
    var e := if negated then 1 else 0;
    var s := p[1..][e..];
    assert s == [lo, DASH, hi, CLOSE];
    RangeBytes(s);
    assert p[1..] != [] && (p[1..][0] == CARET <==> negated);
    OneTermParse(p, Class(negated, [Range(lo, hi)]));
  }

  lemma RangeBytes(s: Bytes)
    requires |s| == 4 && Letter(s[0]) && s[1] == DASH && Letter(s[2]) && s[3] == CLOSE
    ensures GetRanges(s, true) == Some(([Range(s[0], s[2])], 4))
  {
    hide GetRanges;
    assert GetEsc(s) == Some((s[0] as nat, 1)) by { LetterEsc(s); }
    LetterEsc(s[2..]);
    assert GetRange(s) == Some((Range(s[0], s[2]), 3));
    hide GetRange;
    RangesOne(s, 3);
  }

  lemma LetterEsc(s: Bytes)
    requires |s| >= 2 && Letter(s[0])
    ensures GetEsc(s) == Some((s[0] as nat, 1))
  {
    assert s[0..] == s;
  }

  lemma RangesOne(s: Bytes, n: nat)
    requires s != [] && s[0] != CLOSE && GetRange(s).Some? && GetRange(s).value.1 == n && n + 1 == |s| && s[n] == CLOSE
    ensures GetRanges(s, true) == Some(([GetRange(s).value.0], n + 1))
  {
    hide GetRange;
    var t := s[n..];
    assert t[0] == CLOSE && GetRanges(t, false) == Some(([], 1));
    assert [GetRange(s).value.0] + [] == [GetRange(s).value.0];
  }

  lemma OneTermParse(p: Bytes, t: Term)
    requires p != [] && p[0] == OPEN && GetClass(p[1..]) == Some((t, |p| - 1))
    ensures Parse(p, false) == Some([t])
  {
    hide GetClass;
    assert p[|p|..] == [] && Parse([], false) == Some([]) && [t] + [] == [t];
  }

  lemma ClassMatches(negated: bool, ranges: seq<Range>, name: Bytes)
    ensures Matches([Class(negated, ranges)], name) <==> OneCharacter(name) && InRanges(ranges, Rune(name)) != negated
  {
    hide InRanges, Rune, Size;
    assert [Class(negated, ranges)][1..] == [];
  }

  /** Classes that are malformed: without a range, with a range that begins or ends with a
      dash, and without an end. */
  lemma BadClasses(lo: Byte)
    requires Letter(lo)
    ensures Parse([OPEN, CLOSE], false) == None && Parse([OPEN, DASH, CLOSE], false) == None
    ensures Parse([OPEN, lo, DASH, CLOSE], false) == None && Parse([OPEN, lo], false) == None
  {
    NoClass([OPEN, CLOSE]);
    NoClass([OPEN, DASH, CLOSE]);
    NoClass([OPEN, lo]);
    NoClass([OPEN, lo, DASH, CLOSE]);
  }

  lemma NoClass(p: Bytes)
    requires p != [] && p[0] == OPEN
    requires var s := p[1..]; s == [CLOSE] || s == [DASH, CLOSE] || (s != [] && Letter(s[0]) && (|s| == 1 || s[1..] == [DASH, CLOSE]))
    ensures Parse(p, false) == None
  {
    var s := p[1..];
    assert s[0..] == s;
    if s != [CLOSE] && s[0] != DASH && |s| > 1 {
      assert s[1] == DASH && s[2] == CLOSE && s[2..][0] == CLOSE;
      assert GetEsc(s) == Some((s[0] as nat, 1)) && GetEsc(s[2..]) == None;
    }
    assert GetRange(s) == None;
    hide GetRange;
    assert GetRanges(s, true) == None;
  }

  // ----------------------------------------------------------------------- slashes

  function Slashes(s: Bytes): nat { if s == [] then 0 else (if s[0] == SLASH then 1 else 0) + Slashes(s[1..]) }

  function SlashTerms(terms: seq<Term>): nat {
    if terms == [] then 0 else (if terms[0] == Lit(SLASH) then 1 else 0) + SlashTerms(terms[1..])
  }

  lemma {:induction false} NoneSlashes(s: Bytes, k: nat)
    requires k <= |s| && NoSlash(s[..k])
    ensures Slashes(s) == Slashes(s[k..])
    decreases k
  {
    if k > 0 {
      assert s[..k][0] == s[0] && s[1..][..k - 1] == s[..k][1..];
      NoneSlashes(s[1..], k - 1);
      assert s[1..][k - 1..] == s[k..];
    } else {
      assert s[0..] == s;
    }
  }

  lemma CharacterSlashes(s: Bytes)
    requires s != [] && s[0] != SLASH
    ensures Slashes(s) == Slashes(s[Size(s)..])
  {
    WidthLocal(s, |s|);
    NoneSlashes(s, Size(s));
  }

  lemma TakeSlashes(t: Term, s: Bytes)
    requires Take(t, s).Some? && PathMatch.NoSlashClass(t)
    ensures Slashes(s) == (if t == Lit(SLASH) then 1 else 0) + Slashes(Take(t, s).value)
  {
    hide InRanges;
    if !t.Lit? {
      hide Rune;
      SlashRune(s);
      hide Size, Slashes;
      CharacterSlashes(s);
    }
  }

  lemma SlashRune(s: Bytes)
    ensures s != [] && s[0] == SLASH ==> Rune(s) == SLASH
  {
  }

  /** Only a slash matches a slash, unless a class does: a name has as many as the pattern
      that matches it. */
  lemma {:induction false} SlashesMatch(terms: seq<Term>, name: Bytes)
    requires Matches(terms, name) && PathMatch.NoSlashClasses(terms)
    ensures Slashes(name) == SlashTerms(terms)
    decreases |terms|
  {
    hide PathMatch.NoSlashClass, Take;
    if terms != [] {
      if terms[0].Star? {
        var k: nat :| k <= |name| && NoSlash(name[..k]) && Matches(terms[1..], name[k..]);
        NoneSlashes(name, k);
        SlashesMatch(terms[1..], name[k..]);
      } else {
        TakeSlashes(terms[0], name);
        SlashesMatch(terms[1..], Take(terms[0], name).value);
      }
    }
  }
}
