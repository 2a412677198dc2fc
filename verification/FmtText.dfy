/** What formatting an integer is to give: sign, prefix, zeros, digits and padding; and
    how the integer is read back from it. */
module FmtText {
  import opened FmtDigits

  datatype Flags = Flags(widPresent: bool, precPresent: bool, minus: bool, plus: bool, sharp: bool, space: bool,
                         zero: bool, plusV: bool, sharpV: bool)

  /** The flags with blanks for padding. */
  function Blanked(fl: Flags): Flags { fl.(zero := false) }

  const INTBUF := 68

  /** The 64-bit number as the signed or unsigned integer that it stands for. */
  function Integer(u: nat, isSigned: bool): int {
    if isSigned && u > MAX_UINT64 / 2 then u - MAX_UINT64 - 1 else u
  }

  function Abs(x: int): nat { if x < 0 then -x else x }

  /** How many digits are asked for: by a precision, or by zeros that fill the width. */
  function Wanted(fl: Flags, wid: nat, prec: nat, x: int): int {
    if fl.precPresent then prec
    else if fl.zero && !fl.minus && fl.widPresent then
      if x < 0 || fl.plus || fl.space then wid - 1 else wid
    else 0
  }

  function Body(u: nat, base: nat, digits: string, wanted: int): (r: string)
    requires Base(base) && DigitSet(digits)
    ensures |r| >= 1
  {
    var d := Digits(u, base, digits);
    Repeat('0', wanted - |d|) + d
  }

  function Mark(body: string, base: nat, digits: string): string
    requires |body| >= 1 && DigitSet(digits)
  {
    if base == 2 then "0b" + body
    else if base == 8 && body[0] != '0' then "0" + body
    else if base == 16 then "0" + [digits[16]] + body
    else body
  }

  function Octal(s: string, verb: char): string { if verb == 'O' then "0o" + s else s }

  function Sign(negative: bool, fl: Flags): string {
    if negative then "-" else if fl.plus then "+" else if fl.space then " " else ""
  }

  function Core(body: string, sharp: bool, base: nat, verb: char, digits: string): string
    requires |body| >= 1 && DigitSet(digits)
  {
    Octal(if sharp then Mark(body, base, digits) else body, verb)
  }

  /** The number itself, before padding. */
  function Number(fl: Flags, wid: nat, prec: nat, x: int, base: nat, verb: char, digits: string): string
    requires Base(base) && DigitSet(digits)
  {
    Signed(Abs(x), x < 0, Wanted(fl, wid, prec, x), fl, base, verb, digits)
  }

  function Signed(v: nat, negative: bool, wanted: int, fl: Flags, base: nat, verb: char, digits: string): string
    requires Base(base) && DigitSet(digits)
  {
    Sign(negative, fl) + Core(Body(v, base, digits, wanted), fl.sharp, base, verb, digits)
  }

  /** The number of characters of well-formed UTF-8. */
  function RuneCount(b: string): nat {
    if b == "" then 0
    else RuneCount(b[..|b| - 1]) + (if '\U{80}' <= b[|b| - 1] < '\U{C0}' then 0 else 1)
  }

  function PadText(b: string, fl: Flags, wid: int): string {
    if !fl.widPresent || wid == 0 then b
    else
      var pads := Repeat(if fl.zero && !fl.minus then '0' else ' ', wid - RuneCount(b));
      if fl.minus then b + pads else pads + b
  }

  /** A zero with precision zero prints nothing but padding. */
  predicate Blank(fl: Flags, prec: nat, x: int) { fl.precPresent && prec == 0 && x == 0 }

  function IntegerText(fl: Flags, wid: nat, prec: nat, x: int, base: nat, verb: char, digits: string): string
    requires Base(base) && DigitSet(digits)
  {
    if Blank(fl, prec, x) then Repeat(' ', wid)
    else PadText(Number(fl, wid, prec, x, base, verb, digits), Blanked(fl), wid)
  }

  /** The size of the buffer that an integer is formatted into. */
  function Room(fl: Flags, wid: nat, prec: nat): nat {
    if (fl.widPresent || fl.precPresent) && 3 + wid + prec > INTBUF then 3 + wid + prec else INTBUF
  }

  // ----------------------------------------------------------------------- the room

  lemma BodyLength(u: nat, base: nat, digits: string, wanted: int)
    requires Base(base) && DigitSet(digits) && u <= MAX_UINT64
    ensures var r := Body(u, base, digits, wanted);
            (wanted <= 64 ==> |r| <= 64) && (wanted > 64 ==> |r| == wanted && r[0] == '0')
  {
    Digits64(u, base, digits);
  }

  /** The buffer always has room for the number, whatever the value, the flags, the
      width and the precision: only for %O is the base to be 8 or 10. */
  lemma Fits(fl: Flags, wid: nat, prec: nat, x: int, base: nat, verb: char, digits: string)
    requires Base(base) && DigitSet(digits) && Abs(x) <= MAX_UINT64
    requires verb == 'O' ==> base in {8, 10}
    ensures |Number(fl, wid, prec, x, base, verb, digits)| <= Room(fl, wid, prec)
  {
    hide Body;
    BodyLength(Abs(x), base, digits, Wanted(fl, wid, prec, x));
  }

  /** That is what the call needs: for the bases 2 and 16 the buffer is too small for
      some of the numbers with the prefix of %O. */
  lemma FitsIff(base: nat, verb: char)
    requires Base(base)
    ensures (verb == 'O' ==> base in {8, 10}) <==>
            forall fl: Flags, wid: nat, prec: nat, x: int, digits: string :: DigitSet(digits) && Abs(x) <= MAX_UINT64 ==>
              |Number(fl, wid, prec, x, base, verb, digits)| <= Room(fl, wid, prec)
  {
    hide Number, Room;
    if verb == 'O' ==> base in {8, 10} {
      forall fl: Flags, wid: nat, prec: nat, x: int, digits: string | DigitSet(digits) && Abs(x) <= MAX_UINT64
        ensures |Number(fl, wid, prec, x, base, verb, digits)| <= Room(fl, wid, prec)
      {
        Fits(fl, wid, prec, x, base, verb, digits);
      }
    } else {
      TooLong(base);
    }
  }

  /** One number that does not fit: 66 zeros and twice a prefix. */
  lemma TooLong(base: nat)
    requires base in {2, 16}
    ensures var fl := Flags(false, true, false, false, true, false, false, false, false);
            |Number(fl, 0, 66, 0, base, 'O', LDIGITS)| > Room(fl, 0, 66)
  {
    BodyLength(0, base, LDIGITS, 66);
  }

  // ------------------------------------------------------------------------- padding

  lemma {:induction false} RunesAppend(a: string, b: string)
    ensures RuneCount(a + b) == RuneCount(a) + RuneCount(b)
    decreases |b|
  {
    if b == "" {
      assert a + b == a;
    } else {
      assert (a + b)[..|a + b| - 1] == a + b[..|b| - 1];
      RunesAppend(a, b[..|b| - 1]);
    }
  }

  lemma {:induction false} RunesAtMost(s: string)
    ensures RuneCount(s) <= |s|
    decreases |s|
  {
    if s != "" { RunesAtMost(s[..|s| - 1]); }
  }

  predicate Ascii(s: string) { forall k :: 0 <= k < |s| ==> s[k] < '\U{80}' }

  lemma {:induction false} AsciiRunes(s: string)
    requires Ascii(s)
    ensures RuneCount(s) == |s|
    decreases |s|
  {
    if s != "" { AsciiRunes(s[..|s| - 1]); }
  }

  /** Padding is to the right of the text with the minus flag, and to the left without. */
  lemma PadSides(b: string, fl: Flags, wid: nat)
    ensures var t := PadText(b, fl, wid);
            && |b| <= |t|
            && (fl.minus ==> t[..|b|] == b && forall k :: |b| <= k < |t| ==> t[k] == ' ')
            && (!fl.minus ==> t[|t| - |b|..] == b && forall k :: 0 <= k < |t| - |b| ==> t[k] == if fl.zero then '0' else ' ')
  {
  }

  /** Padding fills up to the width and never cuts. */
  lemma PadFills(b: string, fl: Flags, wid: nat)
    ensures RuneCount(PadText(b, fl, wid)) == if fl.widPresent && wid > RuneCount(b) then wid else RuneCount(b)
  {
    var pads := Repeat(if fl.zero && !fl.minus then '0' else ' ', wid - RuneCount(b));
    AsciiRunes(pads);
    RunesAppend(pads, b);
    RunesAppend(b, pads);
  }

  // ------------------------------------------------------------------- reading back

  function TrimLeft(s: string): string {
    if s != "" && s[0] == ' ' then TrimLeft(s[1..]) else s
  }

  function TrimRight(s: string): string {
    if s != "" && s[|s| - 1] == ' ' then TrimRight(s[..|s| - 1]) else s
  }

  datatype Option<T> = None | Some(value: T)

  /** The number that s denotes in the base, if it has digits of that base only. */
  function Scan(s: string, base: nat, upper: bool): Option<nat> {
    if s == "" || !AllInBase(s, base, upper) then None else Some(Value(s, base))
  }

  function Behind(s: string, prefix: string): Option<string> {
    if |prefix| <= |s| && s[..|prefix|] == prefix then Some(s[|prefix|..]) else None
  }

  /** The digits must stand behind the prefix that the flag # calls for: 0b, 0x or 0X, and
      a zero in base 8. */
  function Unmark(s: string, sharp: bool, base: nat, upper: bool): Option<string> {
    if sharp && base == 2 then Behind(s, "0b")
    else if sharp && base == 16 then Behind(s, if upper then "0X" else "0x")
    else if sharp && base == 8 && (s == "" || s[0] != '0') then None
    else Some(s)
  }

  /** The number without its sign; %O has a prefix of its own. */
  function Unsigned(s: string, sharp: bool, base: nat, verb: char, upper: bool): Option<nat> {
    match if verb == 'O' then Behind(s, "0o") else Some(s)
    case None => None
    case Some(t) =>
      match Unmark(t, sharp, base, upper)
      case None => None
      case Some(d) => Scan(d, base, upper)
  }

  function Negated(n: Option<nat>): Option<int> { if n.Some? then Some(-(n.value as int)) else None }

  function Positive(n: Option<nat>): Option<int> { if n.Some? then Some(n.value) else None }

  /** The integer that a text denotes, without regard to blanks around it; nothing, if it
      is not written as the base, the flag and the verb say. */
  function ReadBack(text: string, sharp: bool, base: nat, verb: char, upper: bool): Option<int> {
    var s := TrimRight(TrimLeft(text));
    if s != "" && s[0] == '-' then Negated(Unsigned(s[1..], sharp, base, verb, upper))
    else if s != "" && s[0] == '+' then Positive(Unsigned(s[1..], sharp, base, verb, upper))
    else Positive(Unsigned(s, sharp, base, verb, upper))
  }

  lemma {:induction false} TrimLeftBlanks(n: int, s: string)
    requires s == "" || s[0] != ' '
    ensures TrimLeft(Repeat(' ', n) + s) == s
  {
    if n <= 0 {
      assert Repeat(' ', n) + s == s;
    } else {
      assert (Repeat(' ', n) + s)[1..] == Repeat(' ', n - 1) + s;
      TrimLeftBlanks(n - 1, s);
    }
  }

  lemma {:induction false} TrimRightBlanks(n: int, s: string)
    requires s == "" || s[|s| - 1] != ' '
    ensures TrimRight(s + Repeat(' ', n)) == s
  {
    if n <= 0 {
      assert s + Repeat(' ', n) == s;
    } else {
      assert (s + Repeat(' ', n))[..|s| + n - 1] == s + Repeat(' ', n - 1);
      TrimRightBlanks(n - 1, s);
    }
  }

  lemma BodyReads(u: nat, base: nat, digits: string, wanted: int)
    requires Base(base) && DigitSet(digits)
    ensures var r := Body(u, base, digits, wanted);
            Value(r, base) == u && AllDigits(r) && AllInBase(r, base, digits == UDIGITS)
  {
    hide InBase, Value;
    var d := Digits(u, base, digits);
    DigitsValue(u, base, digits);
    DigitsInBase(u, base, digits);
    ZerosValue(wanted - |d|, d, base);
    DigitInBase(0, base, digits);
    hide Digits;
  }

  /** No digit is a sign or a blank. */
  lemma EndsPlain(s: string, base: nat, upper: bool)
    requires s != "" && AllInBase(s, base, upper)
    ensures s[0] !in {'-', '+', ' '} && s[|s| - 1] != ' '
  {
  }

  predicate PlainEnds(s: string) { s != "" && s[0] !in {'-', '+', ' '} && s[|s| - 1] != ' ' }

  lemma MarkReads(body: string, sharp: bool, base: nat, digits: string)
    requires Base(base) && DigitSet(digits) && |body| >= 1 && AllInBase(body, base, digits == UDIGITS)
    ensures var m := if sharp then Mark(body, base, digits) else body;
            && PlainEnds(m) && Unmark(m, sharp, base, digits == UDIGITS).Some?
            && Scan(Unmark(m, sharp, base, digits == UDIGITS).value, base, digits == UDIGITS) == Some(Value(body, base))
  {
    var upper := digits == UDIGITS;
    EndsPlain(body, base, upper);
    MarkIs(body, base, digits);
    hide Value, AllInBase, Mark, DigitSet;
    if sharp && base in {2, 16} {
      BehindIs(if base == 2 then "0b" else if upper then "0X" else "0x", body);
    } else if sharp && base == 8 && body[0] != '0' {
      ZeroInFront(body, base, upper);
    }
  }

  lemma MarkIs(body: string, base: nat, digits: string)
    requires Base(base) && DigitSet(digits) && |body| >= 1
    ensures Mark(body, base, digits)
         == if base == 2 then "0b" + body
            else if base == 16 then (if digits == UDIGITS then "0X" else "0x") + body
            else if base == 8 && body[0] != '0' then "0" + body
            else body
  {
    assert LDIGITS[16] == 'x' && UDIGITS[16] == 'X';
    assert "0" + [LDIGITS[16]] == "0x" && "0" + [UDIGITS[16]] == "0X";
  }

  lemma BehindIs(p: string, s: string)
    requires |p| == 2 && p[0] == '0' && s != "" && s[|s| - 1] != ' '
    ensures Behind(p + s, p) == Some(s) && PlainEnds(p + s)
  {
    assert (p + s)[..2] == p && (p + s)[2..] == s;
  }

  lemma ZeroInFront(s: string, base: nat, upper: bool)
    requires Base(base) && s != "" && s[|s| - 1] != ' ' && AllInBase(s, base, upper)
    ensures var m := "0" + s; PlainEnds(m) && m[0] == '0' && AllInBase(m, base, upper) && Value(m, base) == Value(s, base)
  {
    hide Value;
    ZerosValue(1, s, base);
    assert Repeat('0', 1) == "0";
  }

  /** Behind the sign comes a digit, and the digits behind the prefixes are the body. */
  lemma CoreReads(body: string, sharp: bool, base: nat, verb: char, digits: string)
    requires Base(base) && DigitSet(digits) && |body| >= 1 && AllInBase(body, base, digits == UDIGITS)
    ensures var c := Core(body, sharp, base, verb, digits);
            PlainEnds(c) && Unsigned(c, sharp, base, verb, digits == UDIGITS) == Some(Value(body, base))
  {
    hide Value, Mark, Unmark, Scan, AllInBase;
    MarkReads(body, sharp, base, digits);
    var m := if sharp then Mark(body, base, digits) else body;
    assert ("0o" + m)[..2] == "0o" && ("0o" + m)[2..] == m;
  }

  /** Blanks around a text do not matter. */
  lemma Trims(a: int, t: string, b: int)
    requires t != "" && t[0] != ' ' && t[|t| - 1] != ' '
    ensures TrimRight(TrimLeft(Repeat(' ', a) + t + Repeat(' ', b))) == t
  {
    hide TrimLeft, TrimRight;
    assert Repeat(' ', a) + t + Repeat(' ', b) == Repeat(' ', a) + (t + Repeat(' ', b));
    TrimLeftBlanks(a, t + Repeat(' ', b));
    TrimRightBlanks(b, t);
  }

  /** So it is with the blank that may stand for the sign. */
  lemma SignTrims(a: int, sign: string, core: string, b: int)
    requires sign in {"", "+", "-", " "} && core != "" && core[0] != ' ' && core[|core| - 1] != ' '
    ensures TrimRight(TrimLeft(Repeat(' ', a) + (sign + core) + Repeat(' ', b)))
         == if sign == " " then core else sign + core
  {
    hide TrimLeft, TrimRight;
    if sign == " " {
      var n := if a > 0 then a + 1 else 1;
      assert Repeat(' ', a) + (sign + core) == Repeat(' ', n) + core;
      Trims(n, core, b);
    } else {
      Trims(a, sign + core, b);
    }
  }

  lemma Padding(s: string, fl: Flags, wid: nat) returns (a: int, b: int)
    requires !fl.zero
    ensures PadText(s, fl, wid) == Repeat(' ', a) + s + Repeat(' ', b)
  {
    var n := if fl.widPresent && wid > 0 then wid - RuneCount(s) else 0;
    a, b := if fl.minus then 0 else n, if fl.minus then n else 0;
    assert Repeat(' ', 0) + s == s && Repeat(' ', a) + s + Repeat(' ', 0) == Repeat(' ', a) + s;
  }

  /** The digits denote the value: what is printed reads back as the integer, whatever
      the base, the flags, the width and the precision. */
  lemma ReadsBack(fl: Flags, wid: nat, prec: nat, x: int, base: nat, verb: char, digits: string)
    requires Base(base) && DigitSet(digits) && !Blank(fl, prec, x)
    ensures ReadBack(IntegerText(fl, wid, prec, x, base, verb, digits), fl.sharp, base, verb, digits == UDIGITS) == Some(x)
  {
    hide Body, Core, PadText, Value, Unsigned, Wanted, RuneCount, DigitSet, Repeat, Sign, ReadBack;
    var body := Body(Abs(x), base, digits, Wanted(fl, wid, prec, x));
    BodyReads(Abs(x), base, digits, Wanted(fl, wid, prec, x));
    CoreReads(body, fl.sharp, base, verb, digits);
    var core := Core(body, fl.sharp, base, verb, digits);
    var a, b := Padding(Sign(x < 0, fl) + core, Blanked(fl), wid);
    SignedReads(a, x, fl, core, b, base, verb, digits == UDIGITS);
  }

  lemma SignedReads(a: int, x: int, fl: Flags, core: string, b: int, base: nat, verb: char, upper: bool)
    requires PlainEnds(core) && Unsigned(core, fl.sharp, base, verb, upper) == Some(Abs(x))
    ensures ReadBack(Repeat(' ', a) + (Sign(x < 0, fl) + core) + Repeat(' ', b), fl.sharp, base, verb, upper) == Some(x)
  {
    hide Unsigned, TrimLeft, TrimRight, Repeat;
    var sign := Sign(x < 0, fl);
    SignTrims(a, sign, core, b);
    assert sign in {"+", "-"} ==> (sign + core)[1..] == core && (sign + core)[0] == sign[0];
    assert sign == "" ==> sign + core == core;
  }

  /** The sign: a minus for a negative number, else a plus or a blank if a flag asks for
      one, the plus first, else a digit at once. */
  lemma SignShown(fl: Flags, wid: nat, prec: nat, x: int, base: nat, verb: char, digits: string)
    requires Base(base) && DigitSet(digits)
    ensures var s := Number(fl, wid, prec, x, base, verb, digits);
            && s != "" && s[|s| - 1] != ' ' && (s[0] == '-' <==> x < 0)
            && (s[0] == '+' <==> x >= 0 && fl.plus) && (s[0] == ' ' <==> x >= 0 && !fl.plus && fl.space)
  {
    hide Body, Core, Value, Wanted, Unsigned, DigitSet;
    var body := Body(Abs(x), base, digits, Wanted(fl, wid, prec, x));
    BodyReads(Abs(x), base, digits, Wanted(fl, wid, prec, x));
    CoreReads(body, fl.sharp, base, verb, digits);
  }

  /** A precision gives at least so many digits, and no more than the number needs if it
      needs more. */
  lemma PrecisionDigits(u: nat, base: nat, digits: string, prec: nat)
    requires Base(base) && DigitSet(digits)
    ensures var n := |Digits(u, base, digits)|; |Body(u, base, digits, prec)| == if prec > n then prec else n
  {
  }

  /** So it is for the number: with a precision, sign and digits are all of it, unless there
      is a prefix. */
  lemma PrecisionFills(fl: Flags, wid: nat, prec: nat, x: int, base: nat, digits: string)
    requires Base(base) && DigitSet(digits) && fl.precPresent && !fl.sharp
    ensures var n := |Digits(Abs(x), base, digits)|;
            |Number(fl, wid, prec, x, base, 'd', digits)|
            == (if prec > n then prec else n) + if x < 0 || fl.plus || fl.space then 1 else 0
  {
    hide Digits;
  }

  /** With the zero flag the zeros stand between sign and digits and fill the width. */
  lemma ZeroFills(fl: Flags, wid: nat, prec: nat, x: int, base: nat, digits: string)
    requires Base(base) && DigitSet(digits) && fl.zero && !fl.minus && !fl.sharp && fl.widPresent && !fl.precPresent
    ensures var n := |Digits(Abs(x), base, digits)| + if x < 0 || fl.plus || fl.space then 1 else 0;
            |Number(fl, wid, prec, x, base, 'd', digits)| == if wid > n then wid else n
  {
    hide Digits;
  }

  predicate NoBlank(s: string) { forall k :: 0 <= k < |s| ==> s[k] != ' ' && s[k] < '\U{80}' }

  lemma CoreNoBlank(body: string, sharp: bool, base: nat, verb: char, digits: string)
    requires Base(base) && DigitSet(digits) && |body| >= 1 && AllInBase(body, base, digits == UDIGITS)
    ensures NoBlank(Core(body, sharp, base, verb, digits)) && |Core(body, sharp, base, verb, digits)| >= |body|
  {
    assert NoBlank(body);
    MarkIs(body, base, digits);
    hide Mark, AllInBase, DigitSet;
  }

  /** With the zero flag nothing is left to pad, and there is no blank but in place of the
      sign. */
  lemma ZeroText(fl: Flags, wid: nat, prec: nat, x: int, base: nat, verb: char, digits: string)
    requires Base(base) && DigitSet(digits) && fl.zero && !fl.minus && fl.widPresent && !fl.precPresent
    ensures var t := IntegerText(fl, wid, prec, x, base, verb, digits);
            t == Number(fl, wid, prec, x, base, verb, digits) && forall k :: 0 < k < |t| ==> t[k] != ' '
  {
    hide Digits, Core, DigitSet, RuneCount, Value;
    var w := Wanted(fl, wid, prec, x);
    var body := Body(Abs(x), base, digits, w);
    BodyReads(Abs(x), base, digits, w);
    CoreNoBlank(body, fl.sharp, base, verb, digits);
    var s := Number(fl, wid, prec, x, base, verb, digits);
    assert |s| >= wid && Ascii(s);
    AsciiRunes(s);
    NothingToPad(s, Blanked(fl), wid);
  }

  lemma NothingToPad(s: string, fl: Flags, wid: nat)
    requires RuneCount(s) >= wid
    ensures PadText(s, fl, wid) == s
  {
    hide RuneCount;
    assert "" + s == s && s + "" == s;
  }

  /** Where the number stands in the text, and how long that is. */
  lemma TextShape(fl: Flags, wid: nat, prec: nat, x: int, base: nat, verb: char, digits: string)
    requires Base(base) && DigitSet(digits)
    ensures var t, s := IntegerText(fl, wid, prec, x, base, verb, digits), Number(fl, wid, prec, x, base, verb, digits);
            && (Blank(fl, prec, x) ==> |t| == wid && forall k :: 0 <= k < |t| ==> t[k] == ' ')
            && (!Blank(fl, prec, x) ==>
                  && |s| <= |t| && (fl.widPresent ==> wid <= |t|)
                  && (if fl.minus then t[..|s|] == s else t[|t| - |s|..] == s))
  {
    hide Number, RuneCount, PadText;
    var s := Number(fl, wid, prec, x, base, verb, digits);
    PadSides(s, Blanked(fl), wid);
    PadFills(s, Blanked(fl), wid);
    RunesAtMost(PadText(s, Blanked(fl), wid));
  }

  // ------------------------------------------------------------------------- Unicode

  const MAX_RUNE := 0x10FFFF

  predicate Surrogate(r: nat) { 0xD800 <= r <= 0xDFFF }

  /** The UTF-8 encoding of a code point, a char for each byte. */
  function Encode(r: nat): (e: string)
    requires r <= MAX_RUNE
    ensures |e| == RuneLen(r)
  {
    if r <= 0x7F then [r as char]
    else if r <= 0x7FF then [(0xC0 + r / 64) as char, (0x80 + r % 64) as char]
    else if r <= 0xFFFF then [(0xE0 + r / 4096) as char, (0x80 + r / 64 % 64) as char, (0x80 + r % 64) as char]
    else [(0xF0 + r / 262144) as char, (0x80 + r / 4096 % 64) as char, (0x80 + r / 64 % 64) as char, (0x80 + r % 64) as char]
  }

  function RuneLen(r: nat): nat {
    if r <= 0x7F then 1 else if r <= 0x7FF then 2 else if r <= 0xFFFF then 3 else 4
  }

  lemma EncodeRunes(r: nat)
    requires r <= MAX_RUNE
    ensures RuneCount(Encode(r)) == 1
  {
    var e := Encode(r);
    assert e == [e[0]] + e[1..];
    RunesAppend([e[0]], e[1..]);
    Continues(e[1..]);
  }

  /** Continuation bytes start no rune. */
  lemma {:induction false} Continues(s: string)
    requires forall k :: 0 <= k < |s| ==> '\U{80}' <= s[k] < '\U{C0}'
    ensures RuneCount(s) == 0
    decreases |s|
  {
    if s != "" { Continues(s[..|s| - 1]); }
  }

  function UnicodePrec(fl: Flags, prec: nat): nat { if fl.precPresent && prec > 4 then prec else 4 }

  function Quoted(fl: Flags, u: nat, printable: bool): string {
    if fl.sharp && u <= MAX_RUNE && printable then " '" + Encode(u) + "'" else ""
  }

  function UnicodeText(fl: Flags, prec: nat, u: nat, printable: bool): string {
    "U+" + Body(u, 16, UDIGITS, UnicodePrec(fl, prec)) + Quoted(fl, u, printable)
  }

  function UnicodeRoom(fl: Flags, prec: nat): nat {
    if fl.precPresent && prec > 4 && 9 + prec > INTBUF then 9 + prec else INTBUF
  }

  lemma UnicodeFits(fl: Flags, prec: nat, u: nat, printable: bool)
    requires u <= MAX_UINT64
    ensures |UnicodeText(fl, prec, u, printable)| <= UnicodeRoom(fl, prec)
  {
    Hex64(u, UDIGITS);
  }

  /** The digits up to the first character that is none. */
  function LeadingDigits(s: string): (d: string)
    ensures AllDigits(d)
  {
    if s != "" && IsDigit(s[0]) then [s[0]] + LeadingDigits(s[1..]) else ""
  }

  lemma {:induction false} LeadingIs(d: string, rest: string)
    requires AllDigits(d) && (rest == "" || !IsDigit(rest[0]))
    ensures LeadingDigits(d + rest) == d
  {
    if d == "" {
      assert d + rest == rest;
    } else {
      assert (d + rest)[1..] == d[1..] + rest;
      LeadingIs(d[1..], rest);
    }
  }

  lemma LongBody(u: nat, wanted: nat)
    requires wanted >= 1
    ensures var d := Body(u, 16, UDIGITS, wanted); |d| >= wanted && (|d| > wanted ==> d[0] != '0')
  {
    var digits := Digits(u, 16, UDIGITS);
    LeadingDigit(u, 16, UDIGITS);
    if |digits| >= wanted { assert "" + digits == digits; }
  }

  /** The code point reads back from its digits, which are at least four. */
  lemma UnicodeReads(fl: Flags, prec: nat, u: nat, printable: bool)
    ensures var text := UnicodeText(fl, prec, u, printable);
            var d := LeadingDigits(text[2..]);
            && Value(d, 16) == u && AllInBase(d, 16, true) && |d| >= 4 && (fl.precPresent ==> |d| >= prec)
            && (|d| > 4 && (fl.precPresent ==> |d| > prec) ==> d[0] != '0')
            && text == "U+" + d + if fl.sharp && u <= MAX_RUNE && printable then " '" + Encode(u) + "'" else ""
  {
    hide Value, Digits, LeadingDigits, InBase, Encode;
    var d := Body(u, 16, UDIGITS, UnicodePrec(fl, prec));
    LongBody(u, UnicodePrec(fl, prec));
    BodyReads(u, 16, UDIGITS, UnicodePrec(fl, prec));
    assert UnicodeText(fl, prec, u, printable)[2..] == d + Quoted(fl, u, printable);
    LeadingIs(d, Quoted(fl, u, printable));
  }
}
