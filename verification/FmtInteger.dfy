/** The raw formatter for integers: digits are written from right to left into a buffer,
    and the part that was written is padded and appended to the output. */
module FmtInteger {
  import opened FmtDigits
  import opened FmtText

  /** How a verb is handled. */
  datatype Outcome = Formatted | AsChar | AsQuotedChar | BadVerb

  /** The digits still to be written in front of what is. */
  ghost function ToWrite(u: nat, base: nat, digits: string, done: string): string
    requires Base(base) && DigitSet(digits)
  {
    Digits(u, base, digits) + done
  }

  lemma DigitsNext(u: nat, base: nat, digits: string, done: string)
    requires Base(base) && DigitSet(digits)
    ensures |digits| == 17 && |ToWrite(u, base, digits, done)| > |done|
    ensures u >= base ==> ToWrite(u / base, base, digits, [digits[u % base]] + done) == ToWrite(u, base, digits, done)
    ensures u < base ==> [digits[u]] + done == ToWrite(u, base, digits, done)
  {
  }

  /** Writes c in front of what is already written. */
  method Put(b: array<char>, i: nat, c: char) returns (k: nat)
    requires 0 < i <= b.Length
    modifies b
    ensures k == i - 1 && b[k..] == [c] + old(b[i..])
  {
    k := i - 1;
    b[k] := c;
    assert b[k..] == [b[k]] + b[i..];
  }

  method PutTwo(b: array<char>, i: nat, c: char, d: char) returns (k: nat)
    requires 2 <= i <= b.Length
    modifies b
    ensures k == i - 2 && b[k..] == [c, d] + old(b[i..])
  {
    k := Put(b, i, d);
    k := Put(b, k, c);
  }

  /** Writes the digits of a number, each base with its own loop. */
  method PutDigits(b: array<char>, start: nat, u0: nat, base: nat, digits: string) returns (i: nat)
    requires Base(base) && DigitSet(digits)
    requires |Digits(u0, base, digits)| <= start <= b.Length
    modifies b
    ensures i + |Digits(u0, base, digits)| == start
    ensures b[i..] == Digits(u0, base, digits) + old(b[start..])
  {
    hide Digits, DigitSet, ToWrite;
    var u: nat := u0;
    i := start;
    ghost var all := ToWrite(u0, base, digits, b[start..]);
    assert all == Digits(u0, base, digits) + b[start..] by { ToWriteIs(u0, base, digits, b[start..]); }
    if base == 10 {
      while u >= 10
        invariant i <= start && ToWrite(u, base, digits, b[i..]) == all
      {
        DigitsNext(u, base, digits, b[i..]);
        DigitAt(u % 10, digits);
        var next := u / 10;
        i := Put(b, i, ('0' as int + u - next * 10) as char);
        u := next;
      }
    } else if base == 16 {
      while u >= 16
        invariant i <= start && ToWrite(u, base, digits, b[i..]) == all
      {
        DigitsNext(u, base, digits, b[i..]);
        i := Put(b, i, digits[u % 16]);
        u := u / 16;
      }
    } else if base == 8 {
      while u >= 8
        invariant i <= start && ToWrite(u, base, digits, b[i..]) == all
      {
        DigitsNext(u, base, digits, b[i..]);
        DigitAt(u % 8, digits);
        i := Put(b, i, ('0' as int + u % 8) as char);
        u := u / 8;
      }
    } else {
      while u >= 2
        invariant i <= start && ToWrite(u, base, digits, b[i..]) == all
      {
        DigitsNext(u, base, digits, b[i..]);
        DigitAt(u % 2, digits);
        i := Put(b, i, ('0' as int + u % 2) as char);
        u := u / 2;
      }
    }
    DigitsNext(u, base, digits, b[i..]);
    i := Put(b, i, digits[u]);
  }

  lemma ToWriteIs(u: nat, base: nat, digits: string, done: string)
    requires Base(base) && DigitSet(digits)
    ensures ToWrite(u, base, digits, done) == Digits(u, base, digits) + done
  {
  }

  /** Writes zeros in front until there are as many digits as wanted. */
  method PutZeros(b: array<char>, start: nat, wanted: int) returns (i: nat)
    requires start <= b.Length && wanted <= b.Length
    modifies b
    ensures i <= start && b[i..] == Repeat('0', wanted - (b.Length - start)) + old(b[start..])
  {
    hide Repeat, Zeros;
    i := start;
    ghost var all, n := b[start..], wanted - (b.Length - start);
    ZerosAre(0, all);
    ZerosAre(n, all);
    while i > 0 && wanted > b.Length - i
      invariant 0 <= i <= start && (i < start ==> start - i <= n)
      invariant b[i..] == Zeros(start - i, all)
    {
      ZerosAre(start - i, all);
      i := Put(b, i, '0');
    }
    assert b[i..] == Zeros(n, all);
  }

  /** n zeros in front of s. */
  ghost function Zeros(n: int, s: string): string { Repeat('0', n) + s }

  lemma ZerosAre(n: int, s: string)
    ensures Zeros(n, s) == Repeat('0', n) + s
    ensures n <= 0 ==> Zeros(n, s) == s == Zeros(0, s)
    ensures n >= 0 ==> Zeros(n + 1, s) == ['0'] + Zeros(n, s)
  {
    if n >= 0 { RepeatMore('0', n, s); }
  }

  lemma RepeatMore(c: char, n: nat, s: string)
    ensures Repeat(c, n + 1) + s == [c] + (Repeat(c, n) + s)
  {
    hide Repeat;
    var l := Repeat(c, n + 1) + s;
    var r := [c] + (Repeat(c, n) + s);
    assert |l| == |r|;
    forall k | 0 <= k < |l| ensures l[k] == r[k] {}
  }

  method PutMark(b: array<char>, start: nat, base: nat, digits: string) returns (i: nat)
    requires Base(base) && DigitSet(digits) && start < b.Length
    requires |Mark(b[start..], base, digits)| <= b.Length
    modifies b
    ensures i <= start && b[i..] == Mark(old(b[start..]), base, digits)
  {
    i := start;
    assert b[start] == b[start..][0];
    if base == 2 {
      i := PutTwo(b, i, '0', 'b');
    } else if base == 8 {
      if b[i] != '0' { i := Put(b, i, '0'); }
    } else if base == 16 {
      i := PutTwo(b, i, '0', digits[16]);
    }
  }

  /** Writes the prefixes. */
  method PutPrefix(b: array<char>, start: nat, sharp: bool, base: nat, verb: char, digits: string) returns (i: nat)
    requires Base(base) && DigitSet(digits) && start < b.Length
    requires |Core(b[start..], sharp, base, verb, digits)| <= b.Length
    modifies b
    ensures i <= start && b[i..] == Core(old(b[start..]), sharp, base, verb, digits)
  {
    hide Mark;
    i := start;
    if sharp { i := PutMark(b, i, base, digits); }
    if verb == 'O' {
      i := PutTwo(b, i, '0', 'o');
    }
  }

  method PutSign(b: array<char>, start: nat, negative: bool, fl: Flags) returns (i: nat)
    requires |Sign(negative, fl)| <= start <= b.Length
    modifies b
    ensures i <= start && b[i..] == Sign(negative, fl) + old(b[start..])
  {
    i := start;
    if negative { i := Put(b, i, '-'); }
    else if fl.plus { i := Put(b, i, '+'); }
    else if fl.space { i := Put(b, i, ' '); }
  }

  /** Writes the number to the end of the buffer: it has room for it. */
  method PutNumber(b: array<char>, v: nat, negative: bool, wanted: int, fl: Flags, base: nat, verb: char, digits: string)
      returns (i: nat)
    requires Base(base) && DigitSet(digits)
    requires |Signed(v, negative, wanted, fl, base, verb, digits)| <= b.Length
    modifies b
    ensures i <= b.Length
    ensures b[i..] == Signed(v, negative, wanted, fl, base, verb, digits)
  {
    hide Digits, Core, Repeat, Sign;
    ghost var body := Body(v, base, digits, wanted);
    CoreGrows(body, fl.sharp, base, verb, digits);
    i := PutDigits(b, b.Length, v, base, digits);
    i := PutZeros(b, i, wanted);
    assert b[i..] == body;
    i := PutPrefix(b, i, fl.sharp, base, verb, digits);
    i := PutSign(b, i, negative, fl);
  }

  /** EncodeRune into the buffer, from start on. */
  method PutRune(b: array<char>, i: nat, r: nat) returns (k: nat)
    requires r <= MAX_RUNE && RuneLen(r) <= i <= b.Length
    modifies b
    ensures k == i - RuneLen(r) && b[k..] == Encode(r) + old(b[i..])
  {
    var e := Encode(r);
    assert |e| == RuneLen(r);
    hide Encode;
    var j := |e|;
    k := i;
    while j > 0
      invariant 0 <= j <= |e| && k == i - (|e| - j)
      invariant b[k..] == Tail(e, j, old(b[i..]))
    {
      hide Tail;
      TailMore(e, j, old(b[i..]));
      j := j - 1;
      k := Put(b, k, e[j]);
    }
    TailMore(e, 0, old(b[i..]));
  }

  ghost function Tail(e: string, j: nat, done: string): string
    requires j <= |e|
  {
    e[j..] + done
  }

  lemma TailMore(e: string, j: nat, done: string)
    requires j <= |e|
    ensures Tail(e, 0, done) == e + done
    ensures j > 0 ==> Tail(e, j - 1, done) == [e[j - 1]] + Tail(e, j, done)
  {
    assert e[0..] == e;
    if j > 0 { assert e[j - 1..] == [e[j - 1]] + e[j..]; }
  }

  method PutQuoted(b: array<char>, r: nat) returns (i: nat)
    requires r <= MAX_RUNE && b.Length >= 7
    modifies b
    ensures i <= b.Length && b[i..] == " '" + Encode(r) + "'"
  {
    i := Put(b, b.Length, '\U{27}');
    assert b[i..] == "'";
    i := PutRune(b, i, r);
    i := PutTwo(b, i, ' ', '\U{27}');
  }

  lemma CoreGrows(body: string, sharp: bool, base: nat, verb: char, digits: string)
    requires |body| >= 1 && DigitSet(digits)
    ensures |body| <= |Core(body, sharp, base, verb, digits)|
  {
  }

  lemma BlankText(fl: Flags, wid: nat, prec: nat, x: int, base: nat, verb: char, digits: string)
    requires Base(base) && DigitSet(digits) && Blank(fl, prec, x)
    ensures IntegerText(fl, wid, prec, x, base, verb, digits) == Repeat(' ', wid)
  {
  }

  lemma NumberText(fl: Flags, wid: nat, prec: nat, x: int, base: nat, verb: char, digits: string, v: nat, negative: bool, wanted: int)
    requires Base(base) && DigitSet(digits) && Abs(x) <= MAX_UINT64 && (verb == 'O' ==> base in {8, 10})
    requires !Blank(fl, prec, x) && v == Abs(x) && (negative <==> x < 0) && wanted == Wanted(fl, wid, prec, x)
    ensures var number := Signed(v, negative, wanted, fl, base, verb, digits);
            && IntegerText(fl, wid, prec, x, base, verb, digits) == PadText(number, Blanked(fl), wid)
            && |number| <= Room(fl, wid, prec)
  {
    hide Signed, PadText, Wanted, Blanked;
    Fits(fl, wid, prec, x, base, verb, digits);
  }

  class Fmt {
    var buf: string
    var flags: Flags
    var wid: int
    var prec: int
    const intbuf: array<char>

    ghost predicate Valid()
      reads this
    {
      intbuf.Length == INTBUF && wid >= 0 && prec >= 0
    }

    constructor ()
      ensures Valid() && fresh(intbuf) && buf == "" && wid == prec == 0
      ensures flags == Flags(false, false, false, false, false, false, false, false, false)
    {
      buf, wid, prec := "", 0, 0;
      flags := Flags(false, false, false, false, false, false, false, false, false);
      intbuf := new char[INTBUF];
    }

    method WritePadding(n: int)
      modifies this`buf
      ensures buf == old(buf) + Repeat(if flags.zero && !flags.minus then '0' else ' ', n)
    {
      if n <= 0 { return; }
      var padByte := ' ';
      if flags.zero && !flags.minus { padByte := '0'; }
      var i := 0;
      while i < n
        invariant 0 <= i <= n
        invariant buf == old(buf) + Repeat(padByte, i)
      {
        assert Repeat(padByte, i + 1) == Repeat(padByte, i) + [padByte];
        buf := buf + [padByte];
        i := i + 1;
      }
    }

    /** Go's RuneCount of text that is well-formed UTF-8. */
    method Pad(b: string)
      modifies this`buf
      ensures buf == old(buf) + PadText(b, flags, wid)
    {
      if !flags.widPresent || wid == 0 {
        buf := buf + b;
        return;
      }
      var width := wid - RuneCount(b);
      if !flags.minus {
        WritePadding(width);
        buf := buf + b;
      } else {
        buf := buf + b;
        WritePadding(width);
      }
    }

    /** The zero flag is off while the text is padded. */
    method PadBlank(b: string)
      modifies this`buf, this`flags
      ensures flags == old(flags)
      ensures buf == old(buf) + PadText(b, Blanked(flags), wid)
    {
      var oldZero := flags.zero;
      flags := flags.(zero := false);
      Pad(b);
      flags := flags.(zero := oldZero);
    }

    method WriteBlank()
      modifies this`buf, this`flags
      ensures flags == old(flags) && buf == old(buf) + Repeat(' ', wid)
    {
      var oldZero := flags.zero;
      flags := flags.(zero := false);
      WritePadding(wid);
      flags := flags.(zero := oldZero);
    }

    /** Formats an integer; u is its 64 bits. */
    method FmtInteger(u: nat, base: nat, isSigned: bool, verb: char, digits: string)
      requires Valid() && u <= MAX_UINT64 && Base(base) && DigitSet(digits)
      requires verb == 'O' ==> base in {8, 10}
      modifies this`buf, this`flags, intbuf
      ensures Valid() && flags == old(flags)
      ensures buf == old(buf) + IntegerText(flags, wid, prec, Integer(u, isSigned), base, verb, digits)
    {
      hide Signed, Repeat, PadText, IntegerText, Number, Blanked;
      var negative := isSigned && u > MAX_UINT64 / 2;
      var v: nat := u;
      if negative { v := MAX_UINT64 + 1 - u; }
      ghost var x := Integer(u, isSigned);
      var b := intbuf;
      if flags.widPresent || flags.precPresent {
        var width := 3 + wid + prec;
        if width > b.Length { b := new char[width]; }
      }

      var wanted := 0;
      if flags.precPresent {
        wanted := prec;
        if wanted == 0 && v == 0 {
          BlankText(flags, wid, prec, x, base, verb, digits);
          WriteBlank();
          return;
        }
      } else if flags.zero && !flags.minus && flags.widPresent {
        wanted := wid;
        if negative || flags.plus || flags.space { wanted := wanted - 1; }
      }
      NumberText(flags, wid, prec, x, base, verb, digits, v, negative, wanted);
      PadNumber(b, v, negative, wanted, base, verb, digits);
    }

    /** Writes the number into the buffer b and pads it. */
    method PadNumber(b: array<char>, v: nat, negative: bool, wanted: int, base: nat, verb: char, digits: string)
      requires Base(base) && DigitSet(digits) && |Signed(v, negative, wanted, flags, base, verb, digits)| <= b.Length
      modifies this`buf, this`flags, b
      ensures flags == old(flags)
      ensures buf == old(buf) + PadText(Signed(v, negative, wanted, flags, base, verb, digits), Blanked(flags), wid)
    {
      hide Signed, PadText, Blanked;
      var i := PutNumber(b, v, negative, wanted, flags, base, verb, digits);
      PadBlank(b[i..]);
    }

    /** Formats a code point; printable is the answer of strconv.IsPrint. */
    method FmtUnicode(u: nat, printable: bool)
      requires Valid() && u <= MAX_UINT64
      requires printable && u <= MAX_RUNE ==> !Surrogate(u)
      modifies this`buf, this`flags, intbuf
      ensures Valid() && flags == old(flags)
      ensures buf == old(buf) + PadText(UnicodeText(flags, prec, u, printable), Blanked(flags), wid)
    {
      hide Body, Digits, Repeat, PadText, RuneCount, Encode, RuneLen;
      var b := intbuf;
      var wanted := 4;
      if flags.precPresent && prec > 4 {
        wanted := prec;
        var width := 2 + wanted + 2 + 4 + 1;
        if width > b.Length { b := new char[width]; }
      }
      UnicodeFits(flags, prec, u, printable);
      var i := b.Length;
      if flags.sharp && u <= MAX_RUNE && printable { i := PutQuoted(b, u); }
      assert b[i..] == Quoted(flags, u, printable);
      i := PutCodePoint(b, i, u, wanted);
      PadBlank(b[i..]);
    }

    /** Hexadecimal with or without a prefix; the sharp flag is put back. */
    method Fmt0x64(v: nat, leading0x: bool)
      requires Valid() && v <= MAX_UINT64
      modifies this`buf, this`flags, intbuf
      ensures Valid() && flags == old(flags)
      ensures buf == old(buf) + IntegerText(flags.(sharp := leading0x), wid, prec, v, 16, 'v', LDIGITS)
    {
      hide IntegerText;
      var sharp := flags.sharp;
      flags := flags.(sharp := leading0x);
      FmtInteger(v, 16, false, 'v', LDIGITS);
      flags := flags.(sharp := sharp);
    }

    /** The verbs for integers; %c, %q and verbs that are none of them are left to others. */
    method PrintInteger(v: nat, isSigned: bool, verb: char, printable: bool) returns (o: Outcome)
      requires Valid() && v <= MAX_UINT64
      requires printable && v <= MAX_RUNE ==> !Surrogate(v)
      modifies this`buf, this`flags, intbuf
      ensures Valid() && flags == old(flags)
      ensures o.Formatted? <==> verb in {'v', 'd', 'b', 'o', 'O', 'x', 'X', 'U'}
      ensures o.AsChar? <==> verb == 'c'
      ensures o.AsQuotedChar? <==> verb == 'q'
      ensures o.Formatted? && verb != 'U' ==>
                buf == old(buf) + IntegerText(VerbFlags(flags, isSigned, verb), wid, prec, Integer(v, isSigned),
                                              VerbBase(flags, isSigned, verb), verb, if verb == 'X' then UDIGITS else LDIGITS)
      ensures verb == 'U' ==>
                buf == old(buf) + PadText(UnicodeText(flags, prec, v, printable), Blanked(flags), wid)
      ensures !o.Formatted? ==> buf == old(buf)
      ensures |old(buf)| <= |buf| && buf[..|old(buf)|] == old(buf)
      ensures o.Formatted? && verb != 'U' && !Blank(flags, prec, Integer(v, isSigned)) ==>
                ReadsAs(buf[|old(buf)|..], Integer(v, isSigned), flags, isSigned, verb)
    {
      hide IntegerText, PadText, UnicodeText, ReadsAs, Blank;
      o := Formatted;
      if verb in {'v', 'd', 'b', 'o', 'O', 'x', 'X'} { TextReads(flags, wid, prec, Integer(v, isSigned), isSigned, verb); }
      match verb
      case 'v' => {
        if flags.sharpV && !isSigned { Fmt0x64(v, true); } else { FmtInteger(v, 10, isSigned, verb, LDIGITS); }
      }
      case 'd' => { FmtInteger(v, 10, isSigned, verb, LDIGITS); }
      case 'b' => { FmtInteger(v, 2, isSigned, verb, LDIGITS); }
      case 'o' => { FmtInteger(v, 8, isSigned, verb, LDIGITS); }
      case 'O' => { FmtInteger(v, 8, isSigned, verb, LDIGITS); }
      case 'x' => { FmtInteger(v, 16, isSigned, verb, LDIGITS); }
      case 'X' => { FmtInteger(v, 16, isSigned, verb, UDIGITS); }
      case 'c' => { o := AsChar; }
      case 'q' => { o := AsQuotedChar; }
      case 'U' => { FmtUnicode(v, printable); }
      case _ => { o := BadVerb; }
    }
  }

  /** What the text for a verb denotes: %d is decimal, %b binary, %o and %O octal, %x and
      %X hexadecimal, and %v is decimal unless # asks for Go syntax of an unsigned integer,
      which is hexadecimal with its prefix. */
  ghost predicate ReadsAs(text: string, x: int, fl: Flags, isSigned: bool, verb: char) {
    && (verb == 'd' ==> ReadBack(text, fl.sharp, 10, verb, false) == Some(x))
    && (verb == 'b' ==> ReadBack(text, fl.sharp, 2, verb, false) == Some(x))
    && (verb in {'o', 'O'} ==> ReadBack(text, fl.sharp, 8, verb, false) == Some(x))
    && (verb == 'x' ==> ReadBack(text, fl.sharp, 16, verb, false) == Some(x))
    && (verb == 'X' ==> ReadBack(text, fl.sharp, 16, verb, true) == Some(x))
    && (verb == 'v' && (isSigned || !fl.sharpV) ==> ReadBack(text, fl.sharp, 10, verb, false) == Some(x))
    && (verb == 'v' && !isSigned && fl.sharpV ==> ReadBack(text, true, 16, verb, false) == Some(x))
  }

  lemma TextReads(fl: Flags, wid: nat, prec: nat, x: int, isSigned: bool, verb: char)
    requires verb in {'v', 'd', 'b', 'o', 'O', 'x', 'X'}
    ensures !Blank(fl, prec, x) ==>
              ReadsAs(IntegerText(VerbFlags(fl, isSigned, verb), wid, prec, x, VerbBase(fl, isSigned, verb), verb, if verb == 'X' then UDIGITS else LDIGITS),
                      x, fl, isSigned, verb)
  {
    hide IntegerText, ReadBack;
    assert LDIGITS != UDIGITS by { assert LDIGITS[10] != UDIGITS[10]; }
    if !Blank(fl, prec, x) {
      ReadsBack(VerbFlags(fl, isSigned, verb), wid, prec, x, VerbBase(fl, isSigned, verb), verb, if verb == 'X' then UDIGITS else LDIGITS);
    }
  }

  /** %#v of an unsigned integer is hexadecimal. */
  function VerbBase(fl: Flags, isSigned: bool, verb: char): (base: nat)
    ensures Base(base)
  {
    if verb == 'b' then 2
    else if verb in {'o', 'O'} then 8
    else if verb in {'x', 'X'} || (verb == 'v' && fl.sharpV && !isSigned) then 16
    else 10
  }

  function VerbFlags(fl: Flags, isSigned: bool, verb: char): Flags {
    if verb == 'v' && fl.sharpV && !isSigned then fl.(sharp := true) else fl
  }

  /** Writes "U+" and the digits in front of what is written. */
  method PutCodePoint(b: array<char>, start: nat, u: nat, wanted: nat) returns (i: nat)
    requires start <= b.Length && 2 + |Body(u, 16, UDIGITS, wanted)| <= start
    modifies b
    ensures i <= start && b[i..] == "U+" + Body(u, 16, UDIGITS, wanted) + old(b[start..])
  {
    hide Digits, Repeat, Body;
    BodyIs(u, wanted, b[start..]);
    i := PutDigits(b, start, u, 16, UDIGITS);
    i := PutZeros(b, i, b.Length - start + wanted);
    i := PutTwo(b, i, 'U', '+');
  }

  lemma BodyIs(u: nat, wanted: nat, done: string)
    ensures var all, zeros := Digits(u, 16, UDIGITS), Repeat('0', wanted - |Digits(u, 16, UDIGITS)|);
            && zeros + (all + done) == Body(u, 16, UDIGITS, wanted) + done
            && "U+" + Body(u, 16, UDIGITS, wanted) + done == ['U', '+'] + (Body(u, 16, UDIGITS, wanted) + done)
            && |Body(u, 16, UDIGITS, wanted)| == |zeros| + |all|
  {
    hide Digits, Repeat;
  }
}
