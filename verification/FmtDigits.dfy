/** Numerals: the digits of a number, right to left, and the number that digits denote. */
module FmtDigits {
  import SizeClasses

  const LDIGITS := "0123456789abcdefx"
  const UDIGITS := "0123456789ABCDEFX"

  const MAX_UINT64 := 0xFFFF_FFFF_FFFF_FFFF

  predicate Base(base: nat) { base in {2, 8, 10, 16} }

  predicate DigitSet(digits: string) { digits == LDIGITS || digits == UDIGITS }

  function Digits(u: nat, base: nat, digits: string): (r: string)
    requires Base(base) && DigitSet(digits)
    ensures |r| >= 1
    decreases u
  {
    if u < base then [digits[u]] else Digits(u / base, base, digits) + [digits[u % base]]
  }

  function Repeat(c: char, n: int): (r: string)
    ensures |r| == if n > 0 then n else 0
    ensures forall k :: 0 <= k < |r| ==> r[k] == c
  {
    if n <= 0 then "" else Repeat(c, n - 1) + [c]
  }

  function DigitVal(c: char): nat {
    if '0' <= c <= '9' then c as nat - '0' as nat
    else if 'a' <= c <= 'f' then c as nat - 'a' as nat + 10
    else if 'A' <= c <= 'F' then c as nat - 'A' as nat + 10
    else 0
  }

  /** The number that the digits denote. */
  function Value(s: string, base: nat): nat {
    if s == "" then 0 else Value(s[..|s| - 1], base) * base + DigitVal(s[|s| - 1])
  }

  /** A character of a numeral. */
  predicate IsDigit(c: char) { '0' <= c <= '9' || 'a' <= c <= 'f' || 'A' <= c <= 'F' }

  predicate AllDigits(s: string) { forall k :: 0 <= k < |s| ==> IsDigit(s[k]) }

  lemma DigitAt(d: nat, digits: string)
    requires DigitSet(digits) && d < 16
    ensures DigitVal(digits[d]) == d && IsDigit(digits[d])
    ensures d < 10 ==> digits[d] == ('0' as nat + d) as char
  {
  }

  lemma ValueSnoc(s: string, c: char, base: nat)
    ensures Value(s + [c], base) == Value(s, base) * base + DigitVal(c)
  {
    assert (s + [c])[..|s|] == s;
  }

  lemma DivMod(u: nat, base: nat)
    requires base > 0
    ensures u / base * base + u % base == u && u % base < base
  {
  }

  lemma ValueOne(c: char, base: nat)
    ensures Value([c], base) == DigitVal(c)
  {
    hide DigitVal;
    assert [c][..0] == "";
  }

  lemma OneDigit(u: nat, base: nat, digits: string)
    requires Base(base) && DigitSet(digits) && u < base
    ensures Digits(u, base, digits) == [digits[u]] && Value([digits[u]], base) == u && AllDigits([digits[u]])
  {
    hide Value, IsDigit, DigitVal;
    DigitAt(u, digits);
    ValueOne(digits[u], base);
  }

  lemma MoreDigits(u: nat, base: nat, digits: string)
    requires Base(base) && DigitSet(digits) && u >= base
    ensures var q := Digits(u / base, base, digits);
            && Digits(u, base, digits) == q + [digits[u % base]] && IsDigit(digits[u % base])
            && Value(Digits(u, base, digits), base) == Value(q, base) * base + u % base
  {
    hide Value, IsDigit, DigitVal;
    DivMod(u, base);
    DigitAt(u % base, digits);
    ValueSnoc(Digits(u / base, base, digits), digits[u % base], base);
  }

  /** The digits of a number denote it. */
  lemma {:induction false} DigitsValue(u: nat, base: nat, digits: string)
    requires Base(base) && DigitSet(digits)
    ensures Value(Digits(u, base, digits), base) == u
    ensures AllDigits(Digits(u, base, digits))
    decreases u
  {
    hide Digits, Value, IsDigit;
    if u < base {
      OneDigit(u, base, digits);
    } else {
      DigitsValue(u / base, base, digits);
      MoreDigits(u, base, digits);
      DivMod(u, base);
    }
  }

  /** A digit of the base, in upper or in lower case. */
  predicate InBase(c: char, base: nat, upper: bool) {
    DigitVal(c) < base && ('0' <= c <= '9' || (if upper then 'A' <= c <= 'F' else 'a' <= c <= 'f'))
  }

  predicate AllInBase(s: string, base: nat, upper: bool) { forall k :: 0 <= k < |s| ==> InBase(s[k], base, upper) }

  lemma DigitInBase(d: nat, base: nat, digits: string)
    requires Base(base) && DigitSet(digits) && d < base
    ensures InBase(digits[d], base, digits == UDIGITS)
  {
  }

  lemma {:induction false} DigitsInBase(u: nat, base: nat, digits: string)
    requires Base(base) && DigitSet(digits)
    ensures AllInBase(Digits(u, base, digits), base, digits == UDIGITS)
    decreases u
  {
    hide InBase, DigitSet;
    if u < base {
      DigitInBase(u, base, digits);
    } else {
      DigitsInBase(u / base, base, digits);
      DigitInBase(u % base, base, digits);
    }
  }

  /** Digits have no leading zero, unless the number is zero. */
  lemma {:induction false} LeadingDigit(u: nat, base: nat, digits: string)
    requires Base(base) && DigitSet(digits)
    ensures Digits(u, base, digits)[0] == '0' <==> u == 0
    decreases u
  {
    if u < base {
      DigitAt(u, digits);
    } else {
      LeadingDigit(u / base, base, digits);
    }
  }

  /** Zeros in front of digits do not change the value. */
  lemma {:induction false} ZerosValue(n: int, s: string, base: nat)
    ensures Value(Repeat('0', n) + s, base) == Value(s, base)
    decreases |s|, if n > 0 then n else 0
  {
    if s != "" {
      var t := s[..|s| - 1];
      ZerosValue(n, t, base);
      assert Repeat('0', n) + s == (Repeat('0', n) + t) + [s[|s| - 1]];
      ValueSnoc(Repeat('0', n) + t, s[|s| - 1], base);
    } else if n > 0 {
      ZerosValue(n - 1, "", base);
      ValueSnoc(Repeat('0', n - 1), '0', base);
      assert Repeat('0', n - 1) + "" == Repeat('0', n - 1) && Repeat('0', n) + "" == Repeat('0', n - 1) + ['0'];
    }
  }

  lemma Pow64()
    ensures SizeClasses.Pow2(64) == MAX_UINT64 + 1
  {
    hide SizeClasses.Pow2;
    SizeClasses.Pow2Constants();
    SizeClasses.Pow2Add(16, 16);
    SizeClasses.Pow2Add(32, 32);
  }

  /** One digit a bit is the most that any base needs. */
  lemma {:induction false} DigitsShort(u: nat, base: nat, digits: string, k: nat)
    requires Base(base) && DigitSet(digits) && k >= 1 && u < SizeClasses.Pow2(k)
    ensures |Digits(u, base, digits)| <= k
    decreases k
  {
    if u >= base {
      assert k > 1;
      SizeClasses.Pow2Next(k - 1);
      assert u / base <= u / 2;
      DigitsShort(u / base, base, digits, k - 1);
    }
  }

  lemma Digits64(u: nat, base: nat, digits: string)
    requires Base(base) && DigitSet(digits) && u <= MAX_UINT64
    ensures |Digits(u, base, digits)| <= 64
  {
    Pow64();
    DigitsShort(u, base, digits, 64);
  }

  lemma {:induction false} HexShort(u: nat, digits: string, k: nat)
    requires DigitSet(digits) && k >= 1 && u < SizeClasses.Pow2(4 * k)
    ensures |Digits(u, 16, digits)| <= k
    decreases k
  {
    hide SizeClasses.Pow2;
    SizeClasses.Pow2Add(4, 4 * (k - 1));
    SizeClasses.Pow2Constants();
    if u >= 16 {
      assert k > 1;
      assert 16 * SizeClasses.Pow2(4 * (k - 1)) == SizeClasses.Pow2(4 * k);
      HexShort(u / 16, digits, k - 1);
    }
  }

  lemma Hex64(u: nat, digits: string)
    requires DigitSet(digits) && u <= MAX_UINT64
    ensures |Digits(u, 16, digits)| <= 16
  {
    hide SizeClasses.Pow2;
    Pow64();
    HexShort(u, digits, 16);
  }
}
