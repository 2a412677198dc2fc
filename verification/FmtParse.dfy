/** The part of Printf that reads a directive: flags, argument indexes, width and
    precision. It establishes what the formatter of integers needs. */
module FmtParse {
  import opened FmtDigits
  import opened FmtText
  import FmtInteger

  const MAX_NUM := 1_000_000
  const MAX_INT64 := 0x7FFF_FFFF_FFFF_FFFF

  /** An argument: of a signed or unsigned integer type, or of another one. */
  datatype Arg = IntArg(n: int) | UintArg(u: nat) | OtherArg

  predicate TooLarge(x: int) { x > MAX_NUM || x < -MAX_NUM }

  predicate IsDecimal(c: char) { '0' <= c <= '9' }

  /** The end of the decimal digits that start at i. */
  function RunEnd(s: string, i: nat, end: nat): (k: nat)
    requires i <= end <= |s|
    ensures i <= k <= end && (k < end ==> !IsDecimal(s[k])) && forall j :: i <= j < k ==> IsDecimal(s[j])
    decreases end - i
  {
    if i < end && IsDecimal(s[i]) then RunEnd(s, i + 1, end) else i
  }

  /** All digits but the last already make too large a number. */
  predicate NumTooLong(run: string) { run != "" && Value(run[..|run| - 1], 10) > MAX_NUM }

  lemma {:induction false} ValueMono(s: string, a: nat, b: nat)
    requires a <= b <= |s|
    ensures Value(s[..a], 10) <= Value(s[..b], 10)
    decreases b
  {
    if a < b {
      ValueMono(s, a, b - 1);
      assert s[..b][..b - 1] == s[..b - 1];
    }
  }

  /** No digits are no number, also at the end of the format. */
  lemma EmptyRun(s: string, i: nat)
    requires i <= |s| && (i < |s| ==> !IsDecimal(s[i]))
    ensures RunEnd(s, i, |s|) == i && Value(s[i..i], 10) == 0 && !NumTooLong(s[i..i])
  {
  }

  lemma NotPresent(run: string)
    ensures !FlagsOf(run).widPresent && !FlagsOf(run).precPresent
  {
  }

  lemma NotTooLong(s: string, i: nat)
    requires i <= |s|
    ensures Value(s[i..i], 10) == 0 && !NumTooLong(s[i..i])
  {
  }

  lemma RunGrows(s: string, start: nat, i: nat)
    requires start <= i < |s| && IsDecimal(s[i])
    ensures Value(s[start..i + 1], 10) == Value(s[start..i], 10) * 10 + (s[i] as int - '0' as int)
  {
    assert s[start..i + 1] == s[start..i] + [s[i]];
    ValueSnoc(s[start..i], s[i], 10);
  }

  /** The number is too long exactly if it is too large before one of its digits. */
  lemma NumTooLongAt(s: string, start: nat, i: nat, k: nat)
    requires start <= i < k <= |s| && (Value(s[start..i], 10) > MAX_NUM || i == k - 1)
    ensures NumTooLong(s[start..k]) <==> Value(s[start..i], 10) > MAX_NUM
  {
    var run := s[start..k];
    ValueMono(run, i - start, |run| - 1);
    assert run[..i - start] == s[start..i];
  }

  /** A number read is the one that the digits denote; a number of too many digits is
      none, and then the rest of the format is skipped. */
  method ParseNum(s: string, start: nat, end: nat) returns (num: nat, isnum: bool, newi: nat)
    requires end <= |s|
    ensures start > end ==> num == 0 && !isnum && newi == end
    ensures start <= end ==>
              var k := RunEnd(s, start, end);
              if NumTooLong(s[start..k]) then num == 0 && !isnum && newi == end
              else num == Value(s[start..k], 10) && isnum == (start < k) && newi == k
    ensures num <= 10 * MAX_NUM + 9 && (!isnum ==> num == 0) && newi <= end && (start <= end ==> start <= newi)
  {
    if start >= end { return 0, false, end; }
    NotTooLong(s, start);
    hide Value, RunEnd, NumTooLong;
    num, isnum, newi := 0, false, start;
    ghost var k := RunEnd(s, start, end);
    while newi < end && '0' <= s[newi] <= '9'
      invariant start <= newi <= k && num == Value(s[start..newi], 10) && isnum == (start < newi)
      invariant newi > start ==> Value(s[start..newi - 1], 10) <= MAX_NUM && num <= 10 * MAX_NUM + 9
    {
      if TooLarge(num) {
        NumTooLongAt(s, start, newi, k);
        return 0, false, end;
      }
      RunGrows(s, start, newi);
      num := num * 10 + (s[newi] as int - '0' as int);
      isnum := true;
      newi := newi + 1;
    }
    if start < newi { NumTooLongAt(s, start, newi - 1, k); }
  }

  /** An integer argument of either kind, if it is not too large for a width. */
  predicate SmallInt(arg: Arg) {
    match arg
    case IntArg(n) => !TooLarge(n)
    case UintArg(u) => u <= MAX_NUM
    case OtherArg => false
  }

  method IntFromArg(a: seq<Arg>, argNum: nat) returns (num: int, isInt: bool, newArgNum: nat)
    requires ArgsOk(a)
    ensures isInt <==> argNum < |a| && SmallInt(a[argNum])
    ensures isInt ==> num == if a[argNum].IntArg? then a[argNum].n else a[argNum].u
    ensures !isInt ==> num == 0
    ensures !TooLarge(num)
    ensures newArgNum == if argNum < |a| then argNum + 1 else argNum
  {
    num, isInt, newArgNum := 0, false, argNum;
    if argNum < |a| {
      match a[argNum] {
        case IntArg(n) => { num, isInt := n, true; }
        case UintArg(u) => { if u <= MAX_INT64 { num, isInt := u, true; } }
        case OtherArg => {}
      }
      newArgNum := argNum + 1;
      if TooLarge(num) { num, isInt := 0, false; }
    }
  }

  /** The index of the first closing bracket from i on, or the length. */
  function Close(s: string, i: nat): (k: nat)
    requires i <= |s|
    ensures i <= k <= |s| && (k < |s| ==> s[k] == ']') && forall j :: i <= j < k ==> s[j] != ']'
    decreases |s| - i
  {
    if i < |s| && s[i] != ']' then Close(s, i + 1) else i
  }

  /** The inside of the brackets is a number. */
  predicate IsIndex(s: string, k: nat)
    requires 1 <= k <= |s|
  {
    1 < k && RunEnd(s, 1, k) == k && !NumTooLong(s[1..k])
  }

  /** The number in brackets at the front, less one; wid is what to skip. */
  method ParseArgNumber(format: string) returns (index: int, wid: nat, ok: bool)
    requires format != "" && format[0] == '['
    ensures 1 <= wid <= |format|
    ensures ok <==> |format| >= 3 && Close(format, 1) < |format| && IsIndex(format, Close(format, 1))
    ensures ok ==> wid == Close(format, 1) + 1 && index == Value(format[1..Close(format, 1)], 10) - 1
  {
    if |format| < 3 { return 0, 1, false; }
    var i: nat := 1;
    while i < |format|
      invariant 1 <= i <= |format| && Close(format, 1) == Close(format, i)
    {
      if format[i] == ']' {
        var width: int, good, newi := ParseNum(format, 1, i);
        if !good || newi != i { return 0, i + 1, false; }
        return width - 1, i + 1, true;
      }
      i := i + 1;
    }
    return 0, 1, false;
  }

  predicate IsFlag(c: char) { c in {'#', '0', '+', '-', ' '} }

  /** The end of the flags that start at i. */
  function FlagsEnd(s: string, i: nat): (k: nat)
    requires i <= |s|
    ensures i <= k <= |s| && (k < |s| ==> !IsFlag(s[k])) && forall j :: i <= j < k ==> IsFlag(s[j])
    decreases |s| - i
  {
    if i < |s| && IsFlag(s[i]) then FlagsEnd(s, i + 1) else i
  }

  function FlagsOf(run: string): Flags {
    Flags(false, false, '-' in run, '+' in run, '#' in run, ' ' in run, '0' in run, false, false)
  }

  function WithWid(fl: Flags, present: bool): (r: Flags)
    ensures r.widPresent == present && r.precPresent == fl.precPresent
  {
    fl.(widPresent := present)
  }

  function WithPrec(fl: Flags, present: bool): (r: Flags)
    ensures r.precPresent == present && r.widPresent == fl.widPresent
  {
    fl.(precPresent := present)
  }

  predicate HasPrec(s: string, k: nat) { k + 1 < |s| && s[k] == '.' }

  /** Where the verb is, when the width ends at k. */
  function VerbAt(s: string, k: nat): (m: nat)
    requires k <= |s|
    ensures k <= m <= |s|
  {
    if HasPrec(s, k) then RunEnd(s, k + 1, |s|) else k
  }

  predicate Directs(s: string, i: nat) { i < |s| && s[i] in {'[', '*'} }

  /** From i on there is a directive without argument indexes and stars, and with numbers
      that can be read. */
  predicate Plain(s: string, i: nat)
    requires i <= |s|
  {
    PlainSizes(s, FlagsEnd(s, i))
  }

  predicate PlainSizes(s: string, j: nat)
    requires j <= |s|
  {
    var k := RunEnd(s, j, |s|);
    && !Directs(s, j) && !NumTooLong(s[j..k])
    && (HasPrec(s, k) ==> !Directs(s, k + 1) && !NumTooLong(s[k + 1..VerbAt(s, k)]))
    && !Directs(s, VerbAt(s, k))
  }

  lemma PlainParts(s: string, j: nat)
    requires j <= |s|
    ensures PlainSizes(s, j) ==>
              var k := RunEnd(s, j, |s|);
              var m := VerbAt(s, k);
              && !Directs(s, j) && !NumTooLong(s[j..k]) && !Directs(s, m)
              && (HasPrec(s, k) ==> m == RunEnd(s, k + 1, |s|) && !Directs(s, k + 1) && !NumTooLong(s[k + 1..m]))
              && (!HasPrec(s, k) ==> m == k)
  {
  }

  /** At i there is an index in brackets that names an argument. */
  predicate ValidIndex(s: string, i: nat, numArgs: nat)
    requires i < |s|
  {
    var rest := s[i..];
    |rest| >= 3 && Close(rest, 1) < |rest| && IsIndex(rest, Close(rest, 1)) && 1 <= Value(rest[1..Close(rest, 1)], 10) <= numArgs
  }

  /** The argument that the index names, counted from zero, and where the index ends. */
  function IndexAt(s: string, i: nat): nat
    requires i < |s|
  {
    var n := Value(s[i..][1..Close(s[i..], 1)], 10);
    if n > 0 then n - 1 else 0
  }

  function IndexEnd(s: string, i: nat): nat
    requires i < |s|
  {
    i + Close(s[i..], 1) + 1
  }

  /** A star, and then the verb. */
  predicate StarOnly(s: string, i: nat) {
    i < |s| && s[i] == '*' && (i + 1 < |s| ==> s[i + 1] !in {'.', '['})
  }

  lemma StarEnds(s: string, i: nat)
    ensures StarOnly(s, i) ==> i < |s| && s[i] == '*' && !HasPrec(s, i + 1) && (i + 1 < |s| ==> s[i + 1] != '[')
  {
  }

  lemma IndexEnds(s: string, i: nat)
    ensures IndexOnly(s, i) && IndexEnd(s, i) <= |s| ==>
              var e := IndexEnd(s, i);
              s[i] == '[' && RunEnd(s, e, |s|) == e && !Directs(s, e) && !HasPrec(s, e)
  {
  }

  /** An index in brackets, and then the verb. */
  predicate IndexOnly(s: string, i: nat) {
    && i < |s| && s[i] == '['
    && (IndexEnd(s, i) < |s| ==> !IsDecimal(s[IndexEnd(s, i)]) && s[IndexEnd(s, i)] !in {'.', '[', '*'})
  }

  function NextArg(argNum: nat, numArgs: nat): nat { if argNum < numArgs then argNum + 1 else argNum }

  /** The flags for a width that is an argument. */
  function StarFlags(fl: Flags, arg: int): Flags { if arg < 0 then fl.(widPresent := true, minus := true, zero := false) else fl.(widPresent := true) }

  function SmallIntOf(arg: Arg): int { match arg case IntArg(n) => n case UintArg(u) => u case OtherArg => 0 }

  class Printer {
    const fmt: FmtInteger.Fmt
    var reordered: bool
    var goodArgNum: bool

    constructor ()
      ensures fresh(fmt) && fmt.Valid() && fresh(fmt.intbuf)
    {
      fmt := new FmtInteger.Fmt();
      reordered, goodArgNum := false, true;
    }

    /** The next argument to use: the given one, or the one that an index names. */
    method ArgNumber(argNum: nat, format: string, i: nat, numArgs: nat) returns (newArgNum: nat, newi: nat, found: bool)
      requires i <= |format|
      modifies this`reordered, this`goodArgNum
      ensures i <= newi <= |format|
      ensures i == |format| || format[i] != '[' ==>
                newArgNum == argNum && newi == i && !found && goodArgNum == old(goodArgNum) && reordered == old(reordered)
      ensures i < |format| && format[i] == '[' ==> i < newi && reordered
      ensures newArgNum != argNum ==> newArgNum < numArgs && found
      ensures goodArgNum ==> old(goodArgNum)
      ensures i < |format| && format[i] == '[' ==>
                if ValidIndex(format, i, numArgs)
                then found && newArgNum == IndexAt(format, i) < numArgs && newi == IndexEnd(format, i) && goodArgNum == old(goodArgNum)
                else newArgNum == argNum && !goodArgNum
    {
      hide Close, IsIndex, Value;
      if |format| <= i || format[i] != '[' { return argNum, i, false; }
      reordered := true;
      var rest := format[i..];
      var index, wid, ok := ParseArgNumber(rest);
      if ok && 0 <= index < numArgs {
        return index, i + wid, true;
      }
      goodArgNum := false;
      return argNum, i + wid, ok;
    }

    method ParseFlags(format: string, start: nat, numArgs: nat, argNum: nat) returns (i: nat, simple: bool)
      requires start <= |format|
      modifies fmt`flags, fmt`wid, fmt`prec
      ensures i == FlagsEnd(format, start) && fmt.flags == FlagsOf(format[start..i]) && fmt.wid == fmt.prec == 0
      ensures simple <==> i < |format| && 'a' <= format[i] <= 'z' && argNum < numArgs
    {
      fmt.flags, fmt.wid, fmt.prec := FlagsOf(""), 0, 0;
      i := start;
      while i < |format|
        invariant start <= i <= |format| && FlagsEnd(format, start) == FlagsEnd(format, i)
        invariant fmt.flags == FlagsOf(format[start..i]) && fmt.wid == fmt.prec == 0
      {
        var c := format[i];
        assert format[start..i + 1] == format[start..i] + [c];
        match c {
          case '#' => { fmt.flags := fmt.flags.(sharp := true); }
          case '0' => { fmt.flags := fmt.flags.(zero := true); }
          case '+' => { fmt.flags := fmt.flags.(plus := true); }
          case '-' => { fmt.flags := fmt.flags.(minus := true); }
          case ' ' => { fmt.flags := fmt.flags.(space := true); }
          case _ => { return i, 'a' <= c <= 'z' && argNum < numArgs; }
        }
        i := i + 1;
      }
      simple := false;
    }

    /** A negative width asks for padding on the right. */
    method ParseWidth(format: string, start: nat, a: seq<Arg>, argNum0: nat, afterIndex0: bool)
        returns (i: nat, argNum: nat, afterIndex: bool)
      requires start <= |format| && ArgsOk(a)
      modifies this`goodArgNum, fmt`flags, fmt`wid, fmt`buf
      ensures start <= i <= |format| && argNum >= argNum0 && (goodArgNum ==> old(goodArgNum))
      ensures 0 <= fmt.wid <= 10 * MAX_NUM + 9 && (!fmt.flags.widPresent ==> fmt.wid == 0)
      ensures fmt.flags.precPresent == old(fmt.flags).precPresent
      ensures !Directs(format, start) && !afterIndex0 ==>
                var k := RunEnd(format, start, |format|);
                && argNum == argNum0 && !afterIndex && goodArgNum == old(goodArgNum) && fmt.buf == old(fmt.buf)
                && (!NumTooLong(format[start..k]) ==>
                      && i == k && fmt.wid == Value(format[start..k], 10)
                      && fmt.flags == WithWid(old(fmt.flags), start < k))
      ensures start < |format| && format[start] == '*' ==>
                && i == start + 1 && argNum == NextArg(argNum0, |a|) && !afterIndex && goodArgNum == old(goodArgNum)
                && if argNum0 < |a| && SmallInt(a[argNum0])
                   then fmt.wid == Abs(SmallIntOf(a[argNum0])) && fmt.flags == StarFlags(old(fmt.flags), SmallIntOf(a[argNum0])) && fmt.buf == old(fmt.buf)
                   else fmt.wid == 0 && fmt.flags == old(fmt.flags).(widPresent := false) && fmt.buf == old(fmt.buf) + BAD_WIDTH
      ensures !Directs(format, start) && afterIndex0 ==>
                var k := RunEnd(format, start, |format|);
                && argNum == argNum0 && afterIndex && fmt.buf == old(fmt.buf)
                && (start < k && !NumTooLong(format[start..k]) ==> !goodArgNum)
                && (start == k ==> i == start && fmt.wid == 0 && fmt.flags == WithWid(old(fmt.flags), false) && goodArgNum == old(goodArgNum))
    {
      hide Value, RunEnd, NumTooLong;
      i, argNum, afterIndex := start, argNum0, afterIndex0;
      if i < |format| && format[i] == '*' {
        i := i + 1;
        var w, present;
        w, present, argNum := IntFromArg(a, argNum);
        fmt.wid, fmt.flags := w, fmt.flags.(widPresent := present);
        if !present { fmt.buf := fmt.buf + BAD_WIDTH; }
        if fmt.wid < 0 {
          fmt.wid := -fmt.wid;
          fmt.flags := fmt.flags.(minus := true, zero := false);
        }
        afterIndex := false;
      } else {
        var w, present;
        w, present, i := ParseNum(format, i, |format|);
        if RunEnd(format, start, |format|) == start { EmptyRun(format, start); }
        fmt.wid, fmt.flags := w, fmt.flags.(widPresent := present);
        if afterIndex && present { goodArgNum := false; }
      }
    }

    /** A negative precision counts as none. */
    method ParsePrec(format: string, start: nat, a: seq<Arg>, argNum0: nat, afterIndex0: bool)
        returns (i: nat, argNum: nat, afterIndex: bool)
      requires start <= |format| && ArgsOk(a)
      requires fmt.prec == 0 && !fmt.flags.precPresent
      modifies this, fmt`flags, fmt`prec, fmt`buf
      ensures start <= i <= |format| && (goodArgNum ==> old(goodArgNum))
      ensures 0 <= fmt.prec <= 10 * MAX_NUM + 9 && (!fmt.flags.precPresent ==> fmt.prec == 0)
      ensures fmt.flags == WithPrec(old(fmt.flags), fmt.flags.precPresent)
      ensures !HasPrec(format, start) ==>
                && i == start && argNum == argNum0 && afterIndex == afterIndex0 && !fmt.flags.precPresent
                && fmt.buf == old(fmt.buf) && goodArgNum == old(goodArgNum)
      ensures HasPrec(format, start) && !Directs(format, start + 1) && !afterIndex0 ==>
                var k := RunEnd(format, start + 1, |format|);
                && argNum == argNum0 && !afterIndex && fmt.buf == old(fmt.buf) && goodArgNum == old(goodArgNum)
                && fmt.flags.precPresent
                && (!NumTooLong(format[start + 1..k]) ==> i == k && fmt.prec == Value(format[start + 1..k], 10))
      ensures HasPrec(format, start) && format[start + 1] == '*' && !afterIndex0 ==>
                && i == start + 2 && argNum == NextArg(argNum0, |a|) && !afterIndex && goodArgNum == old(goodArgNum)
                && (fmt.flags.precPresent <==> argNum0 < |a| && SmallInt(a[argNum0]) && SmallIntOf(a[argNum0]) >= 0)
                && (fmt.flags.precPresent ==> fmt.prec == SmallIntOf(a[argNum0]))
                && fmt.buf == if fmt.flags.precPresent then old(fmt.buf) else old(fmt.buf) + BAD_PREC
      ensures HasPrec(format, start) && afterIndex0 ==> !goodArgNum
    {
      hide Value, RunEnd, NumTooLong, ValidIndex;
      i, argNum, afterIndex := start, argNum0, afterIndex0;
      if i + 1 < |format| && format[i] == '.' {
        i := i + 1;
        if afterIndex { goodArgNum := false; }
        argNum, i, afterIndex := ArgNumber(argNum, format, i, |a|);
        if i < |format| && format[i] == '*' {
          i := i + 1;
          argNum := PrecFromArg(a, argNum);
          afterIndex := false;
        } else {
          i := PrecFromFormat(format, i);
        }
      }
    }

    method PrecFromArg(a: seq<Arg>, argNum0: nat) returns (argNum: nat)
      requires ArgsOk(a) && fmt.prec == 0 && !fmt.flags.precPresent
      modifies fmt`flags, fmt`prec, fmt`buf
      ensures 0 <= fmt.prec <= MAX_NUM && fmt.flags == WithPrec(old(fmt.flags), fmt.flags.precPresent)
      ensures fmt.flags.precPresent <==>
                argNum0 < |a| && SmallInt(a[argNum0]) && (a[argNum0].IntArg? ==> a[argNum0].n >= 0)
      ensures fmt.prec == if !fmt.flags.precPresent then 0 else SmallIntOf(a[argNum0])
      ensures argNum == NextArg(argNum0, |a|)
      ensures if fmt.flags.precPresent then fmt.buf == old(fmt.buf) else fmt.buf == old(fmt.buf) + BAD_PREC
    {
      hide WithPrec;
      var p, present;
      p, present, argNum := IntFromArg(a, argNum0);
      if p < 0 { p, present := 0, false; }
      fmt.prec, fmt.flags := p, WithPrec(fmt.flags, present);
      if !present { fmt.buf := fmt.buf + BAD_PREC; }
    }

    method PrecFromFormat(format: string, start: nat) returns (i: nat)
      requires start <= |format|
      modifies fmt`flags, fmt`prec
      ensures start <= i <= |format|
      ensures 0 <= fmt.prec <= 10 * MAX_NUM + 9 && fmt.flags == WithPrec(old(fmt.flags), true)
      ensures var k := RunEnd(format, start, |format|);
              !NumTooLong(format[start..k]) ==> i == k && fmt.prec == Value(format[start..k], 10)
    {
      hide Value, RunEnd, NumTooLong;
      var p, present;
      p, present, i := ParseNum(format, start, |format|);
      fmt.prec, fmt.flags := p, WithPrec(fmt.flags, present);
      if !fmt.flags.precPresent {
        fmt.prec, fmt.flags := 0, WithPrec(fmt.flags, true);
      }
    }

    /** Width and precision, with the argument indexes around them. */
    method ParseSizes(format: string, start: nat, a: seq<Arg>, argNum0: nat) returns (i: nat, argNum: nat)
      requires start <= |format| && ArgsOk(a)
      requires fmt.prec == 0 && !fmt.flags.precPresent
      modifies this, fmt`flags, fmt`wid, fmt`prec, fmt`buf
      ensures start <= i <= |format|
      ensures 0 <= fmt.wid <= 10 * MAX_NUM + 9 && (!fmt.flags.widPresent ==> fmt.wid == 0)
      ensures 0 <= fmt.prec <= 10 * MAX_NUM + 9 && (!fmt.flags.precPresent ==> fmt.prec == 0)
      ensures PlainSizes(format, start) ==>
                var k := RunEnd(format, start, |format|);
                && i == VerbAt(format, k) && argNum == argNum0 && goodArgNum == old(goodArgNum) && fmt.buf == old(fmt.buf)
                && fmt.wid == Value(format[start..k], 10)
                && (HasPrec(format, k) ==> fmt.prec == Value(format[k + 1..i], 10))
                && fmt.flags == WithPrec(WithWid(old(fmt.flags), start < k), HasPrec(format, k))
      ensures StarOnly(format, start) && argNum0 < |a| && SmallInt(a[argNum0]) ==>
                && i == start + 1 && argNum == argNum0 + 1 && goodArgNum == old(goodArgNum) && fmt.buf == old(fmt.buf)
                && fmt.wid == Abs(SmallIntOf(a[argNum0])) && fmt.prec == 0
                && fmt.flags == WithPrec(StarFlags(old(fmt.flags), SmallIntOf(a[argNum0])), false)
      ensures IndexOnly(format, start) ==>
                if ValidIndex(format, start, |a|)
                then i == IndexEnd(format, start) && argNum == IndexAt(format, start) < |a| && goodArgNum == old(goodArgNum) && fmt.buf == old(fmt.buf)
                     && fmt.wid == fmt.prec == 0 && fmt.flags == WithPrec(WithWid(old(fmt.flags), false), false)
                else !goodArgNum
    {
      hide PlainSizes, RunEnd, VerbAt, HasPrec, NumTooLong, Value, WithWid, WithPrec, SmallInt, Close, ValidIndex, IndexEnd, IndexAt;
      ghost var plain, k := PlainSizes(format, start), RunEnd(format, start, |format|);
      ghost var m := VerbAt(format, k);
      PlainParts(format, start);
      ghost var star := StarOnly(format, start) && argNum0 < |a| && SmallInt(a[argNum0]);
      ghost var index := IndexOnly(format, start) && ValidIndex(format, start, |a|);
      StarEnds(format, start);
      IndexEnds(format, start);
      hide StarOnly, IndexOnly, StarFlags, NextArg;
      var afterIndex;
      argNum, i, afterIndex := ArgNumber(argNum0, format, start, |a|);
      assert plain ==> i == start && !afterIndex;
      assert star ==> i == start && argNum == argNum0;
      assert index ==> i == IndexEnd(format, start) && argNum == IndexAt(format, start) && afterIndex;
      assert IndexOnly(format, start) && !index ==> !goodArgNum;
      i, argNum, afterIndex := ParseWidth(format, i, a, argNum, afterIndex);
      assert plain ==> i == k && !afterIndex && argNum == argNum0;
      i, argNum, afterIndex := ParsePrec(format, i, a, argNum, afterIndex);
      assert plain ==> i == m && !afterIndex && argNum == argNum0;
      if !afterIndex {
        argNum, i, afterIndex := ArgNumber(argNum, format, i, |a|);
      }
    }

    /** Reads a directive up to its verb. Whatever the format and the arguments are, the
        width and the precision are not negative, and zero where they are not present; a
        directive in numbers gives just these numbers and flags. */
    method Directive(format: string, start: nat, a: seq<Arg>, argNum0: nat) returns (i: nat, argNum: nat)
      requires start <= |format| && ArgsOk(a) && fmt.intbuf.Length == INTBUF
      modifies this, fmt`flags, fmt`wid, fmt`prec, fmt`buf
      ensures start <= i <= |format| && fmt.Valid()
      ensures fmt.wid <= 10 * MAX_NUM + 9 && (!fmt.flags.widPresent ==> fmt.wid == 0)
      ensures fmt.prec <= 10 * MAX_NUM + 9 && (!fmt.flags.precPresent ==> fmt.prec == 0)
      ensures Plain(format, start) ==>
                var j := FlagsEnd(format, start);
                var k := RunEnd(format, j, |format|);
                && i == VerbAt(format, k) && argNum == argNum0 && goodArgNum && fmt.buf == old(fmt.buf)
                && fmt.wid == Value(format[j..k], 10)
                && (HasPrec(format, k) ==> fmt.prec == Value(format[k + 1..i], 10))
                && fmt.flags == WithPrec(WithWid(FlagsOf(format[start..j]), j < k), HasPrec(format, k))
      ensures var j := FlagsEnd(format, start);
              StarOnly(format, j) && argNum0 < |a| && SmallInt(a[argNum0]) ==>
                && i == j + 1 && argNum == argNum0 + 1 && goodArgNum && fmt.buf == old(fmt.buf)
                && fmt.wid == Abs(SmallIntOf(a[argNum0])) && fmt.prec == 0
                && fmt.flags == WithPrec(StarFlags(FlagsOf(format[start..j]), SmallIntOf(a[argNum0])), false)
      ensures var j := FlagsEnd(format, start);
              IndexOnly(format, j) ==>
                if ValidIndex(format, j, |a|)
                then i == IndexEnd(format, j) && argNum == IndexAt(format, j) < |a| && goodArgNum && fmt.buf == old(fmt.buf)
                     && fmt.wid == fmt.prec == 0 && fmt.flags == WithPrec(WithWid(FlagsOf(format[start..j]), false), false)
                else !goodArgNum
    {
      hide Value, RunEnd, FlagsEnd, NumTooLong, FlagsOf, IndexAt, IndexEnd, ValidIndex, SmallInt, StarFlags, Close;
      goodArgNum := true;
      var simple;
      i, simple := ParseFlags(format, start, |a|, argNum0);
      NotPresent(format[start..i]);
      if simple {
        argNum := argNum0;
        EmptyRun(format, i);
        return;
      }
      i, argNum := ParseSizes(format, i, a, argNum0);
    }

    /** Prints one argument as a directive says. Arguments that are no integers, and the
        verbs for characters, are left to others; so are verbs outside ASCII. */
    method PrintOne(format: string, start: nat, a: seq<Arg>, argNum0: nat, printable: bool)
        returns (i: nat, argNum: nat, o: FmtInteger.Outcome)
      requires start <= |format| && ArgsOk(a) && fmt.intbuf.Length == INTBUF
      requires forall k :: 0 <= k < |a| && printable && Bits(a[k]) <= MAX_RUNE ==> !Surrogate(Bits(a[k]))
      modifies this, fmt, fmt.intbuf
      ensures start <= i <= |format| && fmt.Valid()
      ensures Plain(format, start) && argNum0 < |a| && !a[argNum0].OtherArg? ==>
                var j := FlagsEnd(format, start);
                var k := RunEnd(format, j, |format|);
                var m := VerbAt(format, k);
                m < |format| && format[m] in INTEGER_VERBS ==>
                  var fl := WithPrec(WithWid(FlagsOf(format[start..j]), j < k), HasPrec(format, k));
                  && i == m + 1 && argNum == argNum0 + 1 && o.Formatted?
                  && fmt.buf == old(fmt.buf) + Printed(AtVerb(fl, format[m]), Value(format[j..k], 10),
                                                       if HasPrec(format, k) then Value(format[k + 1..m], 10) else 0,
                                                       a[argNum0], format[m])
                  && (!(HasPrec(format, k) && Value(format[k + 1..m], 10) == 0 && IntegerOf(a[argNum0]) == 0) ==>
                        |old(fmt.buf)| <= |fmt.buf|
                        && Denotes(fmt.buf[|old(fmt.buf)|..], IntegerOf(a[argNum0]), '#' in format[start..j], a[argNum0].IntArg?, format[m]))
      ensures Plain(format, start) ==>
                var m := VerbAt(format, RunEnd(format, FlagsEnd(format, start), |format|));
                && (m == |format| ==> fmt.buf == old(fmt.buf) + NO_VERB && argNum == argNum0)
                && (m < |format| && format[m] == '%' ==> fmt.buf == old(fmt.buf) + "%" && argNum == argNum0)
                && (m < |format| && format[m] != '%' && argNum0 >= |a| ==>
                      fmt.buf == old(fmt.buf) + ("%!" + [format[m]] + MISSING) && argNum == argNum0)
      ensures var j := FlagsEnd(format, start);
              StarOnly(format, j) && argNum0 + 1 < |a| && SmallInt(a[argNum0]) && !a[argNum0 + 1].OtherArg?
              && j + 1 < |format| && format[j + 1] in INTEGER_VERBS ==>
                var w := SmallIntOf(a[argNum0]);
                var fl := WithPrec(StarFlags(FlagsOf(format[start..j]), w), false);
                && i == j + 2 && argNum == argNum0 + 2
                && fmt.buf == old(fmt.buf) + Printed(AtVerb(fl, format[j + 1]), Abs(w), 0, a[argNum0 + 1], format[j + 1])
      ensures var j := FlagsEnd(format, start);
              IndexOnly(format, j) && ValidIndex(format, j, |a|) && !a[IndexAt(format, j)].OtherArg?
              && IndexEnd(format, j) < |format| && format[IndexEnd(format, j)] in INTEGER_VERBS ==>
                var e := IndexEnd(format, j);
                var fl := WithPrec(WithWid(FlagsOf(format[start..j]), false), false);
                && i == e + 1 && argNum == IndexAt(format, j) + 1
                && fmt.buf == old(fmt.buf) + Printed(AtVerb(fl, format[e]), 0, 0, a[IndexAt(format, j)], format[e])
      ensures IndexOnly(format, FlagsEnd(format, start)) && !ValidIndex(format, FlagsEnd(format, start), |a|) ==>
                o == FmtInteger.BadVerb
    {
      hide Value, RunEnd, FlagsEnd, NumTooLong, FlagsOf, WithPrec, WithWid, Plain, IntegerText, PadText, UnicodeText, Denotes, FmtInteger.ReadsAs;
      hide StarOnly, IndexOnly, ValidIndex, IndexEnd, StarFlags, SmallInt, AtVerb;
      PlainDenotes(format, start, a, argNum0);
      hide Printed;
      i, argNum := Directive(format, start, a, argNum0);
      ghost var before := fmt.buf;
      i, argNum, o := PrintVerb(format, i, a, argNum, printable);
      assert |before| <= |fmt.buf| ==> fmt.buf == fmt.buf[..|before|] + fmt.buf[|before|..];
      forall t: string | fmt.buf == before + t ensures |before| <= |fmt.buf| && fmt.buf[|before|..] == t { }
    }

    /** The verb of a directive that was read, or what is missing. */
    method PrintVerb(format: string, start: nat, a: seq<Arg>, argNum0: nat, printable: bool)
        returns (i: nat, argNum: nat, o: FmtInteger.Outcome)
      requires start <= |format| && ArgsOk(a) && fmt.Valid()
      requires forall k :: 0 <= k < |a| && printable && Bits(a[k]) <= MAX_RUNE ==> !Surrogate(Bits(a[k]))
      modifies fmt, fmt.intbuf
      ensures start <= i <= |format| && fmt.Valid()
      ensures start == |format| ==> fmt.buf == old(fmt.buf) + NO_VERB && argNum == argNum0 && o == FmtInteger.BadVerb
      ensures start < |format| ==>
                var verb := format[start];
                && i == start + 1
                && (verb == '%' ==> fmt.buf == old(fmt.buf) + "%" && argNum == argNum0 && o == FmtInteger.BadVerb)
                && (verb != '%' && !goodArgNum ==>
                      fmt.buf == old(fmt.buf) + ("%!" + [verb] + BAD_INDEX) && argNum == argNum0 && o == FmtInteger.BadVerb)
                && (verb != '%' && goodArgNum && argNum0 >= |a| ==>
                      fmt.buf == old(fmt.buf) + ("%!" + [verb] + MISSING) && argNum == argNum0 && o == FmtInteger.BadVerb)
                && (verb in INTEGER_VERBS && goodArgNum && argNum0 < |a| && !a[argNum0].OtherArg? ==>
                      && argNum == argNum0 + 1 && o.Formatted?
                      && fmt.buf == old(fmt.buf) + Printed(AtVerb(old(fmt.flags), verb), old(fmt.wid), old(fmt.prec), a[argNum0], verb))
    {
      hide PadText, UnicodeText, IntegerText, FmtInteger.ReadsAs, AtVerb;
      o, i, argNum := FmtInteger.BadVerb, start, argNum0;
      if i >= |format| {
        fmt.buf := fmt.buf + NO_VERB;
        return;
      }
      var verb := format[i];
      i := i + 1;
      if verb == '%' {
        fmt.buf := fmt.buf + "%";
      } else if !goodArgNum {
        fmt.buf := fmt.buf + ("%!" + [verb] + BAD_INDEX);
      } else if argNum >= |a| {
        fmt.buf := fmt.buf + ("%!" + [verb] + MISSING);
      } else {
        fmt.flags := AtVerb(fmt.flags, verb);
        if !a[argNum].OtherArg? {
          o := fmt.PrintInteger(Bits(a[argNum]), a[argNum].IntArg?, verb, printable);
        }
        argNum := argNum + 1;
      }
    }
  }

  const INTEGER_VERBS := {'v', 'd', 'b', 'o', 'O', 'x', 'X'}

  /** %v and %w take the flags # and + as flags of their own. */
  function AtVerb(fl: Flags, verb: char): Flags {
    if verb in {'v', 'w'} then fl.(sharpV := fl.sharp, sharp := false, plusV := fl.plus, plus := false) else fl
  }

  /** The 64 bits of an integer argument. */
  function Bits(arg: Arg): nat {
    match arg
    case IntArg(n) => if n >= 0 then n else if n >= -MAX_INT64 - 1 then n + MAX_UINT64 + 1 else 0
    case UintArg(u) => u
    case OtherArg => 0
  }

  /** The text for an integer argument. */
  function Printed(fl: Flags, wid: nat, prec: nat, arg: Arg, verb: char): string {
    var x := if arg.IntArg? then arg.n else Bits(arg);
    IntegerText(FmtInteger.VerbFlags(fl, arg.IntArg?, verb), wid, prec, x, FmtInteger.VerbBase(fl, arg.IntArg?, verb), verb,
                if verb == 'X' then UDIGITS else LDIGITS)
  }

  /** What a directive is to print, from its flag characters: %d decimal, %b binary, %o and
      %O octal, %x and %X hexadecimal, with a prefix for #; %v decimal, and for # and an
      unsigned argument hexadecimal with a prefix. */
  ghost predicate Denotes(text: string, x: int, sharp: bool, isSigned: bool, verb: char) {
    match verb
    case 'd' => ReadBack(text, sharp, 10, verb, false) == Some(x)
    case 'b' => ReadBack(text, sharp, 2, verb, false) == Some(x)
    case 'o' => ReadBack(text, sharp, 8, verb, false) == Some(x)
    case 'O' => ReadBack(text, sharp, 8, verb, false) == Some(x)
    case 'x' => ReadBack(text, sharp, 16, verb, false) == Some(x)
    case 'X' => ReadBack(text, sharp, 16, verb, true) == Some(x)
    case 'v' => if sharp && !isSigned then ReadBack(text, true, 16, verb, false) == Some(x) else ReadBack(text, false, 10, verb, false) == Some(x)
    case _ => false
  }

  function WrittenFlags(run: string, wid: Option<nat>, prec: Option<nat>): Flags {
    WithPrec(WithWid(FlagsOf(run), wid.Some?), prec.Some?)
  }

  function OrZero(n: Option<nat>): nat { if n.Some? then n.value else 0 }

  function IntegerOf(arg: Arg): int { if arg.IntArg? then arg.n else Bits(arg) }

  /** For every directive as it is written: the text denotes the argument in the base of the
      verb and has the width; with the flag - it begins with the number, and without it
      ends with it; a sign is shown for a negative number and for the flag +, and a blank in
      its place for a blank flag; with the flag 0 there are no other blanks. */
  lemma PrintedIs(run: string, wid: Option<nat>, prec: Option<nat>, arg: Arg, verb: char)
    requires verb in INTEGER_VERBS && !arg.OtherArg?
    ensures var x := IntegerOf(arg);
            var text := Printed(AtVerb(WrittenFlags(run, wid, prec), verb), OrZero(wid), OrZero(prec), arg, verb);
            && OrZero(wid) <= |text|
            && if prec == Some(0) && x == 0 then forall k :: 0 <= k < |text| ==> text[k] == ' '
               else
                 && Denotes(text, x, '#' in run, arg.IntArg?, verb)
                 && text != ""
                 && ('-' in run ==>
                       && (text[0] == '-' <==> x < 0) && (text[0] == '+' <==> x >= 0 && '+' in run && verb != 'v')
                       && (text[0] == ' ' <==> x >= 0 && ' ' in run && !('+' in run && verb != 'v')))
                 && ('0' in run && '-' !in run && wid.Some? && prec.None? ==> forall k :: 0 < k < |text| ==> text[k] != ' ')
                 && ('-' !in run ==> text[|text| - 1] != ' ')
  {
    hide IntegerText, Number, ReadBack, FmtInteger.ReadsAs, Denotes, AtVerb, WrittenFlags, FmtInteger.VerbFlags, FmtInteger.VerbBase, Bits;
    var x := IntegerOf(arg);
    var fl0 := AtVerb(WrittenFlags(run, wid, prec), verb);
    var fl := FmtInteger.VerbFlags(fl0, arg.IntArg?, verb);
    FlagsKept(run, wid, prec, arg.IntArg?, verb);
    var base := FmtInteger.VerbBase(fl0, arg.IntArg?, verb);
    var digits := if verb == 'X' then UDIGITS else LDIGITS;
    FmtInteger.TextReads(fl0, OrZero(wid), OrZero(prec), x, arg.IntArg?, verb);
    VerbDenotes(IntegerText(fl, OrZero(wid), OrZero(prec), x, base, verb, digits), x, WrittenFlags(run, wid, prec), arg.IntArg?, verb);
    TextShape(fl, OrZero(wid), OrZero(prec), x, base, verb, digits);
    SignShown(fl, OrZero(wid), OrZero(prec), x, base, verb, digits);
    EndsOf(IntegerText(fl, OrZero(wid), OrZero(prec), x, base, verb, digits), Number(fl, OrZero(wid), OrZero(prec), x, base, verb, digits), '-' in run);
    if '0' in run && '-' !in run && wid.Some? && prec.None? { ZeroText(fl, OrZero(wid), OrZero(prec), x, base, verb, digits); }
  }

  lemma EndsOf(t: string, s: string, minus: bool)
    ensures s != "" && |s| <= |t| && (if minus then t[..|s|] == s else t[|t| - |s|..] == s) ==>
              t != "" && if minus then t[0] == s[0] else t[|t| - 1] == s[|s| - 1]
  {
  }

  lemma FlagsKept(run: string, wid: Option<nat>, prec: Option<nat>, isSigned: bool, verb: char)
    ensures var fl0 := WrittenFlags(run, wid, prec);
            var fl := FmtInteger.VerbFlags(AtVerb(fl0, verb), isSigned, verb);
            && fl0.sharp == ('#' in run) && !fl0.sharpV
            && fl.minus == AtVerb(fl0, verb).minus == ('-' in run) && fl.plus == ('+' in run && verb !in {'v', 'w'})
            && fl.space == (' ' in run) && fl.zero == ('0' in run)
            && fl.widPresent == wid.Some? && fl.precPresent == AtVerb(fl0, verb).precPresent == prec.Some?
  {
  }

  /** The same for a directive where it stands in a format. */
  lemma PlainDenotes(format: string, start: nat, a: seq<Arg>, argNum: nat)
    requires start <= |format|
    ensures Plain(format, start) && argNum < |a| && !a[argNum].OtherArg? ==>
              var j := FlagsEnd(format, start);
              var k := RunEnd(format, j, |format|);
              var m := VerbAt(format, k);
              m < |format| && format[m] in INTEGER_VERBS
              && !(HasPrec(format, k) && Value(format[k + 1..m], 10) == 0 && IntegerOf(a[argNum]) == 0) ==>
                var fl := WithPrec(WithWid(FlagsOf(format[start..j]), j < k), HasPrec(format, k));
                Denotes(Printed(AtVerb(fl, format[m]), Value(format[j..k], 10), if HasPrec(format, k) then Value(format[k + 1..m], 10) else 0,
                                a[argNum], format[m]),
                        IntegerOf(a[argNum]), '#' in format[start..j], a[argNum].IntArg?, format[m])
  {
    hide RunEnd, FlagsEnd, Printed, Denotes, Plain, AtVerb, FlagsOf, WithPrec, WithWid;
    var j := FlagsEnd(format, start);
    var k := RunEnd(format, j, |format|);
    var m := VerbAt(format, k);
    if argNum < |a| && !a[argNum].OtherArg? && m < |format| && format[m] in INTEGER_VERBS {
      var wid := if j < k then Some(Value(format[j..k], 10)) else None;
      var prec := if HasPrec(format, k) then Some(Value(format[k + 1..m], 10)) else None;
      assert j == k ==> Value(format[j..k], 10) == 0;
      PrintedIs(format[start..j], wid, prec, a[argNum], format[m]);
    }
  }

  lemma VerbDenotes(text: string, x: int, fl: Flags, isSigned: bool, verb: char)
    requires verb in INTEGER_VERBS && !fl.sharpV
    ensures FmtInteger.ReadsAs(text, x, AtVerb(fl, verb), isSigned, verb) ==> Denotes(text, x, fl.sharp, isSigned, verb)
  {
    hide ReadBack;
  }

  const BAD_WIDTH := "%!(BADWIDTH)"
  const BAD_PREC := "%!(BADPREC)"
  const NO_VERB := "%!(NOVERB)"
  const BAD_INDEX := "(BADINDEX)"
  const MISSING := "(MISSING)"

  /** Arguments have at most 64 bits. */
  ghost predicate ArgsOk(a: seq<Arg>) {
    && (forall k :: 0 <= k < |a| && a[k].IntArg? ==> -MAX_INT64 - 1 <= a[k].n <= MAX_INT64)
    && (forall k :: 0 <= k < |a| && a[k].UintArg? ==> a[k].u <= MAX_UINT64)
  }

  // ------------------------------------------------------- directives as they are written

  function Decimal(n: nat): string { Digits(n, 10, LDIGITS) }

  function WidthText(wid: Option<nat>): string { if wid.Some? then Decimal(wid.value) else "" }

  function PrecText(prec: Option<nat>): string { if prec.Some? then "." + Decimal(prec.value) else "" }

  predicate AllDecimal(s: string) { forall k :: 0 <= k < |s| ==> IsDecimal(s[k]) }

  lemma {:induction false} DecimalDigits(n: nat)
    ensures AllDecimal(Decimal(n))
    decreases n
  {
    if n < 10 {
      DigitAt(n, LDIGITS);
    } else {
      DigitAt(n % 10, LDIGITS);
      DecimalDigits(n / 10);
    }
  }

  lemma DecimalReads(n: nat)
    requires n <= MAX_NUM
    ensures Value(Decimal(n), 10) == n && AllDecimal(Decimal(n)) && !NumTooLong(Decimal(n))
  {
    hide Value;
    DecimalDigits(n);
    DigitsValue(n, 10, LDIGITS);
    if n >= 10 {
      DigitsValue(n / 10, 10, LDIGITS);
      assert Decimal(n)[..|Decimal(n)| - 1] == Decimal(n / 10);
    } else {
      NotTooLong(Decimal(n), 0);
      assert Decimal(n)[..0] == Decimal(n)[0..0];
    }
  }

  lemma {:induction false} RunEndIs(s: string, i: nat, k: nat)
    requires i <= k <= |s| && (forall j :: i <= j < k ==> IsDecimal(s[j])) && (k < |s| ==> !IsDecimal(s[k]))
    ensures RunEnd(s, i, |s|) == k
    decreases k - i
  {
    if i < k { RunEndIs(s, i + 1, k); }
  }

  lemma {:induction false} FlagsEndIs(s: string, i: nat, k: nat)
    requires i <= k <= |s| && (forall j :: i <= j < k ==> IsFlag(s[j])) && (k < |s| ==> !IsFlag(s[k]))
    ensures FlagsEnd(s, i) == k
    decreases k - i
  {
    if i < k { FlagsEndIs(s, i + 1, k); }
  }

  predicate VerbChar(c: char) { !IsFlag(c) && !IsDecimal(c) && c !in {'.', '[', '*'} }

  /** At i there is a directive written with these flags, width, precision and verb. */
  predicate WrittenAt(s: string, i: nat, run: string, wid: Option<nat>, prec: Option<nat>, verb: char) {
    var j := i + |run|;
    var k := j + |WidthText(wid)|;
    var m := k + |PrecText(prec)|;
    m < |s| && s[i..j] == run && s[j..k] == WidthText(wid) && s[k..m] == PrecText(prec) && s[m] == verb
  }

  lemma AllInSlice(s: string, i: nat, k: nat, run: string)
    requires i <= k <= |s| && s[i..k] == run
    ensures AllDecimal(run) ==> forall x :: i <= x < k ==> IsDecimal(s[x])
    ensures AllFlags(run) ==> forall x :: i <= x < k ==> IsFlag(s[x])
  {
    forall x | i <= x < k ensures s[x] == run[x - i] {}
  }

  predicate AllFlags(run: string) { forall k :: 0 <= k < |run| ==> IsFlag(run[k]) }

  /** What Directive finds from i on are these flags, width, precision and verb. */
  predicate ReadAs(s: string, i: nat, run: string, wid: Option<nat>, prec: Option<nat>, verb: char)
    requires i <= |s|
  {
    var j := FlagsEnd(s, i);
    var k := RunEnd(s, j, |s|);
    var m := VerbAt(s, k);
    && Plain(s, i) && s[i..j] == run && (j < k <==> wid.Some?) && (HasPrec(s, k) <==> prec.Some?)
    && Value(s[j..k], 10) == (if wid.Some? then wid.value else 0)
    && (prec.Some? ==> Value(s[k + 1..m], 10) == prec.value)
    && m < |s| && s[m] == verb
  }

  /** A directive written with flags, a positive width and a precision is read as such. */
  lemma DirectiveReads(s: string, i: nat, run: string, wid: Option<nat>, prec: Option<nat>, verb: char)
    requires WrittenAt(s, i, run, wid, prec, verb)
    requires AllFlags(run) && VerbChar(verb)
    requires wid.Some? ==> 1 <= wid.value <= MAX_NUM
    requires prec.Some? ==> prec.value <= MAX_NUM
    ensures ReadAs(s, i, run, wid, prec, verb)
  {
    hide Value, NumTooLong, RunEnd, FlagsEnd, WidthText, PrecText, AllFlags, VerbAt;
    var j := i + |run|;
    var k := j + |WidthText(wid)|;
    PrecRead(s, k, prec, verb);
    WidthRead(s, j, wid, s[k]);
    assert !Directs(s, j) && (j < |s| ==> !IsFlag(s[j]));
    AllInSlice(s, i, j, run);
    FlagsEndIs(s, i, j);
  }

  lemma WidthRead(s: string, j: nat, wid: Option<nat>, next: char)
    requires wid.Some? ==> 1 <= wid.value <= MAX_NUM
    requires j + |WidthText(wid)| < |s| && s[j..j + |WidthText(wid)|] == WidthText(wid)
    requires s[j + |WidthText(wid)|] == next && !IsDecimal(next) && !IsFlag(next) && next !in {'[', '*'}
    ensures var k := RunEnd(s, j, |s|);
            && k == j + |WidthText(wid)| && !Directs(s, j) && !IsFlag(s[j]) && !NumTooLong(s[j..k])
            && (j < k <==> wid.Some?) && Value(s[j..k], 10) == (if wid.Some? then wid.value else 0)
  {
    hide Value, NumTooLong, WidthText, AllDecimal, RunEnd;
    WidthFacts(wid);
    var k := j + |WidthText(wid)|;
    AllInSlice(s, j, k, WidthText(wid));
    assert j < k ==> s[j] == s[j..k][0];
    RunEndIs(s, j, k);
  }

  lemma PrecRead(s: string, k: nat, prec: Option<nat>, verb: char)
    requires prec.Some? ==> prec.value <= MAX_NUM
    requires k + |PrecText(prec)| < |s| && s[k..k + |PrecText(prec)|] == PrecText(prec)
    requires s[k + |PrecText(prec)|] == verb && VerbChar(verb)
    ensures var m := VerbAt(s, k);
            && m == k + |PrecText(prec)| && !Directs(s, m) && (HasPrec(s, k) <==> prec.Some?)
            && (prec.Some? ==> !Directs(s, k + 1) && !NumTooLong(s[k + 1..m]) && Value(s[k + 1..m], 10) == prec.value)
            && !IsDecimal(s[k]) && !IsFlag(s[k]) && s[k] !in {'[', '*'}
  {
    hide Value, NumTooLong, Decimal, AllDecimal, RunEnd;
    if prec.Some? {
      PrecFacts(prec);
      var d := Decimal(prec.value);
      var m := k + 1 + |d|;
      assert s[k..m] == "." + d;
      assert s[k] == s[k..m][0] && s[k..m][1..] == d;
      assert s[k + 1..m] == d;
      AllInSlice(s, k + 1, m, d);
      RunEndIs(s, k + 1, m);
    }
  }

  lemma WidthFacts(wid: Option<nat>)
    requires wid.Some? ==> 1 <= wid.value <= MAX_NUM
    ensures var w := WidthText(wid);
            AllDecimal(w) && !NumTooLong(w) && Value(w, 10) == (if wid.Some? then wid.value else 0)
            && (w != "" ==> !IsFlag(w[0])) && (w != "" <==> wid.Some?)
  {
    if wid.Some? {
      DecimalReads(wid.value);
      LeadingDigit(wid.value, 10, LDIGITS);
    }
  }

  lemma PrecFacts(prec: Option<nat>)
    requires prec.Some? ==> prec.value <= MAX_NUM
    ensures prec.Some? ==>
              var d := Decimal(prec.value);
              d != "" && AllDecimal(d) && !NumTooLong(d) && Value(d, 10) == prec.value
  {
    if prec.Some? { DecimalReads(prec.value); }
  }

  /** An index written in front of the verb names the argument of that number, counted
      from one, and ends behind the bracket. */
  lemma IndexReads(s: string, i: nat, n: nat, numArgs: nat)
    requires n <= MAX_NUM && i + |IndexText(n)| <= |s| && s[i..i + |IndexText(n)|] == IndexText(n)
    ensures ValidIndex(s, i, numArgs) <==> 1 <= n <= numArgs
    ensures 1 <= n ==> IndexAt(s, i) == n - 1
    ensures IndexEnd(s, i) == i + |IndexText(n)|
  {
    DecimalReads(n);
    assert |Decimal(n)| >= 1;
    hide Value, NumTooLong, Decimal, AllDecimal, Close, RunEnd;
    var d := Decimal(n);
    InBrackets(s, i, d);
    AllInSlice(s[i..], 1, 1 + |d|, d);
  }

  lemma InBrackets(s: string, i: nat, d: string)
    requires i + |d| + 2 <= |s| && s[i..i + |d| + 2] == "[" + d + "]"
    ensures s[i..][1..1 + |d|] == d && s[i..][1 + |d|] == ']'
  {
    var t := "[" + d + "]";
    assert s[i..][..|d| + 2] == t;
    assert forall k :: 0 <= k < |d| ==> s[i..][1 + k] == t[1 + k] == d[k];
    assert s[i..][1 + |d|] == t[1 + |d|];
  }

  function IndexText(n: nat): string { "[" + Decimal(n) + "]" }

  /** A width from an argument is like one that is written: a negative one like its
      absolute value with the flag - and without the flag 0. */
  lemma StarAsWritten(run: string, run': string, w: int)
    requires if w >= 0 then run' == run else '-' in run' && '0' !in run'
    requires ('+' in run' <==> '+' in run) && ('#' in run' <==> '#' in run) && (' ' in run' <==> ' ' in run)
    ensures StarFlags(FlagsOf(run), w) == WithWid(FlagsOf(run'), true)
  {
  }
}
