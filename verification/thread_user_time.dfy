/**
 * The user CPU time of a thread, read from the thread's line in `/proc/self/task/<tid>/stat`
 * and converted from clock ticks to nanoseconds. The line is
 * `pid (command) state ppid pgrp session tty_nr tpgid flags minflt cminflt majflt cmajflt utime ...`;
 * the command may hold spaces and parentheses, so parsing starts after the LAST `)`.
 *
 * Opening and reading the file and asking for the tick rate are left to the caller: the file's
 * contents (absent when it cannot be opened) and the ticks per second are parameters.
 */
module ThreadUserTime {
  import opened Wrappers

  const NanosPerSecond: nat := 1000000000
  /** STAT_SIZE: the buffer holds at most STAT_SIZE - 1 characters and a terminator. */
  const StatSize: nat := 2048
  const LongMax: int := 0x7FFF_FFFF_FFFF_FFFF
  const LongMin: int := -0x8000_0000_0000_0000
  const ULongMax: nat := 0xFFFF_FFFF_FFFF_FFFF
  /** The largest tick count whose nanoseconds still fit a long: LONG_MAX / NANOS_PER_SECOND. */
  const MaxConvertibleTicks: nat := 9223372036

  // ---------------------------------------------------------------------------------------
  // Characters

  /** isspace in the C locale. */
  predicate IsSpace(c: char) {
    c == ' ' || c == '\t' || c == '\n' || c == '\r' || c == '\U{000B}' || c == '\U{000C}'
  }

  predicate IsDigit(c: char) {
    '0' <= c <= '9'
  }

  function DigitValue(c: char): nat
    requires IsDigit(c)
  {
    c as nat - '0' as nat
  }

  function DigitChar(d: nat): (c: char)
    requires d < 10
    ensures IsDigit(c) && DigitValue(c) == d
  {
    (d + '0' as nat) as char
  }

  // ---------------------------------------------------------------------------------------
  // The buffer

  /** The text in front of the first terminator. */
  function CString(s: string): (r: string)
    ensures |r| <= |s| && r == s[..|r|]
    ensures '\0' !in r
    ensures |r| < |s| ==> s[|r|] == '\0'
    decreases |s|
  {
    if |s| == 0 || s[0] == '\0' then []
    else
      var t := CString(s[1..]);
      assert [s[0]] + t == s[..|t| + 1];
      [s[0]] + t
  }

  /** What the buffer holds after fread of at most STAT_SIZE - 1 characters and the terminator
      placed after them, as a C string. */
  function ReadStat(file: string): (r: string)
    ensures |r| < StatSize && '\0' !in r
    ensures |r| <= |file| && r == file[..|r|]
    ensures |file| < StatSize && '\0' !in file ==> r == file
  {
    var n := if |file| < StatSize then |file| else StatSize - 1;
    if |file| < StatSize && '\0' !in file then
      assert file[..n] == file;
      CStringWithoutTerminator(file);
      CString(file[..n])
    else
      CString(file[..n])
  }

  lemma {:induction false} CStringWithoutTerminator(s: string)
    requires '\0' !in s
    ensures CString(s) == s
    decreases |s|
  {
    if |s| > 0 {
      CStringWithoutTerminator(s[1..]);
    }
  }

  /** strrchr: the index of the last c in s. */
  function LastIndexOf(s: string, c: char): (r: Option<nat>)
    ensures r.Some? ==> r.value < |s| && s[r.value] == c && c !in s[r.value + 1..]
    ensures r.None? <==> c !in s
    decreases |s|
  {
    if |s| == 0 then None
    else if s[|s| - 1] == c then Some(|s| - 1)
    else
      var r := LastIndexOf(s[..|s| - 1], c);
      assert s == s[..|s| - 1] + [s[|s| - 1]];
      match r
      case None => None
      case Some(i) =>
        assert s[i + 1..] == s[..|s| - 1][i + 1..] + [s[|s| - 1]];
        Some(i)
  }

  /** The last c is the one in front of a tail without c, whatever comes before it. */
  lemma LastIndexOfSplit(head: string, tail: string, c: char)
    requires c !in tail
    ensures LastIndexOf(head + [c] + tail, c) == Some(|head|)
  {
    var s := head + [c] + tail;
    var r := LastIndexOf(s, c);
    assert s[|head|] == c;
    assert s[|head| + 1..] == tail;
  }

  // ---------------------------------------------------------------------------------------
  // sscanf

  /** The text without its leading white space. */
  function SkipSpace(s: string): (r: string)
    ensures |r| <= |s|
    ensures |r| > 0 ==> !IsSpace(r[0])
    decreases |s|
  {
    if |s| > 0 && IsSpace(s[0]) then SkipSpace(s[1..]) else s
  }

  /** SkipSpace removes white space from the front of the text and nothing else. */
  lemma {:induction false} SkipSpaceDropsOnlySpace(s: string)
    ensures SkipSpace(s) == s[|s| - |SkipSpace(s)|..]
    ensures forall i :: 0 <= i < |s| - |SkipSpace(s)| ==> IsSpace(s[i])
    decreases |s|
  {
    if |s| > 0 && IsSpace(s[0]) {
      SkipSpaceDropsOnlySpace(s[1..]);
    }
  }

  /** The digits at the front of s, read onto acc, and the text after them. */
  function ReadDigits(s: string, acc: nat): (r: (nat, string))
    ensures |r.1| <= |s|
    ensures |r.1| > 0 ==> !IsDigit(r.1[0])
    decreases |s|
  {
    if |s| > 0 && IsDigit(s[0]) then ReadDigits(s[1..], acc * 10 + DigitValue(s[0])) else (acc, s)
  }

  /** The digits at the front of u, at least one, and the text after them. */
  function ScanDigits(u: string): (r: Option<(nat, string)>)
    ensures r.Some? ==> |r.value.1| < |u|
    ensures r.None? <==> |u| == 0 || !IsDigit(u[0])
  {
    if |u| == 0 || !IsDigit(u[0]) then None else Some(ReadDigits(u, 0))
  }

  /** An optional sign in front of the digits; a minus negates the value. */
  function ScanSigned(t: string): (r: Option<(int, string)>)
    ensures r.Some? ==> |r.value.1| < |t|
  {
    if |t| > 0 && t[0] == '-' then
      match ScanDigits(t[1..])
      case None => None
      case Some((v, rest)) => Some((0 - v, rest))
    else if |t| > 0 && t[0] == '+' then
      match ScanDigits(t[1..])
      case None => None
      case Some((v, rest)) => Some((v, rest))
    else
      match ScanDigits(t)
      case None => None
      case Some((v, rest)) => Some((v, rest))
  }

  /** One `%d` or `%lu` conversion: white space, an optional sign and at least one digit. The
      value with its sign and the text after the number, or None on a matching failure. */
  function ScanNumber(s: string): (r: Option<(int, string)>)
    ensures r.Some? ==> |r.value.1| < |s|
  {
    ScanSigned(SkipSpace(s))
  }

  /** n skipped numeric conversions in a row. */
  function SkipNumbers(s: string, n: nat): Option<string>
    decreases n
  {
    if n == 0 then Some(s)
    else
      match ScanNumber(s)
      case None => None
      case Some((_, rest)) => SkipNumbers(rest, n - 1)
  }

  /** strtoul's result for a value read with its sign: out of range saturates at ULONG_MAX, a
      negative value is negated in unsigned arithmetic. */
  function ToULong(v: int): (r: nat)
    ensures r <= ULongMax
    ensures 0 <= v <= ULongMax ==> r == v
  {
    if v >= 0 then (if v > ULongMax then ULongMax else v)
    else if -v > ULongMax then ULongMax
    else (ULongMax + 1 + v) % (ULongMax + 1)
  }

  /** The unsigned long stored through a long pointer: its two's complement reading. */
  function AsLong(u: nat): (r: int)
    requires u <= ULongMax
    ensures LongMin <= r <= LongMax
    ensures u <= LongMax ==> r == u
  {
    if u > LongMax then u - (ULongMax + 1) else u
  }

  /** `sscanf(s, "%*c %*d %*d %*d %*d %*d %*lu %*lu %*lu %*lu %*lu %lu", &userTime) == 1`:
      one character, white space, five signed and five unsigned numbers skipped, then the
      value read. None when fewer than one value is assigned. */
  function ScanUserTime(s: string): Option<int> {
    if |s| == 0 then None
    else
      match SkipNumbers(SkipSpace(s[1..]), 10)
      case None => None
      case Some(rest) =>
        match ScanNumber(rest)
        case None => None
        case Some((v, _)) => Some(AsLong(ToULong(v)))
  }

  /** The user time in ticks from the stat text: after the last `)` and the white space behind
      it, the scan above; None when the text has no `)` or the scan assigns nothing. */
  function ParseStat(file: string): Option<int> {
    var buf := ReadStat(file);
    match LastIndexOf(buf, ')')
    case None => None
    case Some(p) => ScanUserTime(SkipSpace(buf[p + 1..]))
  }

  // ---------------------------------------------------------------------------------------
  // Ticks to nanoseconds

  /** C's long division, which truncates toward zero. */
  function CDiv(a: int, b: int): int
    requires b > 0
  {
    if a >= 0 then a / b else -((-a) / b)
  }

  /** `userTime * NANOS_PER_SECOND / clockTicksPerSeconds` in long arithmetic. None when the
      product leaves the range of a long, which C leaves undefined. The quotient is the
      nanoseconds rounded toward zero. */
  function TicksToNanos(userTime: int, ticks: int): (r: Option<int>)
    requires ticks > 0
    ensures r.None? <==> userTime > MaxConvertibleTicks || userTime < -(MaxConvertibleTicks as int)
    ensures r.Some? && userTime >= 0 ==>
              0 <= r.value && r.value * ticks <= userTime * NanosPerSecond < (r.value + 1) * ticks
    ensures r.Some? && userTime < 0 ==>
              r.value <= 0 && (r.value - 1) * ticks < userTime * NanosPerSecond <= r.value * ticks
  {
    var product := userTime * NanosPerSecond;
    if product < LongMin || product > LongMax then None
    else
      if product >= 0 then
        DivBounds(product, ticks);
        Some(CDiv(product, ticks))
      else
        DivBounds(-product, ticks);
        Some(CDiv(product, ticks))
  }

  lemma DivBounds(a: nat, b: int)
    requires b > 0
    ensures 0 <= a / b && (a / b) * b <= a < (a / b + 1) * b
  {
  }

  // ---------------------------------------------------------------------------------------
  // getThreadUserTime

  /** getThreadUserTime: -1 off Linux, when the stat file cannot be opened, when it has no `)`
      or when the scan fails; otherwise the user time in nanoseconds (None when that overflows a
      long). */
  function GetThreadUserTime(linux: bool, statFile: Option<string>, ticks: int): (r: Option<int>)
    requires ticks > 0
    ensures !linux || statFile.None? ==> r == Some(-1)
    ensures linux && statFile.Some? && ParseStat(statFile.value).None? ==> r == Some(-1)
    ensures linux && statFile.Some? && ParseStat(statFile.value).Some? ==>
              r == TicksToNanos(ParseStat(statFile.value).value, ticks)
  {
    if !linux then Some(-1)
    else
      match statFile
      case None => Some(-1)
      case Some(text) =>
        match ParseStat(text)
        case None => Some(-1)
        case Some(userTime) => TicksToNanos(userTime, ticks)
  }

  // ---------------------------------------------------------------------------------------
  // Stat lines as the kernel writes them

  /** The decimal digits of n, without leading zeros. */
  function Decimal(n: nat): (r: string)
    ensures |r| >= 1
    decreases n
  {
    if n < 10 then [DigitChar(n)] else Decimal(n / 10) + [DigitChar(n % 10)]
  }

  /** A number as the kernel prints it: a minus sign in front of a negative one. */
  function IntText(v: int): string {
    if v < 0 then "-" + Decimal(-v) else Decimal(v)
  }

  /** Numbers, each preceded by a space. */
  function NumbersText(vs: seq<int>): string
    decreases |vs|
  {
    if |vs| == 0 then "" else " " + IntText(vs[0]) + NumbersText(vs[1..])
  }

  predicate AllDigits(s: string) {
    forall i :: 0 <= i < |s| ==> IsDigit(s[i])
  }

  lemma {:induction false} ReadDigitsAppend(a: string, b: string, acc: nat)
    requires AllDigits(a)
    ensures ReadDigits(a + b, acc) == ReadDigits(b, ReadDigits(a, acc).0)
    decreases |a|
  {
    if |a| == 0 {
      assert a + b == b;
    } else {
      var next := acc * 10 + DigitValue(a[0]);
      assert (a + b)[0] == a[0];
      assert (a + b)[1..] == a[1..] + b;
      assert ReadDigits(a + b, acc) == ReadDigits(a[1..] + b, next);
      assert ReadDigits(a, acc) == ReadDigits(a[1..], next);
      ReadDigitsAppend(a[1..], b, next);
    }
  }

  /** Reading the decimal digits of n gives n. */
  lemma {:induction false} DecimalRoundTrip(n: nat)
    ensures AllDigits(Decimal(n))
    ensures ReadDigits(Decimal(n), 0) == (n, "")
    decreases n
  {
    if n >= 10 {
      DecimalRoundTrip(n / 10);
      var q, c := n / 10, DigitChar(n % 10);
      assert q * 10 + DigitValue(c) == n;
      var front := Decimal(q);
      assert Decimal(n) == front + [c];
      ReadDigitsAppend(front, [c], 0);
      assert ReadDigits(front, 0).0 == q;
      ReadOneDigit(c, q);
      var x := ReadDigits(front + [c], 0);
      assert x == ReadDigits([c], q);
      assert x.0 == n;
      assert x.1 == "";
      assert AllDigits(front + [c]) by {
        forall i | 0 <= i < |front| + 1
          ensures IsDigit((front + [c])[i])
        {
          if i < |front| {
            assert (front + [c])[i] == front[i];
          }
        }
      }
    } else {
      ReadOneDigit(DigitChar(n), 0);
      assert ReadDigits(Decimal(n), 0) == (n, "");
    }
  }

  lemma ReadOneDigit(c: char, acc: nat)
    requires IsDigit(c)
    ensures ReadDigits([c], acc) == (acc * 10 + DigitValue(c), "")
  {
    assert [c][1..] == [];
  }

  /** A number printed after a space is scanned back, and the scan stops where the text after
      it begins. */
  lemma ScanNumberRoundTrip(v: int, more: string)
    requires |more| == 0 || !IsDigit(more[0])
    ensures ScanNumber(" " + IntText(v) + more) == Some((v, more))
  {
    var m := if v < 0 then -v else v;
    var rest := Decimal(m) + more;
    ScanDigitsRoundTrip(m, more);
    if v < 0 {
      ScanSignedNegative(rest, m, more);
      assert IntText(v) == "-" + Decimal(m);
      ConcatAssoc(" ", "-" + Decimal(m), more);
      ConcatAssoc("-", Decimal(m), more);
    } else {
      ScanSignedNonNegative(rest, m, more);
      assert IntText(v) == Decimal(m);
      ConcatAssoc(" ", Decimal(m), more);
    }
  }

  lemma ScanSignedNegative(rest: string, m: nat, more: string)
    requires ScanDigits(rest) == Some((m, more))
    ensures ScanNumber(" " + ("-" + rest)) == Some((0 - m, more))
  {
    var t := "-" + rest;
    assert SkipSpace(" " + t) == t by {
      assert (" " + t)[1..] == t;
      SkipSpaceNonSpace(t);
    }
    assert ScanSigned(t) == Some((0 - m, more)) by {
      assert t[1..] == rest;
    }
  }

  lemma ScanSignedNonNegative(rest: string, m: nat, more: string)
    requires ScanDigits(rest) == Some((m, more))
    ensures ScanNumber(" " + rest) == Some((m, more))
  {
    assert SkipSpace(" " + rest) == rest by {
      assert (" " + rest)[1..] == rest;
      SkipSpaceNonSpace(rest);
    }
  }

  lemma ScanDigitsRoundTrip(m: nat, more: string)
    requires |more| == 0 || !IsDigit(more[0])
    ensures IsDigit(Decimal(m)[0])
    ensures ScanDigits(Decimal(m) + more) == Some((m, more))
  {
    var digits := Decimal(m);
    DecimalRoundTrip(m);
    assert (digits + more)[0] == digits[0];
    ReadDigitsAppend(digits, more, 0);
    ReadDigitsStop(more, m);
    var x := ReadDigits(digits + more, 0);
    assert x.0 == m && x.1 == more;
  }

  lemma ConcatAssoc(a: string, b: string, c: string)
    ensures a + b + c == a + (b + c)
  {
  }

  lemma SkipSpaceNonSpace(t: string)
    requires |t| > 0 && !IsSpace(t[0])
    ensures SkipSpace(t) == t
  {
  }

  lemma ReadDigitsStop(t: string, acc: nat)
    requires |t| == 0 || !IsDigit(t[0])
    ensures ReadDigits(t, acc).0 == acc && ReadDigits(t, acc).1 == t
  {
  }

  /** Printed numbers are skipped one conversion each. */
  lemma {:induction false} SkipNumbersRoundTrip(vs: seq<int>, more: string)
    requires |more| == 0 || !IsDigit(more[0])
    ensures SkipNumbers(NumbersText(vs) + more, |vs|) == Some(more)
    decreases |vs|
  {
    if |vs| > 0 {
      var rest := NumbersText(vs[1..]) + more;
      assert NumbersText(vs) == " " + IntText(vs[0]) + NumbersText(vs[1..]);
      ConcatAssoc(" " + IntText(vs[0]), NumbersText(vs[1..]), more);
      assert |rest| == 0 || !IsDigit(rest[0]) by {
        if |vs| > 1 {
          assert rest[0] == ' ';
        }
      }
      ScanNumberRoundTrip(vs[0], rest);
      SkipNumbersRoundTrip(vs[1..], more);
      var s := NumbersText(vs) + more;
      assert s == " " + IntText(vs[0]) + rest;
      assert ScanNumber(s) == Some((vs[0], rest));
      assert SkipNumbers(s, |vs|) == SkipNumbers(rest, |vs| - 1);
    } else {
      assert NumbersText(vs) + more == more;
    }
  }

  /** The white space the format skips in front of the first number is skipped by the
      conversion anyway. */
  lemma SkipSpaceBeforeNumbers(s: string, n: nat)
    requires n > 0
    ensures SkipNumbers(SkipSpace(s), n) == SkipNumbers(s, n)
  {
    var t := SkipSpace(s);
    assert SkipSpace(t) == t by {
      if |t| > 0 {
        SkipSpaceNonSpace(t);
      }
    }
  }

  /** The fields after the command: the state, fields 4 to 13, the user time, and whatever
      the kernel writes after it. */
  function StatFields(state: char, fields: seq<int>, userTime: nat, tail: string): string {
    " " + ([state] + (NumbersText(fields) + (" " + Decimal(userTime) + tail)))
  }

  /** A stat line: pid and the command in parentheses, then the fields. */
  function StatLine(pid: nat, command: string, state: char, fields: seq<int>, userTime: nat, tail: string): string {
    Decimal(pid) + " (" + command + ")" + StatFields(state, fields, userTime, tail)
  }

  /** After the white space behind the command, the scan reads field 14. */
  lemma ScanStatFields(state: char, fields: seq<int>, userTime: nat, tail: string)
    requires !IsSpace(state)
    requires |fields| == 10
    requires |tail| == 0 || tail[0] == ' '
    requires userTime <= LongMax
    ensures ScanUserTime(SkipSpace(StatFields(state, fields, userTime, tail))) == Some(userTime)
  {
    var rest := " " + Decimal(userTime) + tail;
    var numbers := NumbersText(fields) + rest;
    var after := [state] + numbers;
    assert SkipSpace(StatFields(state, fields, userTime, tail)) == after by {
      assert StatFields(state, fields, userTime, tail)[1..] == after;
      SkipSpaceNonSpace(after);
    }
    assert SkipNumbers(SkipSpace(after[1..]), 10) == Some(rest) by {
      assert after[1..] == numbers;
      SkipSpaceBeforeNumbers(numbers, 10);
      assert rest[0] == ' ';
      SkipNumbersRoundTrip(fields, rest);
    }
    assert ScanNumber(rest) == Some((userTime as int, tail)) by {
      assert IntText(userTime) == Decimal(userTime);
      ScanNumberRoundTrip(userTime, tail);
    }
    assert AsLong(ToULong(userTime)) == userTime;
  }

  /** The scan starts after the last `)`: text after it without `)` is all that is read. */
  lemma ParseAfterLastParen(head: string, after: string)
    requires ')' !in after && '\0' !in head && '\0' !in after
    requires |head| + 1 + |after| < StatSize
    ensures ParseStat(head + [')'] + after) == ScanUserTime(SkipSpace(after))
  {
    var line := head + [')'] + after;
    assert '\0' !in line;
    assert ReadStat(line) == line;
    LastIndexOfSplit(head, after, ')');
    assert line[|head| + 1..] == after;
  }

  /** Whatever the command name holds, spaces and parentheses included, the user time of a
      stat line that fits the buffer is read back. */
  lemma StatLineRoundTrip(pid: nat, command: string, state: char, fields: seq<int>, userTime: nat, tail: string)
    requires '\0' !in command && '\0' !in tail && ')' !in tail
    requires !IsSpace(state) && state != ')' && state != '\0'
    requires |fields| == 10
    requires |tail| == 0 || tail[0] == ' '
    requires userTime <= LongMax
    requires |StatLine(pid, command, state, fields, userTime, tail)| < StatSize
    ensures ParseStat(StatLine(pid, command, state, fields, userTime, tail)) == Some(userTime)
  {
    var head := Decimal(pid) + " (" + command;
    var after := StatFields(state, fields, userTime, tail);
    NoNulInNumbers(fields);
    NoNulInDecimal(pid);
    NoNulInDecimal(userTime);
    assert ')' !in after && '\0' !in after;
    assert '\0' !in head;
    ParseAfterLastParen(head, after);
    ScanStatFields(state, fields, userTime, tail);
  }

  lemma {:induction false} NoNulInDecimal(n: nat)
    ensures '\0' !in Decimal(n) && ')' !in Decimal(n) && ' ' !in Decimal(n)
    decreases n
  {
    if n >= 10 {
      NoNulInDecimal(n / 10);
    }
  }

  /** Printed numbers hold neither a NUL nor a closing parenthesis. */
  lemma {:induction false} NoNulInNumbers(vs: seq<int>)
    ensures '\0' !in NumbersText(vs) && ')' !in NumbersText(vs)
    decreases |vs|
  {
    if |vs| > 0 {
      NoNulInDecimal(if vs[0] < 0 then -vs[0] else vs[0]);
      NoNulInNumbers(vs[1..]);
    }
  }

  /** A stat text without `)` gives -1. */
  lemma NoParenthesisGivesMinusOne(text: string, ticks: int)
    requires ticks > 0 && ')' !in text
    ensures GetThreadUserTime(true, Some(text), ticks) == Some(-1)
  {
    assert ')' !in ReadStat(text);
  }
}
