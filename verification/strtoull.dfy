/**
 The conversion `strtoull(nptr, &end, base)` as section 7.22.1.4 of ISO C11
 specifies it in the "C" locale; `g_ascii_strtoull` follows the same rules.
 The `0b`/`0B` prefix that C23 adds to base 0 is not part of it.

 The result records the converted value, how many characters the subject
 sequence took (0 when no conversion was performed, that is when
 `end == nptr`) and whether `errno` was set to `ERANGE`.
 */
module Strtoull {
  import opened CTypes

  datatype Conversion = Conversion(value: UInt64, end: nat, erange: bool)

  /** `isspace` in the "C" locale. */
  predicate IsSpace(c: char) {
    c == ' ' || c == '\t' || c == '\n' || c == '\U{B}' || c == '\U{C}' || c == '\r'
  }

  /** The value of `c` as a digit of a base up to 36: '0'..'9' are 0..9,
      letters of either case are 10..35, and anything else is 36. */
  function DigitValue(c: char): (d: nat)
    ensures d <= 36
    ensures d < 10 <==> '0' <= c <= '9'
    ensures d == 36 <==> !('0' <= c <= '9' || 'a' <= c <= 'z' || 'A' <= c <= 'Z')
  {
    if '0' <= c <= '9' then c as int - '0' as int
    else if 'a' <= c <= 'z' then c as int - 'a' as int + 10
    else if 'A' <= c <= 'Z' then c as int - 'A' as int + 10
    else 36
  }

  /** Index of the first non-space character at or after `i`. */
  function SkipSpace(s: string, i: nat): (j: nat)
    requires i <= |s|
    ensures i <= j <= |s|
    ensures forall k | i <= k < j :: IsSpace(s[k])
    ensures j == |s| || !IsSpace(s[j])
    decreases |s| - i
  {
    if i < |s| && IsSpace(s[i]) then SkipSpace(s, i + 1) else i
  }

  /** Length of the longest run of digits of `base` starting at `i`. */
  function DigitRun(s: string, i: nat, base: nat): (n: nat)
    requires i <= |s|
    ensures i + n <= |s|
    ensures forall k | i <= k < i + n :: DigitValue(s[k]) < base
    ensures i + n == |s| || DigitValue(s[i + n]) >= base
    decreases |s| - i
  {
    if i < |s| && DigitValue(s[i]) < base then 1 + DigitRun(s, i + 1, base) else 0
  }

  /** The number a run of digits denotes in `base`, most significant first. */
  function DigitsValue(ds: string, base: nat): nat
    decreases |ds|
  {
    if |ds| == 0 then 0 else DigitsValue(ds[..|ds| - 1], base) * base + DigitValue(ds[|ds| - 1])
  }

  /** A "0x" or "0X" prefix followed by a hexadecimal digit at index `j`;
      without the digit the '0' alone is the subject sequence. */
  predicate HexPrefix(s: string, j: nat, base: nat) {
    && (base == 0 || base == 16)
    && j + 2 < |s|
    && s[j] == '0' && (s[j + 1] == 'x' || s[j + 1] == 'X')
    && DigitValue(s[j + 2]) < 16
  }

  /** Where the subject sequence's digits start and the base they are read
      in, once white space and an optional sign (ending at `j`) are skipped:
      base 0 means hexadecimal after "0x", octal after a leading '0', and
      decimal otherwise. */
  function DigitsStart(s: string, j: nat, base: nat): (p: (nat, nat))
    requires j <= |s|
    requires base == 0 || 2 <= base <= 36
    ensures j <= p.0 <= |s|
    ensures 2 <= p.1 <= 36
    ensures base != 0 ==> p.1 == base
  {
    if HexPrefix(s, j, base) then (j + 2, 16)
    else if base != 0 then (j, base)
    else if j < |s| && s[j] == '0' then (j, 8)
    else (j, 10)
  }

  /** Index just past the leading white space and the optional sign. */
  function SubjectStart(s: string): (j: nat)
    ensures SkipSpace(s, 0) <= j <= |s|
    ensures j <= SkipSpace(s, 0) + 1
  {
    var i := SkipSpace(s, 0);
    if i < |s| && (s[i] == '+' || s[i] == '-') then i + 1 else i
  }

  /** Whether the subject sequence begins with a minus sign. */
  predicate Negative(s: string) {
    var i := SkipSpace(s, 0);
    i < |s| && s[i] == '-'
  }

  /** The conversion of the digits of base `b` starting at `k`: none means
      no conversion; a value beyond `ULLONG_MAX` saturates and sets
      `ERANGE`; a minus sign negates in unsigned 64-bit arithmetic. */
  function ConvertDigits(s: string, k: nat, b: nat, negative: bool): (c: Conversion)
    requires k <= |s|
    ensures c.end <= |s|
    ensures c.end == 0 ==> c.value == 0 && !c.erange
    ensures c.erange ==> c.value == ULLONG_MAX && c.end > 0
    ensures c.end > 0 ==> c.end > k && DigitValue(s[c.end - 1]) < b
  {
    var n := DigitRun(s, k, b);
    if n == 0 then Conversion(0, 0, false)
    else Accumulate(DigitsValue(s[k..k + n], b), k + n, negative)
  }

  /** The outcome of a subject sequence whose digits denote `m` and which
      ends at `end`: beyond `ULLONG_MAX` the value saturates and `ERANGE`
      is set; otherwise a minus sign negates in 64-bit unsigned arithmetic:
      the value and `m` add up to 2^64 (to 0 when `m` is 0). */
  function Accumulate(m: nat, end: nat, negative: bool): (c: Conversion)
    ensures c.end == end
    ensures c.erange <==> m > ULLONG_MAX
    ensures c.erange ==> c.value == ULLONG_MAX
    ensures !c.erange && !negative ==> c.value == m
    ensures !c.erange && negative ==> c.value + m == (if m == 0 then 0 else TWO64)
  {
    if m > ULLONG_MAX then Conversion(ULLONG_MAX, end, true)
    else Conversion(if negative then (TWO64 - m) % TWO64 else m, end, false)
  }

  /** `strtoull(s, &end, base)`. */
  function StrToULL(s: string, base: nat): (c: Conversion)
    requires base == 0 || 2 <= base <= 36
    ensures c.end <= |s|
    ensures c.end == 0 ==> c.value == 0 && !c.erange
    ensures c.erange ==> c.value == ULLONG_MAX && c.end > 0
    ensures c.end > 0 ==> DigitValue(s[c.end - 1]) < (if base == 0 then 16 else base)
  {
    var (k, b) := DigitsStart(s, SubjectStart(s), base);
    ConvertDigits(s, k, b, Negative(s))
  }

  /** The decimal digit character for `d`. */
  function DigitChar(d: nat): (c: char)
    requires d < 10
    ensures DigitValue(c) == d
  {
    ('0' as int + d) as char
  }

  /** A decimal numeral as `printf("%lu")` and the kernel write one: digits
      only, and no leading zero unless the numeral is "0". */
  predicate IsNumeral(d: string) {
    && |d| > 0
    && (forall k | 0 <= k < |d| :: '0' <= d[k] <= '9')
    && (d[0] == '0' ==> d == "0")
  }

  /** The decimal numeral of `n`. */
  function DecimalString(n: nat): (s: string)
    ensures IsNumeral(s)
    ensures s[0] == '0' <==> n == 0
    decreases n
  {
    if n < 10 then [DigitChar(n)] else DecimalString(n / 10) + [DigitChar(n % 10)]
  }

  /** Reading back the numeral of `n` gives `n`. */
  lemma {:induction false} DecimalStringValue(n: nat)
    ensures DigitsValue(DecimalString(n), 10) == n
    decreases n
  {
    var s := DecimalString(n);
    if n < 10 {
      assert s[..0] == [];
    } else {
      DecimalStringValue(n / 10);
      assert s[..|s| - 1] == DecimalString(n / 10);
    }
  }

  /** A run of digits is not lengthened by text after a character that is
      not a digit of the base. */
  lemma {:induction false} DigitRunAppend(s: string, t: string, i: nat, base: nat)
    requires i <= |s|
    requires i + DigitRun(s, i, base) < |s| || t == [] || DigitValue(t[0]) >= base
    ensures DigitRun(s + t, i, base) == DigitRun(s, i, base)
    decreases |s| - i
  {
    if i < |s| && DigitValue(s[i]) < base {
      DigitRunAppend(s, t, i + 1, base);
    } else if i == |s| && t != [] {
      assert (s + t)[i] == t[0];
    }
  }

  /** The character at `e`, if any, can continue no numeral: it is
      neither a letter nor a digit. */
  predicate Terminated(u: string, e: nat) {
    e < |u| ==> DigitValue(u[e]) == 36
  }

  /** Section 7.22.1.4 of ISO C11: conversion stops at the first character
      that cannot continue the subject sequence. Once the character after
      the converted text is neither a letter nor a digit (a tab, a newline,
      the end of the string), whatever follows it does not matter. */
  lemma StrToULLStopsAtTerminator(s: string, t: string, base: nat)
    requires base == 0 || 2 <= base <= 36
    requires StrToULL(s, base).end > 0
    requires Terminated(s + t, StrToULL(s, base).end)
    ensures StrToULL(s + t, base) == StrToULL(s, base)
  {
    var j := SubjectStart(s);
    var (k, b) := DigitsStart(s, j, base);
    assert k < StrToULL(s, base).end;
    SubjectAppend(s, t);
    DigitsStartAppend(s, t, j, base);
    ConvertDigitsAppend(s, t, k, b, Negative(s));
  }

  /** White space and sign are read the same way when text follows a
      character that is neither. */
  lemma SubjectAppend(s: string, t: string)
    requires SubjectStart(s) < |s|
    ensures SubjectStart(s + t) == SubjectStart(s)
    ensures Negative(s + t) == Negative(s)
  {
    var i := SkipSpace(s, 0);
    SkipSpaceAppend(s, t, 0);
    assert (s + t)[i] == s[i];
  }

  /** The choice of base and digit start is not changed by text appended
      after a terminator: a "0x" prefix cannot be completed once the digits
      of s have been followed by a non-alphanumeric character. */
  lemma DigitsStartAppend(s: string, t: string, j: nat, base: nat)
    requires base == 0 || 2 <= base <= 36
    requires j < |s|
    requires Terminated(s + t, DigitsStart(s, j, base).0 + DigitRun(s, DigitsStart(s, j, base).0, DigitsStart(s, j, base).1))
    ensures DigitsStart(s + t, j, base) == DigitsStart(s, j, base)
  {
    var u := s + t;
    assert u[j] == s[j];
    if HexPrefix(s, j, base) {
      assert u[j + 1] == s[j + 1] && u[j + 2] == s[j + 2];
    } else if s[j] == '0' && (base == 0 || base == 16) {
      NoLateHexPrefix(s, t, j, base);
    }
  }

  /** A leading '0' whose digit run is followed by a terminator cannot
      start a "0x" prefix in the longer string: the 'x' would have ended
      the run without being a terminator. */
  lemma NoLateHexPrefix(s: string, t: string, j: nat, base: nat)
    requires j < |s| && s[j] == '0' && (base == 0 || base == 16) && !HexPrefix(s, j, base)
    requires Terminated(s + t, DigitsStart(s, j, base).0 + DigitRun(s, DigitsStart(s, j, base).0, DigitsStart(s, j, base).1))
    ensures !HexPrefix(s + t, j, base)
  {
    var u := s + t;
    var b := if base == 0 then 8 else 16;
    assert DigitsStart(s, j, base) == (j, b);
    var e := j + DigitRun(s, j, b);
    assert DigitValue(s[j]) < b;
    assert j + 1 < |s| ==> u[j + 1] == s[j + 1];
    assert DigitValue('x') == 33 && DigitValue('X') == 33;
    assert j + 1 < |u| && (u[j + 1] == 'x' || u[j + 1] == 'X') ==> e == j + 1;
  }

  /** The digit conversion is not changed by text appended after the run. */
  lemma ConvertDigitsAppend(s: string, t: string, k: nat, b: nat, negative: bool)
    requires k <= |s|
    requires k + DigitRun(s, k, b) < |s| || t == [] || DigitValue(t[0]) >= b
    ensures ConvertDigits(s + t, k, b, negative) == ConvertDigits(s, k, b, negative)
  {
    DigitRunAppend(s, t, k, b);
    var n := DigitRun(s, k, b);
    assert (s + t)[k..k + n] == s[k..k + n];
  }

  /** White space is skipped the same way when text follows a non-space. */
  lemma {:induction false} SkipSpaceAppend(s: string, t: string, i: nat)
    requires i <= |s|
    requires SkipSpace(s, i) < |s|
    ensures SkipSpace(s + t, i) == SkipSpace(s, i)
    decreases |s| - i
  {
    if i < |s| && IsSpace(s[i]) {
      SkipSpaceAppend(s, t, i + 1);
    }
  }

  /** White space followed by a decimal numeral converts to the numeral's
      value in base 10 and in base 0 (a numeral without leading zeros is
      decimal, and "0" read as octal is still 0); a value beyond
      `ULLONG_MAX` sets `ERANGE`. */
  lemma StrToULLOfNumeral(w: string, d: string, base: nat)
    requires base == 0 || base == 10
    requires forall k | 0 <= k < |w| :: IsSpace(w[k])
    requires IsNumeral(d)
    ensures StrToULL(w + d, base) ==
            var v := DigitsValue(d, 10);
            if v <= ULLONG_MAX then Conversion(v, |w| + |d|, false)
            else Conversion(ULLONG_MAX, |w| + |d|, true)
  {
    var s := w + d;
    var b := if base == 0 && d[0] == '0' then 8 else 10;
    NumeralSubject(w, d, base);
    assert s[|w|..] == d;
    NumeralDigits(s, |w|, d, b);
  }

  /** Before a numeral there is only white space and no sign, and its first
      digit selects decimal (octal for "0"). */
  lemma NumeralSubject(w: string, d: string, base: nat)
    requires base == 0 || base == 10
    requires forall k | 0 <= k < |w| :: IsSpace(w[k])
    requires IsNumeral(d)
    ensures SubjectStart(w + d) == |w|
    ensures !Negative(w + d)
    ensures DigitsStart(w + d, |w|, base) == (|w|, if base == 0 && d[0] == '0' then 8 else 10)
  {
    var s := w + d;
    var j := |w|;
    assert s[j] == d[0];
    SkipSpaceOver(s, j);
    assert j + 1 < |s| ==> s[j + 1] == d[1];
  }

  /** A numeral running to the end of `s` from `j` converts to its value. */
  lemma NumeralDigits(s: string, j: nat, d: string, b: nat)
    requires j <= |s| && s[j..] == d && IsNumeral(d)
    requires b == 10 || (b == 8 && d == "0")
    ensures ConvertDigits(s, j, b, false) ==
            var v := DigitsValue(d, 10);
            if v <= ULLONG_MAX then Conversion(v, |s|, false)
            else Conversion(ULLONG_MAX, |s|, true)
  {
    assert forall k | j <= k < |s| :: s[k] == d[k - j];
    DigitRunToEnd(s, j, b);
    assert s[j..j + (|s| - j)] == d;
    if b == 8 {
      assert d[..0] == [];
      assert DigitsValue(d, 8) == 0 == DigitsValue(d, 10);
    }
  }

  /** White space up to index `j` and a non-space there: skipping stops at `j`. */
  lemma SkipSpaceOver(s: string, j: nat)
    requires j < |s|
    requires forall k | 0 <= k < j :: IsSpace(s[k])
    requires !IsSpace(s[j])
    ensures SkipSpace(s, 0) == j
  {
  }

  /** A run of digits of `base` reaching the end of the string is taken whole. */
  lemma DigitRunToEnd(s: string, j: nat, base: nat)
    requires j < |s|
    requires forall k | j <= k < |s| :: DigitValue(s[k]) < base
    ensures DigitRun(s, j, base) == |s| - j
  {
  }

  /** Only white space. */
  predicate AllSpace(w: string) {
    forall k | 0 <= k < |w| :: IsSpace(w[k])
  }

  /** `lead` is white space followed by an optional sign, which is a minus
      exactly when `negative`. */
  predicate SignedLead(lead: string, negative: bool) {
    || (AllSpace(lead) && !negative)
    || (&& lead != []
        && AllSpace(lead[..|lead| - 1])
        && lead[|lead| - 1] == (if negative then '-' else '+'))
  }

  /** Text made only of white space is skipped to its end. */
  lemma {:induction false} SkipSpaceAll(s: string, i: nat)
    requires i <= |s|
    requires forall k | i <= k < |s| :: IsSpace(s[k])
    ensures SkipSpace(s, i) == |s|
    decreases |s| - i
  {
    if i < |s| {
      SkipSpaceAll(s, i + 1);
    }
  }

  /** After white space and an optional sign the digits are looked for
      right after the sign, and the sign decides negation. Without a sign,
      `rest` must not begin with more white space or a sign. */
  lemma SubjectAfterLead(lead: string, negative: bool, rest: string)
    requires SignedLead(lead, negative)
    requires AllSpace(lead) && rest != [] ==> !IsSpace(rest[0]) && rest[0] != '+' && rest[0] != '-'
    ensures SubjectStart(lead + rest) == |lead|
    ensures Negative(lead + rest) == negative
  {
    var s := lead + rest;
    assert forall k | 0 <= k < |lead| :: s[k] == lead[k];
    if AllSpace(lead) {
      assert lead != [] ==> IsSpace(lead[|lead| - 1]);
      if rest != [] {
        assert s[|lead|] == rest[0];
        SkipSpaceOver(s, |lead|);
      } else {
        SkipSpaceAll(s, 0);
      }
    } else {
      var i := |lead| - 1;
      assert forall k | 0 <= k < i :: lead[..i][k] == lead[k];
      SkipSpaceOver(s, i);
    }
  }

  /** A leading zero does not change the value of a run of digits. */
  lemma {:induction false} LeadingZero(ds: string, b: nat)
    ensures DigitsValue(['0'] + ds, b) == DigitsValue(ds, b)
    decreases |ds|
  {
    var z := ['0'] + ds;
    if ds == [] {
      assert z[..0] == [];
    } else {
      assert z[..|z| - 1] == ['0'] + ds[..|ds| - 1];
      assert z[|z| - 1] == ds[|ds| - 1];
      LeadingZero(ds[..|ds| - 1], b);
    }
  }

  /** Digits of base `b` on [k, k + n) followed by the end of `u` or by a
      character that is no such digit form a run of exactly `n`. */
  lemma {:induction false} DigitRunExact(u: string, k: nat, b: nat, n: nat)
    requires k + n <= |u|
    requires forall i | k <= i < k + n :: DigitValue(u[i]) < b
    requires k + n == |u| || DigitValue(u[k + n]) >= b
    ensures DigitRun(u, k, b) == n
    decreases n
  {
    if n > 0 {
      DigitRunExact(u, k + 1, b, n - 1);
    }
  }

  /** A run of digits of base `b` at `k` that ends at the end of `u` or at
      a character that is no such digit is converted whole. */
  lemma DigitsThenStop(u: string, k: nat, b: nat, ds: string, negative: bool)
    requires k + |ds| <= |u| && u[k..k + |ds|] == ds && ds != []
    requires forall i | 0 <= i < |ds| :: DigitValue(ds[i]) < b
    requires k + |ds| == |u| || DigitValue(u[k + |ds|]) >= b
    ensures ConvertDigits(u, k, b, negative) == Accumulate(DigitsValue(ds, b), k + |ds|, negative)
  {
    DigitRunOf(u, k, b, ds);
  }

  /** The run of digits at `k` is exactly `ds` when `ds` sits there and is
      followed by the end of `u` or by a character that is no digit. */
  lemma DigitRunOf(u: string, k: nat, b: nat, ds: string)
    requires k + |ds| <= |u| && u[k..k + |ds|] == ds
    requires forall i | 0 <= i < |ds| :: DigitValue(ds[i]) < b
    requires k + |ds| == |u| || DigitValue(u[k + |ds|]) >= b
    ensures DigitRun(u, k, b) == |ds|
  {
    assert forall i | k <= i < k + |ds| :: u[i] == ds[i - k];
    DigitRunExact(u, k, b, |ds|);
  }

  /** Where the middle part of a three-part string sits. */
  lemma Middle(a: string, m: string, c: string)
    ensures a + (m + c) == a + m + c
    ensures (a + m + c)[|a|..|a| + |m|] == m
    ensures m != [] ==> (a + m + c)[|a|] == m[0]
    ensures c != [] ==> (a + m + c)[|a| + |m|] == c[0]
  {
    assert (a + m + c)[|a|..|a| + |m|] == m;
  }

  /** A leading '0' is a digit of every base. */
  lemma ZeroThenDigits(o: string, b: nat)
    requires 1 <= b
    requires forall i | 0 <= i < |o| :: DigitValue(o[i]) < b
    ensures forall i | 0 <= i < |['0'] + o| :: DigitValue((['0'] + o)[i]) < b
  {
    forall i | 0 <= i < |['0'] + o|
      ensures DigitValue((['0'] + o)[i]) < b
    {
      if i > 0 {
        assert (['0'] + o)[i] == o[i - 1];
      }
    }
  }

  /** After white space and a sign, "0x" or "0X" and a hexadecimal digit
      select base 16 with the digits right after the prefix. */
  lemma HexStart(lead: string, negative: bool, x: char, h: string, t: string)
    requires SignedLead(lead, negative) && (x == 'x' || x == 'X')
    requires h != [] && DigitValue(h[0]) < 16
    ensures SubjectStart(lead + ['0', x] + h + t) == |lead|
    ensures Negative(lead + ['0', x] + h + t) == negative
    ensures DigitsStart(lead + ['0', x] + h + t, |lead|, 0) == (|lead| + 2, 16)
  {
    var p := lead + ['0', x];
    var u := p + h + t;
    var j := |lead|;
    Middle(p, h, t);
    Middle(lead, ['0', x], h + t);
    SubjectAfterLead(lead, negative, ['0', x] + (h + t));
    assert u[j + 1] == x;
  }

  /** The hexadecimal digits after the prefix are converted. */
  lemma HexDigits(lead: string, negative: bool, x: char, h: string, t: string)
    requires h != [] && forall i | 0 <= i < |h| :: DigitValue(h[i]) < 16
    requires t == [] || DigitValue(t[0]) >= 16
    ensures ConvertDigits(lead + ['0', x] + h + t, |lead| + 2, 16, negative) ==
            Accumulate(DigitsValue(h, 16), |lead| + 2 + |h|, negative)
  {
    var p := lead + ['0', x];
    Middle(p, h, t);
    DigitsThenStop(p + h + t, |p|, 16, h, negative);
  }

  /** Base 0 with "0x" or "0X" and at least one hexadecimal digit reads the
      digits in base 16, after any white space and sign, up to the first
      character that is no hexadecimal digit. */
  lemma StrToULLOfHex(lead: string, negative: bool, x: char, h: string, t: string)
    requires SignedLead(lead, negative) && (x == 'x' || x == 'X')
    requires h != [] && forall i | 0 <= i < |h| :: DigitValue(h[i]) < 16
    requires t == [] || DigitValue(t[0]) >= 16
    ensures StrToULL(lead + ['0', x] + h + t, 0) ==
            Accumulate(DigitsValue(h, 16), |lead| + 2 + |h|, negative)
  {
    HexStart(lead, negative, x, h, t);
    HexDigits(lead, negative, x, h, t);
  }

  /** After white space and a sign, a leading '0' selects base 8 with the
      '0' as the first digit. */
  lemma OctalStart(lead: string, negative: bool, o: string, t: string)
    requires SignedLead(lead, negative)
    requires o != [] ==> DigitValue(o[0]) < 8
    requires o == [] && 2 <= |t| && (t[0] == 'x' || t[0] == 'X') ==> DigitValue(t[1]) >= 16
    ensures SubjectStart(lead + ['0'] + o + t) == |lead|
    ensures Negative(lead + ['0'] + o + t) == negative
    ensures DigitsStart(lead + ['0'] + o + t, |lead|, 0) == (|lead|, 8)
  {
    var u := lead + ['0'] + o + t;
    var j := |lead|;
    Middle(lead, ['0'], o);
    Middle(lead + ['0'], o, t);
    Middle(lead, ['0'], o + t);
    SubjectAfterLead(lead, negative, ['0'] + (o + t));
    assert u[j] == '0';
    assert o == [] && 2 <= |t| ==> u[j + 2] == t[1];
  }

  /** Where the two middle parts of a four-part string sit. */
  lemma Middle2(a: string, m: string, n: string, c: string)
    ensures (a + m + n + c)[|a|..|a| + |m + n|] == m + n
    ensures c != [] ==> (a + m + n + c)[|a| + |m + n|] == c[0]
  {
    assert (a + m + n + c)[|a|..|a| + |m + n|] == m + n;
  }

  /** The octal digits after the leading '0' are converted, the '0'
      adding nothing to their value. */
  lemma OctalDigits(lead: string, negative: bool, o: string, t: string)
    requires forall i | 0 <= i < |o| :: DigitValue(o[i]) < 8
    requires t == [] || DigitValue(t[0]) >= 8
    ensures ConvertDigits(lead + ['0'] + o + t, |lead|, 8, negative) ==
            Accumulate(DigitsValue(o, 8), |lead| + 1 + |o|, negative)
  {
    Middle2(lead, ['0'], o, t);
    ZeroThenDigits(o, 8);
    DigitsThenStop(lead + ['0'] + o + t, |lead|, 8, ['0'] + o, negative);
    LeadingZero(o, 8);
  }

  /** Base 0 with a leading '0' reads the following octal digits in base
      8, after any white space and sign, up to the first character that is
      no octal digit; "0" alone is zero, also when an 'x' follows it without
      a hexadecimal digit after the 'x'. */
  lemma StrToULLOfOctal(lead: string, negative: bool, o: string, t: string)
    requires SignedLead(lead, negative)
    requires forall i | 0 <= i < |o| :: DigitValue(o[i]) < 8
    requires t == [] || DigitValue(t[0]) >= 8
    requires o == [] && 2 <= |t| && (t[0] == 'x' || t[0] == 'X') ==> DigitValue(t[1]) >= 16
    ensures StrToULL(lead + ['0'] + o + t, 0) ==
            Accumulate(DigitsValue(o, 8), |lead| + 1 + |o|, negative)
  {
    OctalStart(lead, negative, o, t);
    OctalDigits(lead, negative, o, t);
  }

  /** After white space and a sign, decimal digits (not starting with '0'
      in base 0) are read in base 10 from their first digit. */
  lemma DecimalStart(lead: string, negative: bool, d: string, t: string, base: nat)
    requires base == 0 || base == 10
    requires SignedLead(lead, negative)
    requires d != [] && '0' <= d[0] <= '9'
    requires base == 0 ==> d[0] != '0'
    ensures SubjectStart(lead + d + t) == |lead|
    ensures Negative(lead + d + t) == negative
    ensures DigitsStart(lead + d + t, |lead|, base) == (|lead|, 10)
  {
    Middle(lead, d, t);
    SubjectAfterLead(lead, negative, d + t);
  }

  /** The decimal digits are converted. */
  lemma DecimalDigits(lead: string, negative: bool, d: string, t: string)
    requires d != [] && forall i | 0 <= i < |d| :: '0' <= d[i] <= '9'
    requires t == [] || DigitValue(t[0]) >= 10
    ensures ConvertDigits(lead + d + t, |lead|, 10, negative) ==
            Accumulate(DigitsValue(d, 10), |lead| + |d|, negative)
  {
    Middle(lead, d, t);
    DigitsThenStop(lead + d + t, |lead|, 10, d, negative);
  }

  /** Decimal digits are read in base 10, after any white space and sign,
      up to the first character that is no decimal digit; in base 0 they
      must not start with '0', which would select octal. */
  lemma StrToULLOfDecimal(lead: string, negative: bool, d: string, t: string, base: nat)
    requires base == 0 || base == 10
    requires SignedLead(lead, negative)
    requires d != [] && forall i | 0 <= i < |d| :: '0' <= d[i] <= '9'
    requires base == 0 ==> d[0] != '0'
    requires t == [] || DigitValue(t[0]) >= 10
    ensures StrToULL(lead + d + t, base) ==
            Accumulate(DigitsValue(d, 10), |lead| + |d|, negative)
  {
    DecimalStart(lead, negative, d, t, base);
    DecimalDigits(lead, negative, d, t);
  }

  /** When the first character after the white space and sign is not a
      digit of the base, nothing is converted: `end == nptr`, value 0 and
      no error. */
  lemma StrToULLOfNoDigits(lead: string, negative: bool, c: string, base: nat)
    requires base == 0 || 2 <= base <= 36
    requires SignedLead(lead, negative)
    requires c != [] ==> DigitValue(c[0]) >= (if base == 0 then 10 else base)
    requires c != [] ==> !IsSpace(c[0]) && c[0] != '+' && c[0] != '-'
    ensures StrToULL(lead + c, base) == Conversion(0, 0, false)
  {
    var s := lead + c;
    var j := |lead|;
    SubjectAfterLead(lead, negative, c);
    assert j < |s| ==> s[j] == c[0];
    var (k, b) := DigitsStart(s, j, base);
    assert k == j && b == (if base == 0 then 10 else base);
    assert DigitRun(s, j, b) == 0;
  }
}
