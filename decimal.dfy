/**
 * Decimal text as the C library writes and reads it: sprintf's "%d" and
 * "%ld" conversions (src/output.c) and strtol(word, NULL, 10)
 * (src/parser.c), with the widths of int and long on a 64-bit GNU system.
 */
module Decimal {

  const INT_MIN: int := -0x8000_0000
  const INT_MAX: int := 0x7fff_ffff
  const LONG_MIN: int := -0x8000_0000_0000_0000
  const LONG_MAX: int := 0x7fff_ffff_ffff_ffff

  /** The conversion of a long to an int: the value modulo 2^32, as GCC defines it. */
  function ToInt(v: int): (r: int)
    ensures INT_MIN <= r <= INT_MAX
    ensures INT_MIN <= v <= INT_MAX ==> r == v
  {
    (v - INT_MIN) % 0x1_0000_0000 + INT_MIN
  }

  predicate IsDigit(c: char)
  {
    '0' <= c <= '9'
  }

  predicate AllDigits(s: seq<char>)
  {
    forall i :: 0 <= i < |s| ==> IsDigit(s[i])
  }

  /** isspace in the C locale: space, and tab through carriage return. */
  predicate IsSpace(c: char)
  {
    c == ' ' || 9 <= c as int <= 13
  }

  function DigitChar(d: int): (c: char)
    requires 0 <= d < 10
    ensures IsDigit(c) && c as int - '0' as int == d
  {
    (d + '0' as int) as char
  }

  // ---- sprintf

  /** The digits sprintf writes for n >= 0, most significant first, without leading zeros. */
  function Digits(n: nat): (s: seq<char>)
    ensures |s| >= 1 && AllDigits(s)
    decreases n
  {
    if n < 10 then [DigitChar(n)] else Digits(n / 10) + [DigitChar(n % 10)]
  }

  /** sprintf(buf, "%d", n) and sprintf(buf, "%ld", n): a minus sign for negatives, then the digits. */
  function Dec(n: int): (s: seq<char>)
    ensures |s| >= 1 && (s[0] == '-' || IsDigit(s[0]))
    ensures forall i :: 0 <= i < |s| ==> s[i] == '-' || IsDigit(s[i])
    ensures n >= 0 <==> AllDigits(s)
    decreases if n < 0 then 1 else 0
  {
    if n < 0 then ['-'] + Dec(-n) else Digits(n)
  }

  /** Numbers with more digits are larger: the digit count grows with n. */
  lemma {:induction false} DigitsMonotone(a: nat, b: nat)
    requires a <= b
    ensures |Digits(a)| <= |Digits(b)|
    decreases b
  {
    if a >= 10 {
      DigitsMonotone(a / 10, b / 10);
    }
  }

  // ---- strtol

  /** The value of a string of decimal digits, most significant first. */
  function DigitsValue(s: seq<char>): (v: nat)
    requires AllDigits(s)
  {
    if s == [] then 0 else DigitsValue(s[..|s| - 1]) * 10 + (s[|s| - 1] as int - '0' as int)
  }

  /** Reading back the digits of n gives n. */
  lemma {:induction false} DigitsValueOfDigits(n: nat)
    ensures DigitsValue(Digits(n)) == n
    decreases n
  {
    var s := Digits(n);
    if n >= 10 {
      DigitsValueOfDigits(n / 10);
      assert s[..|s| - 1] == Digits(n / 10);
    }
  }

  /** The number of digits of s from position i on, up to the first non-digit. */
  function DigitRun(s: seq<char>, i: nat): (n: nat)
    requires i <= |s|
    ensures i + n <= |s| && AllDigits(s[i..i + n]) && (i + n < |s| ==> !IsDigit(s[i + n]))
    decreases |s| - i
  {
    if i < |s| && IsDigit(s[i]) then
      var n := 1 + DigitRun(s, i + 1);
      assert s[i..i + n] == [s[i]] + s[i + 1..i + n];
      n
    else 0
  }

  /** The number of white-space characters s starts with from position i on. */
  function SpaceRun(s: seq<char>, i: nat): (n: nat)
    requires i <= |s|
    ensures i + n <= |s| && (i + n < |s| ==> !IsSpace(s[i + n]))
    decreases |s| - i
  {
    if i < |s| && IsSpace(s[i]) then 1 + SpaceRun(s, i + 1) else 0
  }

  /** errno after strtol, of the values convert_word_to_value tests. */
  datatype Errno = NoError | Erange | Einval

  datatype StrtolResult = StrtolResult(value: int, errno: Errno)

  /**
   * strtol(s, NULL, 10): leading white space, an optional sign, then the
   * longest run of digits. No digits gives 0; a value beyond the range of
   * long is clamped to LONG_MIN or LONG_MAX with ERANGE. The GNU library does
   * not report EINVAL for base 10.
   */
  function Strtol(s: seq<char>): (r: StrtolResult)
    ensures LONG_MIN <= r.value <= LONG_MAX && r.errno != Einval
    ensures r.errno == Erange ==> r.value == LONG_MIN || r.value == LONG_MAX
  {
    var k := SpaceRun(s, 0);
    var negative := k < |s| && s[k] == '-';
    var j := if k < |s| && (s[k] == '-' || s[k] == '+') then k + 1 else k;
    var n := DigitRun(s, j);
    var m := DigitsValue(s[j..j + n]);
    var v := if negative then -(m as int) else m as int;
    if v > LONG_MAX then StrtolResult(LONG_MAX, Erange)
    else if v < LONG_MIN then StrtolResult(LONG_MIN, Erange)
    else StrtolResult(v, NoError)
  }

  /** A digit string followed by anything but a digit is a run of exactly its length. */
  lemma {:induction false} DigitRunOf(pre: seq<char>, d: seq<char>, rest: seq<char>)
    requires AllDigits(d) && (rest == [] || !IsDigit(rest[0]))
    ensures DigitRun(pre + d + rest, |pre|) == |d|
    decreases |d|
  {
    var s := pre + d + rest;
    if d != [] {
      assert s == (pre + [d[0]]) + d[1..] + rest;
      DigitRunOf(pre + [d[0]], d[1..], rest);
    } else if rest != [] {
      assert s[|pre|] == rest[0];
    }
  }

  /**
   * strtol reads back what sprintf wrote: the decimal text of a long,
   * followed by anything that does not start with a digit, gives that long
   * without error.
   */
  lemma DecRoundTrip(n: int, rest: seq<char>)
    requires LONG_MIN <= n <= LONG_MAX && (rest == [] || !IsDigit(rest[0]))
    ensures Strtol(Dec(n) + rest) == StrtolResult(n, NoError)
  {
    if n < 0 {
      NegativeRoundTrip(-n, rest);
    } else {
      NonNegativeRoundTrip(n, rest);
    }
  }

  lemma NegativeRoundTrip(m: nat, rest: seq<char>)
    requires 1 <= m <= -LONG_MIN && (rest == [] || !IsDigit(rest[0]))
    ensures Strtol(['-'] + Digits(m) + rest) == StrtolResult(-(m as int), NoError)
  {
    DigitsValueOfDigits(m);
    StrtolOfText(['-'], Digits(m), rest, true, m);
  }

  lemma NonNegativeRoundTrip(m: nat, rest: seq<char>)
    requires m <= LONG_MAX && (rest == [] || !IsDigit(rest[0]))
    ensures Strtol(Digits(m) + rest) == StrtolResult(m, NoError)
  {
    DigitsValueOfDigits(m);
    StrtolOfText([], Digits(m), rest, false, m);
    assert [] + Digits(m) + rest == Digits(m) + rest;
  }

  /** strtol on an optional minus sign, a non-empty digit string of value m, then a non-digit. */
  lemma StrtolOfText(sign: seq<char>, d: seq<char>, rest: seq<char>, negative: bool, m: nat)
    requires sign == (if negative then ['-'] else [])
    requires |d| >= 1 && AllDigits(d) && DigitsValue(d) == m && (rest == [] || !IsDigit(rest[0]))
    requires LONG_MIN <= (if negative then -(m as int) else m as int) <= LONG_MAX
    ensures Strtol(sign + d + rest) == StrtolResult(if negative then -(m as int) else m as int, NoError)
  {
    var s := sign + d + rest;
    SignedTextShape(sign, d, rest, negative);
    assert s[|sign|..|sign| + DigitRun(s, |sign|)] == d;
    StrtolDigits(s, |sign|, negative, m);
  }

  /** An optional minus sign, then digits, then a non-digit: no leading space, and the digit run is d. */
  lemma SignedTextShape(sign: seq<char>, d: seq<char>, rest: seq<char>, negative: bool)
    requires sign == (if negative then ['-'] else [])
    requires |d| >= 1 && AllDigits(d) && (rest == [] || !IsDigit(rest[0]))
    ensures SpaceRun(sign + d + rest, 0) == 0
    ensures if negative then |sign| == 1 && (sign + d + rest)[0] == '-'
            else |sign| == 0 && IsDigit((sign + d + rest)[0])
    ensures DigitRun(sign + d + rest, |sign|) == |d| && (sign + d + rest)[|sign|..|sign| + |d|] == d
  {
    var s := sign + d + rest;
    assert s[0] == if negative then '-' else d[0];
    assert !IsSpace(s[0]);
    DigitRunOf(sign, d, rest);
    assert s[|sign|..|sign| + |d|] == d;
  }

  /** strtol on text whose sign ends at j and whose digits from j on have value m. */
  lemma StrtolDigits(s: seq<char>, j: nat, negative: bool, m: nat)
    requires SpaceRun(s, 0) == 0 && j <= |s|
    requires if negative then j == 1 && s[0] == '-' else j == 0 && (s == [] || IsDigit(s[0]))
    requires DigitsValue(s[j..j + DigitRun(s, j)]) == m
    requires LONG_MIN <= (if negative then -(m as int) else m as int) <= LONG_MAX
    ensures Strtol(s) == StrtolResult(if negative then -(m as int) else m as int, NoError)
  {
  }
}
