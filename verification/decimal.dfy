/**
  Decimal rendering of integers: Python's `str(n)` and the format spec `05d`,
  with a reader that recovers the integer from the front of a rendered string.
 */
module Decimal {
  import opened Wrappers
  import opened Text

  predicate IsDigit(c: char) {
    '0' <= c <= '9'
  }

  predicate NotDigit(c: char) {
    !IsDigit(c)
  }

  predicate AllDigits(s: string) {
    forall i :: 0 <= i < |s| ==> IsDigit(s[i])
  }

  function DigitChar(d: nat): (c: char)
    requires d < 10
    ensures IsDigit(c)
  {
    ('0' as int + d) as char
  }

  /** The shortest decimal representation of `n`, no sign: `"0"` for zero. */
  function Digits(n: nat): (r: string)
    ensures |r| >= 1 && AllDigits(r)
    decreases n
  {
    if n < 10 then [DigitChar(n)] else Digits(n / 10) + [DigitChar(n % 10)]
  }

  /** The number a string of decimal digits denotes; leading zeros are allowed. */
  function Value(s: string): nat
    requires AllDigits(s)
    decreases |s|
  {
    if s == [] then 0 else Value(s[..|s| - 1]) * 10 + (s[|s| - 1] as int - '0' as int)
  }

  function Zeros(k: nat): (r: string)
    ensures |r| == k && AllDigits(r)
  {
    seq(k, i => '0')
  }

  /** Python's `str(n)`: a minus sign for negative numbers, then the digits. */
  function IntToString(n: int): (r: string)
    ensures r != [] && '\n' !in r
  {
    if n < 0 then "-" + Digits(-n) else Digits(n)
  }

  /** Left-pads a digit string with zeros to at least `width` characters. */
  function ZeroPad(s: string, width: nat): (r: string)
    requires AllDigits(s)
    ensures AllDigits(r) && |r| >= width && |r| >= |s|
  {
    if |s| < width then Zeros(width - |s|) + s else s
  }

  /**
    Python's `format(n, "05d")`: the zero padding goes after the sign, and the
    sign counts towards the width of five.
   */
  function Format05d(n: int): string {
    if n < 0 then "-" + ZeroPad(Digits(-n), 4) else ZeroPad(Digits(n), 5)
  }

  /**
    Reads an optional minus sign and the decimal digits that follow it from the
    front of `s`; `None` when there is no digit there.
   */
  function LeadingInt(s: string): Option<int> {
    var negative := |s| > 0 && s[0] == '-';
    var start := if negative then 1 else 0;
    var end := RunEnd(s, start, NotDigit);
    RunEndRun(s, start, NotDigit);
    if end == start then None
    else
      var v: int := Value(s[start..end]);
      Some(if negative then -v else v)
  }

  /** Reading the digits of `n` gives `n` back. */
  lemma {:induction false} ValueDigits(n: nat)
    ensures Value(Digits(n)) == n
    decreases n
  {
    if n >= 10 {
      var d := Digits(n);
      assert d[..|d| - 1] == Digits(n / 10);
      ValueDigits(n / 10);
    }
  }

  /** A leading zero does not change the value. */
  lemma {:induction false} ValueLeadingZero(s: string)
    requires AllDigits(s)
    ensures Value("0" + s) == Value(s)
    decreases |s|
  {
    if s != [] {
      var t := "0" + s;
      assert t[..|t| - 1] == "0" + s[..|s| - 1];
      ValueLeadingZero(s[..|s| - 1]);
    }
  }

  lemma {:induction false} ValueZeros(k: nat, s: string)
    requires AllDigits(s)
    ensures Value(Zeros(k) + s) == Value(s)
    decreases k
  {
    if k > 0 {
      assert Zeros(k) + s == "0" + (Zeros(k - 1) + s);
      ValueZeros(k - 1, s);
      ValueLeadingZero(Zeros(k - 1) + s);
    } else {
      assert Zeros(k) + s == s;
    }
  }

  lemma ValueZeroPad(n: nat, width: nat)
    ensures Value(ZeroPad(Digits(n), width)) == n
  {
    ValueDigits(n);
    if |Digits(n)| < width {
      ValueZeros(width - |Digits(n)|, Digits(n));
    }
  }

  /**
    Whatever follows, provided it does not start with a digit, the number a
    `05d` rendering begins with is read back exactly. The rendering is at
    least five characters long and is digits after an optional sign.
   */
  lemma {:induction false} LeadingIntFormat05d(n: int, rest: string)
    requires rest == [] || !IsDigit(rest[0])
    ensures |Format05d(n)| >= 5
    ensures LeadingInt(Format05d(n) + rest) == Some(n)
  {
    var f := Format05d(n);
    var s := f + rest;
    var start := if n < 0 then 1 else 0;
    var pad := if n < 0 then ZeroPad(Digits(-n), 4) else ZeroPad(Digits(n), 5);
    assert f == s[..|f|];
    assert f[start..] == pad;
    assert s[0] == '-' <==> n < 0;
    forall k | start <= k < |f| ensures !(!IsDigit(s[k])) {
      assert s[k] == pad[k - start];
    }
    RunEndIs(s, start, |f|, NotDigit);
    assert s[start..|f|] == pad;
    ValueZeroPad(if n < 0 then -n else n, if n < 0 then 4 else 5);
  }

  /** `str(n)` is read back exactly as well. */
  lemma {:induction false} LeadingIntIntToString(n: int)
    ensures LeadingInt(IntToString(n)) == Some(n)
  {
    var s := IntToString(n);
    var start := if n < 0 then 1 else 0;
    var d := if n < 0 then Digits(-n) else Digits(n);
    assert s[start..] == d;
    assert s[0] == '-' <==> n < 0;
    forall k | start <= k < |s| ensures !(!IsDigit(s[k])) {
      assert s[k] == d[k - start];
    }
    RunEndIs(s, start, |s|, NotDigit);
    assert s[start..|s|] == d;
    ValueDigits(if n < 0 then -n else n);
  }
}
