/** Decimal notation of integers: Python's `str(n)` and the part of `int(s)` the program relies on. */
module Decimal {
  import opened Wrappers

  predicate IsDigit(c: char) {
    '0' <= c <= '9'
  }

  predicate AllDigits(s: string) {
    forall i :: 0 <= i < |s| ==> IsDigit(s[i])
  }

  function DigitChar(d: nat): (c: char)
    requires d < 10
    ensures IsDigit(c) && c as int - '0' as int == d
  {
    ('0' as int + d) as char
  }

  function DigitValue(c: char): (d: nat)
    requires IsDigit(c)
    ensures d < 10 && DigitChar(d) == c
  {
    c as int - '0' as int
  }

  /** `k` copies of `c`: Python's `c * k` for a one-character string. */
  function Repeat(c: char, k: nat): (r: string)
    ensures |r| == k
    ensures forall i :: 0 <= i < k ==> r[i] == c
  {
    seq(k, _ => c)
  }

  /** Python's `str(n)` for a non-negative integer: the canonical digits, without leading zeros. */
  function Show(n: nat): (s: string)
    ensures |s| > 0 && AllDigits(s)
    ensures s[0] == '0' ==> s == "0" && n == 0
    decreases n
  {
    if n < 10 then [DigitChar(n)] else Show(n / 10) + [DigitChar(n % 10)]
  }

  /** Python's `str(i)` for any integer. */
  function ShowInt(i: int): (s: string)
    ensures |s| > 0
    ensures (s[0] == '-') == (i < 0)
    ensures AllDigits(if i < 0 then s[1..] else s)
  {
    if i < 0 then "-" + Show(-i) else Show(i)
  }

  /** The number a string of decimal digits denotes, most significant digit first. */
  function ValueOf(s: string): nat
    requires AllDigits(s)
    decreases |s|
  {
    if s == [] then 0 else ValueOf(s[..|s| - 1]) * 10 + DigitValue(s[|s| - 1])
  }

  /** Python's `int(s)`: an optional sign followed by one or more decimal digits; anything else
      raises ValueError, modelled as `None`. */
  function Parse(s: string): (r: Option<int>)
    ensures r.Some? <==>
      (|s| > 0 && AllDigits(s)) ||
      (|s| > 1 && (s[0] == '+' || s[0] == '-') && AllDigits(s[1..]))
    ensures r.Some? && AllDigits(s) ==> r.value == ValueOf(s)
    ensures r.Some? && !AllDigits(s) ==>
      |s| > 1 && AllDigits(s[1..]) && var v: int := ValueOf(s[1..]); r.value == if s[0] == '-' then -v else v
  {
    if |s| > 0 && (s[0] == '+' || s[0] == '-') then
      var body := s[1..];
      if |body| > 0 && AllDigits(body) then
        var v: int := ValueOf(body);
        Some(if s[0] == '-' then -v else v)
      else
        None
    else if |s| > 0 && AllDigits(s) then
      Some(ValueOf(s))
    else
      None
  }

  /** Reading back the digits `str(n)` writes gives `n`. */
  lemma {:induction false} ValueOfShow(n: nat)
    ensures ValueOf(Show(n)) == n
    decreases n
  {
    if n >= 10 {
      ValueOfShow(n / 10);
      var s := Show(n);
      assert s[..|s| - 1] == Show(n / 10);
    }
  }

  /** Leading zeros do not change the value of a digit string. */
  lemma {:induction false} ValueOfLeadingZeros(k: nat, s: string)
    requires AllDigits(s)
    ensures AllDigits(Repeat('0', k) + s)
    ensures ValueOf(Repeat('0', k) + s) == ValueOf(s)
    decreases |s|
  {
    var t := Repeat('0', k) + s;
    if s == [] {
      assert t == Repeat('0', k);
      ValueOfZeros(k);
    } else {
      ValueOfLeadingZeros(k, s[..|s| - 1]);
      assert t[..|t| - 1] == Repeat('0', k) + s[..|s| - 1];
    }
  }

  lemma {:induction false} ValueOfZeros(k: nat)
    ensures ValueOf(Repeat('0', k)) == 0
    decreases k
  {
    if k > 0 {
      ValueOfZeros(k - 1);
      assert Repeat('0', k)[..k - 1] == Repeat('0', k - 1);
    }
  }

  /** Round trip of `int(str(i))` for every integer. */
  lemma ParseShowInt(i: int)
    ensures Parse(ShowInt(i)) == Some(i)
  {
    if i < 0 {
      ValueOfShow(-i);
      assert ShowInt(i)[1..] == Show(-i);
    } else {
      ValueOfShow(i);
    }
  }

  /** `int()` of `str(n)` with any number of leading zeros is `n`. */
  lemma ParseZeroPadded(k: nat, n: nat)
    ensures Parse(Repeat('0', k) + Show(n)) == Some(n)
  {
    ValueOfLeadingZeros(k, Show(n));
    ValueOfShow(n);
    var t := Repeat('0', k) + Show(n);
    assert IsDigit(t[0]);
  }

  /** Distinct integers have distinct decimal forms. */
  lemma ShowIntInjective(i: int, j: int)
    requires ShowInt(i) == ShowInt(j)
    ensures i == j
  {
    ParseShowInt(i);
    ParseShowInt(j);
  }
}
