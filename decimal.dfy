/** Decimal digit strings: Python's `str(n)` for a natural number, and the
    sort key `int(re.search(r'(\d+)', name).group())` of an archive name. */
module Decimal {
  import opened Outcomes

  predicate IsDigit(c: char) {
    '0' <= c <= '9'
  }

  predicate AllDigits(s: string) {
    forall i :: 0 <= i < |s| ==> IsDigit(s[i])
  }

  predicate NoDigits(s: string) {
    forall i :: 0 <= i < |s| ==> !IsDigit(s[i])
  }

  function DigitValue(c: char): nat
    requires IsDigit(c)
  {
    c as int - '0' as int
  }

  function DigitChar(d: nat): (c: char)
    requires d < 10
    ensures IsDigit(c) && DigitValue(c) == d
  {
    ('0' as int + d) as char
  }

  /** `int(s)` for a string of decimal digits, most significant digit first;
      leading zeros are allowed. */
  function DigitsValue(s: string): nat
    requires AllDigits(s)
  {
    if s == [] then 0 else DigitsValue(s[..|s| - 1]) * 10 + DigitValue(s[|s| - 1])
  }

  /** `str(n)`: the shortest decimal spelling of `n`; reading it back gives `n`. */
  function DecimalString(n: nat): (s: string)
    ensures s != [] && AllDigits(s)
    ensures DigitsValue(s) == n
    ensures |s| > 1 ==> s[0] != '0'
  {
    if n < 10 then [DigitChar(n)]
    else
      var s := DecimalString(n / 10) + [DigitChar(n % 10)];
      assert s[..|s| - 1] == DecimalString(n / 10);
      s
  }

  /** The length of the run of digits at the start of `s` (what `\d+` matches there). */
  function DigitRunLength(s: string): (n: nat)
    ensures n <= |s| && AllDigits(s[..n])
    ensures n < |s| ==> !IsDigit(s[n])
  {
    if s == [] || !IsDigit(s[0]) then 0
    else
      var n := 1 + DigitRunLength(s[1..]);
      assert s[..n] == [s[0]] + s[1..][..n - 1];
      n
  }

  /** The value of the first maximal run of digits in `s`, or None when `s` has
      no digit (where `re.search` returns None and `.group()` raises). */
  function FirstNumber(s: string): (r: Option<nat>)
    ensures r.None? <==> NoDigits(s)
  {
    if s == [] then None
    else if IsDigit(s[0]) then Some(DigitsValue(s[..DigitRunLength(s)]))
    else
      var r := FirstNumber(s[1..]);
      assert NoDigits(s[1..]) ==> NoDigits(s) by {
        if NoDigits(s[1..]) {
          forall i | 0 <= i < |s| ensures !IsDigit(s[i]) {
            if i > 0 { assert s[i] == s[1..][i - 1]; }
          }
        }
      }
      r
  }

  lemma {:induction false} DigitRunOfDecimal(d: string, q: string)
    requires d != [] && AllDigits(d)
    requires q == [] || !IsDigit(q[0])
    ensures DigitRunLength(d + q) == |d|
  {
    var s := d + q;
    if |d| > 1 {
      assert s[1..] == d[1..] + q;
      DigitRunOfDecimal(d[1..], q);
    } else {
      assert s[1..] == q;
    }
  }

  /** A run of digits inside a name, with no digit before it and none right
      after it, is the name's sort key, read as `int` reads it: leading zeros
      are allowed, so `part_007.json.xz` has key 7. */
  lemma {:induction false} FirstNumberOfDigits(p: string, d: string, q: string)
    requires NoDigits(p)
    requires d != [] && AllDigits(d)
    requires q == [] || !IsDigit(q[0])
    ensures FirstNumber(p + d + q) == Some(DigitsValue(d))
  {
    var s := p + d + q;
    if p == [] {
      assert s == d + q;
      DigitRunOfDecimal(d, q);
      assert s[..|d|] == d;
    } else {
      assert !IsDigit(s[0]);
      assert s[1..] == p[1..] + d + q;
      FirstNumberOfDigits(p[1..], d, q);
    }
  }

  /** In particular a number spelled by `str` inside a name is its sort key. */
  lemma FirstNumberOfEmbedded(p: string, n: nat, q: string)
    requires NoDigits(p)
    requires q == [] || !IsDigit(q[0])
    ensures FirstNumber(p + DecimalString(n) + q) == Some(n)
  {
    FirstNumberOfDigits(p, DecimalString(n), q);
  }

  /** Distinct numbers have distinct decimal spellings. */
  lemma DecimalStringInjective(m: nat, n: nat)
    requires DecimalString(m) == DecimalString(n)
    ensures m == n
  {
  }
}
