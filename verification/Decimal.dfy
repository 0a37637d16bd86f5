/** Decimal numerals: writing a natural number and reading it back. */
module Decimal {
  import opened Positions

  predicate IsDigit(c: char) {
    '0' <= c <= '9'
  }

  predicate AllDigits(s: string) {
    forall i :: 0 <= i < |s| ==> IsDigit(s[i])
  }

  function Numeral(n: nat): (s: string)
    ensures s != "" && AllDigits(s)
  {
    if n < 10 then ["0123456789"[n]] else Numeral(n / 10) + ["0123456789"[n % 10]]
  }

  function Value(s: string): nat
    requires AllDigits(s)
  {
    if s == "" then 0
    else
      assert IsDigit(s[|s| - 1]);
      Value(s[..|s| - 1]) * 10 + (s[|s| - 1] as int - '0' as int)
  }

  function Power10(k: nat): (p: nat)
    ensures p >= 1
  {
    if k == 0 then 1 else 10 * Power10(k - 1)
  }

  lemma {:induction false} ValueOfNumeral(n: nat)
    ensures Value(Numeral(n)) == n
  {
    if n >= 10 {
      ValueOfNumeral(n / 10);
      assert Numeral(n)[..|Numeral(n)| - 1] == Numeral(n / 10);
    } else {
      assert Numeral(n)[..0] == "";
    }
  }

  lemma {:induction false} NumeralLength(n: nat, k: nat)
    requires k >= 1
    ensures |Numeral(n)| <= k <==> n < Power10(k)
  {
    if k == 1 {
      assert Power10(1) == 10 * Power10(0);
    } else if n >= 10 {
      NumeralLength(n / 10, k - 1);
    }
  }

  function Zeros(k: nat): (s: string)
    ensures |s| == k && AllDigits(s) && forall i :: 0 <= i < k ==> s[i] == '0'
  {
    if k == 0 then "" else Zeros(k - 1) + "0"
  }

  /** The numeral padded with zeros on the left to at least ten digits. */
  function Padded10(n: nat): (s: string)
    ensures AllDigits(s) && |s| >= 10
  {
    var d := Numeral(n);
    if |d| < 10 then Zeros(10 - |d|) + d else d
  }

  lemma {:induction false} ValueOfPadded(k: nat, d: string)
    requires AllDigits(d)
    ensures Value(Zeros(k) + d) == Value(d)
    decreases k + |d|
  {
    var s := Zeros(k) + d;
    if d != "" {
      ValueOfPadded(k, d[..|d| - 1]);
      assert s[..|s| - 1] == Zeros(k) + d[..|d| - 1];
    } else if k != 0 {
      ValueOfPadded(k - 1, d);
      assert s[..|s| - 1] == Zeros(k - 1) + d;
    }
  }

  lemma {:induction false} Padded10Reads(n: nat)
    ensures Value(Padded10(n)) == n
    ensures |Padded10(n)| == 10 <==> n < 10000000000
  {
    hide Value, Power10;
    var d := Numeral(n);
    ValueOfNumeral(n);
    NumeralLength(n, 10);
    Power10Is();
    if |d| < 10 {
      ValueOfPadded(10 - |d|, d);
    }
  }

  lemma {:induction false} Power10Is()
    ensures Power10(10) == 10000000000
  {
  }

  /** The end of the run of digits that starts at position at. */
  function DigitsEnd(s: string, at: nat): (e: nat)
    requires at <= |s|
    ensures at <= e <= |s| && AllDigits(s[at..e])
    ensures e < |s| ==> !IsDigit(s[e])
    decreases |s| - at
  {
    if at == |s| || !IsDigit(s[at]) then at
    else
      var e := DigitsEnd(s, at + 1);
      assert s[at..e] == [s[at]] + s[at + 1..e];
      e
  }

  /** The start of the run of digits that ends before position at. */
  function DigitsStart(s: string, at: nat): (b: nat)
    requires at <= |s|
    ensures b <= at && AllDigits(s[b..at])
    ensures 0 < b ==> !IsDigit(s[b - 1])
  {
    if at == 0 || !IsDigit(s[at - 1]) then at
    else
      var b := DigitsStart(s, at - 1);
      assert s[b..at] == s[b..at - 1] + [s[at - 1]];
      b
  }

  /** Where a numeral followed by another character stands, reading digits stops right after it. */
  lemma {:induction false} DigitsEndAt(s: string, at: nat, d: string)
    requires StandsAt(s, at, d) && AllDigits(d) && at + |d| < |s| && !IsDigit(s[at + |d|])
    ensures DigitsEnd(s, at) == at + |d|
  {
  }

  lemma {:induction false} DigitsStartAt(s: string, at: nat, d: string)
    requires StandsAt(s, at, d) && AllDigits(d) && 0 < at && !IsDigit(s[at - 1])
    ensures DigitsStart(s, at + |d|) == at
  {
  }
}
