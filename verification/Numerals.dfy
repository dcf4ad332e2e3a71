/** Positional numerals: digits most significant first, no leading zero except in the numeral of zero. */
module Numerals {
  /** Only octal and decimal are needed; fixing the bases keeps the arithmetic linear. */
  type Base = b: nat | b == 8 || b == 10 witness 10

  function Times(n: nat, base: Base): nat { if base == 8 then 8 * n else 10 * n }

  function Over(n: nat, base: Base): nat { if base == 8 then n / 8 else n / 10 }

  function Rest(n: nat, base: Base): nat { if base == 8 then n % 8 else n % 10 }

  function Pow(base: Base, k: nat): (p: nat)
    ensures p > 0
  {
    if k == 0 then 1 else Times(Pow(base, k - 1), base)
  }

  function Digits(n: nat, base: Base): (ds: seq<nat>)
    ensures |ds| >= 1 && forall i :: 0 <= i < |ds| ==> ds[i] < base
    ensures ds[0] == 0 ==> n == 0
    decreases n
  {
    if n < base then [n] else Digits(Over(n, base), base) + [Rest(n, base)]
  }

  function Value(ds: seq<nat>, base: Base): nat {
    if ds == [] then 0 else Times(Value(ds[..|ds| - 1], base), base) + ds[|ds| - 1]
  }

  lemma {:induction false} ValueOfDigits(n: nat, base: Base)
    ensures Value(Digits(n, base), base) == n
    decreases n
  {
    if n < base {
      assert [n][..0] == [];
    } else {
      ValueOfDigits(Over(n, base), base);
      var ds := Digits(Over(n, base), base);
      assert (ds + [Rest(n, base)])[..|ds|] == ds;
    }
  }

  lemma OneMoreDigit(h: nat, low: nat, base: Base)
    requires h > 0 && low < base
    ensures Digits(Times(h, base) + low, base) == Digits(h, base) + [low]
  {
    assert Over(Times(h, base) + low, base) == h && Rest(Times(h, base) + low, base) == low;
  }

  lemma {:induction false} DigitsOfValue(ds: seq<nat>, base: Base)
    requires |ds| >= 1 && forall i :: 0 <= i < |ds| ==> ds[i] < base
    requires ds[0] == 0 ==> |ds| == 1
    ensures Digits(Value(ds, base), base) == ds
    ensures ds[0] > 0 ==> Value(ds, base) > 0
  {
    var k := |ds| - 1;
    var high, low := ds[..k], ds[k];
    assert ds == high + [low];
    if k == 0 {
      assert high == [];
      assert Value(ds, base) == low;
    } else {
      DigitsOfValue(high, base);
      OneMoreDigit(Value(high, base), low, base);
    }
  }

  lemma {:induction false} LeadingZeros(k: nat, ds: seq<nat>, base: Base)
    ensures Value(seq(k, i => 0) + ds, base) == Value(ds, base)
    decreases k, ds
  {
    var all := seq(k, i => 0) + ds;
    if ds == [] {
      if k > 0 {
        LeadingZeros(k - 1, [], base);
        assert all[..|all| - 1] == seq(k - 1, i => 0) + [];
      }
    } else {
      LeadingZeros(k, ds[..|ds| - 1], base);
      assert all[..|all| - 1] == seq(k, i => 0) + ds[..|ds| - 1];
    }
  }

  /** A number below `base^k` has at most k digits. */
  lemma {:induction false} DigitCount(n: nat, base: Base, k: nat)
    requires k >= 1 && n < Pow(base, k)
    ensures |Digits(n, base)| <= k
    decreases k
  {
    if n >= base {
      assert k > 1 by { assert Pow(base, 0) == 1; }
      DigitCount(Over(n, base), base, k - 1);
    }
  }

  // ----- decimal text -----

  function DigitChar(d: nat): (c: char)
    requires d < 10
  {
    '0' + d as char
  }

  predicate IsDigit(c: char) { '0' <= c <= '9' }

  predicate AllDigits(s: string) { forall i :: 0 <= i < |s| ==> IsDigit(s[i]) }

  function DigitValues(s: string): (ds: seq<nat>)
    requires AllDigits(s)
    ensures |ds| == |s| && forall i :: 0 <= i < |ds| ==> ds[i] < 10
  {
    seq(|s|, i requires 0 <= i < |s| => (s[i] - '0') as nat)
  }

  function Decimal(n: nat): (s: string)
    ensures AllDigits(s) && |s| >= 1
  {
    var ds := Digits(n, 10);
    seq(|ds|, i requires 0 <= i < |ds| => DigitChar(ds[i]))
  }

  function DecimalValue(s: string): nat
    requires AllDigits(s)
  {
    Value(DigitValues(s), 10)
  }

  lemma DecimalRoundTrip(n: nat)
    ensures DecimalValue(Decimal(n)) == n
  {
    ValueOfDigits(n, 10);
    assert DigitValues(Decimal(n)) == Digits(n, 10);
  }

  /** Without leading zeros a numeral is determined by its value. */
  lemma NumeralsAreUnique(s: string, t: string)
    requires AllDigits(s) && AllDigits(t) && s != "" && t != ""
    requires (s[0] == '0' ==> |s| == 1) && (t[0] == '0' ==> |t| == 1)
    requires DecimalValue(s) == DecimalValue(t)
    ensures s == t
  {
    DigitsOfValue(DigitValues(s), 10);
    DigitsOfValue(DigitValues(t), 10);
    DigitValuesInjective(s, t);
  }

  lemma DigitValuesInjective(s: string, t: string)
    requires AllDigits(s) && AllDigits(t) && DigitValues(s) == DigitValues(t)
    ensures s == t
  {
    assert |s| == |DigitValues(t)|;
    forall i | 0 <= i < |s| ensures s[i] == t[i] {
      assert DigitValues(s)[i] == DigitValues(t)[i];
    }
  }
}
