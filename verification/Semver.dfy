/** Version precedence: the comparison loop against section 11 of Semantic Versioning 2.0.0. */
module Semver {
  import opened Text
  import opened Numerals
  import opened Order

  predicate IsIdentifierChar(c: char) { IsDigit(c) || 'a' <= c <= 'z' || 'A' <= c <= 'Z' || c == '-' }

  /** Digits without a leading zero. */
  predicate IsNumeral(s: string) { s != "" && AllDigits(s) && (s[0] == '0' ==> |s| == 1) }

  predicate IsBuildIdentifier(s: string) { s != "" && forall i :: 0 <= i < |s| ==> IsIdentifierChar(s[i]) }

  predicate IsIdentifier(s: string) { IsBuildIdentifier(s) && (AllDigits(s) ==> IsNumeral(s)) }

  /** A parsed version. The build metadata takes no part in precedence. */
  datatype Version = Version(core: seq<nat>, prerelease: Option<seq<string>>, build: Option<seq<string>>)

  ghost predicate Valid(v: Version) {
    |v.core| == 3 && (v.prerelease.Some? ==> forall i :: 0 <= i < |v.prerelease.value| ==>
        IsIdentifier(v.prerelease.value[i]))
  }

  /** What stands before the first c, and what stands behind it if there is one. */
  function CutAt(s: string, c: char): (string, Option<string>) {
    if s == "" then ("", None)
    else if s[0] == c then ("", Some(s[1..]))
    else
      var (front, back) := CutAt(s[1..], c);
      ([s[0]] + front, back)
  }

  function Parse(text: string): (v: Option<Version>)
    ensures v.Some? ==> Valid(v.value)
  {
    var (main, build) := CutAt(text, '+');
    var (core, prerelease) := CutAt(main, '-');
    var numbers := Split(core, '.');
    if |numbers| != 3 || !IsNumeral(numbers[0]) || !IsNumeral(numbers[1]) || !IsNumeral(numbers[2]) then None
    else if prerelease.Some? && exists i ::
        0 <= i < |Split(prerelease.value, '.')| && !IsIdentifier(Split(prerelease.value, '.')[i])
    then None
    else if build.Some? && exists i ::
        0 <= i < |Split(build.value, '.')| && !IsBuildIdentifier(Split(build.value, '.')[i])
    then None
    else Some(Version([DecimalValue(numbers[0]), DecimalValue(numbers[1]), DecimalValue(numbers[2])],
                      if prerelease.Some? then Some(Split(prerelease.value, '.')) else None,
                      if build.Some? then Some(Split(build.value, '.')) else None))
  }

  lemma {:induction false} CutRejoins(s: string, c: char)
    ensures s == CutAt(s, c).0 + if CutAt(s, c).1.Some? then [c] + CutAt(s, c).1.value else []
  {
    if s != "" && s[0] != c { CutRejoins(s[1..], c); }
  }

  /** A part that may be missing, split at the dots. */
  function SplitPart(part: Option<string>): Option<seq<string>> {
    if part.Some? then Some(Split(part.value, '.')) else None
  }

  lemma SplitPartInjective(p: Option<string>, q: Option<string>)
    requires SplitPart(p) == SplitPart(q)
    ensures p == q
  {
    if p.Some? && q.Some? { SplitInjective(p.value, q.value, '.'); }
  }

  predicate IsCore(numbers: seq<string>) {
    |numbers| == 3 && IsNumeral(numbers[0]) && IsNumeral(numbers[1]) && IsNumeral(numbers[2])
  }

  lemma CoreInjective(p: seq<string>, q: seq<string>)
    requires IsCore(p) && IsCore(q)
    requires [DecimalValue(p[0]), DecimalValue(p[1]), DecimalValue(p[2])]
        == [DecimalValue(q[0]), DecimalValue(q[1]), DecimalValue(q[2])]
    ensures p == q
  {
    hide DecimalValue, IsDigit;
    var c, d := [DecimalValue(p[0]), DecimalValue(p[1]), DecimalValue(p[2])],
        [DecimalValue(q[0]), DecimalValue(q[1]), DecimalValue(q[2])];
    forall i | 0 <= i < 3 ensures p[i] == q[i] {
      assert c[i] == d[i];
      NumeralsAreUnique(p[i], q[i]);
    }
  }

  lemma ParsedFrom(text: string)
    requires Parse(text).Some?
    ensures
      var (main, build) := CutAt(text, '+');
      var (core, prerelease) := CutAt(main, '-');
      var numbers := Split(core, '.');
      && IsCore(numbers)
      && Parse(text).value == Version([DecimalValue(numbers[0]), DecimalValue(numbers[1]), DecimalValue(numbers[2])],
                                      SplitPart(prerelease), SplitPart(build))
  {
  }

  /**
   * Parsing is exact: versions agree up to build metadata only when their texts do, and wholly only when they are
   * one text.
   */
  lemma SameVersionIsSameText(a: string, b: string)
    requires Parse(a).Some? && Parse(b).Some?
    ensures Parse(a).value.core == Parse(b).value.core && Parse(a).value.prerelease == Parse(b).value.prerelease
            <==> CutAt(a, '+').0 == CutAt(b, '+').0
    ensures Parse(a) == Parse(b) <==> a == b
  {
    hide Parse, CutAt, Split, IsCore;
    ParsedFrom(a);
    ParsedFrom(b);
    var (m, s) := CutAt(a, '+');
    var (n, t) := CutAt(b, '+');
    var (c, p) := CutAt(m, '-');
    var (d, q) := CutAt(n, '-');
    CutRejoins(a, '+');
    CutRejoins(b, '+');
    CutRejoins(m, '-');
    CutRejoins(n, '-');
    if Parse(a).value.core == Parse(b).value.core && Parse(a).value.prerelease == Parse(b).value.prerelease {
      CoreInjective(Split(c, '.'), Split(d, '.'));
      SplitInjective(c, d, '.');
      SplitPartInjective(p, q);
      if Parse(a).value.build == Parse(b).value.build { SplitPartInjective(s, t); }
    }
  }

  // ----- precedence as the standard states it -----

  /** Numeric identifiers compare as numbers and stand below the others, which compare in ASCII order. */
  ghost predicate IdentifierLess(x: string, y: string) {
    if AllDigits(x) && AllDigits(y) then DecimalValue(x) < DecimalValue(y)
    else if AllDigits(x) != AllDigits(y) then AllDigits(x)
    else Less(x, y)
  }

  /** The first difference decides; a list that continues an equal one is the greater. */
  ghost predicate PrereleaseLess(p: seq<string>, q: seq<string>) {
    exists k :: 0 <= k <= |p| && DecidesAt(p, q, k)
  }

  ghost predicate DecidesAt(p: seq<string>, q: seq<string>, k: nat)
    requires k <= |p|
  {
    k < |q| && p[..k] == q[..k] && (k == |p| || IdentifierLess(p[k], q[k]))
  }

  ghost predicate CoreLess(c: seq<nat>, d: seq<nat>)
    requires |c| == 3 && |d| == 3
  {
    c[0] < d[0] || (c[0] == d[0] && (c[1] < d[1] || (c[1] == d[1] && c[2] < d[2])))
  }

  ghost predicate Precedes(v: Version, w: Version)
    requires Valid(v) && Valid(w)
  {
    CoreLess(v.core, w.core)
    || (v.core == w.core && v.prerelease.Some?
        && (w.prerelease.None? || PrereleaseLess(v.prerelease.value, w.prerelease.value)))
  }

  // ----- numbers as the host reads them -----

  /** The number the host makes of a numeral: a double, so exact up to 2^53 and rounded beyond. */
  type Rounding = nat -> nat

  const EXACT := 0x20_0000_0000_0000

  function RoundIdentifier(num: Rounding, x: string): string {
    if AllDigits(x) then Decimal(num(DecimalValue(x))) else x
  }

  function RoundAll(num: Rounding, p: seq<string>): (r: seq<string>)
    ensures |r| == |p|
  {
    seq(|p|, i requires 0 <= i < |p| => RoundIdentifier(num, p[i]))
  }

  function RoundCore(num: Rounding, c: seq<nat>): (r: seq<nat>)
    ensures |r| == |c|
  {
    seq(|c|, i requires 0 <= i < |c| => num(c[i]))
  }

  /** The version with every numeric part rounded. */
  function RoundVersion(num: Rounding, v: Version): Version {
    Version(RoundCore(num, v.core), if v.prerelease.Some? then Some(RoundAll(num, v.prerelease.value))
        else None, v.build)
  }

  lemma DecimalIsNumeral(n: nat)
    ensures IsNumeral(Decimal(n)) && IsIdentifier(Decimal(n)) && DecimalValue(Decimal(n)) == n
  {
    DecimalRoundTrip(n);
    var ds := Digits(n, 10);
    assert Decimal(n)[0] == DigitChar(ds[0]);
    assert forall i :: 0 <= i < |ds| ==> IsDigit(Decimal(n)[i]);
  }

  lemma RoundedIsValid(num: Rounding, v: Version)
    requires Valid(v)
    ensures Valid(RoundVersion(num, v))
  {
    if v.prerelease.Some? {
      var p := v.prerelease.value;
      forall i | 0 <= i < |p| ensures IsIdentifier(RoundAll(num, p)[i]) {
        if AllDigits(p[i]) { DecimalIsNumeral(num(DecimalValue(p[i]))); }
      }
    }
  }

  /** Every numeric part is within reach of exact doubles. */
  ghost predicate WithinExact(v: Version) {
    && (forall i :: 0 <= i < |v.core| ==> v.core[i] <= EXACT)
    && (v.prerelease.Some? ==>
          forall i :: 0 <= i < |v.prerelease.value| && AllDigits(v.prerelease.value[i]) ==>
            DecimalValue(v.prerelease.value[i]) <= EXACT)
  }

  lemma RoundingIsExact(num: Rounding, v: Version)
    requires Valid(v) && WithinExact(v) && forall n: nat :: n <= EXACT ==> num(n) == n
    ensures RoundVersion(num, v) == v
  {
    hide IsDigit, DecimalValue;
    assert RoundCore(num, v.core) == v.core;
    if v.prerelease.Some? {
      var p := v.prerelease.value;
      forall i | 0 <= i < |p| ensures RoundAll(num, p)[i] == p[i] {
        if AllDigits(p[i]) {
          DecimalIsNumeral(DecimalValue(p[i]));
          NumeralsAreUnique(Decimal(DecimalValue(p[i])), p[i]);
        }
      }
      assert RoundAll(num, p) == p;
    }
  }

  /** Two versions that doubles cannot tell apart, though one precedes the other. */
  lemma RoundingCollapses(num: Rounding)
    requires num(EXACT) == num(EXACT + 1)
    ensures
      var v, w := Version([1, 0, EXACT], None, None), Version([1, 0, EXACT + 1], None, None);
      Precedes(v, w) && RoundVersion(num, v) == RoundVersion(num, w)
  {
    var v, w := Version([1, 0, EXACT], None, None), Version([1, 0, EXACT + 1], None, None);
    assert RoundCore(num, v.core) == RoundCore(num, w.core);
  }

  // ----- which versions are compared rightly -----

  ghost predicate Monotone(num: Rounding) { forall m: nat, n: nat :: m <= n ==> num(m) <= num(n) }

  /** No other number reads as n. */
  ghost predicate Alone(num: Rounding, n: nat) { forall m: nat :: num(m) == num(n) ==> m == n }

  /** Every numeric part of the version reads as no other number does. */
  ghost predicate AllAlone(num: Rounding, v: Version) {
    && (forall i :: 0 <= i < |v.core| ==> Alone(num, v.core[i]))
    && (v.prerelease.Some? ==> IdentifiersAlone(num, v.prerelease.value))
  }

  ghost predicate IdentifiersAlone(num: Rounding, p: seq<string>) {
    forall i :: 0 <= i < |p| && AllDigits(p[i]) ==> Alone(num, DecimalValue(p[i]))
  }

  /** Rounded, the two versions stand to each other as they stand themselves. */
  ghost predicate ComparedRightly(num: Rounding, v: Version, w: Version)
    requires Valid(v) && Valid(w) && Valid(RoundVersion(num, v)) && Valid(RoundVersion(num, w))
  {
    && (Precedes(v, w) <==> Precedes(RoundVersion(num, v), RoundVersion(num, w)))
    && (Precedes(w, v) <==> Precedes(RoundVersion(num, w), RoundVersion(num, v)))
  }

  lemma AloneKeepsOrder(num: Rounding, m: nat, n: nat)
    requires Monotone(num) && Alone(num, m)
    ensures (m < n <==> num(m) < num(n)) && (n < m <==> num(n) < num(m)) && (m == n <==> num(m) == num(n))
  {
  }

  lemma CoreKeepsOrder(num: Rounding, c: seq<nat>, d: seq<nat>)
    requires Monotone(num) && |c| == |d| == 3 && forall i :: 0 <= i < 3 ==> Alone(num, c[i])
    ensures CoreLess(c, d) <==> CoreLess(RoundCore(num, c), RoundCore(num, d))
    ensures CoreLess(d, c) <==> CoreLess(RoundCore(num, d), RoundCore(num, c))
    ensures c == d <==> RoundCore(num, c) == RoundCore(num, d)
  {
    hide Monotone, Alone;
    forall i | 0 <= i < 3
      ensures (c[i] < d[i] <==> num(c[i]) < num(d[i])) && (d[i] < c[i] <==> num(d[i]) < num(c[i]))
      ensures c[i] == d[i] <==> num(c[i]) == num(d[i])
    {
      AloneKeepsOrder(num, c[i], d[i]);
    }
    var x, y := RoundCore(num, c), RoundCore(num, d);
    assert c == [c[0], c[1], c[2]] && d == [d[0], d[1], d[2]];
    assert x == [num(c[0]), num(c[1]), num(c[2])] && y == [num(d[0]), num(d[1]), num(d[2])];
    assert c == d <==> c[0] == d[0] && c[1] == d[1] && c[2] == d[2];
    assert x == y <==> x[0] == y[0] && x[1] == y[1] && x[2] == y[2];
  }

  lemma IdentifierKeepsOrder(num: Rounding, x: string, y: string)
    requires Monotone(num) && IsIdentifier(x) && IsIdentifier(y)
    requires AllDigits(x) ==> Alone(num, DecimalValue(x))
    ensures
      var u, v := RoundIdentifier(num, x), RoundIdentifier(num, y);
      && (IdentifierLess(x, y) <==> IdentifierLess(u, v)) && (IdentifierLess(y, x) <==> IdentifierLess(v, u))
      && (x == y <==> u == v)
  {
    hide Monotone, Alone, DecimalValue;
    if AllDigits(x) { DecimalIsNumeral(num(DecimalValue(x))); }
    if AllDigits(y) { DecimalIsNumeral(num(DecimalValue(y))); }
    if AllDigits(x) && AllDigits(y) {
      AloneKeepsOrder(num, DecimalValue(x), DecimalValue(y));
      if DecimalValue(x) == DecimalValue(y) { NumeralsAreUnique(x, y); }
    }
  }

  lemma PrereleaseKeepsOrder(num: Rounding, p: seq<string>, q: seq<string>)
    requires Monotone(num) && AllIdentifiers(p) && AllIdentifiers(q) && IdentifiersAlone(num, p)
    ensures PrereleaseLess(p, q) <==> PrereleaseLess(RoundAll(num, p), RoundAll(num, q))
    ensures PrereleaseLess(q, p) <==> PrereleaseLess(RoundAll(num, q), RoundAll(num, p))
    ensures p == q <==> RoundAll(num, p) == RoundAll(num, q)
  {
    hide Monotone, Alone, IdentifierLess, RoundIdentifier, IsIdentifier, DecimalValue;
    var u, v := RoundAll(num, p), RoundAll(num, q);
    forall i | 0 <= i < |p| && i < |q|
      ensures (IdentifierLess(p[i], q[i]) <==> IdentifierLess(u[i], v[i]))
      ensures (IdentifierLess(q[i], p[i]) <==> IdentifierLess(v[i], u[i]))
      ensures p[i] == q[i] <==> u[i] == v[i]
    {
      IdentifierKeepsOrder(num, p[i], q[i]);
    }
    forall k | 0 <= k <= |p| && k <= |q| ensures p[..k] == q[..k] <==> u[..k] == v[..k] { SameFront(p, q, u, v, k); }
    forall k | 0 <= k <= |p| ensures DecidesAt(p, q, k) <==> DecidesAt(u, v, k) {}
    forall k | 0 <= k <= |q| ensures DecidesAt(q, p, k) <==> DecidesAt(v, u, k) {}
    if |p| == |q| { assert p == p[..|p|] && q == q[..|p|] && u == u[..|p|] && v == v[..|p|]; }
  }

  lemma SameFront(p: seq<string>, q: seq<string>, u: seq<string>, v: seq<string>, k: nat)
    requires k <= |p| == |u| && k <= |q| == |v| && forall i :: 0 <= i < k ==> (p[i] == q[i] <==> u[i] == v[i])
    ensures p[..k] == q[..k] <==> u[..k] == v[..k]
  {
    if p[..k] == q[..k] { forall i | 0 <= i < k ensures u[i] == v[i] { assert p[..k][i] == q[..k][i]; } }
    if u[..k] == v[..k] { forall i | 0 <= i < k ensures p[i] == q[i] { assert u[..k][i] == v[..k][i]; } }
  }

  lemma AloneIsRight(num: Rounding, v: Version, w: Version)
    requires Monotone(num) && Valid(v) && Valid(w) && AllAlone(num, v)
    ensures Valid(RoundVersion(num, v)) && Valid(RoundVersion(num, w)) && ComparedRightly(num, v, w)
  {
    hide Monotone, Alone, CoreLess, PrereleaseLess, RoundCore, RoundAll, IsIdentifier, IdentifiersAlone;
    RoundedIsValid(num, v);
    RoundedIsValid(num, w);
    CoreKeepsOrder(num, v.core, w.core);
    if v.prerelease.Some? && w.prerelease.Some? { PrereleaseKeepsOrder(num, v.prerelease.value, w.prerelease.value); }
  }

  /** Two different versions that read alike: the one that precedes is lost. */
  lemma CollapsedIsWrong(num: Rounding, v: Version, w: Version)
    requires Valid(v) && Valid(w) && (v.core != w.core || v.prerelease != w.prerelease)
    requires RoundVersion(num, v) == RoundVersion(num, w)
    ensures Valid(RoundVersion(num, v)) && !ComparedRightly(num, v, w)
  {
    hide PrereleaseLess, RoundCore, RoundAll, IsIdentifier;
    RoundedIsValid(num, v);
    PrecedenceIsTotal(v, w);
    PrecedenceIsTotal(RoundVersion(num, v), RoundVersion(num, v));
  }

  /** A part that is not alone has a twin, and the version with the twin in its place reads alike. */
  lemma TwinVersion(num: Rounding, v: Version) returns (w: Version)
    requires Valid(v) && !AllAlone(num, v)
    ensures Valid(w) && (v.core != w.core || v.prerelease != w.prerelease)
    ensures RoundVersion(num, v) == RoundVersion(num, w)
  {
    hide IsIdentifier, DecimalValue;
    if i :| 0 <= i < |v.core| && !Alone(num, v.core[i]) {
      var m: nat :| num(m) == num(v.core[i]) && m != v.core[i];
      w := v.(core := v.core[i := m]);
      assert RoundCore(num, v.core) == RoundCore(num, w.core);
    } else {
      var p := v.prerelease.value;
      var i :| 0 <= i < |p| && AllDigits(p[i]) && !Alone(num, DecimalValue(p[i]));
      var m: nat :| num(m) == num(DecimalValue(p[i])) && m != DecimalValue(p[i]);
      DecimalIsNumeral(m);
      w := v.(prerelease := Some(p[i := Decimal(m)]));
      assert w.prerelease.value[i] != p[i];
      assert RoundAll(num, p) == RoundAll(num, w.prerelease.value);
    }
  }

  ghost predicate AlwaysRight(num: Rounding, v: Version)
    requires Valid(v)
  {
    forall w: Version | Valid(w) ::
      Valid(RoundVersion(num, v)) && Valid(RoundVersion(num, w)) && ComparedRightly(num, v, w)
  }

  /** A version is compared rightly with every other exactly when each of its numbers is read as no other number is. */
  lemma RightIffAlone(num: Rounding, v: Version)
    requires Monotone(num) && Valid(v)
    ensures AlwaysRight(num, v) <==> AllAlone(num, v)
  {
    hide Monotone, AllAlone, ComparedRightly, RoundVersion, Valid;
    if AllAlone(num, v) {
      forall w: Version | Valid(w)
        ensures Valid(RoundVersion(num, v)) && Valid(RoundVersion(num, w)) && ComparedRightly(num, v, w)
      {
        AloneIsRight(num, v, w);
      }
    } else {
      var w := TwinVersion(num, v);
      CollapsedIsWrong(num, v, w);
    }
  }

  /** Doubles leave every number below 2^53 alone. */
  lemma BelowExactIsAlone(num: Rounding, n: nat)
    requires Monotone(num) && (forall m: nat :: m <= EXACT ==> num(m) == m) && n < EXACT
    ensures Alone(num, n)
  {
    forall m: nat ensures num(m) == num(n) ==> m == n {
      assert EXACT <= m ==> num(EXACT) <= num(m);
    }
  }

  /** Where 2^53 and 2^53 + 1 read alike an order can even turn round: the collapsed part hands the decision on. */
  lemma RoundingInverts(num: Rounding)
    requires num(EXACT) == num(EXACT + 1) && num(0) < num(5)
    ensures
      var v, w := Version([1, EXACT, 5], None, None), Version([1, EXACT + 1, 0], None, None);
      Precedes(v, w) && Precedes(RoundVersion(num, w), RoundVersion(num, v))
  {
    var v, w := Version([1, EXACT, 5], None, None), Version([1, EXACT + 1, 0], None, None);
    assert RoundCore(num, v.core) == [num(1), num(EXACT), num(5)];
    assert RoundCore(num, w.core) == [num(1), num(EXACT), num(0)];
  }

  // ----- the comparison loop -----

  method CompareCore(num: Rounding, c: seq<nat>, d: seq<nat>) returns (r: int)
    requires |c| == 3 && |d| == 3
    ensures
      var x, y := RoundCore(num, c), RoundCore(num, d);
      r == if CoreLess(x, y) then -1 else if x == y then 0 else 1
  {
    ghost var x, y := RoundCore(num, c), RoundCore(num, d);
    for i := 0 to 3
      invariant (i > 0 ==> x[0] == y[0]) && (i > 1 ==> x[1] == y[1]) && (i > 2 ==> x[2] == y[2])
    {
      var m, n := num(c[i]), num(d[i]);
      if m != n { return if m < n then -1 else 1; }
    }
    assert x == [x[0], x[1], x[2]] && y == [y[0], y[1], y[2]];
    return 0;
  }

  /** One turn of the loop: the sign of two identifiers, numbers as the host reads them. */
  method CompareIdentifier(num: Rounding, x: string, y: string) returns (r: int)
    requires IsIdentifier(x) && IsIdentifier(y)
    ensures
      var u, v := RoundIdentifier(num, x), RoundIdentifier(num, y);
      r in {-1, 0, 1} && (r == -1 ==> IdentifierLess(u, v)) && (r == 1 ==> IdentifierLess(v, u)) && (r == 0 ==> u == v)
  {
    var xIsNumber, yIsNumber := AllDigits(x), AllDigits(y);
    if xIsNumber { DecimalIsNumeral(num(DecimalValue(x))); }
    if yIsNumber { DecimalIsNumeral(num(DecimalValue(y))); }
    if xIsNumber && yIsNumber {
      var m, n := num(DecimalValue(x)), num(DecimalValue(y));
      return if m < n then -1 else if m > n then 1 else 0;
    } else if xIsNumber != yIsNumber {
      return if xIsNumber then -1 else 1;
    }
    LessIsTotal(x, y);
    return if x == y then 0 else if Less(x, y) then -1 else 1;
  }

  method ComparePrerelease(num: Rounding, p: seq<string>, q: seq<string>) returns (r: int)
    requires AllIdentifiers(p) && AllIdentifiers(q)
    ensures r in {-1, 0, 1}
    ensures r == -1 ==> PrereleaseLess(RoundAll(num, p), RoundAll(num, q))
    ensures r == 1 ==> PrereleaseLess(RoundAll(num, q), RoundAll(num, p))
    ensures r == 0 ==> RoundAll(num, p) == RoundAll(num, q)
  {
    hide IdentifierLess, RoundIdentifier, IsIdentifier;
    ghost var u, v := RoundAll(num, p), RoundAll(num, q);
    var longest := if |p| >= |q| then |p| else |q|;
    for i := 0 to longest
      invariant i <= |p| && i <= |q| && u[..i] == v[..i]
    {
      if i >= |p| {
        assert DecidesAt(u, v, i);
        return -1;
      }
      if i >= |q| {
        assert DecidesAt(v, u, i);
        return 1;
      }
      var sign := CompareIdentifier(num, p[i], q[i]);
      assert u[..i] == v[..i];
      assert IdentifierLess(u[i], v[i]) ==> DecidesAt(u, v, i);
      assert IdentifierLess(v[i], u[i]) ==> DecidesAt(v, u, i);
      if sign != 0 { return sign; }
      assert u[..i + 1] == u[..i] + [u[i]] && v[..i + 1] == v[..i] + [v[i]];
    }
    assert u == u[..longest] && v == v[..longest];
    return 0;
  }

  /** The sign of the precedence of two versions; 0 when they agree up to build metadata. */
  ghost predicate IsSign(r: int, v: Version, w: Version)
    requires Valid(v) && Valid(w)
  {
    && r in {-1, 0, 1} && (r == -1 <==> Precedes(v, w)) && (r == 1 <==> Precedes(w, v))
    && (r == 0 <==> v.core == w.core && v.prerelease == w.prerelease)
  }

  /**
   * `None` when one of the two is no version; otherwise exactly the sign of the precedence of the rounded versions,
   * whatever the rounding. It is the precedence of the versions themselves when the numbers of one of them read as no
   * other numbers do, and when all numbers are ones that doubles hold; then 0 means that the texts agree up to build
   * metadata.
   */
  method CompareSemver(num: Rounding, a: string, b: string) returns (r: Option<int>)
    ensures r.None? <==> Parse(a).None? || Parse(b).None?
    ensures r.Some? ==>
              var v, w := RoundVersion(num, Parse(a).value), RoundVersion(num, Parse(b).value);
              Valid(v) && Valid(w) && IsSign(r.value, v, w)
    ensures r.Some? && Monotone(num) && (AllAlone(num, Parse(a).value) || AllAlone(num, Parse(b).value)) ==>
              IsSign(r.value, Parse(a).value, Parse(b).value)
              && (r.value == 0 <==> CutAt(a, '+').0 == CutAt(b, '+').0)
    ensures r.Some? && WithinExact(Parse(a).value) && WithinExact(Parse(b).value)
            && (forall n: nat :: n <= EXACT ==> num(n) == n) ==>
              IsSign(r.value, Parse(a).value, Parse(b).value)
              && (r.value == 0 <==> CutAt(a, '+').0 == CutAt(b, '+').0)
  {
    hide Parse, CutAt, WithinExact, AllAlone, Monotone, ComparedRightly, IsSign;
    var ma, mb := Parse(a), Parse(b);
    if ma.None? || mb.None? { return None; }
    if WithinExact(ma.value) && WithinExact(mb.value) && forall n: nat :: n <= EXACT ==> num(n) == n {
      RoundingIsExact(num, ma.value);
      RoundingIsExact(num, mb.value);
    }
    var sign := CompareVersions(num, ma.value, mb.value);
    if Monotone(num) && AllAlone(num, ma.value) {
      AloneIsRight(num, ma.value, mb.value);
      RightSign(num, sign, ma.value, mb.value);
    }
    if Monotone(num) && AllAlone(num, mb.value) {
      AloneIsRight(num, mb.value, ma.value);
      RightSign(num, sign, ma.value, mb.value);
    }
    SignOfTexts(sign, a, b);
    return Some(sign);
  }

  lemma RightSign(num: Rounding, r: int, v: Version, w: Version)
    requires Valid(v) && Valid(w) && Valid(RoundVersion(num, v)) && Valid(RoundVersion(num, w))
    requires ComparedRightly(num, v, w) || ComparedRightly(num, w, v)
    requires IsSign(r, RoundVersion(num, v), RoundVersion(num, w))
    ensures IsSign(r, v, w)
  {
    hide Precedes, Valid;
    PrecedenceIsTotal(v, w);
    PrecedenceIsTotal(w, v);
  }

  lemma SignOfTexts(r: int, a: string, b: string)
    requires Parse(a).Some? && Parse(b).Some?
    ensures IsSign(r, Parse(a).value, Parse(b).value) ==> (r == 0 <==> CutAt(a, '+').0 == CutAt(b, '+').0)
  {
    hide Parse, CutAt;
    SameVersionIsSameText(a, b);
  }

  method CompareVersions(num: Rounding, v: Version, w: Version) returns (r: int)
    requires Valid(v) && Valid(w)
    ensures Valid(RoundVersion(num, v)) && Valid(RoundVersion(num, w))
    ensures IsSign(r, RoundVersion(num, v), RoundVersion(num, w))
  {
    hide IsIdentifier, CoreLess, PrereleaseLess, RoundCore, RoundAll;
    RoundedIsValid(num, v);
    RoundedIsValid(num, w);
    PrecedenceIsTotal(RoundVersion(num, v), RoundVersion(num, w));
    r := CompareCore(num, v.core, w.core);
    if r != 0 { return r; }
    if v.prerelease.None? && w.prerelease.None? { return 0; }
    if v.prerelease.None? { return 1; }
    if w.prerelease.None? { return -1; }
    r := ComparePrerelease(num, v.prerelease.value, w.prerelease.value);
  }

  // ----- precedence is a strict total order up to build metadata -----

  lemma IdentifierOrder(x: string, y: string)
    requires IsIdentifier(x) && IsIdentifier(y)
    ensures IdentifierLess(x, y) || x == y || IdentifierLess(y, x)
    ensures !(IdentifierLess(x, y) && IdentifierLess(y, x)) && !(x == y && IdentifierLess(x, y))
  {
    LessIsTotal(x, y);
    if AllDigits(x) && AllDigits(y) && DecimalValue(x) == DecimalValue(y) { NumeralsAreUnique(x, y); }
  }

  lemma IdentifierTransitive(x: string, y: string, z: string)
    requires IdentifierLess(x, y) && IdentifierLess(y, z)
    ensures IdentifierLess(x, z)
  {
    if !AllDigits(x) && !AllDigits(y) && !AllDigits(z) { LessIsTransitive(x, y, z); }
  }

  ghost predicate AllIdentifiers(p: seq<string>) { forall i :: 0 <= i < |p| ==> IsIdentifier(p[i]) }

  lemma {:induction false} FirstDifference(p: seq<string>, q: seq<string>, k: nat)
    requires AllIdentifiers(p) && AllIdentifiers(q)
    requires k <= |p| && k <= |q| && p[..k] == q[..k]
    ensures PrereleaseLess(p, q) || p == q || PrereleaseLess(q, p)
    decreases |p| - k
  {
    hide IdentifierLess, IsIdentifier;
    if k == |p| || k == |q| {
      if k < |q| { assert DecidesAt(p, q, k); }
      else if k < |p| { assert DecidesAt(q, p, k); }
      else { assert p == p[..k] && q == q[..k]; }
    } else {
      IdentifierOrder(p[k], q[k]);
      if p[k] == q[k] {
        assert p[..k + 1] == p[..k] + [p[k]] && q[..k + 1] == q[..k] + [q[k]];
        FirstDifference(p, q, k + 1);
      } else if IdentifierLess(p[k], q[k]) {
        assert DecidesAt(p, q, k);
      } else {
        assert DecidesAt(q, p, k);
      }
    }
  }

  lemma PrereleaseAsymmetric(p: seq<string>, q: seq<string>)
    requires AllIdentifiers(p) && AllIdentifiers(q) && PrereleaseLess(p, q)
    ensures !PrereleaseLess(q, p) && p != q
  {
    hide IdentifierLess, IsIdentifier;
    var k :| 0 <= k <= |p| && DecidesAt(p, q, k);
    if k < |p| { IdentifierOrder(p[k], q[k]); }
    forall l | 0 <= l <= |q| ensures !DecidesAt(q, p, l) {
      if l < k {
        IdentifierOrder(q[l], q[l]);
        SamePrefix(p, q, k, l);
      } else if k < l && l <= |p| && q[..l] == p[..l] {
        SamePrefix(p, q, l, k);
      }
    }
  }

  lemma SamePrefix(p: seq<string>, q: seq<string>, k: nat, l: nat)
    requires l < k <= |p| && k <= |q| && p[..k] == q[..k]
    ensures p[l] == q[l] && p[..l] == q[..l]
  {
    assert p[..k][l] == q[..k][l];
    assert p[..k][..l] == p[..l] && q[..k][..l] == q[..l];
  }

  lemma PrereleaseTransitive(p: seq<string>, q: seq<string>, r: seq<string>)
    requires PrereleaseLess(p, q) && PrereleaseLess(q, r)
    ensures PrereleaseLess(p, r)
  {
    hide IdentifierLess;
    var k :| 0 <= k <= |p| && DecidesAt(p, q, k);
    var l :| 0 <= l <= |q| && DecidesAt(q, r, l);
    if k < l {
      SamePrefix(q, r, l, k);
      assert DecidesAt(p, r, k);
    } else if l < k {
      SamePrefix(p, q, k, l);
      assert DecidesAt(p, r, l);
    } else {
      if k < |p| { IdentifierTransitive(p[k], q[k], r[k]); }
      assert DecidesAt(p, r, k);
    }
  }

  /** Of two versions exactly one precedes the other, or they differ in build metadata at most. */
  lemma PrecedenceIsTotal(v: Version, w: Version)
    requires Valid(v) && Valid(w)
    ensures Precedes(v, w) || Precedes(w, v) || (v.core == w.core && v.prerelease == w.prerelease)
    ensures !(Precedes(v, w) && Precedes(w, v))
    ensures v.core == w.core && v.prerelease == w.prerelease ==> !Precedes(v, w)
  {
    hide PrereleaseLess;
    if v.core == w.core && v.prerelease.Some? && w.prerelease.Some? {
      var p, q := v.prerelease.value, w.prerelease.value;
      FirstDifference(p, q, 0);
      if PrereleaseLess(p, q) { PrereleaseAsymmetric(p, q); }
      if PrereleaseLess(q, p) { PrereleaseAsymmetric(q, p); }
    }
    assert v.core == w.core || CoreLess(v.core, w.core) || CoreLess(w.core, v.core) by {
      assert v.core == [v.core[0], v.core[1], v.core[2]] && w.core == [w.core[0], w.core[1], w.core[2]];
    }
  }

  lemma PrecedenceIsTransitive(u: Version, v: Version, w: Version)
    requires Valid(u) && Valid(v) && Valid(w) && Precedes(u, v) && Precedes(v, w)
    ensures Precedes(u, w)
  {
    hide PrereleaseLess;
    if u.core == v.core == w.core && v.prerelease.Some? && w.prerelease.Some? {
      PrereleaseTransitive(u.prerelease.value, v.prerelease.value, w.prerelease.value);
    }
  }
}
