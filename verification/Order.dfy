/** JavaScript's default string order and the sorts built on it. */
module Order {

  /**
   * The place of a character in the order of UTF-16 code units: those above U+FFFF begin with a surrogate, which
   * stands below U+E000. Where two strings first differ, this order is that of their code units.
   */
  function Rank(c: char): int {
    var n := c as int;
    if 0xE000 <= n < 0x1_0000 then n + 0x11_0000 else n
  }

  /** The UTF-16 code units of a character: itself, or a surrogate pair. */
  function Units(c: char): (units: seq<int>)
    ensures 1 <= |units| <= 2
  {
    var n := c as int;
    if n < 0x1_0000 then [n] else [0xD800 + (n - 0x1_0000) / 0x400, 0xDC00 + (n - 0x1_0000) % 0x400]
  }

  /** Beyond U+FFFF a high and a low surrogate that together spell the character. */
  lemma UnitsSpell(c: char)
    ensures c as int < 0x1_0000 ==> Units(c) == [c as int]
    ensures c as int >= 0x1_0000 ==>
              |Units(c)| == 2 && 0xD800 <= Units(c)[0] < 0xDC00 <= Units(c)[1] < 0xE000
              && c as int == 0x1_0000 + (Units(c)[0] - 0xD800) * 0x400 + (Units(c)[1] - 0xDC00)
  {
    assert c as int < 0x11_0000;
  }

  function CodeUnits(s: string): (units: seq<int>)
    ensures |s| <= |units| <= 2 * |s|
  {
    if s == "" then [] else Units(s[0]) + CodeUnits(s[1..])
  }

  /** JavaScript's `length`. */
  function Length(s: string): nat { |CodeUnits(s)| }

  /** Every character counts for one code unit, or for two beyond U+FFFF. */
  lemma {:induction false} LengthCounts(s: string, c: char)
    ensures Length(s + [c]) == Length(s) + if c as int < 0x1_0000 then 1 else 2
    ensures Length("") == 0
  {
    if s == "" {
      assert s + [c] == [c] && [c][1..] == "";
    } else {
      LengthCounts(s[1..], c);
      assert (s + [c])[1..] == s[1..] + [c];
    }
  }

  predicate UnitsLess(x: seq<int>, y: seq<int>) {
    if y == [] then false
    else if x == [] then true
    else x[0] < y[0] || (x[0] == y[0] && UnitsLess(x[1..], y[1..]))
  }

  predicate Less(s: string, t: string) {
    if t == "" then false
    else if s == "" then true
    else Rank(s[0]) < Rank(t[0]) || (s[0] == t[0] && Less(s[1..], t[1..]))
  }

  /** `Less` on characters is the order of the code units, the one JavaScript compares strings by. */
  lemma {:induction false} LessIsCodeUnitOrder(s: string, t: string)
    ensures Less(s, t) <==> UnitsLess(CodeUnits(s), CodeUnits(t))
  {
    if s != "" && t != "" {
      LessIsCodeUnitOrder(s[1..], t[1..]);
      var x, y := CodeUnits(s[1..]), CodeUnits(t[1..]);
      if s[0] == t[0] {
        SkipUnits(s[0], x, y);
      } else {
        FirstUnits(s[0], t[0], x, y);
      }
    }
  }

  lemma SkipUnits(c: char, x: seq<int>, y: seq<int>)
    ensures UnitsLess(Units(c) + x, Units(c) + y) <==> UnitsLess(x, y)
  {
    var u := Units(c);
    assert (u + x)[1..] == u[1..] + x && (u + y)[1..] == u[1..] + y;
    if |u| == 2 {
      assert (u + x)[1..][1..] == x && (u + y)[1..][1..] == y;
    } else {
      assert u[1..] + x == x && u[1..] + y == y;
    }
  }

  lemma FirstUnits(c: char, d: char, x: seq<int>, y: seq<int>)
    requires c != d
    ensures UnitsLess(Units(c) + x, Units(d) + y) <==> Rank(c) < Rank(d)
  {
    var u, v := Units(c), Units(d);
    RankIsInjective(c, d);
    assert c as int < 0x11_0000 && d as int < 0x11_0000;
    if |u| == 2 && |v| == 2 {
      assert (u + x)[1..][0] == u[1] && (v + y)[1..][0] == v[1];
      SamePair(c as int - 0x1_0000, d as int - 0x1_0000);
    }
  }

  /** Of two different pairs the first halves decide, or are equal and leave it to the second. */
  lemma SamePair(m: nat, n: nat)
    requires m != n
    ensures m / 0x400 < n / 0x400 || (m / 0x400 == n / 0x400 && m % 0x400 < n % 0x400) <==> m < n
  {
  }

  lemma RankIsInjective(c: char, d: char)
    ensures Rank(c) == Rank(d) <==> c == d
  {
    assert c as int < 0x11_0000 && d as int < 0x11_0000;
  }

  predicate AtMost(s: string, t: string) { s == t || Less(s, t) }

  lemma {:induction false} LessIsTotal(s: string, t: string)
    ensures Less(s, t) || s == t || Less(t, s)
    ensures !(Less(s, t) && Less(t, s)) && !(s == t && Less(s, t))
  {
    if s != "" && t != "" {
      RankIsInjective(s[0], t[0]);
      LessIsTotal(s[1..], t[1..]);
      if s[0] == t[0] && s[1..] == t[1..] {
        assert s == [s[0]] + s[1..] && t == [t[0]] + t[1..];
      }
    }
  }

  lemma {:induction false} LessIsTransitive(s: string, t: string, u: string)
    requires Less(s, t) && Less(t, u)
    ensures Less(s, u)
  {
    if s != "" && s[0] == t[0] == u[0] {
      LessIsTransitive(s[1..], t[1..], u[1..]);
    }
  }

  ghost predicate Sorted(xs: seq<string>) {
    forall i, j :: 0 <= i < j < |xs| ==> AtMost(xs[i], xs[j])
  }

  predicate Distinct<T(==)>(xs: seq<T>) {
    forall i, j :: 0 <= i < j < |xs| ==> xs[i] != xs[j]
  }

  function Insert(x: string, xs: seq<string>): seq<string> {
    if xs == [] then [x]
    else if AtMost(x, xs[0]) then [x] + xs
    else [xs[0]] + Insert(x, xs[1..])
  }

  /** `sort()` on strings: the sorted arrangement is unique, so the algorithm does not matter. */
  function Sort(xs: seq<string>): seq<string> {
    if xs == [] then [] else Insert(xs[0], Sort(xs[1..]))
  }

  lemma {:induction false} InsertSorts(x: string, xs: seq<string>)
    requires Sorted(xs)
    ensures Sorted(Insert(x, xs))
    ensures multiset(Insert(x, xs)) == multiset(xs) + multiset{x}
  {
    hide AtMost, Less;
    if xs != [] {
      assert xs == [xs[0]] + xs[1..];
      if AtMost(x, xs[0]) {
        forall j | 0 <= j < |xs| ensures AtMost(x, xs[j]) {
          if j > 0 { AtMostIsTransitive(x, xs[0], xs[j]); }
        }
      } else {
        InsertSorts(x, xs[1..]);
        AtMostIsTotal(x, xs[0]);
        BelowRest(xs[0], x, xs[1..], Insert(x, xs[1..]));
      }
    }
  }

  lemma AtMostIsTotal(s: string, t: string)
    ensures AtMost(s, t) || AtMost(t, s)
  {
    LessIsTotal(s, t);
  }

  lemma AtMostIsTransitive(s: string, t: string, u: string)
    requires AtMost(s, t) && AtMost(t, u)
    ensures AtMost(s, u)
  {
    if s != t && t != u { LessIsTransitive(s, t, u); }
  }

  lemma BelowRest(first: string, x: string, xs: seq<string>, rest: seq<string>)
    requires AtMost(first, x) && Sorted([first] + xs) && multiset(rest) == multiset(xs) + multiset{x}
    ensures forall j :: 0 <= j < |rest| ==> AtMost(first, rest[j])
  {
    hide AtMost, Less;
    forall j | 0 <= j < |rest| ensures AtMost(first, rest[j]) {
      assert rest[j] in multiset(rest);
      if rest[j] != x {
        assert rest[j] in xs;
        var i :| 0 <= i < |xs| && xs[i] == rest[j];
        assert AtMost(([first] + xs)[0], ([first] + xs)[i + 1]);
      }
    }
  }

  lemma {:induction false} SortSorts(xs: seq<string>)
    ensures Sorted(Sort(xs))
    ensures multiset(Sort(xs)) == multiset(xs)
    ensures |Sort(xs)| == |xs|
    ensures forall x :: x in Sort(xs) <==> x in xs
  {
    if xs != [] {
      SortSorts(xs[1..]);
      InsertSorts(xs[0], Sort(xs[1..]));
      assert xs == [xs[0]] + xs[1..];
    }
    SameElements(Sort(xs), xs);
  }

  lemma SameElements<T>(xs: seq<T>, ys: seq<T>)
    requires multiset(xs) == multiset(ys)
    ensures |xs| == |ys|
    ensures forall x :: x in xs <==> x in ys
  {
    assert |multiset(xs)| == |xs| && |multiset(ys)| == |ys|;
    forall x ensures x in xs <==> x in ys {
      assert x in xs <==> x in multiset(xs);
      assert x in ys <==> x in multiset(ys);
    }
  }

  lemma {:induction false} SortOfSorted(xs: seq<string>)
    requires Sorted(xs)
    ensures Sort(xs) == xs
  {
    if xs != [] {
      SortOfSorted(xs[1..]);
      if |xs| > 1 { assert AtMost(xs[0], xs[1]); }
    }
  }

  lemma {:induction false} DistinctIsMultiplicityOne<T>(xs: seq<T>)
    ensures Distinct(xs) <==> forall x :: x in xs ==> multiset(xs)[x] == 1
  {
    if xs != [] {
      DistinctIsMultiplicityOne(xs[1..]);
      assert xs == [xs[0]] + xs[1..];
      if Distinct(xs) {
        assert xs[0] !in xs[1..];
        assert Distinct(xs[1..]);
        forall x | x in xs ensures multiset(xs)[x] == 1 {}
      }
      if forall x :: x in xs ==> multiset(xs)[x] == 1 {
        assert multiset(xs)[xs[0]] == 1;
        assert multiset(xs[1..])[xs[0]] == 0;
        assert xs[0] !in xs[1..];
        forall x | x in xs[1..] ensures multiset(xs[1..])[x] == 1 { assert multiset(xs)[x] == 1; }
        forall i, j | 0 <= i < j < |xs| ensures xs[i] != xs[j] {
          if i > 0 { assert xs[1..][i - 1] != xs[1..][j - 1]; } else { assert xs[1..][j - 1] in xs[1..]; }
        }
      }
    }
  }

  lemma SortKeepsDistinct(xs: seq<string>)
    ensures Distinct(Sort(xs)) <==> Distinct(xs)
  {
    SortSorts(xs);
    DistinctIsMultiplicityOne(xs);
    DistinctIsMultiplicityOne(Sort(xs));
  }

  /** `[...new Set(xs)]`: first occurrences in order. */
  function Dedup<T(==,!new)>(xs: seq<T>): (ys: seq<T>)
    ensures forall x :: x in ys <==> x in xs
    ensures Distinct(ys)
    ensures |ys| <= |xs|
  {
    if xs == [] then []
    else
      var ys := Dedup(xs[..|xs| - 1]);
      assert xs == xs[..|xs| - 1] + [xs[|xs| - 1]];
      if xs[|xs| - 1] in ys then ys else ys + [xs[|xs| - 1]]
  }

  lemma DedupSnoc<T(!new)>(xs: seq<T>, x: T)
    ensures Dedup(xs + [x]) == if x in xs then Dedup(xs) else Dedup(xs) + [x]
  {
    assert (xs + [x])[..|xs|] == xs;
  }

  lemma {:induction false} DedupOfDistinct<T(!new)>(xs: seq<T>)
    requires Distinct(xs)
    ensures Dedup(xs) == xs
  {
    if xs != [] {
      DedupOfDistinct(xs[..|xs| - 1]);
      assert xs == xs[..|xs| - 1] + [xs[|xs| - 1]];
    }
  }
}
