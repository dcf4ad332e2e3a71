/** Which texts are versions: the grammar of Semantic Versioning 2.0.0, and parsing as the inverse of writing. */
module SemverText {
  import opened Text
  import opened Numerals
  import opened Semver

  // ----- the grammar -----

  ghost predicate LetterDigitHyphen(c: char) { '0' <= c <= '9' || 'A' <= c <= 'Z' || 'a' <= c <= 'z' || c == '-' }

  ghost predicate BuildIdentifier(s: string) { s != "" && forall i :: 0 <= i < |s| ==> LetterDigitHyphen(s[i]) }

  /** Of digits alone only without a leading zero. */
  ghost predicate PrereleaseIdentifier(s: string) {
    BuildIdentifier(s) && ((forall i :: 0 <= i < |s| ==> '0' <= s[i] <= '9') ==> s == "0" || s[0] != '0')
  }

  /** Three numbers, and lists of identifiers, not empty where there is one. */
  ghost predicate Grammatical(v: Version) {
    && |v.core| == 3
    && (v.prerelease.Some? ==>
          v.prerelease.value != []
          && forall i :: 0 <= i < |v.prerelease.value| ==> PrereleaseIdentifier(v.prerelease.value[i]))
    && (v.build.Some? ==>
          v.build.value != [] && forall i :: 0 <= i < |v.build.value| ==> BuildIdentifier(v.build.value[i]))
  }

  function Dotted(parts: seq<string>): string { Join(parts, '.') }

  /** A version in writing. */
  function Written(v: Version): string
    requires |v.core| == 3
  {
    Dotted([Decimal(v.core[0]), Decimal(v.core[1]), Decimal(v.core[2])])
    + (if v.prerelease.Some? then "-" + Dotted(v.prerelease.value) else "")
    + if v.build.Some? then "+" + Dotted(v.build.value) else ""
  }

  lemma IdentifiersAre(s: string)
    ensures IsBuildIdentifier(s) <==> BuildIdentifier(s)
    ensures IsIdentifier(s) <==> PrereleaseIdentifier(s)
  {
    forall i | 0 <= i < |s| ensures IsIdentifierChar(s[i]) <==> LetterDigitHyphen(s[i]) {}
    if AllDigits(s) { assert forall i :: 0 <= i < |s| ==> '0' <= s[i] <= '9'; }
    if forall i :: 0 <= i < |s| ==> '0' <= s[i] <= '9' { assert AllDigits(s); }
    if |s| == 1 && s[0] == '0' { assert s == "0"; }
  }

  // ----- cutting -----

  lemma {:induction false} CutBehind(front: string, c: char, back: string)
    requires c !in front
    ensures CutAt(front + [c] + back, c) == (front, Some(back))
    ensures CutAt(front, c) == (front, None)
  {
    var s := front + [c] + back;
    if front == "" {
      assert s[1..] == back;
    } else {
      CutBehind(front[1..], c, back);
      assert s[1..] == front[1..] + [c] + back && [front[0]] + front[1..] == front;
    }
  }

  lemma {:induction false} DottedHasOnly(parts: seq<string>, c: char)
    requires c != '.' && forall i :: 0 <= i < |parts| ==> c !in parts[i]
    ensures c !in Dotted(parts)
  {
    if |parts| > 1 { DottedHasOnly(parts[1..], c); }
  }

  lemma SplitsAtDots(parts: seq<string>)
    requires parts != [] && forall i :: 0 <= i < |parts| ==> '.' !in parts[i]
    ensures Split(Dotted(parts), '.') == parts
  {
    forall p | p in parts ensures '.' !in p { var i :| 0 <= i < |parts| && parts[i] == p; }
    SplitJoin(parts, '.');
  }

  lemma DecimalsAreDigits(n: nat)
    ensures '.' !in Decimal(n) && '-' !in Decimal(n) && '+' !in Decimal(n) && IsNumeral(Decimal(n))
    ensures DecimalValue(Decimal(n)) == n
  {
    DecimalIsNumeral(n);
    assert forall i :: 0 <= i < |Decimal(n)| ==> IsDigit(Decimal(n)[i]);
  }

  lemma CoreIs(core: seq<nat>)
    requires |core| == 3
    ensures
      var numbers := [Decimal(core[0]), Decimal(core[1]), Decimal(core[2])];
      && '-' !in Dotted(numbers) && '+' !in Dotted(numbers) && Split(Dotted(numbers), '.') == numbers && IsCore(numbers)
      && [DecimalValue(numbers[0]), DecimalValue(numbers[1]), DecimalValue(numbers[2])] == core
  {
    hide Decimal, DecimalValue, IsNumeral;
    var numbers := [Decimal(core[0]), Decimal(core[1]), Decimal(core[2])];
    forall i | 0 <= i < 3
      ensures '.' !in numbers[i] && '-' !in numbers[i] && '+' !in numbers[i] && IsNumeral(numbers[i])
      ensures DecimalValue(numbers[i]) == core[i]
    {
      DecimalsAreDigits(core[i]);
    }
    DottedHasOnly(numbers, '-');
    DottedHasOnly(numbers, '+');
    SplitsAtDots(numbers);
    assert core == [core[0], core[1], core[2]];
  }

  lemma ListIs(parts: seq<string>)
    requires parts != [] && forall i :: 0 <= i < |parts| ==> BuildIdentifier(parts[i])
    ensures Split(Dotted(parts), '.') == parts && '+' !in Dotted(parts)
  {
    hide BuildIdentifier;
    forall i | 0 <= i < |parts| ensures '.' !in parts[i] && '+' !in parts[i] { PlainIdentifier(parts[i]); }
    SplitsAtDots(parts);
    DottedHasOnly(parts, '+');
  }

  lemma PlainIdentifier(s: string)
    requires BuildIdentifier(s)
    ensures '.' !in s && '+' !in s
  {
  }

  // ----- parsing inverts writing -----

  lemma {:induction false} CutWritten(core: string, prerelease: Option<string>, build: Option<string>)
    requires '-' !in core && '+' !in core && (prerelease.Some? ==> '+' !in prerelease.value)
    ensures
      var main := core + if prerelease.Some? then "-" + prerelease.value else "";
      CutAt(main + if build.Some? then "+" + build.value else "", '+') == (main, build)
      && CutAt(main, '-') == (core, prerelease)
  {
    var main := core + if prerelease.Some? then "-" + prerelease.value else "";
    if prerelease.Some? {
      CutBehind(core, '-', prerelease.value);
      assert main == core + ['-'] + prerelease.value;
    } else {
      CutBehind(core, '-', "");
      assert main == core;
    }
    if build.Some? {
      CutBehind(main, '+', build.value);
      assert main + ("+" + build.value) == main + ['+'] + build.value;
    } else {
      CutBehind(main, '+', "");
      assert main + "" == main;
    }
  }

  lemma WrittenParses(v: Version)
    requires Grammatical(v)
    ensures Parse(Written(v)) == Some(v)
  {
    hide Decimal, DecimalValue, BuildIdentifier, PrereleaseIdentifier, IsIdentifier, IsBuildIdentifier;
    hide Join, Split, CutAt;
    var core := Dotted([Decimal(v.core[0]), Decimal(v.core[1]), Decimal(v.core[2])]);
    var prerelease := if v.prerelease.Some? then Some(Dotted(v.prerelease.value)) else None;
    var build := if v.build.Some? then Some(Dotted(v.build.value)) else None;
    CoreIs(v.core);
    if v.prerelease.Some? {
      forall i | 0 <= i < |v.prerelease.value|
        ensures IsIdentifier(v.prerelease.value[i]) && BuildIdentifier(v.prerelease.value[i])
      {
        IdentifiersAre(v.prerelease.value[i]);
        AlsoBuild(v.prerelease.value[i]);
      }
      ListIs(v.prerelease.value);
    }
    if v.build.Some? {
      forall i | 0 <= i < |v.build.value| ensures IsBuildIdentifier(v.build.value[i]) {
        IdentifiersAre(v.build.value[i]);
      }
      ListIs(v.build.value);
    }
    CutWritten(core, prerelease, build);
  }

  lemma AlsoBuild(s: string)
    requires PrereleaseIdentifier(s)
    ensures BuildIdentifier(s)
  {
  }

  /** The identifiers of a parsed part. */
  lemma PartsOf(part: string)
    ensures Dotted(Split(part, '.')) == part && Split(part, '.') != []
  {
    JoinSplit(part, '.');
  }

  lemma NumbersOf(numbers: seq<string>)
    requires IsCore(numbers)
    ensures numbers == [Decimal(DecimalValue(numbers[0])), Decimal(DecimalValue(numbers[1])),
                        Decimal(DecimalValue(numbers[2]))]
  {
    hide Decimal, DecimalValue;
    forall i | 0 <= i < 3 ensures Decimal(DecimalValue(numbers[i])) == numbers[i] {
      DecimalsAreDigits(DecimalValue(numbers[i]));
      NumeralsAreUnique(Decimal(DecimalValue(numbers[i])), numbers[i]);
    }
  }

  lemma ParsedIsWritten(text: string)
    requires Parse(text).Some?
    ensures Grammatical(Parse(text).value) && Written(Parse(text).value) == text
  {
    hide Decimal, DecimalValue, BuildIdentifier, PrereleaseIdentifier, IsIdentifier, IsBuildIdentifier;
    hide Join, Split, CutAt;
    var v := Parse(text).value;
    var (main, build) := CutAt(text, '+');
    var (core, prerelease) := CutAt(main, '-');
    CutRejoins(text, '+');
    CutRejoins(main, '-');
    PartsOf(core);
    NumbersOf(Split(core, '.'));
    if prerelease.Some? {
      PartsOf(prerelease.value);
      forall i | 0 <= i < |v.prerelease.value| ensures PrereleaseIdentifier(v.prerelease.value[i]) {
        IdentifiersAre(v.prerelease.value[i]);
      }
    }
    if build.Some? {
      PartsOf(build.value);
      forall i | 0 <= i < |v.build.value| ensures BuildIdentifier(v.build.value[i]) {
        IdentifiersAre(v.build.value[i]);
      }
    }
  }

  /** A text is read as a version exactly when it is that version in writing: all of the grammar, and nothing else. */
  lemma ParseInvertsWriting(text: string, v: Version)
    ensures Parse(text) == Some(v) <==> Grammatical(v) && text == Written(v)
  {
    hide Parse, Grammatical, Written;
    if Parse(text) == Some(v) { ParsedIsWritten(text); }
    if Grammatical(v) { ThreeNumbers(v); }
    if Grammatical(v) && text == Written(v) { WrittenParses(v); }
  }

  lemma ThreeNumbers(v: Version)
    requires Grammatical(v)
    ensures |v.core| == 3
  {
  }
}
