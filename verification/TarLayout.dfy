/** The bytes of a written archive, place by place, as the ustar interchange format of IEEE Std 1003.1 lays them out. */
module TarLayout {
  import opened Text
  import opened Numerals
  import opened Ustar
  import opened TarArchive

  function Octal(text: Bytes): int {
    if text == [] then 0 else 8 * Octal(text[..|text| - 1]) + (text[|text| - 1] as int - 48)
  }

  function Total(h: Bytes): nat {
    if h == [] then 0 else Total(h[..|h| - 1]) + h[|h| - 1]
  }

  predicate Blank(h: Bytes) { forall i :: 0 <= i < |h| ==> h[i] == 0 }

  /** A text, filled up with NULs. */
  predicate TextField(h: Bytes, text: Bytes) { text <= h && Blank(h[|text|..]) }

  /** Octal digits up to a last NUL. */
  predicate OctalField(h: Bytes, value: nat) {
    && h != [] && h[|h| - 1] == 0 && (forall i :: 0 <= i < |h| - 1 ==> 48 <= h[i] <= 55)
    && Octal(h[..|h| - 1]) == value
  }

  /** A slash in a place where the path may be cut: at most 155 bytes before it and at most 100 behind it. */
  predicate CutsAt(name: Bytes, i: nat) { 0 < i < |name| && name[i] == 47 && i <= 155 && |name| - i - 1 <= 100 }

  /** The two path fields: the whole path when it fits the second, or else the parts around the last usable slash. */
  ghost predicate PathFields(prefix: Bytes, name: Bytes, path: Bytes) {
    if |path| <= 100 then TextField(prefix, []) && TextField(name, path)
    else exists i: nat :: CutsAt(path, i) && (forall j: nat :: i < j < |path| ==> !CutsAt(path, j))
                          && TextField(prefix, path[..i]) && TextField(name, path[i + 1..])
  }

  /** Eight bytes for the sum of all bytes, itself counted as eight spaces: six digits, NUL, space. */
  predicate ChecksumRecorded(h: Bytes)
    requires |h| == 512
  {
    OctalField(h[148..155], Total(h[..148]) + 8 * 32 + Total(h[156..])) && h[155] == 32
  }

  /** The header of an entry, field by field. */
  ghost predicate HeaderOf(h: Bytes, e: TarEntry) {
    && |h| == 512
    && PathFields(h[345..500], h[0..100], e.name)
    && OctalField(h[100..108], e.mode)
    && OctalField(h[108..116], 0) && OctalField(h[116..124], 0)
    && OctalField(h[124..136], |e.body|)
    && OctalField(h[136..148], 0)
    && ChecksumRecorded(h)
    && h[156] == (if e.name != [] && e.name[|e.name| - 1] == 47 then 53 else 48)
    && Blank(h[157..257])
    && h[257..265] == [117, 115, 116, 97, 114, 0, 48, 48]
    && Blank(h[265..345]) && Blank(h[500..512])
  }

  // ----- the fields -----

  lemma {:induction false} OctalIsValue(text: Bytes)
    requires forall i :: 0 <= i < |text| ==> 48 <= text[i]
    ensures Octal(text) == Value(DigitsOf(text), 8)
  {
    if text != [] {
      OctalIsValue(text[..|text| - 1]);
      assert DigitsOf(text)[..|text| - 1] == DigitsOf(text[..|text| - 1]);
    }
  }

  lemma OctalOf(value: nat, width: nat)
    requires FitsOctal(value, width)
    ensures Octal(OctalText(value, width)) == value
  {
    hide OctalText;
    OctalTextValue(value, width);
    OctalIsValue(OctalText(value, width));
  }

  lemma OctalFieldIs(h: Bytes, value: nat, width: nat)
    requires FitsOctal(value, width) && h == OctalText(value, width) + [0]
    ensures OctalField(h, value)
  {
    hide OctalText, Octal;
    OctalOf(value, width);
    assert h[..|h| - 1] == OctalText(value, width);
  }

  lemma ZeroFits(width: nat)
    requires width >= 1
    ensures FitsOctal(0, width)
  {
  }

  lemma NumberFields(f: Header)
    requires FitsHeader(f)
    ensures
      var h := HeaderBytes(f);
      && OctalField(h[100..108], f.mode) && OctalField(h[108..116], 0) && OctalField(h[116..124], 0)
      && OctalField(h[124..136], f.size) && OctalField(h[136..148], 0)
  {
    hide OctalText, OctalField, Checksum;
    var h := HeaderBytes(f);
    assert h[100..108] == OctalText(f.mode, 7) + [0];
    OctalFieldIs(h[100..108], f.mode, 7);
    assert h[108..116] == OctalText(0, 7) + [0] && h[116..124] == OctalText(0, 7) + [0];
    OctalFieldIs(h[108..116], 0, 7);
    assert h[124..136] == OctalText(f.size, 11) + [0];
    OctalFieldIs(h[124..136], f.size, 11);
    assert h[136..148] == OctalText(0, 11) + [0];
    OctalFieldIs(h[136..148], 0, 11);
  }

  lemma FixedFields(f: Header)
    requires FitsHeader(f)
    ensures
      var h := HeaderBytes(f);
      && h[156] == (if f.dir then 53 else 48) && Blank(h[157..257])
      && h[257..265] == [117, 115, 116, 97, 114, 0, 48, 48] && Blank(h[265..345]) && Blank(h[500..512])
      && TextField(h[345..500], f.prefix) && TextField(h[0..100], f.name)
  {
    hide OctalText, Checksum;
    var h := HeaderBytes(f);
    assert h[257] == 117 && h[258] == 115 && h[259] == 116 && h[260] == 97 && h[261] == 114 && h[262] == 0;
    assert h[263] == 48 && h[264] == 48;
    assert h[257..265] == [117, 115, 116, 97, 114, 0, 48, 48];
    assert forall i :: 0 <= i < |f.prefix| ==> h[345..500][i] == f.prefix[i];
    assert h[345..500][..|f.prefix|] == f.prefix;
    assert forall i :: 0 <= i < |f.name| ==> h[0..100][i] == f.name[i];
    assert h[0..100][..|f.name|] == f.name;
  }

  lemma {:induction false} SumInParts(h: Bytes, k: nat)
    requires |h| == 512 && k <= 512
    ensures k <= 148 ==> SumTo(h, k) == Total(h[..k])
    ensures 148 <= k <= 156 ==> SumTo(h, k) == Total(h[..148]) + 32 * (k - 148)
    ensures 156 <= k ==> SumTo(h, k) == Total(h[..148]) + 8 * 32 + Total(h[156..k])
  {
    if k > 0 {
      SumInParts(h, k - 1);
      if k <= 148 {
        assert h[..k][..k - 1] == h[..k - 1];
      } else if k > 156 {
        assert h[156..k][..k - 1 - 156] == h[156..k - 1];
      } else if k == 156 {
        assert h[156..156] == [];
      }
    }
  }

  lemma ChecksumIsRecorded(f: Header)
    requires FitsHeader(f)
    ensures ChecksumRecorded(HeaderBytes(f))
  {
    hide OctalText, Octal, Total, OctalField;
    var h := HeaderBytes(f);
    ChecksumOfHeader(f);
    ChecksumFits(h);
    var sum := Checksum(h);
    SumInParts(h, 512);
    assert h[156..512] == h[156..];
    assert h[148..155] == OctalText(sum, 6) + [0];
    OctalFieldIs(h[148..155], sum, 6);
  }

  // ----- the path -----

  lemma CutsAsSplits(path: Bytes, i: nat)
    ensures CutsAt(path, i) <==> SplitsAt(path, i)
  {
  }

  /** The search from the end stops at the last usable slash at or below position i. */
  lemma {:induction false} LastCut(path: Bytes, i: nat)
    requires i < |path|
    ensures SplitBelow(path, i).None? ==> forall j: nat :: j <= i ==> !CutsAt(path, j)
    ensures SplitBelow(path, i).Some? ==>
              exists k: nat :: k <= i && CutsAt(path, k) && (forall j: nat :: k < j <= i ==> !CutsAt(path, j))
                               && SplitBelow(path, i).value == NameParts(path[..k], path[k + 1..])
  {
    CutsAsSplits(path, i);
    if i > 0 && !CutsAt(path, i) {
      LastCut(path, i - 1);
      if SplitBelow(path, i).Some? {
        var k: nat :| k <= i - 1 && CutsAt(path, k) && (forall j: nat :: k < j <= i - 1 ==> !CutsAt(path, j))
                      && SplitBelow(path, i - 1).value == NameParts(path[..k], path[k + 1..]);
        assert k <= i && forall j: nat :: k < j <= i ==> !CutsAt(path, j);
      }
    }
  }

  lemma PathIsSplit(path: Bytes, prefix: Bytes, name: Bytes)
    requires SplitName(path).Some?
    requires TextField(prefix, SplitName(path).value.prefix) && TextField(name, SplitName(path).value.name)
    ensures PathFields(prefix, name, path)
  {
    if |path| > 100 {
      LastCut(path, |path| - 1);
      var k: nat :| k <= |path| - 1 && CutsAt(path, k) && (forall j: nat :: k < j <= |path| - 1 ==> !CutsAt(path, j))
                    && SplitBelow(path, |path| - 1).value == NameParts(path[..k], path[k + 1..]);
      assert forall j: nat :: k < j < |path| ==> !CutsAt(path, j);
    }
  }

  lemma HeaderIsLaidOut(e: TarEntry)
    requires HeaderFor(e).Ok?
    ensures HeaderOf(HeaderBytes(HeaderFor(e).value), e)
  {
    hide OctalField, ChecksumRecorded, TextField, PathFields, HeaderBytes, SplitName, FitsOctal;
    var f := HeaderFor(e).value;
    NumberFields(f);
    FixedFields(f);
    ChecksumIsRecorded(f);
    var h := HeaderBytes(f);
    PathIsSplit(e.name, h[345..500], h[0..100]);
  }

  // ----- whole archives -----

  /** A body takes up whole blocks. */
  function Blocks(size: nat): nat { (size + 511) / 512 * 512 }

  /** Where the next member begins. */
  function Offset(entries: seq<TarEntry>): nat {
    if entries == [] then 0 else Offset(entries[..|entries| - 1]) + 512 + Blocks(|entries[|entries| - 1].body|)
  }

  /** A member stands at this place: header, body, and NULs to the end of the block. */
  ghost predicate MemberStandsAt(tar: Bytes, o: nat, e: TarEntry) {
    && o + 512 + Blocks(|e.body|) <= |tar| && |e.body| <= Blocks(|e.body|) < |e.body| + 512
    && HeaderOf(tar[o..o + 512], e)
    && tar[o + 512..o + 512 + |e.body|] == e.body
    && Blank(tar[o + 512 + |e.body|..o + 512 + Blocks(|e.body|)])
  }

  lemma MemberIs(e: TarEntry)
    requires HeaderFor(e).Ok?
    ensures |Member(e)| == 512 + Blocks(|e.body|) && MemberStandsAt(Member(e), 0, e)
  {
    hide HeaderOf, HeaderFor;
    HeaderIsLaidOut(e);
    var m, n := Member(e), |e.body|;
    assert n + PadOf(n) == Blocks(n);
    assert m[0..512] == HeaderBytes(HeaderFor(e).value) && m[512..512 + n] == e.body;
    assert m[512 + n..512 + Blocks(n)] == Zeros(PadOf(n));
  }

  lemma StandsWithin(front: Bytes, m: Bytes, back: Bytes, e: TarEntry)
    requires |m| == 512 + Blocks(|e.body|) && MemberStandsAt(m, 0, e)
    ensures MemberStandsAt(front + m + back, |front|, e)
  {
    hide HeaderOf;
    var tar, o, n := front + m + back, |front|, |e.body|;
    assert tar[o..o + 512] == m[0..512] && tar[o + 512..o + 512 + n] == m[512..512 + n];
    assert tar[o + 512 + n..o + 512 + Blocks(n)] == m[512 + n..512 + Blocks(n)];
  }

  /** An archive is written in pieces: its members up to a place, and what follows. */
  lemma {:induction false} ArchiveSplits(xs: seq<TarEntry>, ys: seq<TarEntry>)
    requires Archive(xs + ys).Ok?
    ensures Archive(ys).Ok? && |Archive(xs + ys).value| == Offset(xs) + |Archive(ys).value|
    ensures Archive(xs + ys).value[Offset(xs)..] == Archive(ys).value
    decreases |xs|
  {
    hide HeaderFor, Blocks;
    if xs == [] {
      assert xs + ys == ys;
    } else {
      var init, e := xs[..|xs| - 1], xs[|xs| - 1];
      assert xs + ys == init + ([e] + ys) && ([e] + ys)[1..] == ys;
      ArchiveSplits(init, [e] + ys);
      MemberIs(e);
      var tar, rest := Archive(xs + ys).value, Archive([e] + ys).value;
      assert rest == Member(e) + Archive(ys).value;
      assert rest[|Member(e)|..] == Archive(ys).value;
      assert tar[Offset(xs)..] == tar[Offset(init)..][|Member(e)|..];
    }
  }

  /**
   * Every member of a written archive stands where the sizes before it put it, at a block boundary, laid out as the
   * format wants it, and two blocks of NULs and nothing else end the archive.
   */
  lemma ArchiveIsLaidOut(xs: seq<TarEntry>, e: TarEntry, ys: seq<TarEntry>)
    requires Archive(xs + [e] + ys).Ok?
    ensures
      var tar := Archive(xs + [e] + ys).value;
      && Offset(xs) % 512 == 0 && MemberStandsAt(tar, Offset(xs), e)
      && |tar| == Offset(xs + [e] + ys) + 1024 && Blank(tar[|tar| - 1024..])
  {
    hide *;
    var all := xs + [e] + ys;
    var tar := Archive(all).value;
    assert all == xs + ([e] + ys) && all + [] == all;
    ArchiveSplits(xs, [e] + ys);
    ArchiveSplits(all, []);
    OffsetIsAligned(xs);
    FirstMember(e, ys);
    MemberIs(e);
    var front, back := tar[..Offset(xs)], Archive(ys).value;
    StandsWithin(front, Member(e), back, e);
    assert tar == front + (Member(e) + back) == front + Member(e) + back;
    NothingArchived();
    assert tar[Offset(all)..] == Archive([]).value;
  }

  lemma FirstMember(e: TarEntry, ys: seq<TarEntry>)
    requires Archive([e] + ys).Ok?
    ensures HeaderFor(e).Ok? && Archive(ys).Ok? && Archive([e] + ys).value == Member(e) + Archive(ys).value
  {
    assert ([e] + ys)[1..] == ys;
  }

  lemma NothingArchived()
    ensures Archive([]).Ok? && |Archive([]).value| == 1024 && Blank(Archive([]).value)
  {
  }

  lemma {:induction false} OffsetIsAligned(xs: seq<TarEntry>)
    ensures Offset(xs) % 512 == 0
  {
    if xs != [] { OffsetIsAligned(xs[..|xs| - 1]); }
  }

  // ----- what can be written -----

  lemma {:induction false} ValueBelow(ds: seq<nat>)
    requires forall i :: 0 <= i < |ds| ==> ds[i] < 8
    ensures Value(ds, 8) < Pow(8, |ds|)
  {
    if ds != [] { ValueBelow(ds[..|ds| - 1]); }
  }

  lemma {:induction false} PowGrows(k: nat, l: nat)
    requires k <= l
    ensures Pow(8, k) <= Pow(8, l)
    decreases l
  {
    if k < l { PowGrows(k, l - 1); }
  }

  lemma FitsIff(value: nat, width: nat)
    requires width >= 1
    ensures FitsOctal(value, width) <==> value < Pow(8, width)
  {
    ValueOfDigits(value, 8);
    ValueBelow(Digits(value, 8));
    if FitsOctal(value, width) { PowGrows(|Digits(value, 8)|, width); }
    if value < Pow(8, width) { DigitCount(value, 8, width); }
  }

  lemma PowersOfEight()
    ensures Pow(8, 7) == 2097152 && Pow(8, 11) == 8589934592
  {
    assert Pow(8, 2) == 64 && Pow(8, 4) == 4096;
    assert Pow(8, 6) == 262144 && Pow(8, 8) == 16777216;
    assert Pow(8, 10) == 1073741824;
  }

  /** The path fits one field, or has a slash where it can be cut. */
  ghost predicate PathFits(path: Bytes) { |path| <= 100 || exists i: nat :: CutsAt(path, i) }

  /** Exactly these entries can be written; the path is looked at before the numbers. */
  lemma WritableIff(e: TarEntry)
    ensures Archive([e]).Ok? <==> PathFits(e.name) && e.mode < 2097152 && |e.body| < 8589934592
    ensures Archive([e]) == Err(PathTooLong) <==> !PathFits(e.name)
    ensures Archive([e]) == Err(FieldOverflow)
        <==> PathFits(e.name) && (e.mode >= 2097152 || |e.body| >= 8589934592)
  {
    hide FitsOctal, HeaderBytes;
    assert [e][1..] == [] && Archive([]).Ok?;
    FitsIff(e.mode, 7);
    FitsIff(|e.body|, 11);
    PowersOfEight();
    SplitRejoins(e.name);
    forall i: nat { CutsAsSplits(e.name, i); }
    if SplitName(e.name).Some? && |e.name| > 100 {
      LastCut(e.name, |e.name| - 1);
    }
  }

  /** A list is written when each entry can be, and otherwise fails with the error of the first that cannot. */
  lemma {:induction false} FirstErrorWins(xs: seq<TarEntry>, e: TarEntry, ys: seq<TarEntry>)
    requires Archive(xs).Ok? && Archive([e]).Err?
    ensures Archive(xs + [e] + ys) == Archive([e])
  {
    hide HeaderFor;
    var all := xs + [e] + ys;
    assert [e][1..] == [] && Archive([]).Ok?;
    if xs == [] {
      assert all == [e] + ys && all[0] == e;
    } else {
      assert all[1..] == xs[1..] + [e] + ys && all[0] == xs[0];
      FirstErrorWins(xs[1..], e, ys);
    }
  }
}
