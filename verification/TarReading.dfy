/** What the strict reader makes of fields and archives that the canonical writer would not have written. */
module TarReading {
  import opened Text
  import opened Numerals
  import opened Ustar
  import opened TarArchive
  import opened TarRoundTrip
  import opened TarLayout

  // ----- numbers -----

  predicate AllBlank(text: Bytes) { forall i :: 0 <= i < |text| ==> text[i] == 32 || 9 <= text[i] <= 13 }

  predicate OctalDigits(text: Bytes) { forall i :: 0 <= i < |text| ==> 48 <= text[i] <= 55 }

  lemma {:induction false} TrimsBlanks(blanks: Bytes, rest: Bytes)
    requires AllBlank(blanks) && (rest == [] || !AllBlank([rest[0]]))
    ensures TrimStart(blanks + rest) == rest
  {
    if blanks == [] {
      assert blanks + rest == rest;
      if rest != [] { assert [rest[0]][0] == rest[0]; }
    } else {
      TrimsBlanks(blanks[1..], rest);
      assert (blanks + rest)[1..] == blanks[1..] + rest;
    }
  }

  lemma {:induction false} RunsToTheEnd(digits: Bytes, rest: Bytes)
    requires OctalDigits(digits) && (rest == [] || !OctalDigits([rest[0]]))
    ensures DigitRun(digits + rest) == |digits|
  {
    if digits == [] {
      assert digits + rest == rest;
      if rest != [] { assert [rest[0]][0] == rest[0]; }
    } else {
      RunsToTheEnd(digits[1..], rest);
      assert (digits + rest)[1..] == digits[1..] + rest;
    }
  }

  lemma BlanksAreSkipped(blanks: Bytes, text: Bytes)
    requires AllBlank(blanks) && (text == [] || !AllBlank([text[0]]))
    ensures ParseOctal(blanks + text) == ParseOctal(text)
  {
    hide TrimStart, DigitRun, Value;
    TrimsBlanks(blanks, text);
    TrimsBlanks([], text);
    assert [] + text == text;
  }

  lemma DigitsAreRead(digits: Bytes, rest: Bytes)
    requires OctalDigits(digits) && (rest == [] || !OctalDigits([rest[0]]))
    ensures
      var text := digits + rest;
      var k := DigitRun(text);
      && k == |digits| && text[..k] == digits && Value(DigitsOf(text[..k]), 8) == Octal(digits)
  {
    RunsToTheEnd(digits, rest);
    OctalIsValue(digits);
    assert (digits + rest)[..|digits|] == digits;
  }

  /** Where neither a blank nor a sign stands first, the digits begin at once. */
  lemma UnsignedIsRead(digits: Bytes, rest: Bytes)
    requires OctalDigits(digits) && (rest == [] || !OctalDigits([rest[0]]))
    requires digits == [] && rest != [] ==> !AllBlank([rest[0]]) && rest[0] != 43 && rest[0] != 45
    ensures
      var text := digits + rest;
      && (text == [] || !AllBlank([text[0]]))
      && ParseOctal(text) == if digits == [] then None else Some(Octal(digits))
  {
    hide TrimStart, DigitRun, Octal, Value;
    var text := digits + rest;
    DigitsAreRead(digits, rest);
    FirstIsNoBlank(digits, rest);
    TrimsBlanks([], text);
    assert [] + text == text;
  }

  lemma FirstIsNoBlank(digits: Bytes, rest: Bytes)
    requires OctalDigits(digits)
    requires digits == [] && rest != [] ==> !AllBlank([rest[0]]) && rest[0] != 43 && rest[0] != 45
    ensures
      var text := digits + rest;
      text != [] ==> !AllBlank([text[0]]) && text[0] != 43 && text[0] != 45
  {
    var text := digits + rest;
    if text != [] {
      assert [text[0]][0] == text[0];
      assert digits == [] ==> text == rest;
    }
  }

  lemma BehindSign(text: Bytes, behind: Bytes)
    requires text != [] && text[0] in {43, 45} && TrimStart(text) == text && behind == text[1..]
    ensures
      var k := DigitRun(behind);
      var v: int := Value(DigitsOf(behind[..k]), 8);
      ParseOctal(text) == if k == 0 then None else Some(if text[0] == 45 then -v else v)
  {
    hide TrimStart, DigitRun, DigitsOf, Value;
  }

  lemma SignedIsRead(sign: Byte, digits: Bytes, rest: Bytes)
    requires sign in {43, 45} && OctalDigits(digits) && (rest == [] || !OctalDigits([rest[0]]))
    ensures
      var text := [sign] + (digits + rest);
      && !AllBlank([text[0]])
      && ParseOctal(text) == if digits == [] then None else Some(if sign == 45 then -Octal(digits) else Octal(digits))
  {
    hide TrimStart, DigitRun, DigitsOf, Octal, Value, ParseOctal, OctalDigits;
    var text := [sign] + (digits + rest);
    DigitsAreRead(digits, rest);
    assert text[0] == sign && text[1..] == digits + rest && [text[0]][0] == sign;
    TrimsBlanks([], text);
    assert [] + text == text;
    BehindSign(text, digits + rest);
  }

  /**
   * A number is read behind blanks and at most one sign, as far as there are octal digits, whatever follows; without
   * any digit there is none.
   */
  lemma NumberIsRead(blanks: Bytes, sign: Bytes, digits: Bytes, rest: Bytes)
    requires AllBlank(blanks) && sign in {[], [43], [45]} && OctalDigits(digits)
    requires rest == [] || !OctalDigits([rest[0]])
    requires sign == [] && digits == [] && rest != [] ==> !AllBlank([rest[0]]) && rest[0] != 43 && rest[0] != 45
    ensures ParseOctal(blanks + sign + digits + rest)
         == if digits == [] then None else Some(if sign == [45] then -Octal(digits) else Octal(digits))
  {
    hide ParseOctal, Octal;
    var text := sign + (digits + rest);
    if sign == [] {
      UnsignedIsRead(digits, rest);
      assert text == digits + rest;
    } else {
      SignedIsRead(sign[0], digits, rest);
      assert sign == [sign[0]];
    }
    BlanksAreSkipped(blanks, text);
    assert blanks + text == blanks + sign + digits + rest;
  }

  // ----- texts -----

  predicate NoNul(text: Bytes) { forall i :: 0 <= i < |text| ==> text[i] != 0 }

  predicate BreaksLine(text: Bytes) { exists i :: 0 <= i < |text| && (text[i] == 10 || text[i] == 13) }

  lemma OneLineIs(text: Bytes)
    ensures OneLine(text) <==> !BreaksLine(text)
  {
  }

  /**
   * A text ends at its first NUL, with one exception that the reader inherits from its pattern: a NUL with a line break
   * anywhere behind it stays and reading goes on.
   */
  lemma {:induction false} TextIsRead(front: Bytes, back: Bytes)
    requires NoNul(front)
    ensures CutNul(front) == front
    ensures CutNul(front + [0] + back) == if BreaksLine(back) then front + [0] + CutNul(back) else front
  {
    var all := front + [0] + back;
    if front == [] {
      assert all == [0] + back && all[1..] == back && front + [0] + CutNul(back) == [0] + CutNul(back);
      OneLineIs(back);
    } else {
      hide OneLine, BreaksLine;
      TextIsRead(front[1..], back);
      assert all[1..] == front[1..] + [0] + back && all[0] == front[0];
      assert [front[0]] + (front[1..] + [0] + CutNul(back)) == front + [0] + CutNul(back);
    }
  }

  /** NULs and spaces at the end of the checksum field are left out, and nothing else. */
  lemma {:induction false} TailIsStripped(front: Bytes, tail: Bytes)
    requires forall i :: 0 <= i < |tail| ==> tail[i] == 0 || tail[i] == 32
    requires front == [] || (front[|front| - 1] != 0 && front[|front| - 1] != 32)
    ensures StripTail(front + tail) == front
    decreases |tail|
  {
    if tail == [] {
      assert front + tail == front;
    } else {
      TailIsStripped(front, tail[..|tail| - 1]);
      assert (front + tail)[..|front + tail| - 1] == front + tail[..|tail| - 1];
    }
  }

  /** A header with the high bit of every byte dropped. */
  function SevenBits(h: Bytes): (r: Bytes)
    ensures |r| == |h|
  {
    seq(|h|, i requires 0 <= i < |h| => h[i] % 128)
  }

  /** No text or number of a header depends on the high bits. */
  lemma OnlySevenBitsCount(h: Bytes)
    requires |h| == TAR_BLOCK
    ensures NameIn(h) == NameIn(SevenBits(h)) && SizeIn(h) == SizeIn(SevenBits(h))
    ensures ChecksumIn(h) == ChecksumIn(SevenBits(h))
  {
    hide CutNul, ParseOctal, StripTail, TrimEnd, TrimStart;
    var low := SevenBits(h);
    assert Ascii(h[345..500]) == Ascii(low[345..500]) && Ascii(h[0..100]) == Ascii(low[0..100]);
    assert Ascii(h[124..136]) == Ascii(low[124..136]) && Ascii(h[148..156]) == Ascii(low[148..156]);
  }

  // ----- headers -----

  /** Which error a header is refused with: the checksum is looked at first, then size, type and path. */
  lemma RefusalIs(h: Bytes)
    requires |h| == TAR_BLOCK
    ensures
      var summed := ChecksumIn(h) == Some(Checksum(h));
      var sized := SizeIn(h).Some? && SizeIn(h).value >= 0;
      var typed, hollow := h[156] == 48 || h[156] == 53, h[156] == 53 ==> SizeIn(h) == Some(0);
      && (ReadHeader(h) == Err(ChecksumMismatch) <==> !summed)
      && (ReadHeader(h) == Err(InvalidSize) <==> summed && !sized)
      && (ReadHeader(h) == Err(TypeNotAllowed) <==> summed && sized && !typed)
      && (ReadHeader(h) == Err(DirectoryWithSize) <==> summed && sized && typed && !hollow)
      && (ReadHeader(h) == Err(UnsafePath) <==> summed && sized && typed && hollow && !Contained(NameIn(h)))
  {
    hide Checksum, ChecksumIn, SizeIn, NameIn, SafePath, Contained;
    SafeIsContained(NameIn(h));
  }

  // ----- cut-off archives -----

  /** The files before a cut: those whose last body byte is still there. */
  lemma {:induction false} PrefixIsRead(xs: seq<TarEntry>, rest: Bytes)
    requires AllPackable(xs)
    ensures ReadAll(Members(xs) + rest) == Joined(FilesOf(xs), ReadAll(rest))
  {
    hide ReadAll, Member, HeaderFor;
    if xs == [] {
      assert Members(xs) + rest == rest;
      JoinedNothing([], ReadAll(rest));
    } else {
      PrefixIsRead(xs[1..], rest);
      MemberRoundTrip(xs[0], Members(xs[1..]) + rest);
      assert Members(xs) + rest == Member(xs[0]) + (Members(xs[1..]) + rest);
      var more := ReadAll(rest);
      if more.Ok? { assert [File(xs[0].name, xs[0].body)] + (FilesOf(xs[1..]) + more.value)
          == ([File(xs[0].name, xs[0].body)] + FilesOf(xs[1..])) + more.value; }
    }
  }

  /** The members of an archive one behind the other, without the blocks that end it. */
  function Members(xs: seq<TarEntry>): Bytes
    requires AllPackable(xs)
  {
    if xs == [] then [] else Member(xs[0]) + Members(xs[1..])
  }

  /** An archive that ends within the body of a file is refused, not read short. */
  lemma TruncationIsDetected(xs: seq<TarEntry>, e: TarEntry, cut: nat)
    requires AllPackable(xs) && Packable(e) && cut < |e.body|
    ensures ReadAll(Members(xs) + Member(e)[..512 + cut]) == Err(Truncated)
  {
    hide ReadHeader, HeaderFor;
    var tar := Member(e)[..512 + cut];
    MemberLayout(e, []);
    HeaderRoundTrip(e);
    assert Member(e) + [] == Member(e);
    assert tar[..TAR_BLOCK] == Member(e)[..TAR_BLOCK];
    assert ReadAll(tar) == ReadMember(tar, e.name, Some(|e.body|));
    PrefixIsRead(xs, tar);
  }

  /** One that ends between two members, even without the two blocks of NULs, yields the files before. */
  lemma EndBlocksAreOptional(xs: seq<TarEntry>)
    requires AllPackable(xs)
    ensures ReadAll(Members(xs)) == Ok(FilesOf(xs))
  {
    PrefixIsRead(xs, []);
    assert Members(xs) + [] == Members(xs);
    JoinedNothing(FilesOf(xs), ReadAll([]));
  }

  /** A last body without its padding is read all the same. */
  lemma PaddingIsOptional(xs: seq<TarEntry>, e: TarEntry, cut: nat)
    requires AllPackable(xs) && Packable(e) && !IsDir(e.name) && |e.body| <= cut && 512 + cut < |Member(e)|
    ensures ReadAll(Members(xs) + Member(e)[..512 + cut]) == Ok(FilesOf(xs) + [File(e.name, e.body)])
  {
    hide ReadHeader, HeaderFor, FilesOf;
    var tar := Member(e)[..512 + cut];
    MemberLayout(e, []);
    HeaderRoundTrip(e);
    assert Member(e) + [] == Member(e);
    assert tar[..TAR_BLOCK] == Member(e)[..TAR_BLOCK];
    assert tar[TAR_BLOCK..][..|e.body|] == e.body;
    assert |Member(e)| == 512 + (|e.body| + PadOf(|e.body|));
    assert ReadAll(tar) == ReadMember(tar, e.name, Some(|e.body|));
    assert [File(e.name, e.body)] + [] == [File(e.name, e.body)];
    PrefixIsRead(xs, tar);
  }

  /** Only NULs, a block or less than one, end an archive: any other header is read, or refused with its error. */
  lemma OnlyNulsEnd(tar: Bytes)
    requires |tar| >= 512 && !TarLayout.Blank(tar[..512])
    ensures ReadHeader(tar[..512]).Err? ==> ReadAll(tar) == Err(ReadHeader(tar[..512]).error)
    ensures ReadHeader(tar[..512]).Ok? && ReadAll(tar).Ok? && tar[156] == 48 ==> ReadAll(tar).value != []
  {
    hide ReadHeader, AllZero, TarLayout.Blank;
    BlankIs(tar[..512]);
    AcceptedIff(tar[..512]);
    assert tar[..512][156] == tar[156];
  }

  lemma BlankIs(h: Bytes)
    ensures AllZero(h) <==> TarLayout.Blank(h)
  {
  }

  /** A block of NULs ends the archive, whatever stands behind it, and so does less than a block. */
  lemma NothingIsReadBehindTheEnd(xs: seq<TarEntry>, block: Bytes, rest: Bytes)
    requires AllPackable(xs) && (|block| == 512 ==> TarLayout.Blank(block)) && |block| <= 512
    requires |block| < 512 ==> rest == []
    ensures ReadAll(Members(xs) + (block + rest)) == Ok(FilesOf(xs))
  {
    PrefixIsRead(xs, block + rest);
    if |block| == 512 { assert (block + rest)[..TAR_BLOCK] == block; }
    JoinedNothing(FilesOf(xs), Ok([]));
  }
}
