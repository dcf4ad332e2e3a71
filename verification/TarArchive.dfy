/** Writing a list of entries as a canonical tar and reading it back strictly. */
module TarArchive {
  import opened Text
  import opened Numerals
  import opened Ustar

  datatype File = File(name: Bytes, body: Bytes)

  // ----- the writer -----

  /** The bytes that fill the last block of a body. */
  function PadOf(size: nat): (pad: nat)
    ensures pad < TAR_BLOCK && (size + pad) % 512 == 0
  {
    if size % 512 == 0 then 0 else 512 - size % 512
  }

  function Member(e: TarEntry): Bytes
    requires HeaderFor(e).Ok?
  {
    HeaderBytes(HeaderFor(e).value) + e.body + Zeros(PadOf(|e.body|))
  }

  function Archive(entries: seq<TarEntry>): Result<Bytes, TarError> {
    if entries == [] then Ok(Zeros(2 * TAR_BLOCK))
    else if HeaderFor(entries[0]).Err? then Err(HeaderFor(entries[0]).error)
    else
      match Archive(entries[1..])
      case Err(error) => Err(error)
      case Ok(rest) => Ok(Member(entries[0]) + rest)
  }

  /** Header, body and padding of one entry, as the three chunks the writer pushes. */
  method WriteMember(e: TarEntry) returns (r: Result<Bytes, TarError>)
    ensures HeaderFor(e).Err? ==> r == Err(HeaderFor(e).error)
    ensures HeaderFor(e).Ok? ==> r == Ok(Member(e))
  {
    var header := TarHeader(e);
    if header.Err? { return Err(header.error); }
    var chunk: Bytes := header.value[..];
    if |e.body| > 0 {
      chunk := chunk + e.body;
      var pad := |e.body| % 512;
      if pad != 0 { chunk := chunk + Zeros(TAR_BLOCK - pad); }
    }
    assert chunk == Member(e);
    return Ok(chunk);
  }

  method BuildTar(entries: seq<TarEntry>) returns (r: Result<Bytes, TarError>)
    ensures r == Archive(entries)
  {
    var tar: Bytes := [];
    var i := 0;
    PrependNothing(Archive(entries));
    assert entries[0..] == entries;
    while i < |entries|
      invariant 0 <= i <= |entries|
      invariant Archive(entries) == Prepend(tar, Archive(entries[i..]))
    {
      ArchiveStep(tar, entries, i);
      var chunk := WriteMember(entries[i]);
      if chunk.Err? { return Err(chunk.error); }
      tar := tar + chunk.value;
      i := i + 1;
    }
    assert entries[i..] == [];
    return Ok(tar + Zeros(2 * TAR_BLOCK));
  }

  lemma ArchiveStep(tar: Bytes, entries: seq<TarEntry>, i: nat)
    requires i < |entries|
    ensures HeaderFor(entries[i]).Err? ==> Prepend(tar, Archive(entries[i..])) == Err(HeaderFor(entries[i]).error)
    ensures HeaderFor(entries[i]).Ok? ==>
              Prepend(tar, Archive(entries[i..])) == Prepend(tar + Member(entries[i]), Archive(entries[i + 1..]))
  {
    assert entries[i..][1..] == entries[i + 1..];
    if HeaderFor(entries[i]).Ok? {
      PrependTwice(tar, Member(entries[i]), Archive(entries[i + 1..]));
    }
  }

  function Prepend(front: Bytes, r: Result<Bytes, TarError>): Result<Bytes, TarError> {
    match r case Ok(bytes) => Ok(front + bytes) case Err(error) => Err(error)
  }

  lemma PrependNothing(r: Result<Bytes, TarError>)
    ensures Prepend([], r) == r
  {
    if r.Ok? { assert [] + r.value == r.value; }
  }

  lemma PrependTwice(a: Bytes, b: Bytes, r: Result<Bytes, TarError>)
    ensures Prepend(a, Prepend(b, r)) == Prepend(a + b, r)
  {
    if r.Ok? { assert a + (b + r.value) == (a + b) + r.value; }
  }

  // ----- reading the fields of one header -----

  predicate AllZero(h: Bytes) { forall i :: 0 <= i < |h| ==> h[i] == 0 }

  /** `toString("ascii")` drops the high bit. */
  function Ascii(h: Bytes): (text: Bytes)
    ensures |text| == |h|
  {
    seq(|h|, i requires 0 <= i < |h| => h[i] % 128)
  }

  predicate OneLine(text: Bytes) { forall i :: 0 <= i < |text| ==> text[i] != 10 && text[i] != 13 }

  /** `replace(/\0.*$/, "")`: cuts at the first NUL that no line break follows. */
  function CutNul(text: Bytes): Bytes {
    if text == [] then []
    else if text[0] == 0 && OneLine(text[1..]) then []
    else [text[0]] + CutNul(text[1..])
  }

  predicate Blanklike(b: Byte) { 9 <= b <= 13 || b == SPACE }

  function TrimStart(text: Bytes): Bytes {
    if text != [] && Blanklike(text[0]) then TrimStart(text[1..]) else text
  }

  function TrimEnd(text: Bytes): Bytes {
    if text != [] && Blanklike(text[|text| - 1]) then TrimEnd(text[..|text| - 1]) else text
  }

  /** `replace(/[\0 ]*$/, "")` */
  function StripTail(text: Bytes): Bytes {
    if text != [] && text[|text| - 1] in {0, SPACE} then StripTail(text[..|text| - 1]) else text
  }

  predicate OctalDigit(b: Byte) { ZERO_DIGIT <= b < ZERO_DIGIT + 8 }

  function DigitRun(text: Bytes): (k: nat)
    ensures k <= |text| && forall i :: 0 <= i < k ==> OctalDigit(text[i])
    ensures k < |text| ==> !OctalDigit(text[k])
  {
    if text != [] && OctalDigit(text[0]) then 1 + DigitRun(text[1..]) else 0
  }

  /** `parseInt(text, 8)`: leading blanks, a sign, then as many digits as there are; NaN without any. */
  function ParseOctal(text: Bytes): Option<int> {
    var t := TrimStart(text);
    var negative := t != [] && t[0] == 45;
    var digits := if t != [] && (t[0] == 45 || t[0] == 43) then t[1..] else t;
    var k := DigitRun(digits);
    if k == 0 then None
    else
      var v: int := Value(DigitsOf(digits[..k]), 8);
      Some(if negative then -v else v)
  }

  function NameIn(h: Bytes): Bytes
    requires |h| == TAR_BLOCK
  {
    FullName(NameParts(CutNul(Ascii(h[345..500])), CutNul(Ascii(h[0..100]))))
  }

  function SizeIn(h: Bytes): Option<int>
    requires |h| == TAR_BLOCK
  {
    var text := TrimEnd(TrimStart(CutNul(Ascii(h[124..136]))));
    ParseOctal(if text == [] then [ZERO_DIGIT] else text)
  }

  function ModeIn(h: Bytes): Option<int>
    requires |h| == TAR_BLOCK
  {
    ParseOctal(CutNul(Ascii(h[100..108])))
  }

  function ChecksumIn(h: Bytes): Option<int>
    requires |h| == TAR_BLOCK
  {
    ParseOctal(StripTail(Ascii(h[148..156])))
  }

  predicate IsLetter(b: Byte) { 65 <= b <= 90 || 97 <= b <= 122 }

  predicate SafePath(name: Bytes) {
    && name != [] && name[0] != SLASH && BACKSLASH !in name
    && !(|name| >= 2 && IsLetter(name[0]) && name[1] == COLON)
    && [DOT, DOT] !in Split(name, SLASH)
    && !([] in Split(name, SLASH) && [] in Split(if IsDir(name) then name[..|name| - 1] else name, SLASH))
  }

  /** Name and size of a header, `None` standing for the size of a directory; the checks in the reader's order. */
  function ReadHeader(h: Bytes): Result<(Bytes, Option<nat>), TarError>
    requires |h| == TAR_BLOCK
  {
    if ChecksumIn(h) != Some(Checksum(h)) then Err(ChecksumMismatch)
    else if SizeIn(h).None? || SizeIn(h).value < 0 then Err(InvalidSize)
    else if h[156] != 48 && h[156] != 53 then Err(TypeNotAllowed)
    else if h[156] == 53 && SizeIn(h).value != 0 then Err(DirectoryWithSize)
    else if !SafePath(NameIn(h)) then Err(UnsafePath)
    else Ok((NameIn(h), if h[156] == 53 then None else Some(SizeIn(h).value)))
  }

  lemma {:induction false} SumAfterChange(h: Bytes, i: nat, b: Byte, k: nat)
    requires k <= |h| && i < |h| && !(148 <= i < 156)
    ensures SumTo(h[i := b], k) == SumTo(h, k) + if i < k then b - h[i] else 0
  {
    if k > 0 { SumAfterChange(h, i, b, k - 1); }
  }

  /** A single damaged byte outside the checksum field never goes unnoticed. */
  lemma DamageIsDetected(h: Bytes, i: nat, b: Byte)
    requires |h| == TAR_BLOCK && ReadHeader(h).Ok?
    requires i < TAR_BLOCK && !(148 <= i < 156) && b != h[i]
    ensures ReadHeader(h[i := b]) == Err(ChecksumMismatch)
  {
    SumAfterChange(h, i, b, TAR_BLOCK);
    assert h[i := b][148..156] == h[148..156];
  }

  // ----- the reader -----

  function ReadAll(tar: Bytes): Result<seq<File>, TarError>
    decreases |tar|
  {
    if |tar| < TAR_BLOCK || AllZero(tar[..TAR_BLOCK]) then Ok([])
    else
      match ReadHeader(tar[..TAR_BLOCK])
      case Err(error) => Err(error)
      case Ok(head) => ReadMember(tar, head.0, head.1)
  }

  function ReadMember(tar: Bytes, name: Bytes, size: Option<nat>): Result<seq<File>, TarError>
    requires |tar| >= TAR_BLOCK
    decreases |tar|, 0
  {
    var rest := tar[TAR_BLOCK..];
    match size
    case None => ReadAll(rest)
    case Some(n) =>
      if n > |rest| then Err(Truncated)
      else Cons(File(name, rest[..n]), if n + PadOf(n) > |rest| then Ok([]) else ReadAll(rest[n + PadOf(n)..]))
  }

  function Cons(file: File, r: Result<seq<File>, TarError>): Result<seq<File>, TarError> {
    match r case Ok(files) => Ok([file] + files) case Err(error) => Err(error)
  }

  function Joined(files: seq<File>, r: Result<seq<File>, TarError>): Result<seq<File>, TarError> {
    match r case Ok(more) => Ok(files + more) case Err(error) => Err(error)
  }

  lemma JoinedNothing(files: seq<File>, r: Result<seq<File>, TarError>)
    ensures Joined([], r) == r && Joined(files, Ok([])) == Ok(files)
  {
    if r.Ok? { assert [] + r.value == r.value; }
    assert files + [] == files;
  }

  lemma JoinedCons(files: seq<File>, file: File, r: Result<seq<File>, TarError>)
    ensures Joined(files, Cons(file, r)) == Joined(files + [file], r)
  {
    if r.Ok? { assert files + ([file] + r.value) == (files + [file]) + r.value; }
  }

  /** What is still to be read from `offset`, which lies past the end after a cut-off padding. */
  function RestFrom(tar: Bytes, offset: nat): Result<seq<File>, TarError> {
    if offset > |tar| then Ok([]) else ReadAll(tar[offset..])
  }

  /** What is still to be read, one header further. */
  lemma RestStep(tar: Bytes, offset: nat)
    requires offset + TAR_BLOCK <= |tar|
    ensures
      var header, start, rest := tar[offset..offset + TAR_BLOCK], offset + TAR_BLOCK, RestFrom(tar, offset);
      && (AllZero(header) ==> rest == Ok([]))
      && (!AllZero(header) && ReadHeader(header).Err? ==> rest == Err(ReadHeader(header).error))
      && (!AllZero(header) && ReadHeader(header).Ok? ==>
            rest == RestOfMember(tar, start, ReadHeader(header).value.0, ReadHeader(header).value.1))
  {
    var rest, header := tar[offset..], tar[offset..offset + TAR_BLOCK];
    assert rest[..TAR_BLOCK] == header;
    if !AllZero(header) && ReadHeader(header).Ok? {
      var (name, size) := ReadHeader(header).value;
      assert ReadAll(rest) == ReadMember(rest, name, size);
      MemberAt(tar, offset, name, size);
    }
  }

  /** What is still to be read behind a header that ends at `start`. */
  function RestOfMember(tar: Bytes, start: nat, name: Bytes, size: Option<nat>): Result<seq<File>, TarError>
    requires start <= |tar|
  {
    match size
    case None => RestFrom(tar, start)
    case Some(n) =>
      if start + n > |tar| then Err(Truncated)
      else Cons(File(name, tar[start..start + n]), RestFrom(tar, start + (n + PadOf(n))))
  }

  lemma MemberAt(tar: Bytes, offset: nat, name: Bytes, size: Option<nat>)
    requires offset + TAR_BLOCK <= |tar|
    ensures ReadMember(tar[offset..], name, size) == RestOfMember(tar, offset + TAR_BLOCK, name, size)
  {
    hide ReadHeader, PadOf;
    var start := offset + TAR_BLOCK;
    var rest := tar[start..];
    assert tar[offset..][TAR_BLOCK..] == rest;
    if size.Some? && start + size.value <= |tar| {
      var n := size.value;
      var step := n + PadOf(n);
      assert rest[..n] == tar[start..start + n];
      if start + step <= |tar| { assert rest[step..] == tar[start + step..]; }
    }
  }

  /** Reads the fields of a header and makes the checks in their order. */
  method CheckHeader(h: Bytes) returns (r: Result<(Bytes, Option<nat>), TarError>)
    requires |h| == TAR_BLOCK
    ensures r == ReadHeader(h)
  {
    hide CutNul, Ascii, ParseOctal, SafePath, Checksum;
    var rawName, prefix := CutNul(Ascii(h[0..100])), CutNul(Ascii(h[345..500]));
    var name := if prefix != [] then prefix + [SLASH] + rawName else rawName;
    var sizeText := TrimEnd(TrimStart(CutNul(Ascii(h[124..136]))));
    var size := ParseOctal(if sizeText == [] then [ZERO_DIGIT] else sizeText);
    var typeflag := h[156];
    var expected := TarHeaderChecksum(h);
    var recorded := ParseOctal(StripTail(Ascii(h[148..156])));
    if recorded != Some(expected) { return Err(ChecksumMismatch); }
    if size.None? || size.value < 0 { return Err(InvalidSize); }
    if typeflag != 48 && typeflag != 53 { return Err(TypeNotAllowed); }
    if typeflag == 53 && size.value != 0 { return Err(DirectoryWithSize); }
    if !SafePath(name) { return Err(UnsafePath); }
    return Ok((name, if typeflag == 53 then None else Some(size.value)));
  }

  method ReadTar(tar: Bytes) returns (r: Result<seq<File>, TarError>)
    ensures r == ReadAll(tar)
  {
    hide ReadAll, ReadHeader, PadOf;
    var files: seq<File> := [];
    var offset := 0;
    ghost var whole := ReadAll(tar);
    assert tar[0..] == tar;
    JoinedNothing([], whole);
    while offset + TAR_BLOCK <= |tar|
      invariant whole == Joined(files, RestFrom(tar, offset))
      decreases |tar| - offset
    {
      RestStep(tar, offset);
      JoinedNothing(files, Ok([]));
      var header := tar[offset..offset + TAR_BLOCK];
      if AllZero(header) { return Ok(files); }
      var head := CheckHeader(header);
      if head.Err? { return Err(head.error); }
      var (name, size) := head.value;
      offset := offset + TAR_BLOCK;
      if size.Some? {
        if offset + size.value > |tar| { return Err(Truncated); }
        var file := File(name, tar[offset..offset + size.value]);
        JoinedCons(files, file, RestFrom(tar, offset + (size.value + PadOf(size.value))));
        files := files + [file];
        offset := offset + (size.value + PadOf(size.value));
      }
    }
    JoinedNothing(files, Ok([]));
    NothingLeft(tar, offset);
    return Ok(files);
  }

  lemma NothingLeft(tar: Bytes, offset: nat)
    requires offset + TAR_BLOCK > |tar|
    ensures RestFrom(tar, offset) == Ok([])
  {
  }

  // ----- what any archive can yield -----

  /** A path below the package root: relative, no drive, no backslash, no "..", no empty segment but a last one. */
  predicate Contained(name: Bytes) {
    && name != [] && name[0] != 47 && 92 !in name
    && !(|name| >= 2 && (65 <= name[0] <= 90 || 97 <= name[0] <= 122) && name[1] == 58)
    && forall i :: 0 <= i < |Split(name, 47)| ==>
         Split(name, 47)[i] != [46, 46] && (Split(name, 47)[i] == [] ==> i == |Split(name, 47)| - 1)
  }

  /** The reader's path check is exactly containment; its test for empty segments looks at the path twice. */
  lemma SafeIsContained(name: Bytes)
    ensures SafePath(name) <==> Contained(name)
  {
    var parts := Split(name, SLASH);
    hide Split;
    assert [DOT, DOT] in parts <==> exists i :: 0 <= i < |parts| && parts[i] == [DOT, DOT];
    if IsDir(name) {
      var rest := name[..|name| - 1];
      assert name == rest + [SLASH] + [];
      SplitConcat(rest, [], SLASH);
      SplitNothing(SLASH);
      var front := Split(rest, SLASH);
      assert parts == front + [[]];
      assert parts[|parts| - 1] == [];
      assert forall i :: 0 <= i < |front| ==> front[i] == parts[i];
      assert [] in front <==> exists i :: 0 <= i < |front| && front[i] == [];
    } else if name != [] {
      LastPart(name, SLASH);
      assert [] in parts <==> exists i :: 0 <= i < |parts| && parts[i] == [];
    }
  }

  /**
   * A header is accepted exactly when its checksum is right, its size is a number, it is a regular file or an empty
   * directory, and its path is contained: links, devices and extensions never pass.
   */
  lemma AcceptedIff(h: Bytes)
    requires |h| == TAR_BLOCK
    ensures ReadHeader(h).Ok? <==>
              ChecksumIn(h) == Some(Checksum(h)) && SizeIn(h).Some? && SizeIn(h).value >= 0
              && (h[156] == 48 || (h[156] == 53 && SizeIn(h) == Some(0))) && Contained(NameIn(h))
    ensures ReadHeader(h).Ok? ==>
              ReadHeader(h).value.0 == NameIn(h) && (ReadHeader(h).value.1.None? <==> h[156] == 53)
              && (h[156] == 48 ==> ReadHeader(h).value.1 == SizeIn(h))
  {
    hide Checksum, ChecksumIn, SizeIn, NameIn, SafePath, Contained;
    SafeIsContained(NameIn(h));
  }

  /** The archive bytes that files take up at least. */
  function Spent(files: seq<File>): nat {
    if files == [] then 0 else TAR_BLOCK + |files[0].body| + Spent(files[1..])
  }

  /**
   * Whatever the bytes, every file read stays below the package root, and the files never hold more than the
   * archive.
   */
  lemma {:induction false} ReadIsContained(tar: Bytes)
    ensures ReadAll(tar).Ok? ==>
              Spent(ReadAll(tar).value) <= |tar|
              && forall i :: 0 <= i < |ReadAll(tar).value| ==> Contained(ReadAll(tar).value[i].name)
    decreases |tar|
  {
    hide Contained, SafePath, Checksum, ChecksumIn, SizeIn, NameIn;
    if |tar| >= TAR_BLOCK && !AllZero(tar[..TAR_BLOCK]) && ReadHeader(tar[..TAR_BLOCK]).Ok? {
      var (name, size) := ReadHeader(tar[..TAR_BLOCK]).value;
      var rest := tar[TAR_BLOCK..];
      SafeIsContained(name);
      if size.None? {
        ReadIsContained(rest);
      } else if size.value + PadOf(size.value) <= |rest| {
        ReadIsContained(rest[size.value + PadOf(size.value)..]);
      }
    }
  }
}
