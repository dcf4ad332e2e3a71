/** The strict reader undoes the canonical writer. */
module TarRoundTrip {
  import opened Text
  import opened Ustar
  import opened TarArchive

  /** What packing guarantees of an entry: an ASCII path that is safe and fits, a body and a mode that fit. */
  predicate Packable(e: TarEntry) {
    && (forall i :: 0 <= i < |e.name| ==> 1 <= e.name[i] < 128)
    && SafePath(e.name)
    && HeaderFor(e).Ok?
    && (IsDir(e.name) ==> e.body == [])
  }

  predicate AllPackable(entries: seq<TarEntry>) { forall i :: 0 <= i < |entries| ==> Packable(entries[i]) }

  function FilesOf(entries: seq<TarEntry>): seq<File> {
    if entries == [] then []
    else if IsDir(entries[0].name) then FilesOf(entries[1..])
    else [File(entries[0].name, entries[0].body)] + FilesOf(entries[1..])
  }

  // ----- single fields -----

  predicate Plain(text: Bytes) { forall i :: 0 <= i < |text| ==> 1 <= text[i] < 128 }

  lemma {:induction false} CutPadded(text: Bytes, k: nat)
    requires Plain(text)
    ensures CutNul(Ascii(text + Zeros(k))) == text
  {
    var all := Ascii(text + Zeros(k));
    if text == [] {
      assert OneLine(if k > 0 then all[1..] else []);
    } else {
      CutPadded(text[1..], k);
      assert all[1..] == Ascii(text[1..] + Zeros(k));
    }
  }

  lemma {:induction false} RunOfDigits(text: Bytes)
    requires forall i :: 0 <= i < |text| ==> OctalDigit(text[i])
    ensures DigitRun(text) == |text|
  {
    if text != [] { RunOfDigits(text[1..]); }
  }

  lemma ParseOctalText(value: nat, width: nat)
    requires width >= 1 && FitsOctal(value, width)
    ensures ParseOctal(OctalText(value, width)) == Some(value)
    ensures TrimEnd(TrimStart(OctalText(value, width))) == OctalText(value, width)
  {
    var text := OctalText(value, width);
    RunOfDigits(text);
    OctalTextValue(value, width);
    assert text[..|text|] == text;
  }

  // ----- the fields of a written header -----

  lemma TextFieldOfHeader(f: Header, from: nat, to: nat, text: Bytes)
    requires FitsHeader(f) && from <= to <= TAR_BLOCK && |text| <= to - from && Plain(text)
    requires to <= 148 || 156 <= from
    requires forall i :: from <= i < to ==> FieldByte(f, i) == PaddedAt(text, i - from)
    ensures CutNul(Ascii(HeaderBytes(f)[from..to])) == text
  {
    var k := to - from - |text|;
    assert HeaderBytes(f)[from..to] == text + Zeros(k);
    CutPadded(text, k);
  }

  lemma NameOfHeader(f: Header)
    requires FitsHeader(f) && Plain(f.name) && Plain(f.prefix)
    ensures NameIn(HeaderBytes(f)) == FullName(NameParts(f.prefix, f.name))
  {
    TextFieldOfHeader(f, 345, 500, f.prefix);
    TextFieldOfHeader(f, 0, 100, f.name);
  }

  lemma SizeOfHeader(f: Header)
    requires FitsHeader(f)
    ensures SizeIn(HeaderBytes(f)) == Some(f.size)
  {
    TextFieldOfHeader(f, 124, 136, OctalText(f.size, 11));
    ParseOctalText(f.size, 11);
  }

  lemma ModeOfHeader(f: Header)
    requires FitsHeader(f)
    ensures ModeIn(HeaderBytes(f)) == Some(f.mode)
  {
    TextFieldOfHeader(f, 100, 108, OctalText(f.mode, 7));
    ParseOctalText(f.mode, 7);
  }

  lemma ChecksumAgrees(f: Header)
    requires FitsHeader(f)
    ensures ChecksumIn(HeaderBytes(f)) == Some(Checksum(HeaderBytes(f)))
  {
    var sum := Checksum(Blank(f));
    ChecksumFits(Blank(f));
    ChecksumOfHeader(f);
    var text := OctalText(sum, 6);
    var field := Ascii(HeaderBytes(f)[148..156]);
    assert field == text + [0, SPACE];
    assert field[..7] == text + [0] && (text + [0])[..6] == text;
    assert StripTail(field) == StripTail(text + [0]) == StripTail(text) == text;
    ParseOctalText(sum, 6);
  }

  // ----- one member -----

  lemma PartsArePlain(e: TarEntry)
    requires Packable(e)
    ensures Plain(HeaderFor(e).value.name) && Plain(HeaderFor(e).value.prefix)
    ensures FullName(NameParts(HeaderFor(e).value.prefix, HeaderFor(e).value.name)) == e.name
  {
    hide SplitName, SafePath, FitsOctal;
    SplitRejoins(e.name);
    var parts := SplitName(e.name).value;
    assert forall i :: 0 <= i < |parts.prefix| ==> parts.prefix[i] == e.name[i];
    var skip := |e.name| - |parts.name|;
    assert forall i :: 0 <= i < |parts.name| ==> parts.name[i] == e.name[skip + i];
  }

  /** The reader accepts a written header and finds in it the path, the size and the kind of the entry. */
  lemma HeaderRoundTrip(e: TarEntry)
    requires Packable(e)
    ensures ReadHeader(HeaderBytes(HeaderFor(e).value))
         == Ok((e.name, if IsDir(e.name) then None else Some(|e.body|)))
    ensures ModeIn(HeaderBytes(HeaderFor(e).value)) == Some(e.mode)
    ensures !AllZero(HeaderBytes(HeaderFor(e).value))
  {
    var f := HeaderFor(e).value;
    PartsArePlain(e);
    NameOfHeader(f);
    SizeOfHeader(f);
    ModeOfHeader(f);
    ChecksumAgrees(f);
    assert HeaderBytes(f)[257] == USTAR[0];
    assert HeaderBytes(f)[156] == if f.dir then 53 else 48;
  }

  lemma MemberLayout(e: TarEntry, rest: Bytes)
    requires HeaderFor(e).Ok?
    ensures
      var tar := Member(e) + rest;
      var n := |e.body|;
      && |tar| >= TAR_BLOCK && tar[..TAR_BLOCK] == HeaderBytes(HeaderFor(e).value)
      && n + PadOf(n) <= |tar[TAR_BLOCK..]|
      && tar[TAR_BLOCK..][..n] == e.body && tar[TAR_BLOCK..][n + PadOf(n)..] == rest
  {
    var header, n := HeaderBytes(HeaderFor(e).value), |e.body|;
    var pad := Zeros(PadOf(n));
    var tar := Member(e) + rest;
    assert tar == header + (e.body + pad + rest);
    assert tar[TAR_BLOCK..] == e.body + pad + rest;
    assert e.body + pad + rest == (e.body + pad) + rest;
  }

  /** Reading back one member. */
  lemma MemberRoundTrip(e: TarEntry, rest: Bytes)
    requires Packable(e)
    ensures ReadAll(Member(e) + rest)
         == if IsDir(e.name) then ReadAll(rest) else Cons(File(e.name, e.body), ReadAll(rest))
  {
    HeaderRoundTrip(e);
    MemberLayout(e, rest);
    var tar := Member(e) + rest;
    assert ReadAll(tar) == ReadMember(tar, e.name, if IsDir(e.name) then None else Some(|e.body|));
    assert PadOf(0) == 0;
    assert tar[TAR_BLOCK..][0..] == tar[TAR_BLOCK..];
  }

  // ----- whole archives -----

  lemma {:induction false} ArchiveSucceeds(entries: seq<TarEntry>)
    requires AllPackable(entries)
    ensures Archive(entries).Ok?
    ensures entries != [] ==> Archive(entries[1..]).Ok?
                              && Archive(entries).value == Member(entries[0]) + Archive(entries[1..]).value
  {
    if entries != [] { ArchiveSucceeds(entries[1..]); }
  }

  /** Reading what the writer wrote returns exactly the regular files, in order, names and bodies intact. */
  lemma {:induction false} ArchiveRoundTrip(entries: seq<TarEntry>)
    requires AllPackable(entries)
    ensures Archive(entries).Ok? && ReadAll(Archive(entries).value) == Ok(FilesOf(entries))
  {
    ArchiveSucceeds(entries);
    if entries == [] {
      assert AllZero(Zeros(2 * TAR_BLOCK)[..TAR_BLOCK]);
    } else {
      ArchiveRoundTrip(entries[1..]);
      MemberRoundTrip(entries[0], Archive(entries[1..]).value);
    }
  }

  lemma MemberDetermines(e: TarEntry, f: TarEntry, s: Bytes, t: Bytes)
    requires Packable(e) && Packable(f) && Member(e) + s == Member(f) + t
    ensures e == f && s == t
  {
    HeaderRoundTrip(e);
    HeaderRoundTrip(f);
    MemberLayout(e, s);
    MemberLayout(f, t);
    assert |e.body| == |f.body|;
  }

  lemma ArchiveNeverStartsBlank(entries: seq<TarEntry>)
    requires AllPackable(entries) && entries != []
    ensures Archive(entries).Ok? && Archive(entries).value != Zeros(2 * TAR_BLOCK)
  {
    ArchiveSucceeds(entries);
    HeaderRoundTrip(entries[0]);
    MemberLayout(entries[0], Archive(entries[1..]).value);
    assert AllZero(Zeros(2 * TAR_BLOCK)[..TAR_BLOCK]);
  }

  /** Two different lists of entries (paths, bodies and modes, directories included) never give the same bytes. */
  lemma {:induction false} ArchiveIsInjective(xs: seq<TarEntry>, ys: seq<TarEntry>)
    requires AllPackable(xs) && AllPackable(ys)
    requires Archive(xs) == Archive(ys)
    ensures xs == ys
  {
    if xs == [] || ys == [] {
      if xs != [] { ArchiveNeverStartsBlank(xs); }
      if ys != [] { ArchiveNeverStartsBlank(ys); }
    } else {
      ArchiveSucceeds(xs);
      ArchiveSucceeds(ys);
      MemberDetermines(xs[0], ys[0], Archive(xs[1..]).value, Archive(ys[1..]).value);
      ArchiveIsInjective(xs[1..], ys[1..]);
      assert xs == [xs[0]] + xs[1..] && ys == [ys[0]] + ys[1..];
    }
  }
}
