/** The header block of a canonical tar: the bytes the writer lays down and what the strict reader makes of them. */
module Ustar {
  import opened Text
  import opened Numerals

  type Byte = b: nat | b < 256

  type Bytes = seq<Byte>

  const TAR_BLOCK := 512
  const SLASH: Byte := 47
  const BACKSLASH: Byte := 92
  const COLON: Byte := 58
  const DOT: Byte := 46
  const ZERO_DIGIT: Byte := 48
  const SPACE: Byte := 32
  const USTAR: Bytes := [117, 115, 116, 97, 114]

  /** `body` is empty for a directory; the writer treats a missing body and an empty one alike. */
  datatype TarEntry = TarEntry(name: Bytes, body: Bytes, mode: nat)

  predicate IsDir(name: Bytes) { name != [] && name[|name| - 1] == SLASH }

  function Zeros(k: nat): (z: Bytes)
    ensures |z| == k
  {
    seq(k, i => 0)
  }

  // ----- splitting a path into prefix and name -----

  datatype NameParts = NameParts(prefix: Bytes, name: Bytes)

  predicate SplitsAt(name: Bytes, i: nat) {
    0 < i < |name| && name[i] == SLASH && |name| - i - 1 <= 100 && i <= 155
  }

  /** The longest prefix at or below position i. */
  function SplitBelow(name: Bytes, i: nat): Option<NameParts>
    requires i < |name|
  {
    if i == 0 then None
    else if SplitsAt(name, i) then Some(NameParts(name[..i], name[i + 1..]))
    else SplitBelow(name, i - 1)
  }

  function SplitName(name: Bytes): Option<NameParts> {
    if |name| <= 100 then Some(NameParts([], name)) else SplitBelow(name, |name| - 1)
  }

  method SplitUstarName(name: Bytes) returns (parts: Option<NameParts>)
    ensures parts == SplitName(name)
  {
    if |name| <= 100 { return Some(NameParts([], name)); }
    var i := |name| - 1;
    while i > 0
      invariant 0 <= i < |name|
      invariant SplitName(name) == SplitBelow(name, i)
    {
      if name[i] == SLASH {
        var prefix, rest := name[..i], name[i + 1..];
        if |rest| <= 100 && |prefix| <= 155 { return Some(NameParts(prefix, rest)); }
      }
      i := i - 1;
    }
    return None;
  }

  function FullName(parts: NameParts): Bytes {
    if parts.prefix != [] then parts.prefix + [SLASH] + parts.name else parts.name
  }

  lemma {:induction false} SplitBelowRejoins(name: Bytes, i: nat)
    requires i < |name|
    ensures SplitBelow(name, i).Some? ==>
              var parts := SplitBelow(name, i).value;
              |parts.prefix| <= 155 && |parts.name| <= 100 && FullName(parts) == name
    ensures SplitBelow(name, i).None? <==> forall j: nat :: j <= i ==> !SplitsAt(name, j)
  {
    if i > 0 {
      if SplitsAt(name, i) {
        assert name[..i] + [SLASH] + name[i + 1..] == name;
      } else {
        SplitBelowRejoins(name, i - 1);
      }
    }
  }

  /** A split rejoins to the whole path and fits the two fields; it fails only when no slash is in a usable place. */
  lemma SplitRejoins(name: Bytes)
    ensures SplitName(name).Some? ==>
              var parts := SplitName(name).value;
              |parts.prefix| <= 155 && |parts.name| <= 100 && FullName(parts) == name
    ensures SplitName(name).None? <==> |name| > 100 && forall j: nat :: !SplitsAt(name, j)
  {
    if |name| > 100 { SplitBelowRejoins(name, |name| - 1); }
  }

  // ----- octal fields -----

  function AsciiDigits(ds: seq<nat>): (text: Bytes)
    requires forall i :: 0 <= i < |ds| ==> ds[i] < 8
    ensures |text| == |ds|
  {
    seq(|ds|, i requires 0 <= i < |ds| => ZERO_DIGIT + ds[i])
  }

  predicate FitsOctal(value: nat, width: nat) { |Digits(value, 8)| <= width }

  /** `toString(8).padStart(width, "0")` */
  function OctalText(value: nat, width: nat): (text: Bytes)
    requires FitsOctal(value, width)
    ensures |text| == width
    ensures forall i :: 0 <= i < width ==> ZERO_DIGIT <= text[i] < ZERO_DIGIT + 8
  {
    var ds := Digits(value, 8);
    AsciiDigits(seq(width - |ds|, i => 0) + ds)
  }

  function DigitsOf(text: Bytes): (ds: seq<nat>)
    requires forall i :: 0 <= i < |text| ==> ZERO_DIGIT <= text[i]
    ensures |ds| == |text|
  {
    seq(|text|, i requires 0 <= i < |text| => text[i] - ZERO_DIGIT)
  }

  lemma OctalTextValue(value: nat, width: nat)
    requires FitsOctal(value, width)
    ensures Value(DigitsOf(OctalText(value, width)), 8) == value
  {
    var ds := Digits(value, 8);
    assert DigitsOf(OctalText(value, width)) == seq(width - |ds|, i => 0) + ds;
    LeadingZeros(width - |ds|, ds, 8);
    ValueOfDigits(value, 8);
  }

  // ----- the header block, byte by byte -----

  datatype Header = Header(prefix: Bytes, name: Bytes, mode: nat, size: nat, dir: bool)

  predicate FitsHeader(f: Header) {
    |f.prefix| <= 155 && |f.name| <= 100 && FitsOctal(f.mode, 7) && FitsOctal(f.size, 11)
  }

  function PaddedAt(text: Bytes, k: nat): Byte { if k < |text| then text[k] else 0 }

  /** Byte i of the block before the checksum is filled in. */
  function FieldByte(f: Header, i: nat): Byte
    requires FitsHeader(f) && i < TAR_BLOCK
  {
    if i < 100 then PaddedAt(f.name, i)
    else if i < 108 then PaddedAt(OctalText(f.mode, 7), i - 100)
    else if i < 116 then PaddedAt(OctalText(0, 7), i - 108)
    else if i < 124 then PaddedAt(OctalText(0, 7), i - 116)
    else if i < 136 then PaddedAt(OctalText(f.size, 11), i - 124)
    else if i < 148 then PaddedAt(OctalText(0, 11), i - 136)
    else if i < 156 then 0
    else if i == 156 then (if f.dir then 53 else 48)
    else if i < 257 then 0
    else if i < 263 then PaddedAt(USTAR, i - 257)
    else if i < 265 then 48
    else if i < 345 then 0
    else if i < 500 then PaddedAt(f.prefix, i - 345)
    else 0
  }

  function Blank(f: Header): (h: Bytes)
    requires FitsHeader(f)
    ensures |h| == TAR_BLOCK
  {
    seq(TAR_BLOCK, i requires 0 <= i < TAR_BLOCK => FieldByte(f, i))
  }

  /** The sum of the first k bytes, the checksum field counted as spaces. */
  function SumTo(h: Bytes, k: nat): (s: nat)
    requires k <= |h|
    ensures s <= 255 * k
  {
    if k == 0 then 0 else SumTo(h, k - 1) + if 148 <= k - 1 < 156 then SPACE else h[k - 1]
  }

  function Checksum(h: Bytes): nat
    requires |h| == TAR_BLOCK
  {
    SumTo(h, TAR_BLOCK)
  }

  lemma ChecksumFits(h: Bytes)
    requires |h| == TAR_BLOCK
    ensures FitsOctal(Checksum(h), 6)
  {
    assert Pow(8, 6) == 262144 by {
      assert Pow(8, 2) == 64;
      assert Pow(8, 4) == 4096;
    }
    DigitCount(Checksum(h), 8, 6);
  }

  lemma {:induction false} SumIgnoresField(g: Bytes, h: Bytes, k: nat)
    requires k <= |g| == |h|
    requires forall i :: 0 <= i < |g| && !(148 <= i < 156) ==> g[i] == h[i]
    ensures SumTo(g, k) == SumTo(h, k)
  {
    if k > 0 { SumIgnoresField(g, h, k - 1); }
  }

  function ChecksumField(sum: nat): (text: Bytes)
    requires FitsOctal(sum, 6)
    ensures |text| == 8
  {
    OctalText(sum, 6) + [0, SPACE]
  }

  function HeaderBytes(f: Header): (h: Bytes)
    requires FitsHeader(f)
    ensures |h| == TAR_BLOCK
  {
    ChecksumFits(Blank(f));
    var field := ChecksumField(Checksum(Blank(f)));
    seq(TAR_BLOCK, i requires 0 <= i < TAR_BLOCK => if 148 <= i < 156 then field[i - 148] else FieldByte(f, i))
  }

  lemma ChecksumOfHeader(f: Header)
    requires FitsHeader(f)
    ensures Checksum(HeaderBytes(f)) == Checksum(Blank(f))
  {
    SumIgnoresField(HeaderBytes(f), Blank(f), TAR_BLOCK);
  }

  // ----- the writer's own form: a buffer filled at offsets -----

  method WriteText(header: array<Byte>, offset: nat, text: Bytes)
    requires offset + |text| <= header.Length
    modifies header
    ensures forall i :: 0 <= i < header.Length ==>
              header[i] == if offset <= i < offset + |text| then text[i - offset] else old(header[i])
  {
    for k := 0 to |text|
      invariant forall i :: 0 <= i < header.Length ==>
                  header[i] == if offset <= i < offset + k then text[i - offset] else old(header[i])
    {
      header[offset + k] := text[k];
    }
  }

  /** Fails without touching the buffer when the value needs more digits than the field has. */
  method WriteOctal(header: array<Byte>, offset: nat, length: nat, value: nat) returns (ok: bool)
    requires length >= 1 && offset + length <= header.Length
    modifies header
    ensures ok <==> FitsOctal(value, length - 1)
    ensures forall i :: 0 <= i < header.Length ==>
              header[i] == if ok && offset <= i < offset + length
                  then PaddedAt(OctalText(value, length - 1), i - offset)
                           else old(header[i])
  {
    if |Digits(value, 8)| > length - 1 { return false; }
    WriteText(header, offset, OctalText(value, length - 1));
    header[offset + length - 1] := 0;
    return true;
  }

  method TarHeaderChecksum(header: Bytes) returns (sum: nat)
    requires |header| == TAR_BLOCK
    ensures sum == Checksum(header)
  {
    sum := 0;
    for i := 0 to TAR_BLOCK
      invariant sum == SumTo(header, i)
    {
      sum := sum + if 148 <= i < 156 then SPACE else header[i];
    }
  }

  datatype TarError =
    | PathTooLong | FieldOverflow
    | ChecksumMismatch | InvalidSize | TypeNotAllowed | DirectoryWithSize | UnsafePath | Truncated

  /** The header an entry asks for, or the first error the writer meets. */
  function HeaderFor(e: TarEntry): (r: Result<Header, TarError>)
    ensures r.Ok? ==> FitsHeader(r.value)
  {
    match SplitName(e.name)
    case None => Err(PathTooLong)
    case Some(parts) =>
      SplitRejoins(e.name);
      if !FitsOctal(e.mode, 7) || !FitsOctal(|e.body|, 11) then Err(FieldOverflow)
      else Ok(Header(parts.prefix, parts.name, e.mode, |e.body|, IsDir(e.name)))
  }

  /** The fields behind the size. */
  method WriteTail(header: array<Byte>, prefix: Bytes, dir: bool, ghost f: Header)
    requires FitsHeader(f) && header.Length == TAR_BLOCK && prefix == f.prefix && dir == f.dir
    requires forall i :: 0 <= i < 136 ==> header[i] == FieldByte(f, i)
    requires forall i :: 136 <= i < TAR_BLOCK ==> header[i] == 0
    modifies header
    ensures header[..] == Blank(f)
  {
    hide OctalText;
    var _ := WriteOctal(header, 136, 12, 0);
    WriteText(header, 156, [if dir then 53 else 48]);
    WriteText(header, 257, USTAR);
    header[262] := 0;
    WriteText(header, 263, [48, 48]);
    WriteText(header, 345, prefix);
    assert header[..] == Blank(f);
  }

  /** The last step of the writer: the checksum over the other fields, NUL and space behind its six digits. */
  method FillChecksum(header: array<Byte>, ghost f: Header)
    requires FitsHeader(f) && header[..] == Blank(f)
    modifies header
    ensures header[..] == HeaderBytes(f)
  {
    hide OctalText, Checksum;
    var sum := TarHeaderChecksum(header[..]);
    ChecksumFits(Blank(f));
    WriteText(header, 148, OctalText(sum, 6));
    header[154] := 0;
    header[155] := SPACE;
    assert header[..] == HeaderBytes(f);
  }

  method TarHeader(e: TarEntry) returns (r: Result<array<Byte>, TarError>)
    ensures HeaderFor(e).Err? ==> r == Err(HeaderFor(e).error)
    ensures HeaderFor(e).Ok? ==> r.Ok? && r.value[..] == HeaderBytes(HeaderFor(e).value)
  {
    hide OctalText, SplitName, IsDir, Checksum;
    var header := new Byte[TAR_BLOCK](_ => 0);
    var split := SplitUstarName(e.name);
    if split.None? { return Err(PathTooLong); }
    SplitRejoins(e.name);
    var parts := split.value;
    WriteText(header, 0, parts.name);
    var ok := WriteOctal(header, 100, 8, e.mode);
    if !ok { return Err(FieldOverflow); }
    ok := WriteOctal(header, 108, 8, 0);
    ok := WriteOctal(header, 116, 8, 0);
    ok := WriteOctal(header, 124, 12, |e.body|);
    if !ok { return Err(FieldOverflow); }
    ghost var f := HeaderFor(e).value;
    assert forall i :: 0 <= i < 136 ==> header[i] == FieldByte(f, i);
    assert forall i :: 136 <= i < TAR_BLOCK ==> header[i] == 0;
    WriteTail(header, parts.prefix, IsDir(e.name), f);
    FillChecksum(header, f);
    return Ok(header);
  }
}
