/** The unified diff as text: what `unifiedDiff` returns, and reading it back. */
module DiffText {
  import opened Text
  import opened Numerals
  import opened LineDiff
  import opened Hunks

  function Sign(kind: Kind): char {
    match kind case Keep => ' ' case Delete => '-' case Add => '+'
  }

  function Line(op: Op): string { [Sign(op.kind)] + op.text }

  function Range(start: nat, count: nat): string { Join([Decimal(start), Decimal(count)], ',') }

  function HeaderLine(h: Hunk): string {
    Join(["@@", "-" + Range(h.oldStart, h.oldCount), "+" + Range(h.newStart, h.newCount), "@@"], ' ')
  }

  function BodyLines(ops: seq<Op>): (lines: seq<string>)
    ensures |lines| == |ops|
  {
    seq(|ops|, i requires 0 <= i < |ops| => Line(ops[i]))
  }

  function HunkLines(hunks: seq<Hunk>): seq<string> {
    if hunks == [] then []
    else [HeaderLine(hunks[0])] + BodyLines(hunks[0].body) + HunkLines(hunks[1..])
  }

  function FileHeader(filePath: string): string { "--- a/" + filePath + "\n" + "+++ b/" + filePath + "\n" }

  function DiffOf(oldText: string, newText: string, context: nat): seq<Hunk> {
    DiffHunks(Split(oldText, '\n'), Split(newText, '\n'), context)
  }

  /** The text of a diff: empty when there is nothing to change. */
  function Rendered(hunks: seq<Hunk>, filePath: string): string {
    if hunks == [] then "" else FileHeader(filePath) + Join(HunkLines(hunks), '\n')
  }

  method RenderLines(hunks: seq<Hunk>, filePath: string) returns (lines: seq<string>)
    ensures lines == ["--- a/" + filePath, "+++ b/" + filePath] + HunkLines(hunks)
  {
    hide HeaderLine, BodyLines, HunkLines;
    lines := ["--- a/" + filePath, "+++ b/" + filePath];
    ghost var whole := lines + HunkLines(hunks);
    var i := 0;
    assert hunks[0..] == hunks;
    while i < |hunks|
      invariant 0 <= i <= |hunks|
      invariant lines + HunkLines(hunks[i..]) == whole
    {
      var h := hunks[i];
      assert hunks[i..] == [h] + hunks[i + 1..];
      HunkLinesCons(h, hunks[i + 1..]);
      assert lines + ([HeaderLine(h)] + BodyLines(h.body) + HunkLines(hunks[i + 1..]))
          == (lines + [HeaderLine(h)] + BodyLines(h.body)) + HunkLines(hunks[i + 1..]);
      lines := lines + [HeaderLine(h)] + BodyLines(h.body);
      i := i + 1;
    }
    NoHunkLines();
    assert hunks[i..] == [] && lines + [] == lines;
  }

  lemma NoHunkLines()
    ensures HunkLines([]) == []
  {
  }

  lemma HunkLinesCons(h: Hunk, hunks: seq<Hunk>)
    ensures HunkLines([h] + hunks) == [HeaderLine(h)] + BodyLines(h.body) + HunkLines(hunks)
  {
    assert ([h] + hunks)[1..] == hunks;
  }

  lemma JoinUnderHeader(lines: seq<string>, filePath: string)
    requires lines != []
    ensures Join(["--- a/" + filePath, "+++ b/" + filePath] + lines, '\n') == FileHeader(filePath) + Join(lines, '\n')
  {
    var first, second := "--- a/" + filePath, "+++ b/" + filePath;
    var all := [first, second] + lines;
    assert all[1..] == [second] + lines && all[1..][1..] == lines;
    var tail := Join(lines, '\n');
    assert first + ['\n'] + (second + ['\n'] + tail) == FileHeader(filePath) + tail;
  }

  method UnifiedDiff(oldText: string, newText: string, filePath: string, context: nat) returns (text: string)
    ensures text == Rendered(DiffOf(oldText, newText, context), filePath)
  {
    var a, b := Split(oldText, '\n'), Split(newText, '\n');
    var ops := Walk(a, b);
    UnchangedIffEqual(a, b);
    DiffHunksStandApart(a, b, context);
    if Unchanged(ops) { return ""; }
    var keep := MarkKept(ops, context);
    var hunks := GroupHunks(ops, keep);
    var lines := RenderLines(hunks, filePath);
    HunkLinesCons(hunks[0], hunks[1..]);
    assert hunks == [hunks[0]] + hunks[1..];
    JoinUnderHeader(HunkLines(hunks), filePath);
    text := Join(lines, '\n');
  }

  // ----- reading a diff -----

  function ParseRange(s: string, sign: char): Option<(nat, nat)> {
    if s == "" || s[0] != sign then None
    else
      var parts := Split(s[1..], ',');
      if |parts| == 2 && parts[0] != "" && parts[1] != "" && AllDigits(parts[0]) && AllDigits(parts[1]) then
        Some((DecimalValue(parts[0]), DecimalValue(parts[1])))
      else None
  }

  function ParseHeader(line: string): Option<Hunk> {
    var parts := Split(line, ' ');
    if |parts| != 4 || parts[0] != "@@" || parts[3] != "@@" then None
    else
      match (ParseRange(parts[1], '-'), ParseRange(parts[2], '+'))
      case (Some(old_), Some(new_)) => Some(Hunk(old_.0, old_.1, new_.0, new_.1, []))
      case _ => None
  }

  function ParseLine(line: string): Option<Op> {
    if line == "" then None
    else if line[0] == ' ' then Some(Op(Keep, line[1..]))
    else if line[0] == '-' then Some(Op(Delete, line[1..]))
    else if line[0] == '+' then Some(Op(Add, line[1..]))
    else None
  }

  function ParseBody(lines: seq<string>): Option<seq<Op>> {
    if lines == [] then Some([])
    else
      match (ParseLine(lines[0]), ParseBody(lines[1..]))
      case (Some(op), Some(ops)) => Some([op] + ops)
      case _ => None
  }

  predicate StartsHunk(line: string) { line != "" && line[0] == '@' }

  function BodyLength(lines: seq<string>): (k: nat)
    ensures k <= |lines|
  {
    if lines == [] || StartsHunk(lines[0]) then 0 else 1 + BodyLength(lines[1..])
  }

  function ParseHunks(lines: seq<string>): Option<seq<Hunk>>
    decreases |lines|
  {
    if lines == [] then Some([])
    else
      var rest := lines[1..];
      var k := BodyLength(rest);
      Assemble(ParseHeader(lines[0]), ParseBody(rest[..k]), ParseHunks(rest[k..]))
  }

  function Assemble(header: Option<Hunk>, body: Option<seq<Op>>, rest: Option<seq<Hunk>>): Option<seq<Hunk>> {
    match (header, body, rest)
    case (Some(h), Some(ops), Some(hunks)) => Some([h.(body := ops)] + hunks)
    case _ => None
  }

  /** Applies the text of a diff of the named file to a text. */
  function PatchText(text: string, diff: string, filePath: string): Option<string> {
    if diff == "" then Some(text)
    else if !(FileHeader(filePath) <= diff) then None
    else
      match ParseHunks(Split(diff[|FileHeader(filePath)|..], '\n'))
      case None => None
      case Some(hunks) =>
        match Patch(Split(text, '\n'), hunks, 1, 1)
        case None => None
        case Some(lines) => Some(Join(lines, '\n'))
  }

  // ----- reading inverts rendering -----

  lemma RangeRoundTrip(start: nat, count: nat, sign: char)
    ensures ParseRange([sign] + Range(start, count), sign) == Some((start, count))
    ensures ' ' !in Range(start, count) && '\n' !in Range(start, count)
  {
    SplitJoin([Decimal(start), Decimal(count)], ',');
    DecimalRoundTrip(start);
    DecimalRoundTrip(count);
    assert Range(start, count) == Decimal(start) + [','] + Decimal(count);
    assert ([sign] + Range(start, count))[1..] == Range(start, count);
  }

  lemma HeaderRoundTrip(h: Hunk)
    ensures ParseHeader(HeaderLine(h)) == Some(h.(body := []))
    ensures StartsHunk(HeaderLine(h)) && '\n' !in HeaderLine(h)
  {
    var left, right := "-" + Range(h.oldStart, h.oldCount), "+" + Range(h.newStart, h.newCount);
    RangeRoundTrip(h.oldStart, h.oldCount, '-');
    RangeRoundTrip(h.newStart, h.newCount, '+');
    SplitJoin(["@@", left, right, "@@"], ' ');
    JoinFour("@@", left, right, "@@");
  }

  lemma JoinFour(a: string, b: string, c: string, d: string)
    ensures Join([a, b, c, d], ' ') == a + [' '] + (b + [' '] + (c + [' '] + d))
  {
    assert Join([c, d], ' ') == c + [' '] + d by { assert [c, d][1..] == [d]; }
    assert Join([b, c, d], ' ') == b + [' '] + Join([c, d], ' ') by { assert [b, c, d][1..] == [c, d]; }
    assert Join([a, b, c, d], ' ') == a + [' '] + Join([b, c, d], ' ') by { assert [a, b, c, d][1..] == [b, c, d]; }
    assert c + [' '] + d == c + ([' '] + d);
  }

  lemma {:induction false} BodyRoundTrip(ops: seq<Op>)
    ensures ParseBody(BodyLines(ops)) == Some(ops)
  {
    if ops != [] {
      BodyRoundTrip(ops[1..]);
      assert BodyLines(ops)[1..] == BodyLines(ops[1..]);
      assert Line(ops[0])[1..] == ops[0].text;
      assert [ops[0]] + ops[1..] == ops;
    }
  }

  lemma {:induction false} BodyEnds(ops: seq<Op>, rest: seq<string>)
    requires rest == [] || StartsHunk(rest[0])
    ensures BodyLength(BodyLines(ops) + rest) == |ops|
  {
    var lines := BodyLines(ops) + rest;
    if ops != [] {
      BodyEnds(ops[1..], rest);
      assert lines[1..] == BodyLines(ops[1..]) + rest;
      assert lines[0] == Line(ops[0]);
    } else {
      assert lines == rest;
    }
  }

  lemma OneHunkRoundTrip(h: Hunk, tail: seq<string>, hunks: seq<Hunk>)
    requires tail == [] || StartsHunk(tail[0])
    requires ParseHunks(tail) == Some(hunks)
    ensures ParseHunks([HeaderLine(h)] + BodyLines(h.body) + tail) == Some([h] + hunks)
  {
    var lines := [HeaderLine(h)] + BodyLines(h.body) + tail;
    var rest := BodyLines(h.body) + tail;
    BodyEnds(h.body, tail);
    Pieces(HeaderLine(h), BodyLines(h.body), tail);
    ParseStep(lines, rest, |h.body|);
    assert ParseHeader(lines[0]) == Some(h.(body := [])) by { HeaderRoundTrip(h); }
    assert ParseBody(BodyLines(h.body)) == Some(h.body) by { BodyRoundTrip(h.body); }
  }

  lemma ParseStep(lines: seq<string>, rest: seq<string>, k: nat)
    requires lines != [] && rest == lines[1..] && k == BodyLength(rest)
    ensures ParseHunks(lines) == Assemble(ParseHeader(lines[0]), ParseBody(rest[..k]), ParseHunks(rest[k..]))
  {
  }

  lemma {:induction false} HunksRoundTrip(hunks: seq<Hunk>)
    ensures ParseHunks(HunkLines(hunks)) == Some(hunks)
    ensures hunks != [] ==> HunkLines(hunks) != [] && StartsHunk(HunkLines(hunks)[0])
  {
    if hunks != [] {
      HunksRoundTrip(hunks[1..]);
      HeaderRoundTrip(hunks[0]);
      OneHunkRoundTrip(hunks[0], HunkLines(hunks[1..]), hunks[1..]);
      assert [hunks[0]] + hunks[1..] == hunks;
    }
  }

  // ----- no rendered line breaks -----

  ghost predicate OneLine(ops: seq<Op>) { forall i :: 0 <= i < |ops| ==> '\n' !in ops[i].text }

  lemma {:induction false} ScriptLinesAreWhole(a: seq<string>, b: seq<string>)
    requires forall l :: l in a || l in b ==> '\n' !in l
    ensures OneLine(Script(a, b))
    decreases |a| + |b|
  {
    if a != [] { forall l | l in a[1..] || l in b ensures '\n' !in l {} ScriptLinesAreWhole(a[1..], b); }
    if b != [] { forall l | l in a || l in b[1..] ensures '\n' !in l {} ScriptLinesAreWhole(a, b[1..]); }
    if a != [] && b != [] {
      forall l | l in a[1..] || l in b[1..] ensures '\n' !in l {}
      ScriptLinesAreWhole(a[1..], b[1..]);
    }
  }

  ghost predicate Whole(lines: seq<string>) { forall l :: l in lines ==> '\n' !in l }

  ghost predicate BodiesWhole(hunks: seq<Hunk>) { forall i :: 0 <= i < |hunks| ==> OneLine(hunks[i].body) }

  lemma {:induction false} GroupBodiesAreWhole(ops: seq<Op>, keep: seq<bool>, oldLine: nat, newLine: nat)
    requires |ops| == |keep| && OneLine(ops)
    ensures BodiesWhole(Group(ops, keep, oldLine, newLine))
    decreases |ops|
  {
    if ops == [] {
    } else if !keep[0] {
      GroupBodiesAreWhole(ops[1..], keep[1..], oldLine + OldStep(ops[0]), newLine + NewStep(ops[0]));
    } else {
      var k := RunLength(keep);
      var h := HunkAt(oldLine, newLine, ops[..k]);
      GroupBodiesAreWhole(ops[k..], keep[k..], oldLine + h.oldCount, newLine + h.newCount);
    }
  }

  lemma {:induction false} HunkLinesAreWhole(hunks: seq<Hunk>)
    requires BodiesWhole(hunks)
    ensures Whole(HunkLines(hunks))
  {
    if hunks != [] {
      var h := hunks[0];
      HunkLinesAreWhole(hunks[1..]);
      HeaderRoundTrip(h);
      forall l | l in BodyLines(h.body) ensures '\n' !in l {
        var i :| 0 <= i < |h.body| && l == Line(h.body[i]);
      }
    }
  }

  // ----- the round trip over texts -----

  /** The text is empty exactly when the two files are the same text. */
  lemma DiffIsEmptyIffSame(oldText: string, newText: string, filePath: string, context: nat)
    ensures Rendered(DiffOf(oldText, newText, context), filePath) == "" <==> oldText == newText
  {
    DiffHunksStandApart(Split(oldText, '\n'), Split(newText, '\n'), context);
    if Split(oldText, '\n') == Split(newText, '\n') { SplitInjective(oldText, newText, '\n'); }
  }

  lemma RenderedParses(oldText: string, newText: string, filePath: string, context: nat)
    requires oldText != newText
    ensures
      var diff := Rendered(DiffOf(oldText, newText, context), filePath);
      && diff != "" && FileHeader(filePath) <= diff
      && ParseHunks(Split(diff[|FileHeader(filePath)|..], '\n')) == Some(DiffOf(oldText, newText, context))
  {
    var a, b, hunks := Split(oldText, '\n'), Split(newText, '\n'), DiffOf(oldText, newText, context);
    DiffIsEmptyIffSame(oldText, newText, filePath, context);
    ScriptLinesAreWhole(a, b);
    GroupBodiesAreWhole(Script(a, b), KeepFlags(Script(a, b), context), 1, 1);
    HunkLinesAreWhole(hunks);
    HunksRoundTrip(hunks);
    SplitJoin(HunkLines(hunks), '\n');
    var diff := Rendered(hunks, filePath);
    assert diff[|FileHeader(filePath)|..] == Join(HunkLines(hunks), '\n');
  }

  /**
   * Reading the text of a diff and applying it to the old text gives the new text, whatever the path and the
   * context.
   */
  lemma DiffTextApplies(oldText: string, newText: string, filePath: string, context: nat)
    ensures PatchText(oldText, Rendered(DiffOf(oldText, newText, context), filePath), filePath) == Some(newText)
  {
    DiffIsEmptyIffSame(oldText, newText, filePath, context);
    if oldText != newText {
      RenderedParses(oldText, newText, filePath, context);
      DiffApplies(Split(oldText, '\n'), Split(newText, '\n'), context);
      JoinSplit(newText, '\n');
    }
  }

  // ----- POSIX text files -----

  /** A text file in the sense of POSIX: every line ends in a newline. */
  predicate PosixFile(text: string) { text == "" || text[|text| - 1] == '\n' }

  /** Its lines; what stands behind the last newline is none. */
  function PosixLines(text: string): seq<string> { Split(text, '\n')[..|Split(text, '\n')| - 1] }

  lemma SegmentsOfFile(text: string)
    requires PosixFile(text)
    ensures Split(text, '\n') == PosixLines(text) + [""]
  {
    SplitNothing('\n');
    if text != "" {
      var front := text[..|text| - 1];
      assert text == front + ['\n'] + "";
      SplitConcat(front, "", '\n');
      assert (Split(front, '\n') + [""])[..|Split(front, '\n')|] == Split(front, '\n');
    }
  }

  /** The end of the file is within reach of a hunk: a change lies within `context` lines of the last segment. */
  ghost predicate HunkAtEnd(oldText: string, newText: string, context: nat) {
    ReachesEnd(Split(oldText, '\n'), Split(newText, '\n'), context)
  }

  /** Some context, or every block of changes both deletes and adds. */
  ghost predicate RangesAreFull(oldText: string, newText: string, context: nat) {
    var ops := Script(Split(oldText, '\n'), Split(newText, '\n'));
    context >= 1 || TwoSidedRuns(ops, ChangeFlags(ops))
  }

  /**
   * Between two POSIX text files, a strict POSIX reader gets the new file from a diff exactly when no header has an
   * empty range and no hunk reaches the end of the file, where the diff counts one line too many; otherwise it refuses
   * the diff.
   */
  lemma PosixFileIff(oldText: string, newText: string, context: nat)
    requires PosixFile(oldText) && PosixFile(newText)
    ensures Patch(PosixLines(oldText), AllAsPosix(DiffOf(oldText, newText, context)), 1, 1)
         == if RangesAreFull(oldText, newText, context) && !HunkAtEnd(oldText, newText, context)
            then Some(PosixLines(newText)) else None
  {
    hide Patch, TwoSidedRuns, ReachesEnd;
    SegmentsOfFile(oldText);
    SegmentsOfFile(newText);
    PosixLinesIff(PosixLines(oldText), PosixLines(newText), context);
  }

  /** With any context a change of the only line is refused: the hunk counts two lines of a file that has one. */
  lemma OneLineFileIsRefused(x: string, y: string, context: nat)
    requires context >= 1 && x != y && '\n' !in x && '\n' !in y
    ensures PosixFile(x + "\n") && PosixFile(y + "\n") && PosixLines(x + "\n") == [x]
    ensures Patch([x], AllAsPosix(DiffOf(x + "\n", y + "\n", context)), 1, 1) == None
  {
    hide Patch, DiffOf, Script, ReachesEnd;
    TwoSegments(x);
    TwoSegments(y);
    ChangeIsNearTheEnd(x, y, context);
    PosixFileIff(x + "\n", y + "\n", context);
  }

  lemma ChangeIsNearTheEnd(x: string, y: string, context: nat)
    requires context >= 1 && x != y
    ensures ReachesEnd([x, ""], [y, ""], context)
  {
    OneLineScript(x, y);
    var ops := Script([x, ""], [y, ""]);
    assert !ops[1].kind.Keep? || !ops[2].kind.Keep?;
    assert Near(ops, context, 2);
  }

  lemma OneLineScript(x: string, y: string)
    requires x != y
    ensures Script([x, ""], [y, ""]) == if y == "" then [Op(Delete, x), Op(Keep, ""), Op(Add, "")]
                                        else [Op(Delete, x), Op(Add, y), Op(Keep, "")]
  {
    var a, b := [x, ""], [y, ""];
    assert a[1..] == [""] && b[1..] == [""] && [""][1..] == [];
    assert Script([], []) == [] && Lcs([""], [""]) == 1 && Lcs([], b) == 0;
    assert Script([""], [""]) == [Op(Keep, "")] + Script([], []);
    assert Lcs([""], b) == 1 && Lcs(a, [""]) == 1;
    assert Script(a, b) == [Op(Delete, x)] + Script([""], b);
    if y == "" {
      assert Script([], [""]) == [Op(Add, "")] + Script([], []);
      assert Script([""], b) == [Op(Keep, "")] + Script([], [""]);
    } else {
      assert Script([""], b) == [Op(Add, y)] + Script([""], [""]);
    }
  }

  lemma TwoSegments(line: string)
    requires '\n' !in line
    ensures Split(line + "\n", '\n') == [line, ""]
  {
    SplitJoin([line, ""], '\n');
    assert Join([line, ""], '\n') == line + ['\n'] + "";
    assert line + "\n" == line + ['\n'] + "";
  }

  // ----- one diff, letter by letter -----

  /** The header line of a hunk, spelled out. */
  lemma HeaderLineIs(h: Hunk)
    ensures HeaderLine(h) == "@@ -" + Decimal(h.oldStart) + "," + Decimal(h.oldCount)
                             + " +" + Decimal(h.newStart) + "," + Decimal(h.newCount) + " @@"
  {
    hide Decimal, Join;
    JoinFour("@@", "-" + Range(h.oldStart, h.oldCount), "+" + Range(h.newStart, h.newCount), "@@");
    JoinTwo(Decimal(h.oldStart), Decimal(h.oldCount));
    JoinTwo(Decimal(h.newStart), Decimal(h.newCount));
    SpellHeader(Decimal(h.oldStart), Decimal(h.oldCount), Decimal(h.newStart), Decimal(h.newCount));
  }

  lemma JoinTwo(a: string, b: string)
    ensures Join([a, b], ',') == a + [','] + b
  {
    assert [a, b][1..] == [b];
  }

  lemma SpellHeader(a: string, b: string, c: string, d: string)
    ensures "@@" + [' '] + ("-" + (a + [','] + b) + [' '] + ("+" + (c + [','] + d) + [' '] + "@@"))
         == "@@ -" + a + "," + b + " +" + c + "," + d + " @@"
  {
    assert "-" + (a + [','] + b) == "-" + a + "," + b;
    assert " " + ("+" + (c + [','] + d) + [' '] + "@@") == " +" + c + "," + d + " @@";
    assert ("-" + a + "," + b) + (" +" + c + "," + d + " @@") == "-" + a + "," + b + " +" + c + "," + d + " @@";
  }

  lemma SmallDecimals()
    ensures Decimal(1) == "1" && Decimal(4) == "4"
  {
    assert Digits(1, 10) == [1] && Digits(4, 10) == [4];
    assert Decimal(1)[0] == '1' && Decimal(4)[0] == '4';
  }

  lemma OneReplaced()
    ensures Script(["a", "b", "c", ""], ["a", "X", "c", ""])
         == [Op(Keep, "a"), Op(Delete, "b"), Op(Add, "X"), Op(Keep, "c"), Op(Keep, "")]
  {
    var a, b, c := ["b", "c", ""], ["X", "c", ""], ["c", ""];
    assert ["a", "b", "c", ""][1..] == a && ["a", "X", "c", ""][1..] == b;
    assert a[1..] == c && b[1..] == c && c[1..] == [""] && [""][1..] == [];
    assert Lcs([""], [""]) == 1 && Lcs([], [""]) == 0 && Lcs([""], c) == 1 && Lcs(c, c) == 2;
    assert Lcs([""], b) == 1 && Lcs(a, [""]) == 1;
    assert Lcs(c, b) == 2 && Lcs(a, c) == 2;
    assert Script([""], [""]) == [Op(Keep, "")] + Script([], []);
    assert Script(c, c) == [Op(Keep, "c")] + Script([""], [""]);
    assert Script(c, b) == [Op(Add, "X")] + Script(c, c);
    assert Script(a, b) == [Op(Delete, "b")] + Script(c, b);
  }

  lemma OneHunkOfAll(ops: seq<Op>)
    requires |ops| == 5 && ops[1].kind.Delete?
    ensures KeepFlags(ops, 3) == [true, true, true, true, true]
    ensures Group(ops, KeepFlags(ops, 3), 1, 1) == [HunkAt(1, 1, ops)]
  {
    var keep := KeepFlags(ops, 3);
    forall k | 0 <= k < 5 ensures Near(ops, 3, k) { assert !ops[1].kind.Keep?; }
    RunLengthIs(keep, 5);
    assert ops[..5] == ops && ops[5..] == [] && keep[5..] == [];
  }

  /** The default diff of two four-segment texts that differ in one line, as the text it is. */
  lemma OneLineChanged()
    ensures Rendered(DiffOf("a\nb\nc\n", "a\nX\nc\n", 3), "f.md")
         == "--- a/f.md\n+++ b/f.md\n" + "@@ -1,4 +1,4 @@\n a\n-b\n+X\n c\n "
  {
    hide *;
    var ops := [Op(Keep, "a"), Op(Delete, "b"), Op(Add, "X"), Op(Keep, "c"), Op(Keep, "")];
    FourSegments("b");
    FourSegments("X");
    assert "a\n" + "b" + "\nc\n" == "a\nb\nc\n" && "a\n" + "X" + "\nc\n" == "a\nX\nc\n";
    OneReplaced();
    CountsOfReplaced(ops);
    DiffOfSegments("a\nb\nc\n", "a\nX\nc\n", ops);
    LinesOfReplaced(Hunk(1, 4, 1, 4, ops));
  }

  lemma DiffOfSegments(oldText: string, newText: string, ops: seq<Op>)
    requires Script(Split(oldText, '\n'), Split(newText, '\n')) == ops && |ops| == 5 && ops[1].kind.Delete?
    ensures DiffOf(oldText, newText, 3) == [HunkAt(1, 1, ops)]
  {
    hide Script, KeepFlags, Group;
    OneHunkOfAll(ops);
    assert !Unchanged(ops) by { assert !ops[1].kind.Keep?; }
  }

  lemma FourSegments(x: string)
    requires '\n' !in x
    ensures Split("a\n" + x + "\nc\n", '\n') == ["a", x, "c", ""]
  {
    SplitJoin(["a", x, "c", ""], '\n');
    assert ["a", x, "c", ""][1..] == [x, "c", ""] && [x, "c", ""][1..] == ["c", ""] && ["c", ""][1..] == [""];
    assert Join(["c", ""], '\n') == "c\n";
    assert Join([x, "c", ""], '\n') == x + "\nc\n";
    assert Join(["a", x, "c", ""], '\n') == "a\n" + x + "\nc\n";
  }

  lemma CountsOfReplaced(ops: seq<Op>)
    requires ops == [Op(Keep, "a"), Op(Delete, "b"), Op(Add, "X"), Op(Keep, "c"), Op(Keep, "")]
    ensures HunkAt(1, 1, ops) == Hunk(1, 4, 1, 4, ops)
  {
    var rest := ops[3..];
    assert ops[1..][1..] == ops[2..] && ops[2..][1..] == rest && rest[1..] == [Op(Keep, "")] && rest[1..][1..] == [];
    assert |OldLines([])| == 0 && |NewLines([])| == 0;
    assert |OldLines(rest[1..])| == 1 && |NewLines(rest[1..])| == 1;
    assert |OldLines(rest)| == 2 && |NewLines(rest)| == 2;
    assert |OldLines(ops[2..])| == 2 && |NewLines(ops[2..])| == 3;
    assert |OldLines(ops[1..])| == 3 && |NewLines(ops[1..])| == 3;
  }

  lemma LinesOfReplaced(h: Hunk)
    requires h == Hunk(1, 4, 1, 4, [Op(Keep, "a"), Op(Delete, "b"), Op(Add, "X"), Op(Keep, "c"), Op(Keep, "")])
    ensures Rendered([h], "f.md") == "--- a/f.md\n+++ b/f.md\n" + "@@ -1,4 +1,4 @@\n a\n-b\n+X\n c\n "
  {
    hide HeaderLine, Decimal;
    HeaderLineIs(h);
    SmallDecimals();
    assert HeaderLine(h) == "@@ -1,4 +1,4 @@";
    ShowReplaced(h);
  }

  lemma ShowReplaced(h: Hunk)
    requires h == Hunk(1, 4, 1, 4, [Op(Keep, "a"), Op(Delete, "b"), Op(Add, "X"), Op(Keep, "c"), Op(Keep, "")])
    requires HeaderLine(h) == "@@ -1,4 +1,4 @@"
    ensures Rendered([h], "f.md") == "--- a/f.md\n+++ b/f.md\n" + "@@ -1,4 +1,4 @@\n a\n-b\n+X\n c\n "
  {
    hide HeaderLine, Join, HunkLines, BodyLines;
    BodyOfReplaced(h.body);
    HunkLinesCons(h, []);
    NoHunkLines();
    var lines := ["@@ -1,4 +1,4 @@", " a", "-b", "+X", " c", " "];
    assert [HeaderLine(h)] + BodyLines(h.body) + [] == lines && [h] + [] == [h];
    JoinedSix();
    assert FileHeader("f.md") == "--- a/f.md\n+++ b/f.md\n";
  }

  lemma BodyOfReplaced(ops: seq<Op>)
    requires ops == [Op(Keep, "a"), Op(Delete, "b"), Op(Add, "X"), Op(Keep, "c"), Op(Keep, "")]
    ensures BodyLines(ops) == [" a", "-b", "+X", " c", " "]
  {
    var body := BodyLines(ops);
    assert body[0] == " a" && body[1] == "-b" && body[2] == "+X" && body[3] == " c" && body[4] == " ";
  }

  lemma JoinMore(line: string, lines: seq<string>)
    requires lines != []
    ensures Join([line] + lines, '\n') == line + "\n" + Join(lines, '\n')
  {
    assert ([line] + lines)[1..] == lines;
  }

  lemma JoinedSix()
    ensures Join(["@@ -1,4 +1,4 @@", " a", "-b", "+X", " c", " "], '\n')
         == "@@ -1,4 +1,4 @@\n a\n-b\n+X\n c\n "
  {
    assert Join([" "], '\n') == " ";
    hide Join;
    JoinMore(" c", [" "]);
    assert [" c"] + [" "] == [" c", " "];
    JoinMore("+X", [" c", " "]);
    assert ["+X"] + [" c", " "] == ["+X", " c", " "];
    JoinMore("-b", ["+X", " c", " "]);
    assert ["-b"] + ["+X", " c", " "] == ["-b", "+X", " c", " "];
    JoinMore(" a", ["-b", "+X", " c", " "]);
    assert [" a"] + ["-b", "+X", " c", " "] == [" a", "-b", "+X", " c", " "];
    JoinMore("@@ -1,4 +1,4 @@", [" a", "-b", "+X", " c", " "]);
    assert ["@@ -1,4 +1,4 @@"] + [" a", "-b", "+X", " c", " "] == ["@@ -1,4 +1,4 @@", " a", "-b", "+X", " c", " "];
  }
}
