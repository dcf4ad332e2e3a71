/** Grouping an edit script into hunks, and the patch tool the hunks are meant for. */
module Hunks {
  import opened Text
  import opened LineDiff

  datatype Hunk = Hunk(oldStart: nat, oldCount: nat, newStart: nat, newCount: nat, body: seq<Op>)

  /** Line k lies within `context` lines of a change. */
  predicate Near(ops: seq<Op>, context: nat, k: nat) {
    exists i :: 0 <= i < |ops| && !ops[i].kind.Keep? && i - context <= k <= i + context
  }

  function KeepFlags(ops: seq<Op>, context: nat): (keep: seq<bool>)
    ensures |keep| == |ops|
  {
    seq(|ops|, k requires 0 <= k < |ops| => Near(ops, context, k))
  }

  function RunLength(keep: seq<bool>): (k: nat)
    ensures k <= |keep|
    ensures forall i :: 0 <= i < k ==> keep[i]
    ensures k < |keep| ==> !keep[k]
  {
    if keep == [] || !keep[0] then 0 else 1 + RunLength(keep[1..])
  }

  function OldStep(op: Op): nat { if op.kind.Add? then 0 else 1 }

  function NewStep(op: Op): nat { if op.kind.Delete? then 0 else 1 }

  /** The hunks of a script whose first line is line oldLine of the old text and newLine of the new one. */
  function Group(ops: seq<Op>, keep: seq<bool>, oldLine: nat, newLine: nat): seq<Hunk>
    requires |ops| == |keep|
    decreases |ops|
  {
    if ops == [] then []
    else if !keep[0] then Group(ops[1..], keep[1..], oldLine + OldStep(ops[0]), newLine + NewStep(ops[0]))
    else
      var k := RunLength(keep);
      var h := HunkAt(oldLine, newLine, ops[..k]);
      [h] + Group(ops[k..], keep[k..], oldLine + h.oldCount, newLine + h.newCount)
  }

  function HunkAt(oldLine: nat, newLine: nat, body: seq<Op>): Hunk {
    Hunk(oldLine, |OldLines(body)|, newLine, |NewLines(body)|, body)
  }

  /** The hunks of a whole diff; none when the two sides agree. */
  function DiffHunks(a: seq<string>, b: seq<string>, context: nat): seq<Hunk> {
    var ops := Script(a, b);
    if Unchanged(ops) then [] else Group(ops, KeepFlags(ops, context), 1, 1)
  }

  // ----- the code's own form -----

  method MarkKept(ops: seq<Op>, context: nat) returns (keep: array<bool>)
    ensures fresh(keep) && keep[..] == KeepFlags(ops, context)
  {
    keep := new bool[|ops|](_ => false);
    for idx := 0 to |ops|
      invariant keep.Length == |ops|
      invariant forall k :: 0 <= k < |ops| ==>
                  (keep[k] <==> exists i :: 0 <= i < idx && !ops[i].kind.Keep? && i - context <= k <= i + context)
    {
      if ops[idx].kind.Keep? { continue; }
      var k := if idx >= context then idx - context else 0;
      var end := if idx + context < |ops| then idx + context else |ops| - 1;
      ghost var first := k;
      ghost var before := keep[..];
      while k <= end
        invariant first <= k <= end + 1
        invariant forall l :: 0 <= l < |ops| ==> keep[l] == (before[l] || first <= l < k)
      {
        keep[k] := true;
        k := k + 1;
      }
      forall l | 0 <= l < |ops|
        ensures keep[l] <==> exists i :: 0 <= i < idx + 1 && !ops[i].kind.Keep? && i - context <= l <= i + context
      {
        if idx - context <= l <= idx + context { assert first <= l < k; }
      }
    }
  }

  method GroupHunks(ops: seq<Op>, keep: array<bool>) returns (hunks: seq<Hunk>)
    requires keep.Length == |ops|
    ensures hunks == Group(ops, keep[..], 1, 1)
  {
    hide Grouped;
    assert Grouped([], ops, keep[..], 0, 1, 1) by { GroupedStart(ops, keep[..]); }
    hunks := [];
    var oldLine, newLine := 1, 1;
    var idx := 0;
    while idx < |ops|
      invariant 0 <= idx <= |ops|
      invariant Grouped(hunks, ops, keep[..], idx, oldLine, newLine)
      decreases |ops| - idx
    {
      if !keep[idx] {
        GroupedSkip(hunks, ops, keep[..], idx, oldLine, newLine);
        if !ops[idx].kind.Add? { oldLine := oldLine + 1; }
        if !ops[idx].kind.Delete? { newLine := newLine + 1; }
        idx := idx + 1;
        continue;
      }
      var start, hunkStartOld, hunkStartNew := idx, oldLine, newLine;
      var body: seq<Op> := [];
      var oldCount, newCount := 0, 0;
      while idx < |ops| && keep[idx]
        invariant start <= idx <= |ops|
        invariant body == ops[start..idx] && (idx == start ==> keep[idx])
        invariant forall k :: start <= k < idx ==> keep[k]
        invariant oldCount == |OldLines(body)| && oldLine == hunkStartOld + oldCount
        invariant newCount == |NewLines(body)| && newLine == hunkStartNew + newCount
      {
        var op := ops[idx];
        LinesOfConcat(body, [op]);
        assert ops[start..idx] + [op] == ops[start..idx + 1];
        body := body + [op];
        if !op.kind.Add? { oldLine, oldCount := oldLine + 1, oldCount + 1; }
        if !op.kind.Delete? { newLine, newCount := newLine + 1, newCount + 1; }
        idx := idx + 1;
      }
      GroupedHunk(hunks, ops, keep[..], start, idx, hunkStartOld, hunkStartNew);
      hunks := hunks + [Hunk(hunkStartOld, oldCount, hunkStartNew, newCount, body)];
    }
    GroupedEnd(hunks, ops, keep[..], oldLine, newLine);
  }

  /** `hunks` groups the script up to idx, where the two texts stand at oldLine and newLine. */
  ghost predicate Grouped(hunks: seq<Hunk>, ops: seq<Op>, keep: seq<bool>, idx: nat, oldLine: nat, newLine: nat)
    requires idx <= |ops| == |keep|
  {
    hunks + Group(ops[idx..], keep[idx..], oldLine, newLine) == Group(ops, keep, 1, 1)
  }

  lemma GroupedStart(ops: seq<Op>, keep: seq<bool>)
    requires |ops| == |keep|
    ensures Grouped([], ops, keep, 0, 1, 1)
  {
    assert ops[0..] == ops && keep[0..] == keep;
  }

  lemma GroupedEnd(hunks: seq<Hunk>, ops: seq<Op>, keep: seq<bool>, oldLine: nat, newLine: nat)
    requires |ops| == |keep| && Grouped(hunks, ops, keep, |ops|, oldLine, newLine)
    ensures hunks == Group(ops, keep, 1, 1)
  {
  }

  lemma GroupedSkip(hunks: seq<Hunk>, ops: seq<Op>, keep: seq<bool>, idx: nat, oldLine: nat, newLine: nat)
    requires idx < |ops| == |keep| && !keep[idx]
    requires Grouped(hunks, ops, keep, idx, oldLine, newLine)
    ensures Grouped(hunks, ops, keep, idx + 1, oldLine + OldStep(ops[idx]), newLine + NewStep(ops[idx]))
  {
    assert ops[idx..][1..] == ops[idx + 1..] && keep[idx..][1..] == keep[idx + 1..];
  }

  lemma GroupedHunk(hunks: seq<Hunk>, ops: seq<Op>, keep: seq<bool>, start: nat, idx: nat, oldLine: nat, newLine: nat)
    requires start < idx <= |ops| == |keep|
    requires forall k :: start <= k < idx ==> keep[k]
    requires idx < |ops| ==> !keep[idx]
    requires Grouped(hunks, ops, keep, start, oldLine, newLine)
    ensures
      var h := HunkAt(oldLine, newLine, ops[start..idx]);
      Grouped(hunks + [h], ops, keep, idx, oldLine + h.oldCount, newLine + h.newCount)
  {
    var k := RunLength(keep[start..]);
    assert forall i :: 0 <= i < idx - start ==> keep[start..][i];
    assert idx < |keep| ==> !keep[start..][idx - start];
    assert k == idx - start;
    assert ops[start..][..k] == ops[start..idx] && ops[start..][k..] == ops[idx..] && keep[start..][k..] == keep[idx..];
  }

  lemma LinesOfConcat(xs: seq<Op>, ys: seq<Op>)
    ensures OldLines(xs + ys) == OldLines(xs) + OldLines(ys)
    ensures NewLines(xs + ys) == NewLines(xs) + NewLines(ys)
  {
    OldLinesOfConcat(xs, ys);
    NewLinesOfConcat(xs, ys);
  }

  lemma {:induction false} OldLinesOfConcat(xs: seq<Op>, ys: seq<Op>)
    ensures OldLines(xs + ys) == OldLines(xs) + OldLines(ys)
  {
    if xs == [] {
      assert xs + ys == ys;
    } else {
      OldLinesOfConcat(xs[1..], ys);
      assert (xs + ys)[1..] == xs[1..] + ys && (xs + ys)[0] == xs[0];
    }
  }

  lemma {:induction false} NewLinesOfConcat(xs: seq<Op>, ys: seq<Op>)
    ensures NewLines(xs + ys) == NewLines(xs) + NewLines(ys)
  {
    if xs == [] {
      assert xs + ys == ys;
    } else {
      NewLinesOfConcat(xs[1..], ys);
      assert (xs + ys)[1..] == xs[1..] + ys && (xs + ys)[0] == xs[0];
    }
  }

  // ----- the patch tool -----

  /**
   * Applies hunks to the lines from oldLine on, the result so far ending before newLine. It fails unless each hunk
   * starts at or after the point reached, both its start lines and both its counts are right, and the lines it
   * keeps or deletes are the ones it finds.
   */
  function Patch(lines: seq<string>, hunks: seq<Hunk>, oldLine: nat, newLine: nat): Option<seq<string>>
    decreases |hunks|
  {
    if hunks == [] then Some(lines)
    else if !Fits(hunks[0], lines, oldLine, newLine) then None
    else
      Splice(lines[..hunks[0].oldStart - oldLine] + NewLines(hunks[0].body),
             Patch(lines[End(hunks[0], oldLine)..], hunks[1..],
                   hunks[0].oldStart + hunks[0].oldCount, hunks[0].newStart + hunks[0].newCount))
  }

  /** Where the part of the old lines that a hunk covers ends. */
  function End(h: Hunk, oldLine: nat): nat
    requires oldLine <= h.oldStart
  {
    h.oldStart - oldLine + h.oldCount
  }

  function Splice(done: seq<string>, rest: Option<seq<string>>): Option<seq<string>> {
    match rest
    case None => None
    case Some(lines) => Some(done + lines)
  }

  predicate Fits(h: Hunk, lines: seq<string>, oldLine: nat, newLine: nat) {
    && oldLine <= h.oldStart && End(h, oldLine) <= |lines|
    && h.newStart == newLine + (h.oldStart - oldLine)
    && h.oldCount == |OldLines(h.body)| && h.newCount == |NewLines(h.body)|
    && lines[h.oldStart - oldLine..End(h, oldLine)] == OldLines(h.body)
  }

  lemma PatchCons(lines: seq<string>, h: Hunk, rest: seq<Hunk>, oldLine: nat, newLine: nat)
    ensures !Fits(h, lines, oldLine, newLine) ==> Patch(lines, [h] + rest, oldLine, newLine) == None
    ensures Fits(h, lines, oldLine, newLine) ==>
              oldLine <= h.oldStart && End(h, oldLine) <= |lines|
              && Patch(lines, [h] + rest, oldLine, newLine)
                 == Splice(lines[..h.oldStart - oldLine] + NewLines(h.body),
                           Patch(lines[End(h, oldLine)..], rest, h.oldStart + h.oldCount, h.newStart + h.newCount))
  {
    hide OldLines, NewLines;
    assert ([h] + rest)[1..] == rest;
  }

  lemma FitsSkips(h: Hunk, line: string, lines: seq<string>, oldLine: nat, newLine: nat)
    requires Fits(h, lines, oldLine + 1, newLine + 1)
    ensures oldLine < h.oldStart && End(h, oldLine) == End(h, oldLine + 1) + 1 <= |lines| + 1
    ensures Fits(h, [line] + lines, oldLine, newLine)
    ensures ([line] + lines)[End(h, oldLine)..] == lines[End(h, oldLine + 1)..]
    ensures ([line] + lines)[..h.oldStart - oldLine] == [line] + lines[..h.oldStart - oldLine - 1]
  {
    hide OldLines, NewLines;
    var all, from, to := [line] + lines, h.oldStart - oldLine, End(h, oldLine);
    assert all[from..to] == lines[from - 1..to - 1];
  }

  lemma SpliceMore(line: string, done: seq<string>, body: seq<string>, rest: Option<seq<string>>)
    requires rest.Some?
    ensures Splice(([line] + done) + body, rest) == Some([line] + Splice(done + body, rest).value)
  {
    assert (([line] + done) + body) + rest.value == [line] + ((done + body) + rest.value);
  }

  lemma PatchSkipsLine(line: string, lines: seq<string>, hunks: seq<Hunk>, oldLine: nat, newLine: nat)
    requires Patch(lines, hunks, oldLine + 1, newLine + 1).Some?
    ensures Patch([line] + lines, hunks, oldLine, newLine)
         == Some([line] + Patch(lines, hunks, oldLine + 1, newLine + 1).value)
  {
    if hunks != [] {
      hide Patch, Fits, Splice, OldLines, NewLines;
      var h, rest := hunks[0], hunks[1..];
      assert hunks == [h] + rest;
      PatchCons(lines, h, rest, oldLine + 1, newLine + 1);
      PatchCons([line] + lines, h, rest, oldLine, newLine);
      FitsSkips(h, line, lines, oldLine, newLine);
      var tail := Patch(lines[End(h, oldLine + 1)..], rest, h.oldStart + h.oldCount, h.newStart + h.newCount);
      SpliceFails(lines[..h.oldStart - oldLine - 1] + NewLines(h.body), tail);
      SpliceMore(line, lines[..h.oldStart - oldLine - 1], NewLines(h.body), tail);
    }
  }

  lemma SpliceFails(done: seq<string>, rest: Option<seq<string>>)
    ensures Splice(done, rest).Some? <==> rest.Some?
  {
  }

  lemma FitsHere(h: Hunk, lines: seq<string>, oldLine: nat, newLine: nat)
    requires h == HunkAt(oldLine, newLine, h.body)
    ensures Fits(h, OldLines(h.body) + lines, oldLine, newLine)
    ensures (OldLines(h.body) + lines)[h.oldCount..] == lines
  {
    var all := OldLines(h.body) + lines;
    assert all[0..h.oldCount] == OldLines(h.body);
  }

  /** At the very start of a hunk nothing is copied before it. */
  lemma AtStart(h: Hunk, lines: seq<string>)
    ensures End(h, h.oldStart) == h.oldCount && lines[..0] + NewLines(h.body) == NewLines(h.body)
  {
  }

  lemma NothingPatches(oldLine: nat, newLine: nat)
    ensures Patch(OldLines([]), Group([], [], oldLine, newLine), oldLine, newLine) == Some(NewLines([]))
  {
  }

  lemma KeptCons(ops: seq<Op>)
    requires ops != [] && ops[0].kind.Keep?
    ensures OldLines(ops) == [ops[0].text] + OldLines(ops[1..]) && NewLines(ops) == [ops[0].text] + NewLines(ops[1..])
  {
  }

  lemma SpliceSome(done: seq<string>, lines: seq<string>)
    ensures Splice(done, Some(lines)) == Some(done + lines)
  {
  }

  lemma {:induction false} GroupPatches(ops: seq<Op>, keep: seq<bool>, oldLine: nat, newLine: nat)
    requires |ops| == |keep|
    requires forall i :: 0 <= i < |ops| && !keep[i] ==> ops[i].kind.Keep?
    ensures Patch(OldLines(ops), Group(ops, keep, oldLine, newLine), oldLine, newLine) == Some(NewLines(ops))
    decreases |ops|
  {
    hide *;
    if ops == [] {
      NothingPatches(oldLine, newLine);
      assert keep == [];
    } else if !keep[0] {
      StepOfKept(ops, keep);
      KeptCons(ops);
      GroupOfFlippedLine(ops, keep, oldLine, newLine);
      GroupPatches(ops[1..], keep[1..], oldLine + 1, newLine + 1);
      PatchSkipsLine(ops[0].text, OldLines(ops[1..]), Group(ops[1..], keep[1..], oldLine + 1, newLine + 1), oldLine,
          newLine);
    } else {
      var k := RunLength(keep);
      var h, hunks := GroupOfRun(ops, keep, oldLine, newLine);
      CountsOf(oldLine, newLine, ops[..k]);
      GroupPatches(ops[k..], keep[k..], oldLine + h.oldCount, newLine + h.newCount);
      FitsHere(h, OldLines(ops[k..]), oldLine, newLine);
      PatchCons(OldLines(ops), h, hunks, oldLine, newLine);
      AtStart(h, OldLines(ops));
      SpliceSome(NewLines(h.body), NewLines(ops[k..]));
    }
  }

  /** The first step of grouping a script that begins inside a hunk. */
  lemma GroupOfRun(ops: seq<Op>, keep: seq<bool>, oldLine: nat, newLine: nat) returns (h: Hunk, hunks: seq<Hunk>)
    requires |ops| == |keep| && ops != [] && keep[0]
    ensures h == HunkAt(oldLine, newLine, ops[..RunLength(keep)]) && RunLength(keep) > 0
    ensures hunks == Group(ops[RunLength(keep)..], keep[RunLength(keep)..], oldLine + h.oldCount, newLine + h.newCount)
    ensures Group(ops, keep, oldLine, newLine) == [h] + hunks
    ensures OldLines(ops) == OldLines(h.body) + OldLines(ops[RunLength(keep)..])
    ensures NewLines(ops) == NewLines(h.body) + NewLines(ops[RunLength(keep)..])
  {
    var k := RunLength(keep);
    h := HunkAt(oldLine, newLine, ops[..k]);
    hunks := Group(ops[k..], keep[k..], oldLine + h.oldCount, newLine + h.newCount);
    LinesOfConcat(ops[..k], ops[k..]);
    assert ops == ops[..k] + ops[k..];
  }

  lemma FarLinesAreKept(ops: seq<Op>, context: nat)
    ensures forall i :: 0 <= i < |ops| && !KeepFlags(ops, context)[i] ==> ops[i].kind.Keep?
  {
    forall i | 0 <= i < |ops| && !ops[i].kind.Keep? ensures Near(ops, context, i) {}
  }

  /** Applying a diff to the old lines gives the new lines. */
  lemma DiffApplies(a: seq<string>, b: seq<string>, context: nat)
    ensures Patch(a, DiffHunks(a, b, context), 1, 1) == Some(b)
  {
    var ops := Script(a, b);
    ScriptIsFaithful(a, b);
    UnchangedIffEqual(a, b);
    if !Unchanged(ops) {
      FarLinesAreKept(ops, context);
      GroupPatches(ops, KeepFlags(ops, context), 1, 1);
    }
  }

  // ----- undoing a diff -----

  function FlipOp(op: Op): Op {
    Op(match op.kind case Keep => Keep case Delete => Add case Add => Delete, op.text)
  }

  function FlipOps(ops: seq<Op>): (r: seq<Op>)
    ensures |r| == |ops|
  {
    seq(|ops|, i requires 0 <= i < |ops| => FlipOp(ops[i]))
  }

  function Flip(h: Hunk): Hunk { Hunk(h.newStart, h.newCount, h.oldStart, h.oldCount, FlipOps(h.body)) }

  function FlipAll(hunks: seq<Hunk>): seq<Hunk> {
    if hunks == [] then [] else [Flip(hunks[0])] + FlipAll(hunks[1..])
  }

  lemma {:induction false} FlipSwapsSides(ops: seq<Op>)
    ensures OldLines(FlipOps(ops)) == NewLines(ops) && NewLines(FlipOps(ops)) == OldLines(ops)
  {
    if ops != [] {
      FlipSwapsSides(ops[1..]);
      assert FlipOps(ops)[1..] == FlipOps(ops[1..]);
    }
  }

  lemma FlipHunk(ops: seq<Op>, k: nat, oldLine: nat, newLine: nat)
    requires k <= |ops|
    ensures HunkAt(newLine, oldLine, FlipOps(ops)[..k]) == Flip(HunkAt(oldLine, newLine, ops[..k]))
    ensures FlipOps(ops)[k..] == FlipOps(ops[k..])
  {
    FlipSwapsSides(ops[..k]);
    assert FlipOps(ops)[..k] == FlipOps(ops[..k]);
  }

  lemma FlipAllCons(h: Hunk, hunks: seq<Hunk>)
    ensures FlipAll([h] + hunks) == [Flip(h)] + FlipAll(hunks)
  {
    assert ([h] + hunks)[1..] == hunks;
  }

  lemma GroupOfFlippedRun(ops: seq<Op>, keep: seq<bool>, oldLine: nat, newLine: nat, h: Hunk, hunks: seq<Hunk>)
    requires |ops| == |keep| && ops != [] && keep[0]
    requires h == HunkAt(oldLine, newLine, ops[..RunLength(keep)])
    requires Group(FlipOps(ops[RunLength(keep)..]), keep[RunLength(keep)..], newLine + h.newCount, oldLine + h.oldCount)
          == FlipAll(hunks)
    ensures Group(FlipOps(ops), keep, newLine, oldLine) == FlipAll([h] + hunks)
  {
    var g, flipped := GroupOfRun(FlipOps(ops), keep, newLine, oldLine);
    FlipHunk(ops, RunLength(keep), oldLine, newLine);
    FlipAllCons(h, hunks);
  }

  lemma GroupOfFlippedLine(ops: seq<Op>, keep: seq<bool>, oldLine: nat, newLine: nat)
    requires |ops| == |keep| && ops != [] && !keep[0]
    ensures Group(ops, keep, oldLine, newLine)
         == Group(ops[1..], keep[1..], oldLine + OldStep(ops[0]), newLine + NewStep(ops[0]))
    ensures Group(FlipOps(ops), keep, newLine, oldLine)
         == Group(FlipOps(ops[1..]), keep[1..], newLine + NewStep(ops[0]), oldLine + OldStep(ops[0]))
  {
    assert FlipOps(ops)[1..] == FlipOps(ops[1..]);
  }

  lemma {:induction false} GroupOfFlipped(ops: seq<Op>, keep: seq<bool>, oldLine: nat, newLine: nat)
    requires |ops| == |keep|
    ensures Group(FlipOps(ops), keep, newLine, oldLine) == FlipAll(Group(ops, keep, oldLine, newLine))
    decreases |ops|
  {
    if ops == [] {
    } else if !keep[0] {
      hide Group, FlipAll, FlipOps, OldStep, NewStep;
      GroupOfFlipped(ops[1..], keep[1..], oldLine + OldStep(ops[0]), newLine + NewStep(ops[0]));
      GroupOfFlippedLine(ops, keep, oldLine, newLine);
    } else {
      var k := RunLength(keep);
      hide Group, FlipAll, FlipOps;
      var h, hunks := GroupOfRun(ops, keep, oldLine, newLine);
      GroupOfFlipped(ops[k..], keep[k..], oldLine + h.oldCount, newLine + h.newCount);
      GroupOfFlippedRun(ops, keep, oldLine, newLine, h, hunks);
    }
  }

  /** The same hunks, read backwards, turn the new lines into the old ones. */
  lemma DiffReverts(a: seq<string>, b: seq<string>, context: nat)
    ensures Patch(b, FlipAll(DiffHunks(a, b, context)), 1, 1) == Some(a)
  {
    var ops := Script(a, b);
    ScriptIsFaithful(a, b);
    UnchangedIffEqual(a, b);
    if !Unchanged(ops) {
      var keep := KeepFlags(ops, context);
      FarLinesAreKept(ops, context);
      FlipSwapsSides(ops);
      GroupOfFlipped(ops, keep, 1, 1);
      GroupPatches(FlipOps(ops), keep, 1, 1);
    }
  }

  // ----- hunks stand apart and every one changes something -----

  ghost predicate Apart(hunks: seq<Hunk>, oldLine: nat, newLine: nat) {
    && (forall i :: 0 <= i < |hunks| ==> hunks[i].oldStart >= oldLine && hunks[i].newStart >= newLine)
    && (forall i, j :: 0 <= i < j < |hunks| ==>
          hunks[i].oldStart + hunks[i].oldCount < hunks[j].oldStart
          && hunks[i].newStart + hunks[i].newCount < hunks[j].newStart)
  }

  lemma {:induction false} HunksStandApart(ops: seq<Op>, keep: seq<bool>, oldLine: nat, newLine: nat)
    requires |ops| == |keep|
    requires forall i :: 0 <= i < |ops| && !keep[i] ==> ops[i].kind.Keep?
    ensures Apart(Group(ops, keep, oldLine, newLine), oldLine, newLine)
    ensures keep != [] && !keep[0] ==> Apart(Group(ops, keep, oldLine, newLine), oldLine + 1, newLine + 1)
    decreases |ops|
  {
    if ops == [] {
    } else if !keep[0] {
      hide *;
      StepOfKept(ops, keep);
      GroupOfFlippedLine(ops, keep, oldLine, newLine);
      HunksStandApart(ops[1..], keep[1..], oldLine + 1, newLine + 1);
      ApartEarlier(Group(ops, keep, oldLine, newLine), oldLine, newLine);
    } else {
      hide *;
      var k := RunLength(keep);
      var h, hunks := GroupOfRun(ops, keep, oldLine, newLine);
      HunksStandApart(ops[k..], keep[k..], oldLine + h.oldCount, newLine + h.newCount);
      if k == |ops| { GroupOfNothing(oldLine + h.oldCount, newLine + h.newCount); }
      ApartCons(h, hunks);
    }
  }

  lemma StepOfKept(ops: seq<Op>, keep: seq<bool>)
    requires |ops| == |keep| && ops != [] && !keep[0]
    requires forall i :: 0 <= i < |ops| && !keep[i] ==> ops[i].kind.Keep?
    ensures OldStep(ops[0]) == 1 && NewStep(ops[0]) == 1 && ops[0].kind.Keep?
  {
  }

  lemma ApartEarlier(hunks: seq<Hunk>, oldLine: nat, newLine: nat)
    requires Apart(hunks, oldLine + 1, newLine + 1)
    ensures Apart(hunks, oldLine, newLine)
  {
  }

  lemma GroupOfNothing(oldLine: nat, newLine: nat)
    ensures Group([], [], oldLine, newLine) == []
  {
  }

  lemma ApartCons(h: Hunk, hunks: seq<Hunk>)
    requires hunks == [] || Apart(hunks, h.oldStart + h.oldCount + 1, h.newStart + h.newCount + 1)
    ensures Apart([h] + hunks, h.oldStart, h.newStart)
  {
  }

  /** No two hunks of a diff overlap or touch, in the old text or in the new one, and equal sides give none. */
  lemma DiffHunksStandApart(a: seq<string>, b: seq<string>, context: nat)
    ensures Apart(DiffHunks(a, b, context), 1, 1)
    ensures DiffHunks(a, b, context) == [] <==> a == b
  {
    var ops := Script(a, b);
    UnchangedIffEqual(a, b);
    DiffApplies(a, b, context);
    if !Unchanged(ops) {
      FarLinesAreKept(ops, context);
      HunksStandApart(ops, KeepFlags(ops, context), 1, 1);
    }
  }

  // ----- headers by the POSIX convention -----

  /** Lines [i, j) are a longest run of kept lines. */
  predicate Run(keep: seq<bool>, i: nat, j: nat) {
    && i < j <= |keep| && (forall k :: i <= k < j ==> keep[k])
    && (i > 0 ==> !keep[i - 1]) && (j < |keep| ==> !keep[j])
  }

  predicate BothSides(ops: seq<Op>) { OldLines(ops) != [] && NewLines(ops) != [] }

  /** Every longest run of kept lines has a line of the old text and one of the new. */
  ghost predicate TwoSidedRuns(ops: seq<Op>, keep: seq<bool>)
    requires |ops| == |keep|
  {
    forall i: nat, j: nat :: Run(keep, i, j) ==> BothSides(ops[i..j])
  }

  ghost predicate FullRanges(hunks: seq<Hunk>) {
    forall i :: 0 <= i < |hunks| ==> hunks[i].oldCount > 0 && hunks[i].newCount > 0
  }

  lemma RunInSuffix(keep: seq<bool>, k: nat, i: nat, j: nat)
    requires k <= |keep| && (k > 0 ==> !keep[k - 1] || (k < |keep| ==> !keep[k]))
    ensures Run(keep[k..], i, j) <==> Run(keep, i + k, j + k)
  {
    var rest := keep[k..];
    if Run(keep, i + k, j + k) {
      forall l | i <= l < j ensures rest[l] { assert keep[l + k]; }
    }
    if Run(rest, i, j) {
      forall l | i + k <= l < j + k ensures keep[l] { assert rest[l - k]; }
      if i > 0 { assert !rest[i - 1]; }
    }
  }

  lemma RunsInSuffix(ops: seq<Op>, keep: seq<bool>, k: nat)
    requires k <= |ops| == |keep| && (k > 0 ==> !keep[k - 1] || (k < |keep| ==> !keep[k]))
    ensures TwoSidedRuns(ops[k..], keep[k..])
            <==> forall i: nat, j: nat :: i >= k && Run(keep, i, j) ==> BothSides(ops[i..j])
  {
    hide Run, BothSides;
    forall i: nat, j: nat | i < j <= |ops| - k
      ensures Run(keep[k..], i, j) <==> Run(keep, i + k, j + k)
      ensures ops[k..][i..j] == ops[i + k..j + k]
    {
      RunInSuffix(keep, k, i, j);
    }
    RunsAreIn(keep);
    RunsAreIn(keep[k..]);
    if TwoSidedRuns(ops[k..], keep[k..]) {
      forall i: nat, j: nat | i >= k && Run(keep, i, j) ensures BothSides(ops[i..j]) {
        assert Run(keep[k..], i - k, j - k);
      }
    }
  }

  lemma RunsAreIn(keep: seq<bool>)
    ensures forall i: nat, j: nat :: Run(keep, i, j) ==> i < j <= |keep|
  {
  }

  /** The first longest run, when the first line is kept: every other begins behind it. */
  lemma FirstRun(keep: seq<bool>)
    requires keep != [] && keep[0]
    ensures Run(keep, 0, RunLength(keep))
    ensures forall i: nat, j: nat :: Run(keep, i, j) ==> (i == 0 && j == RunLength(keep)) || i >= RunLength(keep)
  {
    var k := RunLength(keep);
    forall i: nat, j: nat | i < k && i < j <= |keep|
      ensures Run(keep, i, j) ==> i == 0 && j == k
    {
      assert i > 0 ==> keep[i - 1];
      assert j < k ==> keep[j];
      assert k < |keep| ==> !keep[k];
    }
  }

  lemma NoRunAtDropped(keep: seq<bool>)
    requires keep != [] && !keep[0]
    ensures forall i: nat, j: nat :: Run(keep, i, j) ==> i >= 1
  {
  }

  /** The hunks of a script have full ranges exactly when every longest run of kept lines is on both sides. */
  lemma {:induction false} FullIffTwoSided(ops: seq<Op>, keep: seq<bool>, oldLine: nat, newLine: nat)
    requires |ops| == |keep|
    ensures FullRanges(Group(ops, keep, oldLine, newLine)) <==> TwoSidedRuns(ops, keep)
    decreases |ops|
  {
    hide *;
    if ops == [] {
      NothingIsTwoSided(oldLine, newLine);
      assert keep == [];
    } else if !keep[0] {
      TwoSidedTail(ops, keep);
      GroupOfFlippedLine(ops, keep, oldLine, newLine);
      FullIffTwoSided(ops[1..], keep[1..], oldLine + OldStep(ops[0]), newLine + NewStep(ops[0]));
    } else {
      var k := RunLength(keep);
      TwoSidedCons(ops, keep);
      var h, hunks := GroupOfRun(ops, keep, oldLine, newLine);
      FullIffTwoSided(ops[k..], keep[k..], oldLine + h.oldCount, newLine + h.newCount);
      FullCons(h, hunks);
      CountsOfBothSides(oldLine, newLine, ops[..k]);
    }
  }

  lemma NothingIsTwoSided(oldLine: nat, newLine: nat)
    ensures FullRanges(Group([], [], oldLine, newLine)) && TwoSidedRuns([], [])
  {
  }

  lemma TwoSidedTail(ops: seq<Op>, keep: seq<bool>)
    requires |ops| == |keep| && ops != [] && !keep[0]
    ensures TwoSidedRuns(ops, keep) <==> TwoSidedRuns(ops[1..], keep[1..])
  {
    hide Run, BothSides;
    NoRunAtDropped(keep);
    RunsInSuffix(ops, keep, 1);
  }

  lemma TwoSidedCons(ops: seq<Op>, keep: seq<bool>)
    requires |ops| == |keep| && ops != [] && keep[0]
    ensures
      var k := RunLength(keep);
      TwoSidedRuns(ops, keep) <==> BothSides(ops[..k]) && TwoSidedRuns(ops[k..], keep[k..])
  {
    hide Run, BothSides;
    var k := RunLength(keep);
    FirstRun(keep);
    RunsInSuffix(ops, keep, k);
    assert ops[0..k] == ops[..k];
  }

  lemma CountsOfBothSides(oldLine: nat, newLine: nat, body: seq<Op>)
    ensures
      var h := HunkAt(oldLine, newLine, body);
      BothSides(body) <==> h.oldCount > 0 && h.newCount > 0
  {
    hide OldLines, NewLines;
  }

  lemma FullCons(h: Hunk, hunks: seq<Hunk>)
    ensures FullRanges([h] + hunks) <==> h.oldCount > 0 && h.newCount > 0 && FullRanges(hunks)
  {
    var all := [h] + hunks;
    assert all[0] == h && forall i :: 0 <= i < |hunks| ==> all[i + 1] == hunks[i];
  }

  function ChangeFlags(ops: seq<Op>): (flags: seq<bool>)
    ensures |flags| == |ops|
  {
    seq(|ops|, i requires 0 <= i < |ops| => !ops[i].kind.Keep?)
  }

  lemma {:induction false} KeptLineIsOnBothSides(ops: seq<Op>, k: nat)
    requires k < |ops| && ops[k].kind.Keep?
    ensures BothSides(ops)
  {
    if k > 0 { KeptLineIsOnBothSides(ops[1..], k - 1); }
  }

  /** With context every run that is not the whole script begins or ends with an unchanged line. */
  lemma ContextIsOnBothSides(ops: seq<Op>, context: nat)
    requires context >= 1 && BothSides(ops)
    ensures TwoSidedRuns(ops, KeepFlags(ops, context))
  {
    hide BothSides;
    var keep := KeepFlags(ops, context);
    forall i: nat, j: nat | Run(keep, i, j) ensures BothSides(ops[i..j]) {
      if i > 0 {
        assert !Near(ops, context, i - 1);
        assert ops[i].kind.Keep?;
        KeptLineIsOnBothSides(ops[i..j], 0);
      } else if j < |ops| {
        assert !Near(ops, context, j);
        assert ops[j - 1].kind.Keep?;
        KeptLineIsOnBothSides(ops[i..j], j - 1);
      } else {
        assert ops[i..j] == ops;
      }
    }
  }

  lemma WithoutContext(ops: seq<Op>)
    ensures KeepFlags(ops, 0) == ChangeFlags(ops)
  {
    forall k | 0 <= k < |ops| ensures Near(ops, 0, k) <==> !ops[k].kind.Keep? {}
  }

  /** A script with changes whose every block of changes is on both sides is itself on both sides. */
  lemma BlocksOnBothSides(ops: seq<Op>)
    requires ops != [] && TwoSidedRuns(ops, ChangeFlags(ops))
    ensures BothSides(ops)
  {
    if i :| 0 <= i < |ops| && ops[i].kind.Keep? {
      KeptLineIsOnBothSides(ops, i);
    } else {
      assert Run(ChangeFlags(ops), 0, |ops|);
      assert ops[0..|ops|] == ops;
    }
  }

  /**
   * What can be seen before a diff is made or read: context between two lists of lines that are not empty, or changes
   * on both sides only. The segments of a text are such a list even when the text is empty.
   */
  ghost predicate PosixSafe(a: seq<string>, b: seq<string>, context: nat) {
    (context >= 1 && a != [] && b != []) || TwoSidedRuns(Script(a, b), ChangeFlags(Script(a, b)))
  }

  lemma FullIffPosixSafe(a: seq<string>, b: seq<string>, context: nat)
    ensures FullRanges(DiffHunks(a, b, context)) <==> PosixSafe(a, b, context)
  {
    hide Run, Group, KeepFlags, ChangeFlags;
    var ops := Script(a, b);
    ScriptIsFaithful(a, b);
    if Unchanged(ops) {
      NoBlocks(ops);
    } else {
      FullIffTwoSided(ops, KeepFlags(ops, context), 1, 1);
      if context >= 1 {
        if BothSides(ops) {
          ContextIsOnBothSides(ops, context);
        } else {
          OneSidedScript(ops, context);
          if TwoSidedRuns(ops, ChangeFlags(ops)) { BlocksOnBothSides(ops); }
        }
      } else {
        WithoutContext(ops);
      }
    }
  }

  lemma NoBlocks(ops: seq<Op>)
    requires Unchanged(ops)
    ensures TwoSidedRuns(ops, ChangeFlags(ops))
  {
    forall i: nat, j: nat | i < j <= |ops| ensures !Run(ChangeFlags(ops), i, j) { assert !ChangeFlags(ops)[i]; }
  }

  /** A script on one side only is one run, and that run is on one side only. */
  lemma OneSidedScript(ops: seq<Op>, context: nat)
    requires ops != [] && !BothSides(ops)
    ensures !TwoSidedRuns(ops, KeepFlags(ops, context))
  {
    var keep := KeepFlags(ops, context);
    forall i | 0 <= i < |ops| ensures keep[i] {
      if ops[i].kind.Keep? { KeptLineIsOnBothSides(ops, i); }
      assert Near(ops, context, i);
    }
    assert Run(keep, 0, |ops|) && ops[0..|ops|] == ops;
  }

  /** POSIX `diff -u` names the line before an empty range, so a reader of that convention goes one line further. */
  function PosixStart(start: nat, count: nat): nat { if count == 0 then start + 1 else start }

  /** The hunk such a reader takes a header to mean. */
  function AsPosix(h: Hunk): Hunk {
    h.(oldStart := PosixStart(h.oldStart, h.oldCount), newStart := PosixStart(h.newStart, h.newCount))
  }

  function AllAsPosix(hunks: seq<Hunk>): (r: seq<Hunk>)
    ensures |r| == |hunks|
  {
    if hunks == [] then [] else [AsPosix(hunks[0])] + AllAsPosix(hunks[1..])
  }

  /** A header means the same under both conventions exactly when both of its ranges are full. */
  lemma MeansTheSameIff(h: Hunk)
    ensures AsPosix(h) == h <==> h.oldCount > 0 && h.newCount > 0
  {
  }

  lemma {:induction false} AllMeanTheSameIff(hunks: seq<Hunk>)
    ensures AllAsPosix(hunks) == hunks <==> FullRanges(hunks)
  {
    if hunks != [] {
      AllMeanTheSameIff(hunks[1..]);
      assert hunks == [hunks[0]] + hunks[1..];
      FullCons(hunks[0], hunks[1..]);
    }
  }

  ghost predicate NonEmpty(hunks: seq<Hunk>) {
    forall i :: 0 <= i < |hunks| ==> hunks[i].oldCount > 0 || hunks[i].newCount > 0
  }

  /** The patch tool under the other convention: it fails at the first header with an empty range. */
  lemma {:induction false} PosixPatchIff(lines: seq<string>, hunks: seq<Hunk>, oldLine: nat, newLine: nat)
    requires Patch(lines, hunks, oldLine, newLine).Some? && NonEmpty(hunks)
    ensures Patch(lines, AllAsPosix(hunks), oldLine, newLine)
         == if FullRanges(hunks) then Patch(lines, hunks, oldLine, newLine) else None
    decreases |hunks|
  {
    hide Patch, Fits, FullRanges, NonEmpty, OldLines, NewLines;
    if hunks == [] {
      NoHunks(lines, oldLine, newLine);
    } else {
      var h, rest := hunks[0], hunks[1..];
      assert hunks == [h] + rest;
      FullCons(h, rest);
      PatchCons(lines, h, rest, oldLine, newLine);
      PatchCons(lines, AsPosix(h), AllAsPosix(rest), oldLine, newLine);
      if h.oldCount > 0 && h.newCount > 0 {
        NonEmptyTail(hunks);
        EndFits(h, lines, oldLine, newLine);
        PosixPatchIff(lines[End(h, oldLine)..], rest, h.oldStart + h.oldCount, h.newStart + h.newCount);
      } else {
        NonEmptyTail(hunks);
        EmptyRangeNeverFits(h, lines, oldLine, newLine);
      }
    }
  }

  lemma NoHunks(lines: seq<string>, oldLine: nat, newLine: nat)
    ensures Patch(lines, AllAsPosix([]), oldLine, newLine) == Patch(lines, [], oldLine, newLine) && FullRanges([])
  {
  }

  lemma NonEmptyTail(hunks: seq<Hunk>)
    requires hunks != [] && NonEmpty(hunks)
    ensures NonEmpty(hunks[1..]) && (hunks[0].oldCount > 0 || hunks[0].newCount > 0)
  {
  }

  lemma EndFits(h: Hunk, lines: seq<string>, oldLine: nat, newLine: nat)
    requires Fits(h, lines, oldLine, newLine)
    ensures oldLine <= h.oldStart && End(h, oldLine) <= |lines|
  {
  }

  lemma EmptyRangeNeverFits(h: Hunk, lines: seq<string>, oldLine: nat, newLine: nat)
    requires Fits(h, lines, oldLine, newLine) && (h.oldCount == 0) != (h.newCount == 0)
    ensures !Fits(AsPosix(h), lines, oldLine, newLine)
  {
  }

  lemma {:induction false} GroupIsNonEmpty(ops: seq<Op>, keep: seq<bool>, oldLine: nat, newLine: nat)
    requires |ops| == |keep|
    ensures NonEmpty(Group(ops, keep, oldLine, newLine))
    decreases |ops|
  {
    if ops == [] {
    } else if !keep[0] {
      GroupIsNonEmpty(ops[1..], keep[1..], oldLine + OldStep(ops[0]), newLine + NewStep(ops[0]));
    } else {
      hide Group;
      var k := RunLength(keep);
      var h, hunks := GroupOfRun(ops, keep, oldLine, newLine);
      GroupIsNonEmpty(ops[k..], keep[k..], oldLine + h.oldCount, newLine + h.newCount);
      assert ([h] + hunks)[0] == h && h.body[0] == ops[0];
      forall i | 0 < i <= |hunks| ensures ([h] + hunks)[i] == hunks[i - 1] {}
    }
  }

  /**
   * A strict patch tool that reads empty ranges by the POSIX convention, but lines as the diff does, as the segments
   * between newlines, gets the new ones exactly when the diff is safe for it, and otherwise refuses the diff.
   */
  lemma PosixReaderIff(a: seq<string>, b: seq<string>, context: nat)
    ensures Patch(a, AllAsPosix(DiffHunks(a, b, context)), 1, 1) == if PosixSafe(a, b, context) then Some(b) else None
    ensures AllAsPosix(DiffHunks(a, b, context)) == DiffHunks(a, b, context) <==> PosixSafe(a, b, context)
  {
    hide Group, PosixSafe, Patch, FullRanges;
    var hunks := DiffHunks(a, b, context);
    DiffApplies(a, b, context);
    FullIffPosixSafe(a, b, context);
    AllMeanTheSameIff(hunks);
    GroupIsNonEmpty(Script(a, b), KeepFlags(Script(a, b), context), 1, 1);
    PosixPatchIff(a, hunks, 1, 1);
  }

  // ----- a reader that does not count what stands behind a final newline -----

  /** A change lies within `context` lines of the end of the script, so that the last hunk takes in its last line. */
  ghost predicate ReachesEnd(a: seq<string>, b: seq<string>, context: nat) {
    Script(a, b) != [] && Near(Script(a, b), context, |Script(a, b)| - 1)
  }

  lemma RunLengthWithoutLast(keep: seq<bool>, m: nat)
    requires m < |keep| && !keep[m]
    ensures RunLength(keep) <= m && RunLength(keep[..m]) == RunLength(keep)
  {
    RunLengthIs(keep[..m], RunLength(keep));
  }

  lemma {:induction false} RunLengthIs(keep: seq<bool>, k: nat)
    requires k <= |keep| && (forall i :: 0 <= i < k ==> keep[i]) && (k < |keep| ==> !keep[k])
    ensures RunLength(keep) == k
  {
    if k > 0 { RunLengthIs(keep[1..], k - 1); }
  }

  /** A last line outside every hunk might as well not be there. */
  lemma {:induction false} GroupWithoutLast(ops: seq<Op>, keep: seq<bool>, m: nat, oldLine: nat, newLine: nat)
    requires |ops| == |keep| == m + 1 && !keep[m]
    ensures Group(ops, keep, oldLine, newLine) == Group(ops[..m], keep[..m], oldLine, newLine)
    decreases m
  {
    hide *;
    if m == 0 {
      OnlyDropped(ops, keep, oldLine, newLine);
      GroupOfNothing(oldLine, newLine);
      assert ops[..m] == [] && keep[..m] == [];
    } else if !keep[0] {
      GroupOfFlippedLine(ops, keep, oldLine, newLine);
      GroupOfFlippedLine(ops[..m], keep[..m], oldLine, newLine);
      GroupWithoutLast(ops[1..], keep[1..], m - 1, oldLine + OldStep(ops[0]), newLine + NewStep(ops[0]));
      assert ops[1..][..m - 1] == ops[..m][1..] && keep[1..][..m - 1] == keep[..m][1..];
    } else {
      RunLengthWithoutLast(keep, m);
      var k := RunLength(keep);
      var h, hunks := GroupOfRun(ops, keep, oldLine, newLine);
      var g, gunks := GroupOfRun(ops[..m], keep[..m], oldLine, newLine);
      assert ops[..m][..k] == ops[..k];
      GroupWithoutLast(ops[k..], keep[k..], m - k, oldLine + h.oldCount, newLine + h.newCount);
      assert ops[k..][..m - k] == ops[..m][k..] && keep[k..][..m - k] == keep[..m][k..];
    }
  }

  lemma OnlyDropped(ops: seq<Op>, keep: seq<bool>, oldLine: nat, newLine: nat)
    requires |ops| == |keep| == 1 && !keep[0]
    ensures Group(ops, keep, oldLine, newLine) == []
  {
  }

  /** A last line inside a hunk: the last hunk ends where the old text ends. */
  lemma {:induction false} GroupEnds(ops: seq<Op>, keep: seq<bool>, oldLine: nat, newLine: nat)
    requires |ops| == |keep| && keep != [] && keep[|keep| - 1]
    ensures
      var hunks := Group(ops, keep, oldLine, newLine);
      hunks != [] && hunks[|hunks| - 1].oldStart + hunks[|hunks| - 1].oldCount == oldLine + |OldLines(ops)|
    decreases |ops|
  {
    hide *;
    if !keep[0] {
      GroupOfFlippedLine(ops, keep, oldLine, newLine);
      OldLinesCons(ops);
      GroupEnds(ops[1..], keep[1..], oldLine + OldStep(ops[0]), newLine + NewStep(ops[0]));
    } else {
      var k := RunLength(keep);
      var h, hunks := GroupOfRun(ops, keep, oldLine, newLine);
      CountsOf(oldLine, newLine, ops[..k]);
      if k == |ops| {
        GroupOfNothing(oldLine + h.oldCount, newLine + h.newCount);
        assert ops[..k] == ops && ops[k..] == [] && keep[k..] == [];
      } else {
        GroupEnds(ops[k..], keep[k..], oldLine + h.oldCount, newLine + h.newCount);
      }
    }
  }

  lemma OldLinesCons(ops: seq<Op>)
    requires ops != []
    ensures |OldLines(ops)| == OldStep(ops[0]) + |OldLines(ops[1..])|
  {
  }

  lemma CountsOf(oldLine: nat, newLine: nat, body: seq<Op>)
    ensures HunkAt(oldLine, newLine, body).oldStart == oldLine && HunkAt(oldLine, newLine, body).newStart == newLine
    ensures HunkAt(oldLine, newLine, body).oldCount == |OldLines(body)|
    ensures HunkAt(oldLine, newLine, body).body == body
  {
  }

  /** Hunks that apply end within the lines they apply to. */
  lemma {:induction false} PatchWithin(lines: seq<string>, hunks: seq<Hunk>, oldLine: nat, newLine: nat)
    requires hunks != [] && Patch(lines, hunks, oldLine, newLine).Some?
    ensures hunks[|hunks| - 1].oldStart + hunks[|hunks| - 1].oldCount <= oldLine + |lines|
    decreases |hunks|
  {
    hide Patch, Fits, OldLines, NewLines;
    var h, rest := hunks[0], hunks[1..];
    assert hunks == [h] + rest;
    PatchCons(lines, h, rest, oldLine, newLine);
    if rest != [] {
      PatchWithin(lines[End(h, oldLine)..], rest, h.oldStart + h.oldCount, h.newStart + h.newCount);
    }
  }

  lemma {:induction false} LastAsPosix(hunks: seq<Hunk>)
    requires hunks != []
    ensures AllAsPosix(hunks)[|hunks| - 1] == AsPosix(hunks[|hunks| - 1])
  {
    if |hunks| > 1 { LastAsPosix(hunks[1..]); }
  }

  lemma EndIsRefused(lines: seq<string>, hunks: seq<Hunk>)
    requires hunks != [] && hunks[|hunks| - 1].oldStart + hunks[|hunks| - 1].oldCount > |lines| + 1
    ensures Patch(lines, AllAsPosix(hunks), 1, 1) == None
  {
    hide Patch, Fits;
    LastAsPosix(hunks);
    if Patch(lines, AllAsPosix(hunks), 1, 1).Some? { PatchWithin(lines, AllAsPosix(hunks), 1, 1); }
  }

  lemma OldLinesSnoc(ops: seq<Op>)
    requires ops != [] && ops[|ops| - 1].kind.Keep?
    ensures
      var init, text := ops[..|ops| - 1], ops[|ops| - 1].text;
      OldLines(ops) == OldLines(init) + [text] && NewLines(ops) == NewLines(init) + [text]
  {
    var init, last := ops[..|ops| - 1], ops[|ops| - 1];
    assert ops == init + [last] && [last][1..] == [];
    LinesOfConcat(init, [last]);
  }

  /** Short of the end a diff of the longer lists is one of the shorter lists. */
  lemma PatchesWithoutEnd(a: seq<string>, b: seq<string>, context: nat)
    requires !ReachesEnd(a + [""], b + [""], context)
    ensures Patch(a, DiffHunks(a + [""], b + [""], context), 1, 1) == Some(b)
  {
    hide Group, Patch, OldLines, NewLines, KeepFlags;
    var x, y := a + [""], b + [""];
    var ops := Script(x, y);
    ScriptIsFaithful(x, y);
    UnchangedIffEqual(x, y);
    if Unchanged(ops) {
      assert x[..|a|] == a && y[..|b|] == b;
      NoHunksPatch(a);
    } else {
      var m, keep := |ops| - 1, KeepFlags(ops, context);
      FarLinesAreKept(ops, context);
      LastFlag(ops, context);
      GroupWithoutLast(ops, keep, m, 1, 1);
      OldLinesSnoc(ops);
      SameFronts(a, b, ops);
      GroupPatches(ops[..m], keep[..m], 1, 1);
    }
  }

  lemma NoHunksPatch(lines: seq<string>)
    ensures Patch(lines, [], 1, 1) == Some(lines)
  {
  }

  lemma LastFlag(ops: seq<Op>, context: nat)
    requires ops != []
    ensures KeepFlags(ops, context)[|ops| - 1] == Near(ops, context, |ops| - 1)
  {
  }

  lemma SameFronts(a: seq<string>, b: seq<string>, ops: seq<Op>)
    requires ops != [] && OldLines(ops) == a + [""] && NewLines(ops) == b + [""]
    requires OldLines(ops) == OldLines(ops[..|ops| - 1]) + [ops[|ops| - 1].text]
    requires NewLines(ops) == NewLines(ops[..|ops| - 1]) + [ops[|ops| - 1].text]
    ensures OldLines(ops[..|ops| - 1]) == a && NewLines(ops[..|ops| - 1]) == b
  {
    hide OldLines, NewLines;
    var x, y := OldLines(ops[..|ops| - 1]), NewLines(ops[..|ops| - 1]);
    assert (a + [""])[..|a|] == a && (x + [ops[|ops| - 1].text])[..|x|] == x;
    assert (b + [""])[..|b|] == b && (y + [ops[|ops| - 1].text])[..|y|] == y;
  }

  /**
   * The lists a and b are the lines of two files that end in a newline; the diff is made of one empty segment more.
   * A strict POSIX reader gets the lines of the new file exactly when the diff is safe for it and no hunk reaches the
   * end, and otherwise refuses the diff.
   */
  lemma PosixLinesIff(a: seq<string>, b: seq<string>, context: nat)
    ensures Patch(a, AllAsPosix(DiffHunks(a + [""], b + [""], context)), 1, 1)
         == if PosixSafe(a + [""], b + [""], context) && !ReachesEnd(a + [""], b + [""], context) then Some(b) else None
  {
    hide Group, PosixSafe, Patch, FullRanges, KeepFlags, OldLines, NewLines, ReachesEnd, Near;
    var x, y := a + [""], b + [""];
    var ops, hunks := Script(x, y), DiffHunks(x, y, context);
    FullIffPosixSafe(x, y, context);
    GroupIsNonEmpty(ops, KeepFlags(ops, context), 1, 1);
    if ReachesEnd(x, y, context) {
      EndIsReached(x, y, context);
      EndIsRefused(a, hunks);
    } else {
      PatchesWithoutEnd(a, b, context);
      PosixPatchIff(a, hunks, 1, 1);
    }
  }

  lemma EndIsReached(a: seq<string>, b: seq<string>, context: nat)
    requires ReachesEnd(a, b, context)
    ensures
      var hunks := DiffHunks(a, b, context);
      hunks != [] && hunks[|hunks| - 1].oldStart + hunks[|hunks| - 1].oldCount == 1 + |a|
  {
    hide Group, OldLines, NewLines;
    var ops := Script(a, b);
    ScriptIsFaithful(a, b);
    var i :| 0 <= i < |ops| && !ops[i].kind.Keep?;
    assert !Unchanged(ops);
    GroupEnds(ops, KeepFlags(ops, context), 1, 1);
  }

  /** Without context an insertion has an empty old range, whose start is the line after it. */
  lemma InsertionWithoutContext(x: string, y: string)
    requires x != y
    ensures DiffHunks([x], [x, y], 0) == [Hunk(2, 0, 2, 1, [Op(Add, y)])]
  {
    var ops := [Op(Keep, x), Op(Add, y)];
    assert [x][1..] == [] && [x, y][1..] == [y] && [y][1..] == [];
    assert Script([], []) == [];
    assert Script([], [y]) == [Op(Add, y)] + Script([], [y][1..]);
    assert Script([x], [x, y]) == [Op(Keep, x)] + Script([x][1..], [x, y][1..]);
    assert Script([x], [x, y]) == ops;
    assert !ops[1].kind.Keep?;
    assert Near(ops, 0, 1) && !Near(ops, 0, 0);
    assert KeepFlags(ops, 0) == [false, true];
    var rest := [Op(Add, y)];
    assert ops[1..] == rest && [false, true][1..] == [true];
    assert [true][1..] == [] && RunLength([true]) == 1;
    assert rest[..1] == rest && rest[1..] == [];
    assert OldLines([]) == [] && NewLines([]) == [];
    assert OldLines(rest) == OldLines(rest[1..]) && NewLines(rest) == [y] + NewLines(rest[1..]);
    assert HunkAt(2, 2, rest) == Hunk(2, 0, 2, 1, rest);
    assert Group(rest, [true], 2, 2) == [HunkAt(2, 2, rest)] + Group([], [], 2, 3);
    assert Group(ops, [false, true], 1, 1) == Group(rest, [true], 2, 2);
  }
}
