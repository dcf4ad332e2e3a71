/** Which lines a diff shows: where its hunks stand in the edit script, and how far they reach around a change. */
module HunkContext {
  import opened LineDiff
  import opened Hunks

  /** A hunk shows the lines of the script from place p on, and its header says where they stand in both texts. */
  ghost predicate StandsAt(h: Hunk, ops: seq<Op>, p: nat, oldLine: nat, newLine: nat) {
    && h.body != [] && p + |h.body| <= |ops| && h.body == ops[p..p + |h.body|]
    && h.oldStart == oldLine + |OldLines(ops[..p])| && h.newStart == newLine + |NewLines(ops[..p])|
    && h.oldCount == |OldLines(h.body)| && h.newCount == |NewLines(h.body)|
  }

  /** The hunks stand at these places, in order, with a line between any two. */
  ghost predicate Placed(hunks: seq<Hunk>, ops: seq<Op>, places: seq<nat>, oldLine: nat, newLine: nat) {
    && |places| == |hunks|
    && (forall i :: 0 <= i < |hunks| ==> StandsAt(hunks[i], ops, places[i], oldLine, newLine))
    && (forall i, j :: 0 <= i < j < |hunks| ==> places[i] + |hunks[i].body| < places[j])
  }

  /** Line k of the script is in the body of a hunk. */
  ghost predicate Shown(hunks: seq<Hunk>, places: seq<nat>, k: nat) {
    exists i :: 0 <= i < |hunks| && i < |places| && places[i] <= k < places[i] + |hunks[i].body|
  }

  /** Some line added or deleted stands at most `context` places from line k. */
  ghost predicate ChangeWithin(ops: seq<Op>, k: nat, context: nat) {
    exists i :: 0 <= i < |ops| && (ops[i].kind.Add? || ops[i].kind.Delete?) && k <= i + context && i <= k + context
  }

  function Shifted(places: seq<nat>, skip: nat): (r: seq<nat>)
    ensures |r| == |places|
  {
    seq(|places|, i requires 0 <= i < |places| => places[i] + skip)
  }

  /** Hunks of the rest of a script, seen from the whole. */
  lemma StandsFurther(h: Hunk, ops: seq<Op>, skip: nat, p: nat, oldLine: nat, newLine: nat)
    requires skip <= |ops|
    requires StandsAt(h, ops[skip..], p, oldLine + |OldLines(ops[..skip])|, newLine + |NewLines(ops[..skip])|)
    ensures StandsAt(h, ops, p + skip, oldLine, newLine)
  {
    hide OldLines, NewLines;
    assert ops[skip..][p..p + |h.body|] == ops[p + skip..p + skip + |h.body|];
    assert ops[..p + skip] == ops[..skip] + ops[skip..][..p];
    LinesOfConcat(ops[..skip], ops[skip..][..p]);
  }

  lemma PlacedFurther(hunks: seq<Hunk>, ops: seq<Op>, skip: nat, places: seq<nat>, oldLine: nat, newLine: nat)
    requires skip <= |ops|
    requires Placed(hunks, ops[skip..], places, oldLine + |OldLines(ops[..skip])|, newLine + |NewLines(ops[..skip])|)
    ensures Placed(hunks, ops, Shifted(places, skip), oldLine, newLine)
    ensures forall k: nat :: Shown(hunks, Shifted(places, skip), k) <==> k >= skip && Shown(hunks, places, k - skip)
  {
    hide StandsAt;
    var moved := Shifted(places, skip);
    forall i | 0 <= i < |hunks| ensures StandsAt(hunks[i], ops, moved[i], oldLine, newLine) {
      StandsFurther(hunks[i], ops, skip, places[i], oldLine, newLine);
    }
    forall k: nat ensures Shown(hunks, moved, k) <==> k >= skip && Shown(hunks, places, k - skip) {
      if Shown(hunks, moved, k) {
        var i :| 0 <= i < |hunks| && moved[i] <= k < moved[i] + |hunks[i].body|;
        assert places[i] <= k - skip < places[i] + |hunks[i].body|;
      }
      if k >= skip && Shown(hunks, places, k - skip) {
        var i :| 0 <= i < |hunks| && places[i] <= k - skip < places[i] + |hunks[i].body|;
        assert moved[i] <= k < moved[i] + |hunks[i].body|;
      }
    }
  }

  /** One more hunk in front, at the very beginning, with a line between it and the next. */
  lemma PlacedCons(h: Hunk, hunks: seq<Hunk>, ops: seq<Op>, places: seq<nat>, oldLine: nat, newLine: nat)
    requires StandsAt(h, ops, 0, oldLine, newLine) && Placed(hunks, ops, places, oldLine, newLine)
    requires forall i :: 0 <= i < |places| ==> |h.body| < places[i]
    ensures Placed([h] + hunks, ops, [0] + places, oldLine, newLine)
  {
    hide StandsAt;
    var all, at := [h] + hunks, [0] + places;
    forall i | 0 <= i < |all| ensures StandsAt(all[i], ops, at[i], oldLine, newLine) {
      if i > 0 { assert all[i] == hunks[i - 1] && at[i] == places[i - 1]; }
    }
    forall i, j | 0 <= i < j < |all| ensures at[i] + |all[i].body| < at[j] {
      assert at[j] == places[j - 1];
      if i > 0 { assert all[i] == hunks[i - 1] && at[i] == places[i - 1]; }
    }
  }

  lemma ShownCons(h: Hunk, hunks: seq<Hunk>, places: seq<nat>, k: nat)
    requires |places| == |hunks|
    ensures Shown([h] + hunks, [0] + places, k) <==> k < |h.body| || Shown(hunks, places, k)
  {
    var all, at := [h] + hunks, [0] + places;
    if Shown(all, at, k) {
      var i :| 0 <= i < |all| && at[i] <= k < at[i] + |all[i].body|;
      if i > 0 { assert all[i] == hunks[i - 1] && at[i] == places[i - 1]; }
    }
    if k < |h.body| { assert all[0] == h && at[0] <= k < at[0] + |all[0].body|; }
    if Shown(hunks, places, k) {
      var i :| 0 <= i < |hunks| && places[i] <= k < places[i] + |hunks[i].body|;
      assert all[i + 1] == hunks[i] && at[i + 1] <= k < at[i + 1] + |all[i + 1].body|;
    }
  }

  lemma FirstStandsAtZero(ops: seq<Op>, k: nat, oldLine: nat, newLine: nat)
    requires 0 < k <= |ops|
    ensures StandsAt(HunkAt(oldLine, newLine, ops[..k]), ops, 0, oldLine, newLine)
    ensures |HunkAt(oldLine, newLine, ops[..k]).body| == k
  {
    assert ops[0..k] == ops[..k] && ops[..0] == [];
    assert OldLines([]) == [] && NewLines([]) == [];
  }

  lemma NothingBefore(ops: seq<Op>, oldLine: nat, newLine: nat)
    requires ops != []
    ensures |OldLines(ops[..1])| == OldStep(ops[0]) && |NewLines(ops[..1])| == NewStep(ops[0])
  {
    assert ops[..1][1..] == [];
  }

  lemma NothingShown(oldLine: nat, newLine: nat)
    ensures Placed(Group([], [], oldLine, newLine), [], [], oldLine, newLine)
  {
  }

  lemma CountsOfRun(oldLine: nat, newLine: nat, body: seq<Op>)
    ensures HunkAt(oldLine, newLine, body).oldCount == |OldLines(body)|
    ensures HunkAt(oldLine, newLine, body).newCount == |NewLines(body)|
  {
  }

  /** Grouping shows exactly the lines that are marked. */
  lemma {:induction false} GroupShowsMarked(ops: seq<Op>, keep: seq<bool>, oldLine: nat, newLine: nat)
    returns (places: seq<nat>)
    requires |ops| == |keep|
    ensures Placed(Group(ops, keep, oldLine, newLine), ops, places, oldLine, newLine)
    ensures forall k: nat :: Shown(Group(ops, keep, oldLine, newLine), places, k) <==> k < |keep| && keep[k]
    decreases |ops|
  {
    hide *;
    if ops == [] {
      places := [];
      assert keep == [];
      NothingShown(oldLine, newLine);
      PlacedMeans([], [], oldLine, newLine);
    } else if !keep[0] {
      var rest := GroupShowsMarked(ops[1..], keep[1..], oldLine + OldStep(ops[0]), newLine + NewStep(ops[0]));
      GroupOfFlippedLine(ops, keep, oldLine, newLine);
      NothingBefore(ops, oldLine, newLine);
      PlacedFurther(Group(ops, keep, oldLine, newLine), ops, 1, rest, oldLine, newLine);
      places := Shifted(rest, 1);
    } else {
      var n := RunLength(keep);
      var h, hunks := GroupOfRun(ops, keep, oldLine, newLine);
      CountsOfRun(oldLine, newLine, ops[..n]);
      var rest := GroupShowsMarked(ops[n..], keep[n..], oldLine + h.oldCount, newLine + h.newCount);
      PlacedFurther(hunks, ops, n, rest, oldLine, newLine);
      FirstStandsAtZero(ops, n, oldLine, newLine);
      BehindTheRun(hunks, ops, Shifted(rest, n), oldLine, newLine, n);
      PlacedCons(h, hunks, ops, Shifted(rest, n), oldLine, newLine);
      AsMany(hunks, ops, Shifted(rest, n), oldLine, newLine);
      forall k: nat { ShownCons(h, hunks, Shifted(rest, n), k); }
      places := [0] + Shifted(rest, n);
    }
  }

  lemma AsMany(hunks: seq<Hunk>, ops: seq<Op>, places: seq<nat>, oldLine: nat, newLine: nat)
    requires Placed(hunks, ops, places, oldLine, newLine)
    ensures |places| == |hunks|
  {
  }

  lemma PlacedMeans(ops: seq<Op>, keep: seq<bool>, oldLine: nat, newLine: nat)
    requires ops == [] && keep == []
    ensures forall k: nat :: !Shown(Group(ops, keep, oldLine, newLine), [], k)
  {
  }

  /** Line n is not shown, so no hunk behind it begins there. */
  lemma BehindTheRun(hunks: seq<Hunk>, ops: seq<Op>, places: seq<nat>, oldLine: nat, newLine: nat, n: nat)
    requires Placed(hunks, ops, places, oldLine, newLine) && forall k: nat :: k <= n ==> !Shown(hunks, places, k)
    ensures forall i :: 0 <= i < |places| ==> n < places[i]
  {
    forall i | 0 <= i < |places| ensures n < places[i] {
      assert StandsAt(hunks[i], ops, places[i], oldLine, newLine);
      assert places[i] <= places[i] < places[i] + |hunks[i].body|;
      assert Shown(hunks, places, places[i]);
    }
  }

  /**
   * The hunks of a diff are parts of its script, in order and apart, that show a line if and only if some added or
   * deleted line stands at most `context` places from it.
   */
  lemma HunksShowContext(a: seq<string>, b: seq<string>, context: nat) returns (places: seq<nat>)
    ensures Placed(DiffHunks(a, b, context), Script(a, b), places, 1, 1)
    ensures forall k: nat :: k < |Script(a, b)| ==>
              (Shown(DiffHunks(a, b, context), places, k) <==> ChangeWithin(Script(a, b), k, context))
  {
    hide Group, RunLength;
    var ops := Script(a, b);
    if Unchanged(ops) {
      places := [];
    } else {
      places := GroupShowsMarked(ops, KeepFlags(ops, context), 1, 1);
      forall k: nat | k < |ops| ensures KeepFlags(ops, context)[k] <==> ChangeWithin(ops, k, context) {
        if i :| 0 <= i < |ops| && !ops[i].kind.Keep? && i - context <= k <= i + context {
          assert ops[i].kind.Add? || ops[i].kind.Delete?;
        }
        if i :| 0 <= i < |ops| && (ops[i].kind.Add? || ops[i].kind.Delete?) && k <= i + context && i <= k + context {
          assert !ops[i].kind.Keep?;
        }
      }
    }
  }
}
