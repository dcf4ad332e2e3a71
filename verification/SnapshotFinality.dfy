/** What a caller may conclude from an answer: which conflicts are final, and where failures come from. */
module SnapshotFinality {
  import opened Text
  import opened SnapshotProtocol

  /** One undisturbed call more. */
  lemma OneCall(actions: seq<Action>, input: CommitInput) returns (next: seq<Action>)
    requires CallerAt(Run(actions), 0).Idle?
    ensures actions <= next && Undisturbed(Run(actions), Run(next), 0, input)
  {
    hide Undisturbed, Step;
    var call := [Begin(0, input), Head(0), DeliverAndReply(|Run(actions).sent|, 0)];
    UndisturbedCommit(actions, 0, input);
    HistoryOnlyGrows(INITIAL, actions, call);
    next := actions + call;
  }

  /** Calls of other turns bring the blob to any later version. */
  lemma AdvanceTo(actions: seq<Action>, target: nat) returns (next: seq<Action>)
    requires CallerAt(Run(actions), 0).Idle? && Run(actions).blob.Stored? && Run(actions).blob.version <= target
    ensures actions <= next && CallerAt(Run(next), 0).Idle?
    ensures Run(next).blob.Stored? && Run(next).blob.version == target
    ensures Run(actions).blob.version == target ==> next == actions
    decreases target - Run(actions).blob.version
  {
    hide Step, RunFrom;
    if Run(actions).blob.version == target {
      next := actions;
    } else {
      var more := OneCall(actions, CommitInput(Run(actions).blob.version, "other", "h"));
      next := AdvanceTo(more, target);
    }
  }

  /** Whoever is told this conflict for this turn: no write of the turn has landed or will ever land. */
  ghost predicate AlwaysFinal(input: CommitInput, found: nat) {
    forall actions, later, i: nat ::
      ReturnsConflict(actions, i, input, found) ==> !TurnLanded(input, Run(actions + later).history)
  }

  ghost predicate ReturnsConflict(actions: seq<Action>, i: nat, input: CommitInput, found: nat) {
    && i < |Run(actions).returned| && Run(actions).returned[i].input == input
    && Run(actions).returned[i].outcome.Conflicted? && Run(actions).returned[i].outcome.found == found
  }

  /** A conflict below the base: others catch up with the base, and the turn lands after all. */
  lemma LandsAfterConflict(input: CommitInput, found: nat) returns (actions: seq<Action>, later: seq<Action>, i: nat)
    requires 1 <= found < input.baseVersion
    ensures ReturnsConflict(actions, i, input, found) && TurnLanded(input, Run(actions + later).history)
  {
    hide Step, RunFrom, Landed;
    NothingRunYet();
    var first := OneCall([], CommitInput(found - 1, "other", "h"));
    i := |Run(first).returned|;
    actions := OneCall(first, input);
    var caughtUp := AdvanceTo(actions, input.baseVersion);
    var all := OneCall(caughtUp, input);
    later := all[|actions|..];
    assert actions + later == all;
    var last := |Run(all).returned| - 1;
    SuccessIsDurable(all, [], last);
    assert all + [] == all;
    assert Landed(input, Run(all).returned[last].outcome.contentHash, Run(all).history);
  }

  lemma NothingRunYet()
    ensures Run([]) == INITIAL && CallerAt(Run([]), 0).Idle? && Run([]).blob.Absent? && Run([]).returned == []
  {
  }

  /** A conflict above the turn's own version, or on it without a key: the turn landed before. */
  lemma LandedBeforeConflict(input: CommitInput, found: nat) returns (actions: seq<Action>, i: nat)
    requires found >= input.baseVersion + 1 && (found == input.baseVersion + 1 ==> input.turnKey == "")
    ensures ReturnsConflict(actions, i, input, found) && TurnLanded(input, Run(actions).history)
  {
    hide Step, RunFrom, Landed;
    NothingRunYet();
    var first := OneCall([], input);
    assert Run(first).returned == [Return(input, Committed(input.baseVersion + 1, input.contentHash, false))];
    var overtaken := AdvanceTo(first, found);
    i := |Run(overtaken).returned|;
    actions := OneCall(overtaken, input);
    assert first + actions[|first|..] == actions;
    SuccessIsDurable(first, actions[|first|..], 0);
    assert Landed(input, input.contentHash, Run(actions).history);
  }

  /**
   * Which returned conflicts rule a turn out for good: those that name base + 1 to a turn with a key. Versions 0 and
   * base are never named; under any other the turn may have landed before or may land later.
   */
  lemma ConflictIsFinalIff(input: CommitInput, found: nat)
    ensures AlwaysFinal(input, found) <==>
              found == 0 || found == input.baseVersion || (found == input.baseVersion + 1 && input.turnKey != "")
  {
    hide Step, RunFrom, Landed, WasFound;
    if found == 0 || found == input.baseVersion || (found == input.baseVersion + 1 && input.turnKey != "") {
      forall actions, later, i: nat | ReturnsConflict(actions, i, input, found)
        ensures !TurnLanded(input, Run(actions + later).history)
      {
        ConflictsAreForeign(actions, i);
        FoundIsPositive(actions, found, Run(actions).returned[i].outcome.foundKey);
        ConflictAboveBaseIsFinal(actions, later, i);
      }
    } else if found < input.baseVersion {
      var actions, later, i := LandsAfterConflict(input, found);
      assert ReturnsConflict(actions, i, input, found);
    } else {
      var actions, i := LandedBeforeConflict(input, found);
      assert actions + [] == actions;
      assert ReturnsConflict(actions, i, input, found) && TurnLanded(input, Run(actions + []).history);
    }
  }

  lemma FoundIsPositive(actions: seq<Action>, found: nat, key: Option<string>)
    requires WasFound(found, key, Run(actions).history)
    ensures found >= 1
  {
    RunKeeps(INITIAL, actions);
  }

  // ----- where failures come from, and that no call is lost -----

  /** The store call breaks down: the HEAD throws, or the reply to the PUT never comes. */
  predicate Breakdown(a: Action) { a.HeadFails? || a.GiveUp? }

  /** How often a call breaks down in a run. */
  function Breakdowns(s: State, actions: seq<Action>): nat
    decreases |actions|
  {
    if actions == [] then 0
    else if !Enabled(s, actions[0]) then Breakdowns(s, actions[1..])
    else (if Breakdown(actions[0]) then 1 else 0) + Breakdowns(Step(s, actions[0]), actions[1..])
  }

  function Failures(returned: seq<Return>): nat {
    if returned == [] then 0
    else Failures(returned[..|returned| - 1]) + if returned[|returned| - 1].outcome.Failed? then 1 else 0
  }

  function Begun(s: State, actions: seq<Action>): nat
    decreases |actions|
  {
    if actions == [] then 0
    else if !Enabled(s, actions[0]) then Begun(s, actions[1..])
    else (if actions[0].Begin? then 1 else 0) + Begun(Step(s, actions[0]), actions[1..])
  }

  /** The callers that wait for an answer. */
  function Busy(s: State): set<nat> { set c | c in s.callers && !s.callers[c].Idle? }

  lemma FailuresSnoc(returned: seq<Return>, last: Return)
    ensures Failures(returned + [last]) == Failures(returned) + if last.outcome.Failed? then 1 else 0
  {
    assert (returned + [last])[..|returned|] == returned;
  }

  lemma OneStepFails(s: State, a: Action)
    requires Enabled(s, a)
    ensures Failures(Step(s, a).returned) == Failures(s.returned) + if Breakdown(a) then 1 else 0
  {
    hide Failures, ProbeOf, Holds;
    if Step(s, a).returned != s.returned {
      var last := Step(s, a).returned[|s.returned|];
      assert Step(s, a).returned == s.returned + [last];
      FailuresSnoc(s.returned, last);
    }
  }

  lemma AnswerFreesCaller(s: State, c: nat, input: CommitInput, outcome: Outcome)
    requires !CallerAt(s, c).Idle?
    ensures |Busy(Finish(s, c, input, outcome))| == |Busy(s)| - 1
    ensures |Finish(s, c, input, outcome).returned| == |s.returned| + 1
  {
    assert c in Busy(s) && Busy(Finish(s, c, input, outcome)) == Busy(s) - {c};
  }

  lemma CallerGoesOn(s: State, c: nat, caller: Caller, s': State)
    requires s'.callers == s.callers[c := caller] && !caller.Idle?
    ensures |Busy(s')| == |Busy(s)| + if CallerAt(s, c).Idle? then 1 else 0
  {
    if CallerAt(s, c).Idle? {
      assert c !in Busy(s) && Busy(s') == Busy(s) + {c};
    } else {
      assert c in Busy(s) && Busy(s') == Busy(s);
    }
  }

  lemma LandingFreesNobody(s: State, r: Request)
    ensures Busy(Land(s, r)) == Busy(s) && Land(s, r).returned == s.returned && Land(s, r).callers == s.callers
  {
  }

  lemma OneStepKeepsCount(s: State, a: Action)
    requires Enabled(s, a)
    ensures |Busy(Step(s, a))| + |Step(s, a).returned| == |Busy(s)| + |s.returned| + if a.Begin? then 1 else 0
  {
    hide ProbeOf, Decide, Holds, Busy, Finish, Land;
    match a {
      case Begin(c, input) => CallerGoesOn(s, c, AtHead(input, 1), Step(s, a));
      case Head(c) =>
        var AtHead(input, attempt) := CallerAt(s, c);
        match Decide(ProbeOf(s.blob), input) {
          case AlreadyCommitted(version, hash) => AnswerFreesCaller(s, c, input, Committed(version, hash, true));
          case Conflict(found, key) => AnswerFreesCaller(s, c, input, Conflicted(found, key));
          case Write(_) => CallerGoesOn(s, c, Waiting(input, attempt, |s.sent|), Step(s, a));
        }
      case HeadFails(c) => AnswerFreesCaller(s, c, CallerAt(s, c).input, Failed);
      case Deliver(r) => LandingFreesNobody(s, s.sent[r]);
      case DeliverAndReply(r, c) =>
        var Waiting(input, attempt, _) := CallerAt(s, c);
        LandingFreesNobody(s, s.sent[r]);
        if Holds(s.sent[r].condition, s.blob) {
          AnswerFreesCaller(Land(s, s.sent[r]), c, input, Committed(s.sent[r].version, input.contentHash, false));
        } else if attempt < COMMIT_MAX_ATTEMPTS {
          CallerGoesOn(s, c, AtHead(input, attempt + 1), Step(s, a));
        } else {
          AnswerFreesCaller(s, c, input, Exhausted);
        }
      case GiveUp(c) => AnswerFreesCaller(s, c, CallerAt(s, c).input, Failed);
    }
  }

  /**
   * In every run each failure that is returned is a breakdown of the caller's own, one for one: a PUT that is refused
   * is never one, it is tried again. And no call is lost: those begun are those answered and those still under way.
   */
  lemma {:induction false} EveryCallIsAccountedFor(s: State, actions: seq<Action>)
    ensures Failures(RunFrom(s, actions).returned) == Failures(s.returned) + Breakdowns(s, actions)
    ensures |Busy(RunFrom(s, actions))| + |RunFrom(s, actions).returned|
         == |Busy(s)| + |s.returned| + Begun(s, actions)
    decreases |actions|
  {
    hide Failures, Busy, Step;
    if actions != [] {
      if Enabled(s, actions[0]) {
        OneStepFails(s, actions[0]);
        OneStepKeepsCount(s, actions[0]);
        EveryCallIsAccountedFor(Step(s, actions[0]), actions[1..]);
      } else {
        EveryCallIsAccountedFor(s, actions[1..]);
      }
    }
  }

  /** A refused PUT sends its caller back to the HEAD, one attempt later, until the loop has no more attempts. */
  lemma RefusedPutIsRetried(actions: seq<Action>, r: nat, c: nat)
    requires Enabled(Run(actions), DeliverAndReply(r, c))
    requires !Holds(Run(actions).sent[r].condition, Run(actions).blob)
    ensures
      var s, s' := Run(actions), Step(Run(actions), DeliverAndReply(r, c));
      s' == s.(callers := s.callers[c := AtHead(CallerAt(s, c).input, CallerAt(s, c).attempt + 1)])
  {
    ThreeAttemptsSuffice(actions);
  }

  /** A blob of the time before versions counts as version 0, whatever key it carries. */
  lemma LegacyBlobIsVersionZero(s: State, c: nat, input: CommitInput)
    requires CallerAt(s, c).Idle? && s.blob.Stored? && s.blob.version == 0
    ensures
      var end := RunFrom(s, [Begin(c, input), Head(c), DeliverAndReply(|s.sent|, c)]);
      if input.baseVersion == 0 then
        && end.blob == Stored(1, input.turnKey, input.contentHash, |s.history|)
        && end.returned == s.returned + [Return(input, Committed(1, input.contentHash, false))]
      else
        end.blob == s.blob && end.returned == s.returned + [Return(input, Conflicted(0, None))]
  {
    var a := DeliverAndReply(|s.sent|, c);
    var s1 := Step(s, Begin(c, input));
    var s2 := Step(s1, Head(c));
    assert RunFrom(s, [Begin(c, input), Head(c), a]) == RunFrom(s1, [Head(c), a]);
    assert RunFrom(s1, [Head(c), a]) == RunFrom(s2, [a]);
    var s3 := if Enabled(s2, a) then Step(s2, a) else s2;
    assert RunFrom(s2, [a]) == RunFrom(s3, []);
  }
}
