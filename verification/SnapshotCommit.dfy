/**
 * The versioned snapshot commit protocol of one epoch chain: any number of callers run HEAD and
 * conditional PUT steps against one blob. Requests may be delivered late, more than once or not at
 * all, replies may be lost, and callers may start over at any time.
 */
module SnapshotProtocol {
  import opened Text

  const COMMIT_MAX_ATTEMPTS := 5

  datatype CommitInput = CommitInput(baseVersion: nat, turnKey: string, contentHash: string)

  /** The blob with its metadata; the etag is a number the service never hands out twice. */
  datatype Blob = Absent | Stored(version: nat, turnKey: string, contentHash: string, etag: nat)

  datatype Probe = Probe(exists_: bool, version: nat, turnKey: Option<string>, contentHash: string, etag: nat)

  function KeyRead(turnKey: string): Option<string> {
    if turnKey == "" then None else Some(turnKey)
  }

  /** Probing: a version below 1 reads as a legacy blob, an empty turn key as no turn key. */
  function ProbeOf(blob: Blob): Probe {
    match blob
    case Absent => Probe(false, 0, None, "", 0)
    case Stored(version, turnKey, contentHash, etag) =>
      if version < 1 then Probe(true, 0, None, "", etag)
      else Probe(true, version, KeyRead(turnKey), contentHash, etag)
  }

  datatype Condition = IfMatch(etag: nat) | IfNoneMatch

  datatype Request = Request(input: CommitInput, version: nat, condition: Condition)

  datatype Verdict =
    | AlreadyCommitted(version: nat, contentHash: string)
    | Conflict(found: nat, foundKey: Option<string>)
    | Write(request: Request)

  /** What one turn of the commit loop decides from the HEAD it just made. */
  function Decide(head: Probe, input: CommitInput): Verdict {
    if head.exists_ && head.version == input.baseVersion + 1 && head.turnKey == Some(input.turnKey) then
      AlreadyCommitted(head.version, head.contentHash)
    else if head.exists_ && head.version != input.baseVersion then
      Conflict(head.version, head.turnKey)
    else if head.exists_ then
      Write(Request(input, head.version + 1, IfMatch(head.etag)))
    else
      Write(Request(input, input.baseVersion + 1, IfNoneMatch))
  }

  predicate Holds(condition: Condition, blob: Blob) {
    match condition
    case IfMatch(etag) => blob.Stored? && blob.etag == etag
    case IfNoneMatch => blob.Absent?
  }

  datatype Outcome =
    | Committed(version: nat, contentHash: string, already: bool)
    | Conflicted(found: nat, foundKey: Option<string>)
    | Failed        // the store call threw anything but 412 and 409
    | Exhausted     // the loop ran out of attempts

  datatype Caller =
    | AtHead(input: CommitInput, attempt: nat)
    | Waiting(input: CommitInput, attempt: nat, request: nat)
    | Idle

  datatype Return = Return(input: CommitInput, outcome: Outcome)

  /** `history` lists every write in landing order; the etag of a write is its place in that list. */
  datatype State = State(
    blob: Blob,
    history: seq<Request>,
    sent: seq<Request>,
    callers: map<nat, Caller>,
    returned: seq<Return>)

  const INITIAL := State(Absent, [], [], map[], [])

  datatype Action =
    | Begin(caller: nat, input: CommitInput)
    | Head(caller: nat)
    | HeadFails(caller: nat)
    | Deliver(request: nat)                   // reply lost, or caller gone
    | DeliverAndReply(request: nat, caller: nat)
    | GiveUp(caller: nat)                     // timeout; the request stays on the wire

  function CallerAt(s: State, c: nat): Caller {
    if c in s.callers then s.callers[c] else Idle
  }

  predicate Enabled(s: State, a: Action) {
    match a
    case Begin(c, _) => CallerAt(s, c).Idle?
    case Head(c) => CallerAt(s, c).AtHead?
    case HeadFails(c) => CallerAt(s, c).AtHead?
    case Deliver(r) => r < |s.sent|
    case DeliverAndReply(r, c) => r < |s.sent| && CallerAt(s, c).Waiting? && CallerAt(s, c).request == r
    case GiveUp(c) => CallerAt(s, c).Waiting?
  }

  /** The service handles one PUT: it lands, with a fresh etag, exactly when its condition holds. */
  function Land(s: State, r: Request): State {
    if Holds(r.condition, s.blob) then
      s.(blob := Stored(r.version, r.input.turnKey, r.input.contentHash, |s.history|),
         history := s.history + [r])
    else s
  }

  function Finish(s: State, c: nat, input: CommitInput, outcome: Outcome): State {
    s.(callers := s.callers[c := Idle], returned := s.returned + [Return(input, outcome)])
  }

  function Step(s: State, a: Action): State
    requires Enabled(s, a)
  {
    match a
    case Begin(c, input) => s.(callers := s.callers[c := AtHead(input, 1)])
    case Head(c) =>
      var AtHead(input, attempt) := CallerAt(s, c);
      (match Decide(ProbeOf(s.blob), input)
       case AlreadyCommitted(version, hash) => Finish(s, c, input, Committed(version, hash, true))
       case Conflict(found, key) => Finish(s, c, input, Conflicted(found, key))
       case Write(r) =>
         s.(sent := s.sent + [r], callers := s.callers[c := Waiting(input, attempt, |s.sent|)]))
    case HeadFails(c) => Finish(s, c, CallerAt(s, c).input, Failed)
    case Deliver(r) => Land(s, s.sent[r])
    case DeliverAndReply(r, c) =>
      var Waiting(input, attempt, _) := CallerAt(s, c);
      var req := s.sent[r];
      if Holds(req.condition, s.blob) then
        Finish(Land(s, req), c, input, Committed(req.version, input.contentHash, false))
      else if attempt < COMMIT_MAX_ATTEMPTS then
        s.(callers := s.callers[c := AtHead(input, attempt + 1)])
      else
        Finish(s, c, input, Exhausted)
    case GiveUp(c) => Finish(s, c, CallerAt(s, c).input, Failed)
  }

  /** A run: actions that are not enabled are skipped, so every list of actions is a run. */
  function RunFrom(s: State, actions: seq<Action>): State
    decreases |actions|
  {
    if actions == [] then s
    else RunFrom(if Enabled(s, actions[0]) then Step(s, actions[0]) else s, actions[1..])
  }

  function Run(actions: seq<Action>): State { RunFrom(INITIAL, actions) }

  // ----- the invariant -----

  function Last(history: seq<Request>): Request
    requires history != []
  {
    history[|history| - 1]
  }

  ghost predicate Chain(blob: Blob, history: seq<Request>) {
    && (blob.Absent? <==> history == [])
    && (blob.Stored? ==>
          blob == Stored(Last(history).version, Last(history).input.turnKey, Last(history).input.contentHash,
                         |history| - 1))
    && (forall i :: 0 <= i < |history| ==> history[i].version == history[0].version + i)
    && (forall i :: 0 <= i < |history| ==> history[i].version == history[i].input.baseVersion + 1)
  }

  /** A request quotes the version its condition is about. */
  ghost predicate Honest(r: Request, history: seq<Request>) {
    && r.version == r.input.baseVersion + 1
    && (r.condition.IfMatch? ==>
          r.condition.etag < |history| && history[r.condition.etag].version == r.input.baseVersion)
  }

  /** What a caller's attempt number says about the chain. */
  ghost predicate Paced(c: Caller, s: State) {
    match c
    case Idle => true
    case AtHead(input, attempt) =>
      && 1 <= attempt <= 3
      && (attempt >= 2 ==> s.history != [])
      && (attempt == 3 ==> Last(s.history).version > input.baseVersion)
    case Waiting(input, attempt, r) =>
      && 1 <= attempt <= 2
      && r < |s.sent| && s.sent[r].input == input
      && (attempt == 2 ==> s.sent[r].condition.IfMatch?)
  }

  ghost predicate Landed(input: CommitInput, hash: string, history: seq<Request>) {
    exists i :: 0 <= i < |history| && history[i].version == input.baseVersion + 1
                && history[i].input.turnKey == input.turnKey && history[i].input.contentHash == hash
  }

  /** This version was written, under this key. */
  ghost predicate WasFound(version: nat, key: Option<string>, history: seq<Request>) {
    exists i :: 0 <= i < |history| && history[i].version == version && KeyRead(history[i].input.turnKey) == key
  }

  /** A conflict never names the base, nor the caller's own commit on top of it. */
  predicate Foreign(input: CommitInput, found: nat, key: Option<string>) {
    found != input.baseVersion && !(found == input.baseVersion + 1 && key == Some(input.turnKey))
  }

  ghost predicate Truthful(ret: Return, history: seq<Request>) {
    match ret.outcome
    case Committed(version, hash, _) =>
      version == ret.input.baseVersion + 1 && Landed(ret.input, hash, history)
    case Conflicted(found, key) => Foreign(ret.input, found, key) && WasFound(found, key, history)
    case Failed => true
    case Exhausted => false
  }

  ghost predicate Inv(s: State) {
    && Chain(s.blob, s.history)
    && (forall i :: 0 <= i < |s.sent| ==> Honest(s.sent[i], s.history))
    && (forall c :: c in s.callers ==> Paced(s.callers[c], s))
    && (forall i :: 0 <= i < |s.returned| ==> Truthful(s.returned[i], s.history))
  }

  lemma LandKeeps(s: State, r: Request)
    requires Inv(s) && Honest(r, s.history)
    ensures Inv(Land(s, r))
    ensures s.history <= Land(s, r).history
    ensures Holds(r.condition, s.blob) ==> Landed(r.input, r.input.contentHash, Land(s, r).history)
    ensures !Holds(r.condition, s.blob) ==> s.history != []
    ensures !Holds(r.condition, s.blob) && r.condition.IfMatch? ==> Last(s.history).version > r.input.baseVersion
  {
    var s' := Land(s, r);
    if Holds(r.condition, s.blob) {
      assert s'.history[|s.history|] == r;
      forall i | 0 <= i < |s.returned| ensures Truthful(s'.returned[i], s'.history) {
        TruthGrows(s.returned[i], s.history, s'.history);
      }
    }
  }

  lemma TruthGrows(ret: Return, before: seq<Request>, after: seq<Request>)
    requires Truthful(ret, before) && before <= after
    ensures Truthful(ret, after)
  {
    if ret.outcome.Committed? {
      var i :| 0 <= i < |before| && before[i].version == ret.input.baseVersion + 1
               && before[i].input.turnKey == ret.input.turnKey
                   && before[i].input.contentHash == ret.outcome.contentHash;
      assert after[i] == before[i];
    }
    if ret.outcome.Conflicted? {
      var i :| 0 <= i < |before| && before[i].version == ret.outcome.found
               && KeyRead(before[i].input.turnKey) == ret.outcome.foundKey;
      assert after[i] == before[i];
    }
  }

  /** Giving one caller a new status, and appending to the requests and the returns, keeps the invariant. */
  lemma MoveKeeps(s: State, c: nat, caller: Caller, sent: seq<Request>, returned: seq<Return>, s': State)
    requires Inv(s)
    requires s' == s.(callers := s.callers[c := caller], sent := s.sent + sent, returned := s.returned + returned)
    requires forall i :: 0 <= i < |sent| ==> Honest(sent[i], s.history)
    requires forall i :: 0 <= i < |returned| ==> Truthful(returned[i], s.history)
    requires Paced(caller, s')
    ensures Inv(s')
  {
    forall d | d in s'.callers ensures Paced(s'.callers[d], s') {
      if d != c { assert Paced(s.callers[d], s); }
    }
  }

  lemma FinishKeeps(s: State, c: nat, input: CommitInput, outcome: Outcome)
    requires Inv(s) && Truthful(Return(input, outcome), s.history)
    ensures Inv(Finish(s, c, input, outcome))
  {
    assert s.sent + [] == s.sent;
    MoveKeeps(s, c, Idle, [], [Return(input, outcome)], Finish(s, c, input, outcome));
  }

  lemma HeadKeeps(s: State, c: nat)
    requires Inv(s) && CallerAt(s, c).AtHead?
    ensures Inv(Step(s, Head(c)))
  {
    var AtHead(input, attempt) := CallerAt(s, c);
    assert Paced(s.callers[c], s);
    match Decide(ProbeOf(s.blob), input) {
      case AlreadyCommitted(version, hash) =>
        var i := |s.history| - 1;
        assert s.history[i].version == version && s.history[i].input.turnKey == input.turnKey;
        assert Landed(input, hash, s.history);
        FinishKeeps(s, c, input, Committed(version, hash, true));
      case Conflict(found, key) =>
        assert s.history[|s.history| - 1] == Last(s.history);
        assert WasFound(found, key, s.history);
        FinishKeeps(s, c, input, Conflicted(found, key));
      case Write(r) =>
        assert s.returned + [] == s.returned;
        MoveKeeps(s, c, Waiting(input, attempt, |s.sent|), [r], [], Step(s, Head(c)));
    }
  }

  lemma ReplyKeeps(s: State, r: nat, c: nat)
    requires Inv(s) && Enabled(s, DeliverAndReply(r, c))
    ensures Inv(Step(s, DeliverAndReply(r, c)))
  {
    var Waiting(input, attempt, _) := CallerAt(s, c);
    assert Paced(s.callers[c], s);
    LandKeeps(s, s.sent[r]);
    if Holds(s.sent[r].condition, s.blob) {
      FinishKeeps(Land(s, s.sent[r]), c, input, Committed(s.sent[r].version, input.contentHash, false));
    } else {
      assert s.sent + [] == s.sent && s.returned + [] == s.returned;
      MoveKeeps(s, c, AtHead(input, attempt + 1), [], [], Step(s, DeliverAndReply(r, c)));
    }
  }

  lemma StepKeeps(s: State, a: Action)
    requires Inv(s) && Enabled(s, a)
    ensures Inv(Step(s, a))
    ensures s.history <= Step(s, a).history
  {
    match a {
      case Begin(c, input) =>
        assert s.sent + [] == s.sent && s.returned + [] == s.returned;
        MoveKeeps(s, c, AtHead(input, 1), [], [], Step(s, a));
      case Head(c) => HeadKeeps(s, c);
      case HeadFails(c) => FinishKeeps(s, c, s.callers[c].input, Failed);
      case Deliver(r) => LandKeeps(s, s.sent[r]);
      case DeliverAndReply(r, c) => ReplyKeeps(s, r, c);
      case GiveUp(c) => FinishKeeps(s, c, s.callers[c].input, Failed);
    }
  }

  lemma {:induction false} RunKeeps(s: State, actions: seq<Action>)
    requires Inv(s)
    ensures Inv(RunFrom(s, actions))
    ensures s.history <= RunFrom(s, actions).history
    decreases |actions|
  {
    if actions != [] {
      if Enabled(s, actions[0]) {
        StepKeeps(s, actions[0]);
        RunKeeps(Step(s, actions[0]), actions[1..]);
      } else {
        RunKeeps(s, actions[1..]);
      }
    }
  }

  // ----- what every run guarantees -----

  /** Every write raises the version by exactly one, so no version is ever written twice. */
  lemma VersionsAreConsecutive(actions: seq<Action>, i: nat, j: nat)
    requires i < |Run(actions).history| && j < |Run(actions).history|
    ensures Run(actions).history[j].version - Run(actions).history[i].version == j - i
    ensures Run(actions).history[i].version == Run(actions).history[i].input.baseVersion + 1
  {
    RunKeeps(INITIAL, actions);
  }

  /** Written versions are never taken back or changed later in the run. */
  lemma {:induction false} HistoryOnlyGrows(s: State, first: seq<Action>, rest: seq<Action>)
    requires Inv(s)
    ensures RunFrom(s, first + rest) == RunFrom(RunFrom(s, first), rest)
    ensures RunFrom(s, first).history <= RunFrom(s, first + rest).history
    decreases |first|
  {
    RunKeeps(s, first);
    RunKeeps(RunFrom(s, first), rest);
    if first == [] {
      assert first + rest == rest;
    } else {
      assert (first + rest)[1..] == first[1..] + rest;
      if Enabled(s, first[0]) {
        StepKeeps(s, first[0]);
        HistoryOnlyGrows(Step(s, first[0]), first[1..], rest);
      } else {
        HistoryOnlyGrows(s, first[1..], rest);
      }
    }
  }

  /** Of all commits from one base version, those that report success carry the same turn key. */
  lemma OneWinnerPerBase(actions: seq<Action>, i: nat, j: nat)
    requires i < |Run(actions).returned| && j < |Run(actions).returned|
    requires Run(actions).returned[i].outcome.Committed? && Run(actions).returned[j].outcome.Committed?
    requires Run(actions).returned[i].input.baseVersion == Run(actions).returned[j].input.baseVersion
    ensures Run(actions).returned[i].input.turnKey == Run(actions).returned[j].input.turnKey
    ensures Run(actions).returned[i].outcome.contentHash == Run(actions).returned[j].outcome.contentHash
  {
    RunKeeps(INITIAL, actions);
    var s := Run(actions);
    assert Truthful(s.returned[i], s.history) && Truthful(s.returned[j], s.history);
  }

  /** A reported success is real: the version after the base is in the history under that turn key. */
  lemma SuccessIsDurable(actions: seq<Action>, later: seq<Action>, i: nat)
    requires i < |Run(actions).returned| && Run(actions).returned[i].outcome.Committed?
    ensures Run(actions).returned[i].outcome.version == Run(actions).returned[i].input.baseVersion + 1
    ensures Landed(Run(actions).returned[i].input, Run(actions).returned[i].outcome.contentHash,
                   Run(actions + later).history)
  {
    RunKeeps(INITIAL, actions);
    HistoryOnlyGrows(INITIAL, actions, later);
    var s := Run(actions);
    assert Truthful(s.returned[i], s.history);
    TruthGrows(s.returned[i], s.history, Run(actions + later).history);
  }

  /** However often a turn is retried, at most one of its writes lands. */
  lemma OneWritePerTurn(actions: seq<Action>, i: nat, j: nat)
    requires i < |Run(actions).history| && j < |Run(actions).history|
    requires Run(actions).history[i].input.baseVersion == Run(actions).history[j].input.baseVersion
    ensures i == j
  {
    RunKeeps(INITIAL, actions);
  }

  /** No caller ever makes a fourth attempt or waits on a third PUT, and no call runs out of attempts. */
  lemma ThreeAttemptsSuffice(actions: seq<Action>)
    ensures forall c :: c in Run(actions).callers && Run(actions).callers[c].AtHead? ==>
              Run(actions).callers[c].attempt <= 3
    ensures forall c :: c in Run(actions).callers && Run(actions).callers[c].Waiting? ==>
              Run(actions).callers[c].attempt <= 2
    ensures forall i :: 0 <= i < |Run(actions).returned| ==> !Run(actions).returned[i].outcome.Exhausted?
  {
    RunKeeps(INITIAL, actions);
    var s := Run(actions);
    forall c | c in s.callers ensures Paced(s.callers[c], s) {}
    forall i | 0 <= i < |s.returned| ensures Truthful(s.returned[i], s.history) {}
  }

  ghost predicate TurnLanded(input: CommitInput, history: seq<Request>) {
    exists hash :: Landed(input, hash, history)
  }

  /**
   * A turn whose write has landed is recognised by the next HEAD exactly when its key is not empty and no
   * later version was written; otherwise the caller is told of a conflict although its commit is in the chain.
   */
  lemma LandedTurnIsRecognised(actions: seq<Action>, input: CommitInput)
    requires TurnLanded(input, Run(actions).history)
    ensures Run(actions).blob.Stored?
    ensures Decide(ProbeOf(Run(actions).blob), input).AlreadyCommitted?
        || Decide(ProbeOf(Run(actions).blob), input).Conflict?
    ensures Decide(ProbeOf(Run(actions).blob), input).AlreadyCommitted? <==>
              input.turnKey != "" && Run(actions).blob.version == input.baseVersion + 1
  {
    RunKeeps(INITIAL, actions);
    var s := Run(actions);
    var hash :| Landed(input, hash, s.history);
    var i :| 0 <= i < |s.history| && s.history[i].version == input.baseVersion + 1
             && s.history[i].input.turnKey == input.turnKey && s.history[i].input.contentHash == hash;
    assert Last(s.history).version == s.history[i].version + (|s.history| - 1 - i);
    if s.blob.version == input.baseVersion + 1 { assert i == |s.history| - 1; }
  }

  /** A conflict that found at most one version past the base proves that the turn (with a key) has not landed. */
  lemma NearConflictIsConclusive(actions: seq<Action>, input: CommitInput)
    requires Decide(ProbeOf(Run(actions).blob), input).Conflict?
    requires input.turnKey != ""
    requires Decide(ProbeOf(Run(actions).blob), input).found <= input.baseVersion + 1
    ensures !TurnLanded(input, Run(actions).history)
  {
    if TurnLanded(input, Run(actions).history) {
      LandedTurnIsRecognised(actions, input);
      RunKeeps(INITIAL, actions);
    }
  }

  lemma StoredVersionIsPositive(actions: seq<Action>)
    ensures Run(actions).blob.Stored? ==> Run(actions).blob.version >= 1
  {
    RunKeeps(INITIAL, actions);
  }

  /**
   * Every conflict reported in any run names a version that was written, neither the base nor the caller's own
   * commit.
   */
  lemma ConflictsAreForeign(actions: seq<Action>, i: nat)
    requires i < |Run(actions).returned| && Run(actions).returned[i].outcome.Conflicted?
    ensures
      var Return(input, Conflicted(found, key)) := Run(actions).returned[i];
      Foreign(input, found, key) && WasFound(found, key, Run(actions).history)
  {
    RunKeeps(INITIAL, actions);
    assert Truthful(Run(actions).returned[i], Run(actions).history);
  }

  /**
   * A returned conflict that names base + 1 is final for a turn with a key: no write of that turn has landed or will
   * ever land, not even from a PUT that is still on the wire.
   */
  lemma ConflictAboveBaseIsFinal(actions: seq<Action>, later: seq<Action>, i: nat)
    requires i < |Run(actions).returned| && Run(actions).returned[i].outcome.Conflicted?
    requires Run(actions).returned[i].outcome.found == Run(actions).returned[i].input.baseVersion + 1
    requires Run(actions).returned[i].input.turnKey != ""
    ensures !TurnLanded(Run(actions).returned[i].input, Run(actions + later).history)
  {
    RunKeeps(INITIAL, actions);
    RunKeeps(INITIAL, actions + later);
    HistoryOnlyGrows(INITIAL, actions, later);
    var before, after := Run(actions).history, Run(actions + later).history;
    var Return(input, Conflicted(found, key)) := Run(actions).returned[i];
    assert Truthful(Run(actions).returned[i], before);
    var k :| 0 <= k < |before| && before[k].version == found && KeyRead(before[k].input.turnKey) == key;
    assert after[k] == before[k];
    forall hash ensures !Landed(input, hash, after) {
      forall j | 0 <= j < |after| && after[j].version == found ensures after[j].input.turnKey != input.turnKey {
        assert j == k;
      }
    }
  }

  /** What one call does from s to end when nobody disturbs it. */
  predicate Undisturbed(s: State, end: State, c: nat, input: CommitInput) {
    var recognised := s.blob.Stored? && s.blob.version == input.baseVersion + 1
                      && s.blob.turnKey == input.turnKey && input.turnKey != "";
    && CallerAt(end, c).Idle?
    && if recognised then
         && end.blob == s.blob
         && end.returned == s.returned + [Return(input, Committed(s.blob.version, s.blob.contentHash, true))]
       else if s.blob.Absent? || s.blob.version == input.baseVersion then
         && end.returned == s.returned + [Return(input, Committed(input.baseVersion + 1, input.contentHash, false))]
         && end.blob == Stored(input.baseVersion + 1, input.turnKey, input.contentHash, |s.history|)
       else
         && end.blob == s.blob
         && end.returned == s.returned + [Return(input, Conflicted(s.blob.version, KeyRead(s.blob.turnKey)))]
  }

  /**
   * A call nobody disturbs reports success exactly when the blob is absent, or stands at the base version, or
   * stands one version above it under the same non-empty turn key; any other state is reported as it was found.
   */
  lemma UndisturbedCommit(actions: seq<Action>, c: nat, input: CommitInput)
    requires CallerAt(Run(actions), c).Idle?
    ensures
      var s := Run(actions);
      Undisturbed(s, RunFrom(s, [Begin(c, input), Head(c), DeliverAndReply(|s.sent|, c)]), c, input)
  {
    hide Inv;
    StoredVersionIsPositive(actions);
    var s := Run(actions);
    var a := DeliverAndReply(|s.sent|, c);
    var s1 := Step(s, Begin(c, input));
    var s2 := Step(s1, Head(c));
    assert RunFrom(s, [Begin(c, input), Head(c), a]) == RunFrom(s1, [Head(c), a]);
    assert RunFrom(s1, [Head(c), a]) == RunFrom(s2, [a]);
    var s3 := if Enabled(s2, a) then Step(s2, a) else s2;
    assert RunFrom(s2, [a]) == RunFrom(s3, []);
  }

  /**
   * The verdict "conflict" alone does not mean "not committed": a turn that landed can be overtaken before it
   * retries.
   */
  lemma OvertakenTurnSeesConflict() returns (actions: seq<Action>, input: CommitInput)
    ensures TurnLanded(input, Run(actions).history)
    ensures Run(actions).returned != [] && Run(actions).returned[|Run(actions).returned| - 1].input == input
    ensures Run(actions).returned[|Run(actions).returned| - 1].outcome.Conflicted?
  {
    input := CommitInput(0, "a", "x");
    var other := CommitInput(1, "b", "y");
    var first, second := Request(input, 1, IfNoneMatch), Request(other, 2, IfMatch(0));
    var s0 := Then([], INITIAL, Begin(0, input));
    assert [] + [Begin(0, input)] == [Begin(0, input)];
    var s1 := Then([Begin(0, input)], s0, Head(0));
    var run := [Begin(0, input), Head(0)];
    assert [Begin(0, input)] + [Head(0)] == run;
    var s2 := Then(run, s1, Deliver(0));
    assert s2.blob == Stored(1, "a", "x", 0);
    var s3 := Then(run + [Deliver(0)], s2, GiveUp(0));
    run := run + [Deliver(0)] + [GiveUp(0)];
    var s4 := Then(run, s3, Begin(1, other));
    var s5 := Then(run + [Begin(1, other)], s4, Head(1));
    assert s5.sent == [first, second];
    run := run + [Begin(1, other)] + [Head(1)];
    var s6 := Then(run, s5, DeliverAndReply(1, 1));
    assert s6.blob == Stored(2, "b", "y", 1);
    var s7 := Then(run + [DeliverAndReply(1, 1)], s6, Begin(0, input));
    var s8 := Then(run + [DeliverAndReply(1, 1)] + [Begin(0, input)], s7, Head(0));
    actions := run + [DeliverAndReply(1, 1)] + [Begin(0, input)] + [Head(0)];
    assert s8.history == [first, second];
    assert s8.history[0].input == input;
    assert Landed(input, "x", s8.history);
  }

  lemma Then(run: seq<Action>, s: State, a: Action) returns (s': State)
    requires s == Run(run) && Enabled(s, a)
    ensures s' == Step(s, a) && s' == Run(run + [a])
  {
    s' := Step(s, a);
    assert RunFrom(s', []) == s';
    assert RunFrom(s, [a]) == RunFrom(s', []);
    HistoryOnlyGrows(INITIAL, run, [a]);
  }
}
