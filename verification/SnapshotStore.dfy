/** The commit loop itself, run against a blob service that other callers write to between its requests. */
module SnapshotStore {
  import opened Text
  import opened SnapshotProtocol

  class BlobService {
    var blob: Blob
    var nextEtag: nat
    ghost var history: seq<Request>

    ghost predicate Valid()
      reads this
    {
      Chain(blob, history) && nextEtag == |history|
    }

    constructor ()
      ensures Valid() && history == []
    {
      blob, nextEtag, history := Absent, 0, [];
    }

    method Head() returns (probe: Probe)
      ensures probe == ProbeOf(blob)
    {
      probe := ProbeOf(blob);
    }

    /** A conditional single-shot PUT: content and metadata change together or not at all. */
    method Upload(r: Request) returns (accepted: bool)
      requires Valid() && Honest(r, history)
      modifies this
      ensures Valid()
      ensures accepted == old(Holds(r.condition, blob))
      ensures history == old(history) + (if accepted then [r] else [])
      ensures !accepted ==> blob == old(blob) && history != []
      ensures !accepted && r.condition.IfMatch? ==> Last(history).version > r.input.baseVersion
    {
      accepted := Holds(r.condition, blob);
      if accepted {
        blob := Stored(r.version, r.input.turnKey, r.input.contentHash, nextEtag);
        nextEtag := nextEtag + 1;
        history := history + [r];
      }
    }
  }

  /** What the network does to one attempt: the SDK below may also send a PUT twice and report the second reply. */
  datatype Fate = HeadLost | Answered | AnsweredTwice | ReplyLost | NeverSent

  /** What other callers manage to write before the HEAD and between the HEAD and the PUT of one attempt. */
  datatype Interference = Interference(beforeHead: seq<CommitInput>, beforePut: seq<CommitInput>, fate: Fate)

  const CALM := Interference([], [], Answered)

  /** What a call nobody disturbs reports. */
  function CalmOutcome(blob: Blob, input: CommitInput): Outcome {
    if blob.Absent? then Committed(input.baseVersion + 1, input.contentHash, false)
    else
      var head := ProbeOf(blob);
      if head.version == input.baseVersion + 1 && head.turnKey == Some(input.turnKey) then
        Committed(head.version, head.contentHash, true)
      else if head.version == input.baseVersion then Committed(input.baseVersion + 1, input.contentHash, false)
      else Conflicted(head.version, head.turnKey)
  }

  class SessionBlobStore {
    const service: BlobService
    var snapshotSizeBySession: map<string, nat>

    constructor (service: BlobService)
      ensures this.service == service && snapshotSizeBySession == map[]
    {
      this.service, snapshotSizeBySession := service, map[];
    }

    /** Other callers' writes: one that lands saw the very blob it replaces, so HEAD and PUT count as one step. */
    method OthersCommit(inputs: seq<CommitInput>)
      requires service.Valid()
      modifies service
      ensures service.Valid() && old(service.history) <= service.history
      ensures inputs == [] ==> service.blob == old(service.blob) && service.history == old(service.history)
    {
      for i := 0 to |inputs|
        invariant service.Valid() && old(service.history) <= service.history
        invariant i == 0 ==> service.blob == old(service.blob) && service.history == old(service.history)
      {
        var verdict := Decide(ProbeOf(service.blob), inputs[i]);
        if verdict.Write? {
          var _ := service.Upload(verdict.request);
        }
      }
    }

    /** The PUT of one attempt. `Some(false)` is a 412 or 409 reply, `None` any other error. */
    method SendPut(r: Request, fate: Fate) returns (reply: Option<bool>)
      requires service.Valid() && Honest(r, service.history)
      modifies service
      ensures service.Valid() && old(service.history) <= service.history
      ensures reply == Some(true) ==> Landed(r.input, r.input.contentHash, service.history)
      ensures reply == Some(false) ==> service.history != []
      ensures reply == Some(false) && r.condition.IfMatch? ==> Last(service.history).version > r.input.baseVersion
      ensures reply == None <==> fate in {NeverSent, ReplyLost}
      ensures fate == Answered ==> reply == Some(old(Holds(r.condition, service.blob)))
    {
      if fate == NeverSent { return None; }
      ghost var before := service.history;
      var accepted := service.Upload(r);
      assert accepted ==> service.history[|before|] == r;
      if fate == AnsweredTwice { accepted := service.Upload(r); }
      if fate == ReplyLost { return None; }
      return Some(accepted);
    }

    /** The PUT of one attempt after other callers had their turn. */
    method PutPhase(r: Request, now: Interference) returns (reply: Option<bool>)
      requires service.Valid() && Honest(r, service.history)
      requires r.condition.IfMatch? <==> service.history != []
      modifies service
      ensures service.Valid() && old(service.history) <= service.history
      ensures reply == None ==> now.fate in {NeverSent, ReplyLost}
      ensures reply == Some(true) ==> Landed(r.input, r.input.contentHash, service.history)
      ensures reply == Some(false) ==> service.history != []
      ensures reply == Some(false) && old(service.history) != [] ==> Beyond(r.input, service.history)
      ensures now == CALM && old(Holds(r.condition, service.blob)) ==> reply == Some(true)
    {
      OthersCommit(now.beforePut);
      HonestGrows(r, old(service.history), service.history);
      reply := SendPut(r, now.fate);
    }

    /** One turn of the commit loop; `None` means a lost race, to be judged again from a new HEAD. */
    method Attempt(input: CommitInput, now: Interference) returns (result: Option<Outcome>)
      requires service.Valid()
      modifies service
      ensures service.Valid() && old(service.history) <= service.history
      ensures result == None ==> service.history != []
      ensures result == None && old(service.history) != [] ==> Beyond(input, service.history)
      ensures result == None ==> old(!Beyond(input, service.history))
      ensures result.Some? ==> Accounted(input, result.value, service.history)
      ensures result == Some(Failed) ==> now.fate in {HeadLost, ReplyLost, NeverSent}
      ensures now == CALM ==> result == Some(CalmOutcome(old(service.blob), input))
    {
      hide Honest, Decide, ProbeOf, CalmOutcome, Accounted;
      OthersCommit(now.beforeHead);
      if Beyond(input, old(service.history)) { BeyondGrows(input, old(service.history), service.history); }
      OutcomesAreAccounted(input, 0, service.history);
      if now.fate == HeadLost { return Some(Failed); }
      var head := service.Head();
      VerdictIsAccounted(input, service.blob, service.history);
      match Decide(head, input) {
        case AlreadyCommitted(version, hash) => return Some(Committed(version, hash, true));
        case Conflict(found, key) => return Some(Conflicted(found, key));
        case Write(request) =>
          WriteIsHonest(input, service.blob, service.history);
          var reply := PutPhase(request, now);
          OutcomesAreAccounted(input, request.version, service.history);
          if reply == None { return Some(Failed); }
          return if reply.value then Some(Committed(request.version, input.contentHash, false)) else None;
      }
    }

    /**
     * One call: at most three of its five attempts are ever used, a success names a write that is in the chain,
     * a conflict names a version that was really found, and the size cache changes only for a write of its own.
     */
    method CommitSnapshot(session: string, input: CommitInput, size: nat, world: seq<Interference>)
      returns (outcome: Outcome)
      requires service.Valid() && |world| == COMMIT_MAX_ATTEMPTS
      modifies this, service
      ensures service.Valid() && old(service.history) <= service.history
      ensures outcome != Exhausted && Accounted(input, outcome, service.history)
      ensures outcome.Failed? ==> exists k :: 0 <= k < 3 && world[k].fate in {HeadLost, ReplyLost, NeverSent}
      ensures snapshotSizeBySession == if outcome.Committed? && !outcome.already
                                       then old(snapshotSizeBySession)[session := size] else old(snapshotSizeBySession)
      ensures world[0] == CALM ==> outcome == CalmOutcome(old(service.blob), input)
    {
      var attempt := 1;
      while attempt <= COMMIT_MAX_ATTEMPTS
        invariant 1 <= attempt <= 3
        invariant service.Valid() && old(service.history) <= service.history
        invariant attempt == 1 ==> service.blob == old(service.blob)
        invariant attempt >= 2 ==> service.history != []
        invariant attempt >= 2 ==> world[0] != CALM
        invariant attempt == 3 ==> Beyond(input, service.history)
        invariant snapshotSizeBySession == old(snapshotSizeBySession)
      {
        var result := Attempt(input, world[attempt - 1]);
        if result.Some? {
          if result.value.Committed? && !result.value.already {
            snapshotSizeBySession := snapshotSizeBySession[session := size];
          }
          return result.value;
        }
        attempt := attempt + 1;
      }
      assert false;
      outcome := Exhausted;
    }
  }

  ghost predicate Beyond(input: CommitInput, history: seq<Request>) {
    history != [] && Last(history).version > input.baseVersion
  }

  /** What a returned outcome says is so. */
  ghost predicate Accounted(input: CommitInput, outcome: Outcome, history: seq<Request>) {
    match outcome
    case Committed(version, hash, already) =>
      version == input.baseVersion + 1 && Landed(input, hash, history) && (!already ==> hash == input.contentHash)
    case Conflicted(found, key) => Foreign(input, found, key) && WasFound(found, key, history)
    case Failed => true
    case Exhausted => false
  }

  lemma BeyondGrows(input: CommitInput, before: seq<Request>, after: seq<Request>)
    requires before <= after && Beyond(input, before)
    requires forall i :: 0 <= i < |after| ==> after[i].version == after[0].version + i
    ensures Beyond(input, after)
  {
    assert after[|before| - 1] == Last(before);
  }

  lemma LastWasFound(input: CommitInput, blob: Blob, history: seq<Request>)
    requires Chain(blob, history) && blob.Stored?
    ensures WasFound(ProbeOf(blob).version, ProbeOf(blob).turnKey, history)
    ensures Beyond(input, history) <==> blob.version > input.baseVersion
    ensures input.turnKey == blob.turnKey && blob.version == input.baseVersion + 1 ==>
              Landed(input, blob.contentHash, history)
  {
    var i := |history| - 1;
    assert history[i] == Last(history);
  }

  /** What a verdict from the HEAD reports is so, and is what an undisturbed call reports. */
  lemma VerdictIsAccounted(input: CommitInput, blob: Blob, history: seq<Request>)
    requires Chain(blob, history)
    ensures
      match Decide(ProbeOf(blob), input)
      case AlreadyCommitted(version, hash) =>
        Accounted(input, Committed(version, hash, true), history)
            && CalmOutcome(blob, input) == Committed(version, hash, true)
      case Conflict(found, key) =>
        Accounted(input, Conflicted(found, key), history) && CalmOutcome(blob, input) == Conflicted(found, key)
      case Write(r) =>
        CalmOutcome(blob, input) == Committed(r.version, input.contentHash, false) && r.input == input
            && r.version == input.baseVersion + 1
  {
    if blob.Stored? { LastWasFound(input, blob, history); }
  }

  lemma OutcomesAreAccounted(input: CommitInput, version: nat, history: seq<Request>)
    ensures Accounted(input, Failed, history)
    ensures version == input.baseVersion + 1 && Landed(input, input.contentHash, history) ==>
              Accounted(input, Committed(version, input.contentHash, false), history)
  {
  }

  lemma WriteIsHonest(input: CommitInput, blob: Blob, history: seq<Request>)
    requires Chain(blob, history) && Decide(ProbeOf(blob), input).Write?
    ensures Honest(Decide(ProbeOf(blob), input).request, history) && !Beyond(input, history)
    ensures Holds(Decide(ProbeOf(blob), input).request.condition, blob)
    ensures Decide(ProbeOf(blob), input).request.condition.IfMatch? <==> history != []
  {
    if blob.Stored? { assert history[|history| - 1] == Last(history); }
  }

  lemma HonestGrows(r: Request, before: seq<Request>, after: seq<Request>)
    requires Honest(r, before) && before <= after
    ensures Honest(r, after)
  {
    if r.condition.IfMatch? { assert after[r.condition.etag] == before[r.condition.etag]; }
  }
}
