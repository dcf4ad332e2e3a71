/** What the capability requests of a session are answered with, over their fields and the documented limits. */
module CapabilityLaw {
  import opened Text
  import opened Order
  import opened CapabilityState

  // ----- when a request is answered how -----

  /** At most 64 names, none empty, repeated or longer than 200 code units. */
  ghost predicate GoodNames(names: seq<string>) {
    && |names| <= 64 && (forall i :: 0 <= i < |names| ==> names[i] != "" && Length(names[i]) <= 200)
    && forall i, j :: 0 <= i < j < |names| ==> names[i] != names[j]
  }

  ghost predicate WellAsked(host: Host, r: Request) {
    && r.expectedRevision <= 9007199254740991 && host.trim(r.requestId) != "" && Length(r.requestId) <= 128
    && GoodNames(r.tools) && GoodNames(r.mcpServers) && (r.tools != [] || r.mcpServers != [])
  }

  /** The request id is among the remembered receipts. */
  ghost predicate IdKnown(s: State, id: string) {
    s.requests.Some? && exists i :: 0 <= i < |s.requests.value| && s.requests.value[i].id == id
  }

  ghost predicate Attached(s: State, sourceId: string) {
    exists i :: 0 <= i < |s.selections| && s.selections[i].sourceId == sourceId
  }

  lemma ValidIsWellAsked(host: Host, r: Request)
    ensures ValidRequest(host, r) <==> WellAsked(host, r)
  {
    hide Length;
  }

  lemma KnownIsFound(s: State, id: string)
    ensures FindReceipt(Receipts(s), id).Some? <==> IdKnown(s, id)
  {
    hide FindReceipt;
    FindNone(Receipts(s), id);
  }

  /** The changed list is too long only when a source is added to 32 others. */
  lemma ThirtyThirdSource(s: State, sourceId: string, r: Request)
    requires Normal(s) && (r.tools != [] || r.mcpServers != [])
    ensures |Unsorted(s, sourceId, r)| > MAX_SOURCES
        <==> r.action.Add? && !Attached(s, sourceId) && |s.selections| == 32
  {
    hide MergeNames, NormalSelection, DistinctSources;
    OthersCount(s.selections, sourceId);
    SelectionOfIs(s.selections, sourceId);
    if !Attached(s, sourceId) {
      assert forall x :: x in s.selections ==> x.sourceId != sourceId;
      MergeNamesIs(r.action, [], r.tools);
      MergeNamesIs(r.action, [], r.mcpServers);
      NothingMerged(r.action, r.tools);
      NothingMerged(r.action, r.mcpServers);
    }
  }

  lemma NothingMerged(action: Action, selected: seq<string>)
    ensures MergeNames(action, [], selected) != [] <==> action.Add? && selected != []
  {
    hide MergeNames;
    var merged := MergeNames(action, [], selected);
    MergeNamesIs(action, [], selected);
    if merged != [] { assert merged[0] in merged; }
    if action.Add? && selected != [] { assert selected[0] in merged; }
  }

  lemma {:induction false} OthersCount(selections: seq<Selection>, sourceId: string)
    requires DistinctSources(selections)
    ensures |Others(selections, sourceId)|
         == |selections| - if exists i :: 0 <= i < |selections| && selections[i].sourceId == sourceId then 1 else 0
  {
    if selections != [] {
      var first, rest := selections[0], selections[1..];
      assert selections == [first] + rest;
      forall i, j | 0 <= i < j < |rest| ensures rest[i].sourceId != rest[j].sourceId {
        assert selections[i + 1].sourceId != selections[j + 1].sourceId;
      }
      OthersCount(rest, sourceId);
      if first.sourceId == sourceId {
        forall i | 0 <= i < |rest| ensures rest[i].sourceId != sourceId {
          assert selections[0].sourceId != selections[i + 1].sourceId;
        }
      } else if i :| 0 <= i < |rest| && rest[i].sourceId == sourceId {
        assert selections[i + 1].sourceId == sourceId;
      }
    }
  }

  /**
   * Every request gets exactly the answer its fields call for: an ill-formed one is refused; a known id is answered
   * without effect or refused; otherwise the revision has to be the current one and a new source must not be the 33rd,
   * and then the request takes effect.
   */
  lemma AnswerIs(host: Host, s: State, sourceId: string, r: Request)
    requires Normal(s)
    ensures
      var next, asked, known := NextState(host, s, sourceId, r), WellAsked(host, r), IdKnown(s, r.requestId);
      var current, room := s.revision == r.expectedRevision,
          !(r.action.Add? && !Attached(s, sourceId) && |s.selections| == 32);
      && (next == Err(InvalidRequest) <==> !asked)
      && (next == Err(RequestIdReused) || next == Ok((s, false)) <==> asked && known)
      && (next == Err(RevisionConflict) <==> asked && !known && !current)
      && (next == Err(TooManySources) <==> asked && !known && current && !room)
      && (Accepted(host, s, sourceId, r) <==> asked && !known && current && room)
  {
    hide WellAsked, ValidRequest, IdKnown, FindReceipt, Receipts, Unsorted, SortBySource, DigestOf, Attached, Normal;
    ValidIsWellAsked(host, r);
    KnownIsFound(s, r.requestId);
    if WellAsked(host, r) {
      SomethingAsked(host, r);
      ThirtyThirdSource(s, sourceId, r);
    }
  }

  lemma SomethingAsked(host: Host, r: Request)
    requires WellAsked(host, r)
    ensures r.tools != [] || r.mcpServers != []
  {
  }

  // ----- when two requests are the same change -----

  /** Equal source, reference and action, and the same names, in whatever order. */
  ghost predicate SameChange(sourceId: string, r: Request, otherId: string, other: Request) {
    && sourceId == otherId && r.sourceRef == other.sourceRef && r.action == other.action
    && (forall n :: n in r.tools <==> n in other.tools) && (forall n :: n in r.mcpServers <==> n in other.mcpServers)
  }

  lemma LeastIsFirst(xs: seq<string>, y: string)
    requires Sorted(xs) && y in xs
    ensures AtMost(xs[0], y)
  {
    hide AtMost;
    var i :| 0 <= i < |xs| && xs[i] == y;
    AtMostIsTotal(y, y);
    if i > 0 { assert AtMost(xs[0], xs[i]); }
  }

  lemma WithoutFirst(xs: seq<string>)
    requires xs != []
    ensures multiset(xs[1..]) == multiset(xs) - multiset{xs[0]}
  {
    assert xs == [xs[0]] + xs[1..];
  }

  lemma {:induction false} SortedIsUnique(xs: seq<string>, ys: seq<string>)
    requires Sorted(xs) && Sorted(ys) && multiset(xs) == multiset(ys)
    ensures xs == ys
  {
    hide *;
    SameElements(xs, ys);
    if xs == [] {
      assert ys == [];
    } else {
      assert xs[0] in ys && ys[0] in xs;
      LeastIsFirst(xs, ys[0]);
      LeastIsFirst(ys, xs[0]);
      AtMostIsAntisymmetric(xs[0], ys[0]);
      WithoutFirst(xs);
      WithoutFirst(ys);
      SortedTail(xs);
      SortedTail(ys);
      SortedIsUnique(xs[1..], ys[1..]);
      assert xs == [xs[0]] + xs[1..] && ys == [ys[0]] + ys[1..];
    }
  }

  lemma SortedTail(xs: seq<string>)
    requires Sorted(xs) && xs != []
    ensures Sorted(xs[1..])
  {
    hide AtMost;
    forall i, j | 0 <= i < j < |xs[1..]| ensures AtMost(xs[1..][i], xs[1..][j]) { assert AtMost(xs[i + 1], xs[j + 1]); }
  }

  lemma AtMostIsAntisymmetric(x: string, y: string)
    requires AtMost(x, y) && AtMost(y, x)
    ensures x == y
  {
    LessIsTotal(x, y);
  }

  /** Lists without repetition sort to the same list exactly when they hold the same names. */
  lemma SortsAlikeIff(xs: seq<string>, ys: seq<string>)
    requires Distinct(xs) && Distinct(ys)
    ensures Sort(xs) == Sort(ys) <==> forall n :: n in xs <==> n in ys
  {
    hide Sort, Distinct;
    SortSorts(xs);
    SortSorts(ys);
    if forall n :: n in xs <==> n in ys {
      DistinctIsMultiplicityOne(xs);
      DistinctIsMultiplicityOne(ys);
      forall n ensures multiset(xs)[n] == multiset(ys)[n] {
        assert n in xs <==> n in multiset(xs);
        assert n in ys <==> n in multiset(ys);
      }
      assert multiset(xs) == multiset(ys);
      SortedIsUnique(Sort(xs), Sort(ys));
    }
  }

  lemma DigestsAgreeIff(sourceId: string, r: Request, otherId: string, other: Request)
    requires GoodNames(r.tools) && GoodNames(r.mcpServers) && GoodNames(other.tools) && GoodNames(other.mcpServers)
    ensures DigestOf(sourceId, r) == DigestOf(otherId, other) <==> SameChange(sourceId, r, otherId, other)
  {
    hide Sort, Length;
    SortsAlikeIff(r.tools, other.tools);
    SortsAlikeIff(r.mcpServers, other.mcpServers);
  }

  /**
   * A used request id within the next 64 accepted requests: the same change is answered without effect, names in
   * whatever order, and any other one is refused.
   */
  lemma UsedIdIsJudged(host: Host, s: State, m: Message, between: seq<Message>, other: Message)
    requires Accepted(host, s, m.sourceId, m.request) && CountEffects(host, After(host, s, m), between) < 64
    requires WellAsked(host, other.request) && other.request.requestId == m.request.requestId
    ensures
      var now := RunFrom(host, After(host, s, m), between);
      NextState(host, now, other.sourceId, other.request)
      == if SameChange(m.sourceId, m.request, other.sourceId, other.request) then Ok((now, false))
         else Err(RequestIdReused)
  {
    hide ValidRequest, DigestOf, Unsorted, SortBySource, RunFrom, WellAsked, SameChange, Accepted, NextState;
    AcceptedIsWellAsked(host, s, m);
    WellAskedNames(host, m.request);
    WellAskedNames(host, other.request);
    ValidIsWellAsked(host, other.request);
    DigestsAgreeIff(m.sourceId, m.request, other.sourceId, other.request);
    RunRemembers(host, s, m, between);
    FoundReceipt(host, RunFrom(host, After(host, s, m), between), m, other,
                 CountEffects(host, After(host, s, m), between) + 1);
  }

  lemma WellAskedNames(host: Host, r: Request)
    requires WellAsked(host, r)
    ensures GoodNames(r.tools) && GoodNames(r.mcpServers)
  {
  }

  lemma AcceptedIsWellAsked(host: Host, s: State, m: Message)
    requires Accepted(host, s, m.sourceId, m.request)
    ensures WellAsked(host, m.request)
  {
    hide WellAsked, ValidRequest;
    ValidIsWellAsked(host, m.request);
  }

  lemma FoundReceipt(host: Host, now: State, m: Message, other: Message, age: nat)
    requires Remembered(now, Receipt(m.request.requestId, DigestOf(m.sourceId, m.request)), age)
    requires ValidRequest(host, other.request) && other.request.requestId == m.request.requestId
    ensures NextState(host, now, other.sourceId, other.request)
         == if DigestOf(m.sourceId, m.request) == DigestOf(other.sourceId, other.request) then Ok((now, false))
            else Err(RequestIdReused)
  {
    hide ValidRequest, DigestOf, Unsorted, SortBySource;
    var receipt := Receipt(m.request.requestId, DigestOf(m.sourceId, m.request));
    var p :| 0 <= p < |Receipts(now)| && Receipts(now)[p] == receipt
             && forall q :: 0 <= q < p ==> Receipts(now)[q].id != receipt.id;
    FindFirst(Receipts(now), receipt, p);
  }

  // ----- the state an accepted request leaves -----

  /** The locale order: never both ways, and what is not before something is not before anything it is after. */
  ghost predicate LawfulOrder(host: Host) {
    && (forall x, y :: host.before(x, y) ==> !host.before(y, x))
    && forall x, y, z :: !host.before(x, y) && !host.before(y, z) ==> !host.before(x, z)
  }

  /** No selection stands behind one that sorts after it. */
  ghost predicate InLocaleOrder(host: Host, xs: seq<Selection>) {
    forall i, j :: 0 <= i < j < |xs| ==> !host.before(xs[j].sourceId, xs[i].sourceId)
  }

  lemma {:induction false} InsertsInOrder(host: Host, x: Selection, xs: seq<Selection>)
    requires LawfulOrder(host) && InLocaleOrder(host, xs)
    ensures InLocaleOrder(host, InsertBySource(host, x, xs))
  {
    if xs != [] && !host.before(x.sourceId, xs[0].sourceId) {
      var rest, more := xs[1..], InsertBySource(host, x, xs[1..]);
      forall i, j | 0 <= i < j < |rest| ensures !host.before(rest[j].sourceId, rest[i].sourceId) {
        assert !host.before(xs[j + 1].sourceId, xs[i + 1].sourceId);
      }
      InsertsInOrder(host, x, rest);
      InsertKeeps(host, x, rest);
      forall j | 0 <= j < |more| ensures !host.before(more[j].sourceId, xs[0].sourceId) {
        assert more[j] in multiset(more);
        if more[j] != x {
          assert more[j] in rest;
          var k :| 0 <= k < |rest| && rest[k] == more[j];
          assert !host.before(xs[k + 1].sourceId, xs[0].sourceId);
        }
      }
    } else {
      forall j | 0 <= j < |xs| ensures !host.before(xs[j].sourceId, x.sourceId) {
        assert host.before(x.sourceId, xs[0].sourceId) && !host.before(xs[0].sourceId, x.sourceId);
        if j > 0 { assert !host.before(xs[j].sourceId, xs[0].sourceId); }
      }
    }
  }

  lemma {:induction false} SortsInOrder(host: Host, xs: seq<Selection>)
    requires LawfulOrder(host)
    ensures InLocaleOrder(host, SortBySource(host, xs))
  {
    if xs != [] {
      SortsInOrder(host, xs[..|xs| - 1]);
      InsertsInOrder(host, xs[|xs| - 1], SortBySource(host, xs[..|xs| - 1]));
    }
  }

  /**
   * What an accepted request stores besides the change itself (see `ChangeIsLocal`): the next revision, the selections
   * in locale order with their names sorted, and its receipt behind the last 63; it reports a change exactly when the
   * stored selections are others than before.
   */
  lemma AcceptedStateIs(host: Host, s: State, sourceId: string, r: Request)
    requires LawfulOrder(host) && Normal(s) && Accepted(host, s, sourceId, r)
    ensures
      var (s', changed) := NextState(host, s, sourceId, r).value;
      var receipts := Receipts(s) + [Receipt(r.requestId, DigestOf(sourceId, r))];
      && s'.revision == s.revision + 1 && InLocaleOrder(host, s'.selections)
      && Sorted(OldSelection(s', sourceId).tools) && Sorted(OldSelection(s', sourceId).mcpServers)
      && (changed <==> s'.selections != s.selections)
      && s'.requests == Some(if |receipts| <= 64 then receipts else receipts[|receipts| - 64..])
  {
    hide Unsorted, SortBySource, DigestOf, ValidRequest, FindReceipt, NewSelection, MergeNames, Normal;
    SortsInOrder(host, Unsorted(s, sourceId, r));
    NamesStaySorted(host, s, sourceId, r);
  }

  lemma NamesStaySorted(host: Host, s: State, sourceId: string, r: Request)
    requires Normal(s) && Accepted(host, s, sourceId, r)
    ensures
      var chosen := OldSelection(NextState(host, s, sourceId, r).value.0, sourceId);
      Sorted(chosen.tools) && Sorted(chosen.mcpServers)
  {
    hide MergeNames, ValidRequest, FindReceipt, DistinctSources;
    var old_ := OldSelection(s, sourceId);
    OldSelectionIsNormal(s, sourceId);
    MergeNamesIs(r.action, old_.tools, r.tools);
    MergeNamesIs(r.action, old_.mcpServers, r.mcpServers);
    UnsortedIs(s, sourceId, r);
    SortKeepsSelections(host, Unsorted(s, sourceId, r));
    SelectionOfIs(SortBySource(host, Unsorted(s, sourceId, r)), sourceId);
  }

  // ----- reading a stored state -----

  /** The limits a stored state has to keep. */
  ghost predicate WithinLimits(s: State) {
    && s.revision <= 9007199254740991 && |s.selections| <= 32
    && (forall i, j :: 0 <= i < j < |s.selections| ==> s.selections[i].sourceId != s.selections[j].sourceId)
    && (forall i :: 0 <= i < |s.selections| ==>
          && s.selections[i].sourceId != "" && Length(s.selections[i].sourceId) <= 500
          && (s.selections[i].sourceRef.Some? ==> Length(s.selections[i].sourceRef.value) <= 4096)
          && GoodNames(s.selections[i].tools) && GoodNames(s.selections[i].mcpServers))
    && (s.requests.Some? ==>
          |s.requests.value| <= 64
          && forall i :: 0 <= i < |s.requests.value| ==>
               s.requests.value[i].id != "" && Length(s.requests.value[i].id) <= 128)
  }

  /** The same selection, names sorted and an empty reference left out. */
  ghost predicate ReadAs(x: Selection, y: Selection) {
    && y.sourceId == x.sourceId && y.sourceRef == (if x.sourceRef == Some("") then None else x.sourceRef)
    && Sorted(y.tools) && multiset(y.tools) == multiset(x.tools)
    && Sorted(y.mcpServers) && multiset(y.mcpServers) == multiset(x.mcpServers)
  }

  /** A stored state is read exactly when it keeps the limits, and then loses and gains nothing. */
  lemma ReadingIs(s: State)
    ensures Normalize(s).Ok? <==> WithinLimits(s)
    ensures Normalize(s).Ok? ==>
              var t := Normalize(s).value;
              && t.revision == s.revision && t.requests == s.requests && |t.selections| == |s.selections|
              && forall i :: 0 <= i < |t.selections| ==> ReadAs(s.selections[i], t.selections[i])
  {
    hide Sort, Length, Sorted;
    forall i | 0 <= i < |s.selections| ensures ReadAs(s.selections[i], NormalizeSelection(s.selections[i])) {
      SortSorts(s.selections[i].tools);
      SortSorts(s.selections[i].mcpServers);
    }
  }
}
