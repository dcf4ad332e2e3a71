/** The durable capability selections of a session: revisioned changes, request receipts and well-formedness. */
module CapabilityState {
  import opened Text
  import opened Order

  const MAX_SAFE_INTEGER := 0x1F_FFFF_FFFF_FFFF
  const MAX_SOURCES := 32
  const MAX_NAMES := 64
  const MAX_RECEIPTS := 64

  datatype Action = Add | Remove

  datatype Selection = Selection(sourceId: string, sourceRef: Option<string>, tools: seq<string>,
      mcpServers: seq<string>)

  /** What the request hash is taken of. The hash is treated as injective: a receipt holds the hashed value itself. */
  datatype Digest = Digest(sourceId: string, sourceRef: string, action: Action, tools: seq<string>,
      mcpServers: seq<string>)

  datatype Receipt = Receipt(id: string, hash: Digest)

  datatype State = State(revision: nat, selections: seq<Selection>, requests: Option<seq<Receipt>>)

  datatype Request = Request(
    sourceRef: string, tools: seq<string>, mcpServers: seq<string>, action: Action,
    expectedRevision: nat, requestId: string)

  datatype Error = InvalidRequest | RequestIdReused | RevisionConflict | TooManySources | InvalidState

  /** String operations of the host: trimming, and the locale order (true when the first sorts strictly before). */
  datatype Host = Host(trim: string -> string, before: (string, string) -> bool)

  ghost predicate LawfulHost(host: Host) { host.trim("") == "" }

  // ----- well-formedness -----

  predicate ValidNames(names: seq<string>) {
    && |names| <= MAX_NAMES
    && (forall i :: 0 <= i < |names| ==> names[i] != "" && Length(names[i]) <= 200)
    && Distinct(names)
  }

  predicate ValidSelection(s: Selection) {
    && s.sourceId != "" && Length(s.sourceId) <= 500
    && (s.sourceRef.Some? ==> Length(s.sourceRef.value) <= 4096)
    && ValidNames(s.tools) && ValidNames(s.mcpServers)
  }

  predicate ValidReceipts(requests: seq<Receipt>) {
    |requests| <= MAX_RECEIPTS && forall i :: 0 <= i < |requests| ==>
        requests[i].id != "" && Length(requests[i].id) <= 128
  }

  predicate DistinctSources(selections: seq<Selection>) {
    forall i, j :: 0 <= i < j < |selections| ==> selections[i].sourceId != selections[j].sourceId
  }

  function NormalizeSelection(s: Selection): Selection {
    Selection(s.sourceId, if s.sourceRef == Some("") then None else s.sourceRef, Sort(s.tools), Sort(s.mcpServers))
  }

  /** Reading a stored state: refused unless every limit holds, names sorted, an empty reference dropped. */
  function Normalize(s: State): Result<State, Error> {
    if s.revision > MAX_SAFE_INTEGER || |s.selections| > MAX_SOURCES || !DistinctSources(s.selections)
       || (exists i :: 0 <= i < |s.selections| && !ValidSelection(s.selections[i]))
       || (s.requests.Some? && !ValidReceipts(s.requests.value))
    then Err(InvalidState)
    else Ok(s.(selections := seq(|s.selections|,
        i requires 0 <= i < |s.selections| => NormalizeSelection(s.selections[i]))))
  }

  ghost predicate NormalSelection(s: Selection) {
    ValidSelection(s) && s.sourceRef != Some("") && Sorted(s.tools) && Sorted(s.mcpServers)
  }

  ghost predicate Normal(s: State) {
    && s.revision <= MAX_SAFE_INTEGER && |s.selections| <= MAX_SOURCES && DistinctSources(s.selections)
    && (forall i :: 0 <= i < |s.selections| ==> NormalSelection(s.selections[i]))
    && (s.requests.Some? ==> ValidReceipts(s.requests.value))
  }

  /** The normal states are exactly the fixed points of reading. */
  lemma NormalIsFixedPoint(s: State)
    ensures Normalize(s) == Ok(s) <==> Normal(s)
  {
    hide ValidNames;
    forall i | 0 <= i < |s.selections|
      ensures NormalizeSelection(s.selections[i]) == s.selections[i] <==>
                Sorted(s.selections[i].tools) && Sorted(s.selections[i].mcpServers)
                && s.selections[i].sourceRef != Some("")
    {
      SortedIffSorts(s.selections[i].tools);
      SortedIffSorts(s.selections[i].mcpServers);
    }
    if Normalize(s) == Ok(s) {
      forall i | 0 <= i < |s.selections| ensures NormalSelection(s.selections[i]) {
        assert Normalize(s).value.selections[i] == NormalizeSelection(s.selections[i]);
      }
    }
    if Normal(s) {
      assert Normalize(s).value.selections == s.selections;
    }
  }

  lemma SortedIffSorts(xs: seq<string>)
    ensures Sorted(xs) <==> Sort(xs) == xs
  {
    SortSorts(xs);
    if Sorted(xs) { SortOfSorted(xs); }
  }

  // ----- one change -----

  predicate ValidRequest(host: Host, r: Request) {
    && r.expectedRevision <= MAX_SAFE_INTEGER
    && host.trim(r.requestId) != "" && Length(r.requestId) <= 128
    && ValidNames(r.tools) && ValidNames(r.mcpServers)
    && (r.tools != [] || r.mcpServers != [])
  }

  function DigestOf(sourceId: string, r: Request): Digest {
    Digest(sourceId, r.sourceRef, r.action, Sort(r.tools), Sort(r.mcpServers))
  }

  function FindReceipt(requests: seq<Receipt>, id: string): Option<Receipt> {
    if requests == [] then None
    else if requests[0].id == id then Some(requests[0])
    else FindReceipt(requests[1..], id)
  }

  function SelectionOf(selections: seq<Selection>, sourceId: string): Option<Selection> {
    if selections == [] then None
    else if selections[0].sourceId == sourceId then Some(selections[0])
    else SelectionOf(selections[1..], sourceId)
  }

  function Others(selections: seq<Selection>, sourceId: string): seq<Selection> {
    if selections == [] then []
    else if selections[0].sourceId == sourceId then Others(selections[1..], sourceId)
    else [selections[0]] + Others(selections[1..], sourceId)
  }

  function Minus(current: seq<string>, selected: seq<string>): seq<string> {
    if current == [] then []
    else if current[0] in selected then Minus(current[1..], selected)
    else [current[0]] + Minus(current[1..], selected)
  }

  function MergeNames(action: Action, current: seq<string>, selected: seq<string>): seq<string> {
    match action
    case Remove => Minus(current, selected)
    case Add => Sort(Dedup(current + selected))
  }

  function OldSelection(s: State, sourceId: string): Selection {
    match SelectionOf(s.selections, sourceId)
    case Some(old_) => old_
    case None => Selection(sourceId, None, [], [])
  }

  /** The changed selection; removing never moves what stays to a newer revision of its source. */
  function NewSelection(s: State, sourceId: string, r: Request): Selection {
    var old_ := OldSelection(s, sourceId);
    Selection(sourceId,
              if r.action.Remove? && old_.sourceRef.Some? then old_.sourceRef else Some(r.sourceRef),
              MergeNames(r.action, old_.tools, r.tools), MergeNames(r.action, old_.mcpServers, r.mcpServers))
  }

  predicate Remains(s: Selection) { s.tools != [] || s.mcpServers != [] }

  function InsertBySource(host: Host, x: Selection, xs: seq<Selection>): seq<Selection> {
    if xs == [] || host.before(x.sourceId, xs[0].sourceId) then [x] + xs
    else [xs[0]] + InsertBySource(host, x, xs[1..])
  }

  /** A stable sort by the locale order of the source ids. */
  function SortBySource(host: Host, xs: seq<Selection>): seq<Selection> {
    if xs == [] then []
    else InsertBySource(host, xs[|xs| - 1], SortBySource(host, xs[..|xs| - 1]))
  }

  function Unsorted(s: State, sourceId: string, r: Request): seq<Selection> {
    var selection := NewSelection(s, sourceId, r);
    Others(s.selections, sourceId) + if Remains(selection) then [selection] else []
  }

  function Receipts(s: State): seq<Receipt> { if s.requests.Some? then s.requests.value else [] }

  /** `slice(-64)` */
  function LastReceipts(requests: seq<Receipt>): seq<Receipt> {
    if |requests| <= MAX_RECEIPTS then requests else requests[|requests| - MAX_RECEIPTS..]
  }

  function NextState(host: Host, s: State, sourceId: string, r: Request): Result<(State, bool), Error> {
    if !ValidRequest(host, r) then Err(InvalidRequest)
    else
      match FindReceipt(Receipts(s), r.requestId)
      case Some(receipt) => if receipt.hash != DigestOf(sourceId, r) then Err(RequestIdReused) else Ok((s, false))
      case None =>
        if s.revision != r.expectedRevision then Err(RevisionConflict)
        else if |Unsorted(s, sourceId, r)| > MAX_SOURCES then Err(TooManySources)
        else
          var selections := SortBySource(host, Unsorted(s, sourceId, r));
          var requests := LastReceipts(Receipts(s) + [Receipt(r.requestId, DigestOf(sourceId, r))]);
          Ok((State(s.revision + 1, selections, Some(requests)), selections != s.selections))
  }

  predicate Accepted(host: Host, s: State, sourceId: string, r: Request) {
    var next := NextState(host, s, sourceId, r);
    next.Ok? && next.value.0.revision == s.revision + 1
  }

  // ----- what a change does -----

  lemma {:induction false} SortKeepsSelections(host: Host, xs: seq<Selection>)
    ensures multiset(SortBySource(host, xs)) == multiset(xs) && |SortBySource(host, xs)| == |xs|
    ensures forall x :: x in SortBySource(host, xs) <==> x in xs
  {
    if xs != [] {
      var init, last := xs[..|xs| - 1], xs[|xs| - 1];
      assert xs == init + [last];
      SortKeepsSelections(host, init);
      InsertKeeps(host, last, SortBySource(host, init));
    }
    SameElements(SortBySource(host, xs), xs);
  }

  lemma {:induction false} InsertKeeps(host: Host, x: Selection, xs: seq<Selection>)
    ensures multiset(InsertBySource(host, x, xs)) == multiset(xs) + multiset{x}
  {
    if xs != [] && !host.before(x.sourceId, xs[0].sourceId) {
      InsertKeeps(host, x, xs[1..]);
      assert xs == [xs[0]] + xs[1..];
    }
  }

  lemma {:induction false} OthersAre(selections: seq<Selection>, sourceId: string)
    ensures forall x :: x in Others(selections, sourceId) <==> x in selections && x.sourceId != sourceId
    ensures DistinctSources(selections) ==> DistinctSources(Others(selections, sourceId))
    ensures |Others(selections, sourceId)| <= |selections|
  {
    if selections != [] {
      var rest := selections[1..];
      assert selections == [selections[0]] + rest;
      OthersAre(rest, sourceId);
      if DistinctSources(selections) {
        forall i, j | 0 <= i < j < |rest| ensures rest[i].sourceId != rest[j].sourceId {
          assert selections[i + 1].sourceId != selections[j + 1].sourceId;
        }
        forall x | x in rest ensures x.sourceId != selections[0].sourceId {
          var i :| 0 <= i < |rest| && rest[i] == x;
          assert selections[0].sourceId != selections[i + 1].sourceId;
        }
      }
    }
  }

  /** Source ids are pairwise distinct exactly when equal ids mean the same entry, listed once. */
  lemma {:induction false} DistinctByMultiset(xs: seq<Selection>)
    ensures DistinctSources(xs) <==>
              (forall x :: x in xs ==> multiset(xs)[x] == 1)
              && forall x, y :: x in xs && y in xs && x.sourceId == y.sourceId ==> x == y
  {
    DistinctIsMultiplicityOne(xs);
    if DistinctSources(xs) {
      forall x, y | x in xs && y in xs && x.sourceId == y.sourceId ensures x == y {
        var i :| 0 <= i < |xs| && xs[i] == x;
        var j :| 0 <= j < |xs| && xs[j] == y;
      }
    }
  }

  lemma SortKeepsDistinctSources(host: Host, xs: seq<Selection>)
    ensures DistinctSources(SortBySource(host, xs)) <==> DistinctSources(xs)
  {
    SortKeepsSelections(host, xs);
    DistinctByMultiset(xs);
    DistinctByMultiset(SortBySource(host, xs));
  }

  lemma {:induction false} SelectionOfIs(selections: seq<Selection>, sourceId: string)
    ensures SelectionOf(selections, sourceId).Some? ==>
              SelectionOf(selections, sourceId).value in selections
                  && SelectionOf(selections, sourceId).value.sourceId == sourceId
    ensures SelectionOf(selections, sourceId).None? <==> forall x :: x in selections ==> x.sourceId != sourceId
    ensures DistinctSources(selections) ==>
              forall x :: x in selections && x.sourceId == sourceId ==> SelectionOf(selections, sourceId) == Some(x)
  {
    if selections != [] {
      assert selections == [selections[0]] + selections[1..];
      SelectionOfIs(selections[1..], sourceId);
      if DistinctSources(selections) {
        var rest := selections[1..];
        forall i, j | 0 <= i < j < |rest| ensures rest[i].sourceId != rest[j].sourceId {
          assert selections[i + 1].sourceId != selections[j + 1].sourceId;
        }
        forall x | x in rest ensures x.sourceId != selections[0].sourceId {
          var i :| 0 <= i < |rest| && rest[i] == x;
          assert selections[0].sourceId != selections[i + 1].sourceId;
        }
      }
    }
  }

  lemma UnsortedIs(s: State, sourceId: string, r: Request)
    requires DistinctSources(s.selections)
    ensures DistinctSources(Unsorted(s, sourceId, r))
    ensures forall x :: x in Unsorted(s, sourceId, r) <==>
              (x in s.selections && x.sourceId != sourceId)
              || (x == NewSelection(s, sourceId, r) && Remains(NewSelection(s, sourceId, r)))
  {
    hide MergeNames;
    OthersAre(s.selections, sourceId);
  }

  lemma {:induction false} MinusIs(current: seq<string>, selected: seq<string>)
    ensures forall n :: n in Minus(current, selected) <==> n in current && n !in selected
    ensures |Minus(current, selected)| <= |current|
  {
    if current != [] {
      assert current == [current[0]] + current[1..];
      MinusIs(current[1..], selected);
    }
  }

  lemma {:induction false} MinusKeepsDistinct(current: seq<string>, selected: seq<string>)
    requires Distinct(current)
    ensures Distinct(Minus(current, selected))
  {
    if current != [] {
      var rest := current[1..];
      forall i, j | 0 <= i < j < |rest| ensures rest[i] != rest[j] { assert current[i + 1] != current[j + 1]; }
      MinusKeepsDistinct(rest, selected);
      MinusIs(rest, selected);
      forall n | n in rest ensures n != current[0] {
        var i :| 0 <= i < |rest| && rest[i] == n;
        assert current[0] != current[i + 1];
      }
    }
  }

  lemma {:induction false} MinusKeepsSorted(current: seq<string>, selected: seq<string>)
    requires Sorted(current)
    ensures Sorted(Minus(current, selected))
  {
    hide AtMost;
    if current != [] {
      var rest, m := current[1..], Minus(current[1..], selected);
      forall i, j | 0 <= i < j < |rest| ensures AtMost(rest[i], rest[j]) {
        assert AtMost(current[i + 1], current[j + 1]);
      }
      MinusKeepsSorted(rest, selected);
      MinusIs(rest, selected);
      forall i | 0 <= i < |m| ensures AtMost(current[0], m[i]) {
        assert m[i] in rest;
        var j :| 0 <= j < |rest| && rest[j] == m[i];
        assert AtMost(current[0], current[j + 1]);
      }
    }
  }

  lemma MergeNamesIs(action: Action, current: seq<string>, selected: seq<string>)
    ensures forall n :: n in MergeNames(action, current, selected) <==>
              if action.Add? then n in current || n in selected else n in current && n !in selected
    ensures Distinct(current) ==> Distinct(MergeNames(action, current, selected))
    ensures Sorted(current) ==> Sorted(MergeNames(action, current, selected))
    ensures action.Remove? ==> |MergeNames(action, current, selected)| <= |current|
  {
    match action {
      case Remove =>
        MinusIs(current, selected);
        if Distinct(current) { MinusKeepsDistinct(current, selected); }
        if Sorted(current) { MinusKeepsSorted(current, selected); }
      case Add =>
        SortSorts(Dedup(current + selected));
        SortKeepsDistinct(Dedup(current + selected));
    }
  }

  /**
   * An accepted change adds to, or takes from, the exports of one source and leaves every other selection as it was;
   * the source leaves the list when nothing of it remains.
   */
  lemma ChangeIsLocal(host: Host, s: State, sourceId: string, r: Request)
    requires Normal(s) && Accepted(host, s, sourceId, r)
    ensures
      var s' := NextState(host, s, sourceId, r).value.0;
      var old_, new_ := OldSelection(s, sourceId), OldSelection(s', sourceId);
      && DistinctSources(s'.selections)
      && (forall id :: id != sourceId ==> SelectionOf(s'.selections, id) == SelectionOf(s.selections, id))
      && (forall n :: n in new_.tools <==>
            if r.action.Add? then n in old_.tools || n in r.tools else n in old_.tools && n !in r.tools)
      && (forall n :: n in new_.mcpServers <==>
            if r.action.Add? then n in old_.mcpServers || n in r.mcpServers
                else n in old_.mcpServers && n !in r.mcpServers)
      && (SelectionOf(s'.selections, sourceId).Some? <==> Remains(new_))
      && (Remains(new_) ==>
            new_.sourceRef == if r.action.Remove? && old_.sourceRef.Some? then old_.sourceRef else Some(r.sourceRef))
  {
    hide MergeNames, DistinctSources, NormalSelection, ValidRequest;
    var s' := NextState(host, s, sourceId, r).value.0;
    var unsorted, chosen := Unsorted(s, sourceId, r), NewSelection(s, sourceId, r);
    MergeNamesIs(r.action, OldSelection(s, sourceId).tools, r.tools);
    MergeNamesIs(r.action, OldSelection(s, sourceId).mcpServers, r.mcpServers);
    UnsortedIs(s, sourceId, r);
    SortKeepsSelections(host, unsorted);
    SortKeepsDistinctSources(host, unsorted);
    forall id | id != sourceId ensures SelectionOf(s'.selections, id) == SelectionOf(s.selections, id) {
      SelectionOfIs(s.selections, id);
      SelectionOfIs(s'.selections, id);
    }
    SelectionOfIs(s'.selections, sourceId);
    if Remains(chosen) { assert chosen in s'.selections; }
  }

  // ----- when the next state can be read back -----

  /** What a caller has to see to before the change: room for the merged names, and a usable id and reference. */
  predicate Fits(s: State, sourceId: string, r: Request) {
    var old_ := OldSelection(s, sourceId);
    var tools, servers := Dedup(old_.tools + r.tools), Dedup(old_.mcpServers + r.mcpServers);
    && s.revision < MAX_SAFE_INTEGER
    && (r.action.Add? ==> |tools| <= MAX_NAMES && |servers| <= MAX_NAMES)
    && (Remains(NewSelection(s, sourceId, r)) ==>
          sourceId != "" && Length(sourceId) <= 500
          && (r.action.Add? || old_.sourceRef.None? ==> r.sourceRef != "" && Length(r.sourceRef) <= 4096))
  }

  lemma MergedNamesFit(action: Action, current: seq<string>, selected: seq<string>)
    requires ValidNames(current) && Sorted(current) && ValidNames(selected)
    ensures Sorted(MergeNames(action, current, selected))
    ensures ValidNames(MergeNames(action, current, selected)) <==>
              (action.Add? ==> |Dedup(current + selected)| <= MAX_NAMES)
  {
    MergeNamesIs(action, current, selected);
    var merged := MergeNames(action, current, selected);
    if action.Add? { SortSorts(Dedup(current + selected)); }
    forall i | 0 <= i < |merged| ensures merged[i] != "" && Length(merged[i]) <= 200 {
      assert merged[i] in merged;
      assert merged[i] in current || merged[i] in selected;
    }
  }

  lemma OldSelectionIsNormal(s: State, sourceId: string)
    requires Normal(s)
    ensures
      var old_ := OldSelection(s, sourceId);
      && ValidNames(old_.tools) && ValidNames(old_.mcpServers) && Sorted(old_.tools) && Sorted(old_.mcpServers)
      && (old_.sourceRef.Some? ==> old_.sourceRef.value != "" && Length(old_.sourceRef.value) <= 4096)
  {
    SelectionOfIs(s.selections, sourceId);
  }

  lemma NewSelectionIsNormal(s: State, sourceId: string, r: Request)
    requires Normal(s) && ValidNames(r.tools) && ValidNames(r.mcpServers)
    requires s.revision < MAX_SAFE_INTEGER && Remains(NewSelection(s, sourceId, r))
    ensures NormalSelection(NewSelection(s, sourceId, r)) <==> Fits(s, sourceId, r)
  {
    hide ValidNames, MergeNames;
    var old_ := OldSelection(s, sourceId);
    OldSelectionIsNormal(s, sourceId);
    MergedNamesFit(r.action, old_.tools, r.tools);
    MergedNamesFit(r.action, old_.mcpServers, r.mcpServers);
  }

  lemma NothingRemains(s: State, sourceId: string, r: Request)
    requires ValidRequestNames(r) && !Remains(NewSelection(s, sourceId, r))
    ensures r.action.Remove?
  {
    if r.action.Add? {
      var old_ := OldSelection(s, sourceId);
      MergeNamesIs(Add, old_.tools, r.tools);
      MergeNamesIs(Add, old_.mcpServers, r.mcpServers);
      if r.tools != [] { HasElement(r.tools); } else { HasElement(r.mcpServers); }
    }
  }

  predicate ValidRequestNames(r: Request) { r.tools != [] || r.mcpServers != [] }

  /**
   * The merge does not look at the limit on names, so an accepted change can leave a state that can no longer be
   * read; it can be read back unchanged exactly when the request fits.
   */
  lemma NextStateIsNormalIff(host: Host, s: State, sourceId: string, r: Request)
    requires LawfulHost(host) && Normal(s) && Accepted(host, s, sourceId, r)
    ensures Normalize(NextState(host, s, sourceId, r).value.0) == Ok(NextState(host, s, sourceId, r).value.0)
            <==> Fits(s, sourceId, r)
  {
    hide NormalSelection, MergeNames, ValidNames, Fits, DistinctSources;
    var s' := NextState(host, s, sourceId, r).value.0;
    var chosen := NewSelection(s, sourceId, r);
    NormalIsFixedPoint(s');
    UnsortedIs(s, sourceId, r);
    SortKeepsSelections(host, Unsorted(s, sourceId, r));
    SortKeepsDistinctSources(host, Unsorted(s, sourceId, r));
    ReceiptsStayValid(s, sourceId, r);
    SelectionsStayNormal(host, s, sourceId, r, s'.selections);
    FitsCases(s, sourceId, r);
    if Remains(chosen) {
      if s.revision < MAX_SAFE_INTEGER { NewSelectionIsNormal(s, sourceId, r); }
    } else {
      NothingRemains(s, sourceId, r);
    }
  }

  lemma FitsCases(s: State, sourceId: string, r: Request)
    ensures Fits(s, sourceId, r) ==> s.revision < MAX_SAFE_INTEGER
    ensures s.revision < MAX_SAFE_INTEGER && r.action.Remove? && !Remains(NewSelection(s, sourceId, r)) ==>
        Fits(s, sourceId, r)
  {
  }

  lemma ReceiptsStayValid(s: State, sourceId: string, r: Request)
    requires (s.requests.Some? ==> ValidReceipts(s.requests.value)) && r.requestId != "" && Length(r.requestId) <= 128
    ensures ValidReceipts(LastReceipts(Receipts(s) + [Receipt(r.requestId, DigestOf(sourceId, r))]))
  {
    hide Length, DigestOf;
  }

  lemma SelectionsStayNormal(host: Host, s: State, sourceId: string, r: Request, selections: seq<Selection>)
    requires Normal(s)
    requires forall x :: x in selections <==>
               (x in s.selections && x.sourceId != sourceId)
               || (x == NewSelection(s, sourceId, r) && Remains(NewSelection(s, sourceId, r)))
    ensures (forall i :: 0 <= i < |selections| ==> NormalSelection(selections[i]))
            <==> (Remains(NewSelection(s, sourceId, r)) ==> NormalSelection(NewSelection(s, sourceId, r)))
  {
    hide NormalSelection, NewSelection, DistinctSources;
    var chosen := NewSelection(s, sourceId, r);
    if Remains(chosen) { assert chosen in selections; }
    if Remains(chosen) ==> NormalSelection(chosen) {
      forall i | 0 <= i < |selections| ensures NormalSelection(selections[i]) { assert selections[i] in selections; }
    }
  }

  /** One export more than 64 of a source is accepted, and the state it leaves is refused when read. */
  lemma SixtyFifthExportLocksTheState(host: Host) returns (s: State, r: Request)
    requires host.trim("q") != ""
    ensures Normalize(s) == Ok(s)
    ensures Accepted(host, s, "source", r)
    ensures Normalize(NextState(host, s, "source", r).value.0) == Err(InvalidState)
  {
    hide *;
    var names := SixtyFourNames();
    s := State(0, [Selection("source", Some("ref"), names, [])], None);
    r := Request("ref", ["zz"], [], Add, 0, "q");
    FullSourceIsNormal(s, names);
    FullSourceLocks(host, s, r, names);
  }

  lemma FullSourceLocks(host: Host, s: State, r: Request, names: seq<string>)
    requires s == State(0, [Selection("source", Some("ref"), names, [])], None)
        && r == Request("ref", ["zz"], [], Add, 0, "q")
    requires |names| == 64 && Distinct(names) && "zz" !in names && host.trim("q") != ""
    ensures Accepted(host, s, "source", r)
    ensures Normalize(NextState(host, s, "source", r).value.0) == Err(InvalidState)
  {
    hide ValidNames, NewSelection, Unsorted, NextState, Normalize;
    FullSourceGrows(s, r, names);
    var chosen := NewSelection(s, "source", r);
    LockingStep(host, s, r, chosen);
    TooManyNames(NextState(host, s, "source", r).value.0, chosen);
  }

  lemma LockingStep(host: Host, s: State, r: Request, chosen: Selection)
    requires s.requests.None? && s.revision == 0 && Unsorted(s, "source", r) == [chosen]
    requires r == Request("ref", ["zz"], [], Add, 0, "q") && host.trim("q") != ""
    ensures NextState(host, s, "source", r)
         == Ok((State(1, [chosen], Some([Receipt("q", DigestOf("source", r))])), [chosen] != s.selections))
  {
    hide Unsorted;
    SortOfOne(host, chosen);
    assert ValidNames(r.tools) && ValidNames(r.mcpServers);
    assert [] + [Receipt("q", DigestOf("source", r))] == [Receipt("q", DigestOf("source", r))];
  }

  lemma FullSourceIsNormal(s: State, names: seq<string>)
    requires s == State(0, [Selection("source", Some("ref"), names, [])], None)
    requires ValidNames(names) && Sorted(names)
    ensures Normalize(s) == Ok(s)
  {
    assert NormalSelection(s.selections[0]);
    NormalIsFixedPoint(s);
  }

  lemma TooManyNames(s: State, x: Selection)
    requires s.selections == [x] && |x.tools| > MAX_NAMES
    ensures Normalize(s) == Err(InvalidState)
  {
    assert !ValidSelection(s.selections[0]);
  }

  lemma SixtyFourNames() returns (names: seq<string>)
    ensures |names| == 64 && ValidNames(names) && Distinct(names) && Sorted(names) && "zz" !in names
  {
    names := seq(64, i requires 0 <= i < 64 => ['A' + i as char]);
    forall i, j | 0 <= i < j < 64 ensures AtMost(names[i], names[j]) && names[i] != names[j] {
      assert names[i][0] < names[j][0];
    }
  }

  lemma FullSourceGrows(s: State, r: Request, names: seq<string>)
    requires s == State(0, [Selection("source", Some("ref"), names, [])], None)
        && r == Request("ref", ["zz"], [], Add, 0, "q")
    requires |names| == 64 && Distinct(names) && "zz" !in names
    ensures |NewSelection(s, "source", r).tools| == 65 && Unsorted(s, "source", r) == [NewSelection(s, "source", r)]
  {
    hide Sort;
    assert s.selections[1..] == [];
    DedupOfDistinct(names);
    DedupSnoc(names, "zz");
    SortSorts(Dedup(names + ["zz"]));
    assert OldSelection(s, "source") == s.selections[0];
    var chosen := NewSelection(s, "source", r);
    assert chosen.tools == Sort(Dedup(names + ["zz"])) && Dedup(names + ["zz"]) == names + ["zz"];
    assert Others(s.selections, "source") == [];
  }

  lemma SortOfOne(host: Host, x: Selection)
    ensures SortBySource(host, [x]) == [x]
  {
    assert [x][..0] == [];
  }

  // ----- whole runs -----

  datatype Message = Message(sourceId: string, request: Request)

  function After(host: Host, s: State, m: Message): State {
    var next := NextState(host, s, m.sourceId, m.request);
    if next.Ok? then next.value.0 else s
  }

  function RunFrom(host: Host, s: State, run: seq<Message>): State {
    if run == [] then s else After(host, RunFrom(host, s, run[..|run| - 1]), run[|run| - 1])
  }

  /** Message k of the run takes effect. */
  predicate TakesEffect(host: Host, s: State, run: seq<Message>, k: nat)
    requires k < |run|
  {
    Accepted(host, RunFrom(host, s, run[..k]), run[k].sourceId, run[k].request)
  }

  function CountEffects(host: Host, s: State, run: seq<Message>): nat {
    if run == [] then 0
    else CountEffects(host, s, run[..|run| - 1]) + if TakesEffect(host, s, run, |run| - 1) then 1 else 0
  }

  lemma StepRevision(host: Host, s: State, m: Message)
    ensures After(host, s, m).revision == s.revision + if Accepted(host, s, m.sourceId, m.request) then 1 else 0
    ensures Accepted(host, s, m.sourceId, m.request) ==> s.revision == m.request.expectedRevision
    ensures !Accepted(host, s, m.sourceId, m.request) ==> After(host, s, m) == s
  {
    hide ValidRequest, Unsorted, SortBySource, FindReceipt;
  }

  /** In every run the revision counts the requests that took effect. */
  lemma {:induction false} RevisionCountsEffects(host: Host, s: State, run: seq<Message>)
    ensures RunFrom(host, s, run).revision == s.revision + CountEffects(host, s, run)
  {
    if run != [] {
      RevisionCountsEffects(host, s, run[..|run| - 1]);
      StepRevision(host, RunFrom(host, s, run[..|run| - 1]), run[|run| - 1]);
    }
  }

  lemma {:induction false} RevisionNeverFalls(host: Host, s: State, run: seq<Message>, k: nat)
    requires k <= |run|
    ensures RunFrom(host, s, run[..k]).revision <= RunFrom(host, s, run).revision
    decreases |run|
  {
    if k == |run| {
      assert run[..k] == run;
    } else {
      var init := run[..|run| - 1];
      RevisionNeverFalls(host, s, init, k);
      assert init[..k] == run[..k];
      StepRevision(host, RunFrom(host, s, init), run[|run| - 1]);
    }
  }

  /** The same message takes effect at most once in a run, however long its receipt has been forgotten. */
  lemma SameMessageOnce(host: Host, s: State, run: seq<Message>, i: nat, j: nat)
    requires i < j < |run| && run[i] == run[j] && TakesEffect(host, s, run, i)
    ensures !TakesEffect(host, s, run, j)
  {
    var si, sj := RunFrom(host, s, run[..i]), RunFrom(host, s, run[..j]);
    StepRevision(host, si, run[i]);
    assert run[..i + 1][..i] == run[..i];
    RevisionNeverFalls(host, s, run[..j], i + 1);
    assert run[..j][..i + 1] == run[..i + 1];
    StepRevision(host, sj, run[j]);
  }

  // ----- which runs stay readable -----

  /** Every message that takes effect fits the state it finds. */
  ghost predicate FitsThroughout(host: Host, s: State, run: seq<Message>) {
    forall k :: 0 <= k < |run| && TakesEffect(host, s, run, k) ==>
      Fits(RunFrom(host, s, run[..k]), run[k].sourceId, run[k].request)
  }

  /** Every state reached on the way can be read back unchanged. */
  ghost predicate ReadableThroughout(host: Host, s: State, run: seq<Message>) {
    forall k :: 0 <= k <= |run| ==> Normalize(RunFrom(host, s, run[..k])) == Ok(RunFrom(host, s, run[..k]))
  }

  lemma StepStaysReadable(host: Host, s: State, m: Message)
    requires LawfulHost(host) && Normalize(s) == Ok(s)
    ensures Normalize(After(host, s, m)) == Ok(After(host, s, m))
            <==> (Accepted(host, s, m.sourceId, m.request) ==> Fits(s, m.sourceId, m.request))
  {
    hide Normalize, NextState, Fits, Normal, Accepted;
    NormalIsFixedPoint(s);
    AfterIs(host, s, m);
    if Accepted(host, s, m.sourceId, m.request) {
      NextStateIsNormalIff(host, s, m.sourceId, m.request);
    }
  }

  lemma AfterIs(host: Host, s: State, m: Message)
    ensures if Accepted(host, s, m.sourceId, m.request)
            then NextState(host, s, m.sourceId, m.request).Ok?
                 && After(host, s, m) == NextState(host, s, m.sourceId, m.request).value.0
            else After(host, s, m) == s
  {
    StepRevision(host, s, m);
  }

  /**
   * From a readable state all states of a run are readable exactly when every message that takes effect fits; the
   * first misfit is where the run leaves the readable states.
   */
  lemma {:induction false} RunsStayReadableIff(host: Host, s: State, run: seq<Message>)
    requires LawfulHost(host) && Normalize(s) == Ok(s)
    ensures ReadableThroughout(host, s, run) <==> FitsThroughout(host, s, run)
  {
    hide Normalize, After, Fits, TakesEffect;
    if run == [] {
      assert run[..0] == [];
    } else {
      var init := run[..|run| - 1];
      RunsStayReadableIff(host, s, init);
      ThroughoutInit(host, s, run);
      if ReadableThroughout(host, s, init) {
        assert init[..|init|] == init;
        StepStaysReadable(host, RunFrom(host, s, init), run[|run| - 1]);
        EffectOfLast(host, s, run);
      }
    }
  }

  lemma EffectOfLast(host: Host, s: State, run: seq<Message>)
    requires run != []
    ensures
      var before, last := RunFrom(host, s, run[..|run| - 1]), run[|run| - 1];
      && TakesEffect(host, s, run, |run| - 1) == Accepted(host, before, last.sourceId, last.request)
      && RunFrom(host, s, run) == After(host, before, last)
  {
  }

  lemma ThroughoutInit(host: Host, s: State, run: seq<Message>)
    requires run != []
    ensures
      var init, n := run[..|run| - 1], |run| - 1;
      && (ReadableThroughout(host, s, run)
          <==> ReadableThroughout(host, s, init) && Normalize(RunFrom(host, s, run)) == Ok(RunFrom(host, s, run)))
      && (FitsThroughout(host, s, run)
          <==> FitsThroughout(host, s, init)
               && (TakesEffect(host, s, run, n) ==> Fits(RunFrom(host, s, init), run[n].sourceId, run[n].request)))
  {
    hide Normalize, RunFrom, Fits, Accepted;
    var init := run[..|run| - 1];
    assert run[..|run|] == run;
    forall k | 0 <= k <= |init| ensures run[..k] == init[..k] {}
    forall k | 0 <= k < |init| ensures TakesEffect(host, s, run, k) == TakesEffect(host, s, init, k) {}
  }

  /** The first misfit leaves the readable states. */
  lemma FirstMisfitLocks(host: Host, s: State, run: seq<Message>, k: nat)
    requires LawfulHost(host) && Normalize(s) == Ok(s) && k < |run| && FitsThroughout(host, s, run[..k])
    requires TakesEffect(host, s, run, k) && !Fits(RunFrom(host, s, run[..k]), run[k].sourceId, run[k].request)
    ensures ReadableThroughout(host, s, run[..k])
    ensures Normalize(RunFrom(host, s, run[..k + 1])) != Ok(RunFrom(host, s, run[..k + 1]))
  {
    hide Normalize, Fits, Accepted, After;
    RunsStayReadableIff(host, s, run[..k]);
    assert run[..k][..k] == run[..k] && run[..k + 1][..k] == run[..k];
    StepStaysReadable(host, RunFrom(host, s, run[..k]), run[k]);
  }

  // ----- the receipt window -----

  /** The first receipt under this id stands at place p, at most `age` places from the end. */
  ghost predicate Remembered(s: State, receipt: Receipt, age: nat) {
    exists p :: 0 <= p < |Receipts(s)| && Receipts(s)[p] == receipt && |Receipts(s)| - p <= age
                && forall q :: 0 <= q < p ==> Receipts(s)[q].id != receipt.id
  }

  lemma {:induction false} FindFirst(requests: seq<Receipt>, receipt: Receipt, p: nat)
    requires p < |requests| && requests[p] == receipt && forall q :: 0 <= q < p ==> requests[q].id != receipt.id
    ensures FindReceipt(requests, receipt.id) == Some(receipt)
  {
    if p > 0 { FindFirst(requests[1..], receipt, p - 1); }
  }

  lemma {:induction false} FindNone(requests: seq<Receipt>, id: string)
    ensures FindReceipt(requests, id).None? <==> forall q :: 0 <= q < |requests| ==> requests[q].id != id
  {
    if requests != [] { FindNone(requests[1..], id); }
  }

  lemma StepRemembers(host: Host, s: State, m: Message, receipt: Receipt, age: nat)
    requires Remembered(s, receipt, age)
    ensures !Accepted(host, s, m.sourceId, m.request) ==> Remembered(After(host, s, m), receipt, age)
    ensures Accepted(host, s, m.sourceId, m.request) && age < MAX_RECEIPTS ==>
        Remembered(After(host, s, m), receipt, age + 1)
  {
    hide ValidRequest, Unsorted, SortBySource, DigestOf;
    StepRevision(host, s, m);
    if Accepted(host, s, m.sourceId, m.request) && age < MAX_RECEIPTS {
      var s' := After(host, s, m);
      var all := Receipts(s) + [Receipt(m.request.requestId, DigestOf(m.sourceId, m.request))];
      var p :| 0 <= p < |Receipts(s)| && Receipts(s)[p] == receipt && |Receipts(s)| - p <= age
               && forall q :: 0 <= q < p ==> Receipts(s)[q].id != receipt.id;
      var cut := |all| - |LastReceipts(all)|;
      assert Receipts(s') == LastReceipts(all) == all[cut..];
      assert Receipts(s')[p - cut] == receipt;
      assert forall q :: 0 <= q < p - cut ==> Receipts(s')[q] == Receipts(s)[q + cut];
    }
  }

  /** Repeating an accepted request is answered without effect until 64 further requests were accepted. */
  lemma {:induction false} RetryIsAnswered(host: Host, s: State, m: Message, between: seq<Message>)
    requires Accepted(host, s, m.sourceId, m.request)
    requires CountEffects(host, After(host, s, m), between) < MAX_RECEIPTS
    ensures
      var now := RunFrom(host, After(host, s, m), between);
      NextState(host, now, m.sourceId, m.request) == Ok((now, false))
  {
    hide DigestOf, Unsorted, SortBySource, RunFrom;
    var receipt := Receipt(m.request.requestId, DigestOf(m.sourceId, m.request));
    RunRemembers(host, s, m, between);
    var now := RunFrom(host, After(host, s, m), between);
    var age := CountEffects(host, After(host, s, m), between) + 1;
    var p :| 0 <= p < |Receipts(now)| && Receipts(now)[p] == receipt && |Receipts(now)| - p <= age
             && forall q :: 0 <= q < p ==> Receipts(now)[q].id != receipt.id;
    FindFirst(Receipts(now), receipt, p);
  }

  /** Within the same window a different change under the same request id is refused. */
  lemma ReusedIdIsRefused(host: Host, s: State, m: Message, between: seq<Message>, other: Message)
    requires Accepted(host, s, m.sourceId, m.request)
    requires CountEffects(host, After(host, s, m), between) < MAX_RECEIPTS
    requires ValidRequest(host, other.request) && other.request.requestId == m.request.requestId
    requires DigestOf(other.sourceId, other.request) != DigestOf(m.sourceId, m.request)
    ensures NextState(host, RunFrom(host, After(host, s, m), between), other.sourceId, other.request)
        == Err(RequestIdReused)
  {
    hide ValidRequest, DigestOf, Unsorted, SortBySource;
    var receipt := Receipt(m.request.requestId, DigestOf(m.sourceId, m.request));
    RunRemembers(host, s, m, between);
    var now := RunFrom(host, After(host, s, m), between);
    var p :| 0 <= p < |Receipts(now)| && Receipts(now)[p] == receipt
             && forall q :: 0 <= q < p ==> Receipts(now)[q].id != receipt.id;
    FindFirst(Receipts(now), receipt, p);
  }

  lemma {:induction false} RunRemembers(host: Host, s: State, m: Message, between: seq<Message>)
    requires Accepted(host, s, m.sourceId, m.request)
    requires CountEffects(host, After(host, s, m), between) < MAX_RECEIPTS
    ensures Remembered(RunFrom(host, After(host, s, m), between),
                       Receipt(m.request.requestId, DigestOf(m.sourceId, m.request)),
                       CountEffects(host, After(host, s, m), between) + 1)
  {
    hide NextState, DigestOf;
    var s' := After(host, s, m);
    if between == [] {
      FreshlyRemembered(host, s, m);
    } else {
      var init, last := between[..|between| - 1], between[|between| - 1];
      RunRemembers(host, s, m, init);
      StepRemembers(host, RunFrom(host, s', init), last,
                    Receipt(m.request.requestId, DigestOf(m.sourceId, m.request)), CountEffects(host, s', init) + 1);
    }
  }

  lemma FreshlyRemembered(host: Host, s: State, m: Message)
    requires Accepted(host, s, m.sourceId, m.request)
    ensures Remembered(After(host, s, m), Receipt(m.request.requestId, DigestOf(m.sourceId, m.request)), 1)
  {
    hide ValidRequest, Unsorted, SortBySource, DigestOf;
    FindNone(Receipts(s), m.request.requestId);
    var s' := After(host, s, m);
    var all := Receipts(s) + [Receipt(m.request.requestId, DigestOf(m.sourceId, m.request))];
    var cut := |all| - |LastReceipts(all)|;
    assert Receipts(s') == all[cut..];
    var p := |Receipts(s')| - 1;
    assert Receipts(s')[p] == all[|all| - 1];
    assert forall q :: 0 <= q < p ==> Receipts(s')[q] == Receipts(s)[q + cut];
  }
}
