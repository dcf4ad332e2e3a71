/** Evidence-aware reinforcement of one graph edge: confidences combine as independent observations. */
module EdgeEvidence {
  import opened Text
  import opened Order

  type ScopeKey = string

  datatype Edge = Edge(confidence: real, observations: nat, evidence: seq<ScopeKey>)

  datatype Assertion = Assertion(confidence: Option<real>, evidence: seq<ScopeKey>)

  datatype Decision = Create(edge: Edge) | Reinforce(edge: Edge) | Noop(edge: Edge)

  function Clamp01(x: real): (r: real)
    ensures 0.0 <= r <= 1.0
    ensures 0.0 <= x <= 1.0 ==> r == x
  {
    if x < 0.0 then 0.0 else if x > 1.0 then 1.0 else x
  }

  /** The chance that two independent doubts are both right. */
  function Both(u: real, v: real): real { u * v }

  function ReinforceConfidence(existing: real, observation: real): real {
    1.0 - Both(1.0 - Clamp01(existing), 1.0 - Clamp01(observation))
  }

  /** Reinforcing stays a probability and never lowers either observation. */
  lemma ReinforcementIsMonotone(x: real, y: real)
    requires 0.0 <= x <= 1.0 && 0.0 <= y <= 1.0
    ensures x <= ReinforceConfidence(x, y) <= 1.0 && y <= ReinforceConfidence(x, y)
    ensures ReinforceConfidence(x, y) == x + y - x * y
    ensures 1.0 - ReinforceConfidence(x, y) == Both(1.0 - x, 1.0 - y)
  {
    Shrink(1.0 - x, 1.0 - y);
  }

  lemma Shrink(u: real, v: real)
    requires 0.0 <= u <= 1.0 && 0.0 <= v <= 1.0
    ensures 0.0 <= Both(u, v) <= u && Both(u, v) <= v
  {
    NotNegative(u, v);
    NotNegative(u, 1.0 - v);
    NotNegative(v, 1.0 - u);
    assert u * (1.0 - v) == u - u * v && v * (1.0 - u) == v - u * v;
  }

  lemma NotNegative(x: real, y: real)
    requires x >= 0.0 && y >= 0.0
    ensures x * y >= 0.0
  {
  }

  /** The elements of xs that are not in known, in order. */
  function Novel(xs: seq<ScopeKey>, known: seq<ScopeKey>): (r: seq<ScopeKey>)
    ensures forall x :: x in r <==> x in xs && x !in known
    ensures Distinct(xs) ==> Distinct(r)
  {
    if xs == [] then []
    else
      var rest := Novel(xs[1..], known);
      assert xs == [xs[0]] + xs[1..];
      assert Distinct(xs) ==> Distinct(xs[1..]) && xs[0] !in xs[1..] by {
        if Distinct(xs) { TailIsDistinct(xs); }
      }
      if xs[0] in known then rest else [xs[0]] + rest
  }

  lemma TailIsDistinct<T>(xs: seq<T>)
    requires Distinct(xs) && xs != []
    ensures Distinct(xs[1..]) && xs[0] !in xs[1..]
  {
    forall i, j | 0 <= i < j < |xs[1..]| ensures xs[1..][i] != xs[1..][j] {
      assert xs[i + 1] != xs[j + 1];
    }
  }

  lemma ConcatIsDistinct<T>(xs: seq<T>, ys: seq<T>)
    requires Distinct(xs) && Distinct(ys) && forall y :: y in ys ==> y !in xs
    ensures Distinct(xs + ys)
  {
    var zs := xs + ys;
    forall i, j | 0 <= i < j < |zs| ensures zs[i] != zs[j] {
      if i < |xs| <= j { assert zs[j] in ys && zs[i] in xs; }
    }
  }

  /** What an assertion without a confidence is taken to say: certainty. */
  function Observed(a: Assertion): real { Clamp01(if a.confidence.Some? then a.confidence.value else 1.0) }

  function DecideEdgeUpsert(input: Assertion, existing: Option<Edge>): Decision {
    var observed := Observed(input);
    var incoming := Dedup(input.evidence);
    match existing
    case None => Create(Edge(observed, 1, incoming))
    case Some(edge) =>
      var novel := Novel(incoming, edge.evidence);
      if incoming != [] && novel == [] then Noop(edge)
      else Reinforce(Edge(ReinforceConfidence(edge.confidence, observed), edge.observations + 1, edge.evidence + novel))
  }

  /** What every stored edge satisfies. */
  ghost predicate GoodEdge(e: Edge) {
    0.0 <= e.confidence <= 1.0 && e.observations >= 1 && Distinct(e.evidence)
  }

  lemma DecisionIsGood(input: Assertion, existing: Option<Edge>)
    requires existing.Some? ==> GoodEdge(existing.value)
    ensures GoodEdge(DecideEdgeUpsert(input, existing).edge)
    ensures existing.Some? ==> DecideEdgeUpsert(input, existing).edge.confidence >= existing.value.confidence
    ensures existing.Some? ==> existing.value.evidence <= DecideEdgeUpsert(input, existing).edge.evidence
    ensures forall k :: k in DecideEdgeUpsert(input, existing).edge.evidence <==>
              k in input.evidence || (existing.Some? && k in existing.value.evidence)
  {
    if existing.Some? {
      var incoming := Dedup(input.evidence);
      var novel := Novel(incoming, existing.value.evidence);
      ConcatIsDistinct(existing.value.evidence, novel);
      ReinforcementIsMonotone(existing.value.confidence,
                              Observed(input));
    }
  }

  /** What a stated confidence counts for: itself within [0, 1], the nearer bound outside, certainty if unstated. */
  ghost predicate CountsFor(stated: Option<real>, c: real) {
    match stated
    case None => c == 1.0
    case Some(x) => c == if x <= 0.0 then 0.0 else if x >= 1.0 then 1.0 else x
  }

  lemma ObservedCounts(a: Assertion)
    ensures CountsFor(a.confidence, Observed(a)) && 0.0 <= Observed(a) <= 1.0
  {
  }

  /** An assertion reinforces exactly when it brings a new piece of evidence or none at all; else it changes nothing. */
  lemma ReinforcesIffNovel(a: Assertion, e: Edge, c: real)
    requires GoodEdge(e) && CountsFor(a.confidence, c)
    ensures
      var d := DecideEdgeUpsert(a, Some(e));
      && (d.Noop? <==> a.evidence != [] && forall k :: k in a.evidence ==> k in e.evidence)
      && (d.Noop? ==> d.edge == e)
      && (!d.Noop? ==> d.Reinforce? && d.edge.observations == e.observations + 1
                       && d.edge.confidence == e.confidence + c - e.confidence * c)
  {
    hide ReinforceConfidence;
    var incoming := Dedup(a.evidence);
    var novel := Novel(incoming, e.evidence);
    if a.evidence != [] { assert a.evidence[0] in incoming; }
    if novel != [] { assert novel[0] in novel; }
    ObservedCounts(a);
    ReinforcementIsMonotone(e.confidence, Observed(a));
  }

  /** A first assertion leaves its own confidence, one observation and its evidence, each piece once, in order. */
  lemma FirstAssertionCreates(a: Assertion, c: real)
    requires CountsFor(a.confidence, c)
    ensures DecideEdgeUpsert(a, None) == Create(Edge(c, 1, Dedup(a.evidence)))
  {
    ObservedCounts(a);
  }

  /** The evidence of an edge grows at the end, by what is new, in the order in which it is asserted. */
  lemma EvidenceGrowsInOrder(a: Assertion, e: Edge)
    requires GoodEdge(e)
    ensures DecideEdgeUpsert(a, Some(e)).edge.evidence == Dedup(e.evidence + a.evidence)
  {
    hide ReinforceConfidence, Distinct;
    DedupOfDistinct(e.evidence);
    NovelIsTheRest(e.evidence, a.evidence);
    NovelOfDedup(a.evidence, e.evidence);
    if DecideEdgeUpsert(a, Some(e)).Noop? { assert Novel(Dedup(a.evidence), e.evidence) == []; }
  }

  lemma NothingNovel(known: seq<ScopeKey>)
    ensures Novel([], known) == [] && Dedup<ScopeKey>([]) == []
  {
  }

  lemma NovelCons(x: ScopeKey, xs: seq<ScopeKey>, known: seq<ScopeKey>)
    ensures Novel([x] + xs, known) == (if x in known then [] else [x]) + Novel(xs, known)
  {
    assert ([x] + xs)[1..] == xs;
  }

  lemma {:induction false} NovelSnoc(xs: seq<ScopeKey>, x: ScopeKey, known: seq<ScopeKey>)
    ensures Novel(xs + [x], known) == Novel(xs, known) + if x in known then [] else [x]
  {
    hide *;
    var tail := if x in known then [] else [x];
    if xs == [] {
      NovelCons(x, [], known);
      NothingNovel(known);
      assert [] + [x] == [x] + [] && tail + [] == [] + tail;
    } else {
      var first := if xs[0] in known then [] else [xs[0]];
      NovelSnoc(xs[1..], x, known);
      NovelCons(xs[0], xs[1..], known);
      NovelCons(xs[0], xs[1..] + [x], known);
      assert xs == [xs[0]] + xs[1..] && xs + [x] == [xs[0]] + (xs[1..] + [x]);
      assert first + (Novel(xs[1..], known) + tail) == (first + Novel(xs[1..], known)) + tail;
    }
  }

  lemma {:induction false} NovelOfDedup(xs: seq<ScopeKey>, known: seq<ScopeKey>)
    ensures Novel(Dedup(xs), known) == Dedup(Novel(xs, known))
  {
    hide *;
    if xs == [] {
      NothingNovel(known);
    } else {
      var init, last := xs[..|xs| - 1], xs[|xs| - 1];
      assert xs == init + [last];
      NovelOfDedup(init, known);
      DedupSnoc(init, last);
      NovelSnoc(init, last, known);
      NovelSnoc(Dedup(init), last, known);
      DedupSnoc(Novel(init, known), last);
      assert Novel(init, known) + [] == Novel(init, known);
    }
  }

  lemma {:induction false} NovelIsTheRest(known: seq<ScopeKey>, xs: seq<ScopeKey>)
    requires Dedup(known) == known
    ensures Dedup(known + xs) == known + Dedup(Novel(xs, known))
  {
    hide *;
    if xs == [] {
      NothingNovel(known);
      assert known + [] == known;
    } else {
      var init, last := xs[..|xs| - 1], xs[|xs| - 1];
      assert xs == init + [last] && known + xs == (known + init) + [last];
      NovelIsTheRest(known, init);
      DedupSnoc(known + init, last);
      NovelSnoc(init, last, known);
      DedupSnoc(Novel(init, known), last);
      assert Novel(init, known) + [] == Novel(init, known);
      assert known + (Dedup(Novel(init, known)) + [last]) == (known + Dedup(Novel(init, known))) + [last];
    }
  }

  // ----- whole runs of assertions -----

  /** The edge after a list of assertions, oldest first. */
  function AfterAll(run: seq<Assertion>): Option<Edge> {
    if run == [] then None
    else Some(DecideEdgeUpsert(run[|run| - 1], AfterAll(run[..|run| - 1])).edge)
  }

  /** The chance that every one of the observations is wrong. */
  function Doubt(run: seq<Assertion>): real {
    if run == [] then 1.0 else Both(Doubt(run[..|run| - 1]), Miss(run[|run| - 1]))
  }

  ghost predicate Apart(a: Assertion, b: Assertion) { forall k :: k in a.evidence ==> k !in b.evidence }

  /** Every assertion carries evidence, and two assertions of the run are the same one or share none. */
  ghost predicate Independent(run: seq<Assertion>) {
    && (forall i :: 0 <= i < |run| ==> run[i].evidence != [])
    && (forall i, j :: 0 <= i < |run| && 0 <= j < |run| ==> run[i] == run[j] || Apart(run[i], run[j]))
  }

  ghost predicate EvidenceIsUnion(e: Edge, run: seq<Assertion>) {
    forall k :: k in e.evidence <==> exists i :: 0 <= i < |run| && k in run[i].evidence
  }

  /** One observation for each distinct assertion, their noisy-OR, and the union of their evidence. */
  ghost predicate Accumulates(e: Edge, run: seq<Assertion>) {
    && GoodEdge(e) && EvidenceIsUnion(e, run)
    && e.observations == |Dedup(run)| && 1.0 - e.confidence == Doubt(Dedup(run))
  }

  lemma InitIsIndependent(init: seq<Assertion>, last: Assertion)
    requires Independent(init + [last])
    ensures Independent(init)
  {
    hide Apart;
    var run := init + [last];
    forall i, j | 0 <= i < |init| && 0 <= j < |init| ensures init[i] == init[j] || Apart(init[i], init[j]) {
      assert run[i] == run[j] || Apart(run[i], run[j]);
    }
    forall i | 0 <= i < |init| ensures init[i].evidence != [] { assert run[i].evidence != []; }
  }

  lemma FirstAssertion(a: Assertion)
    ensures AfterAll([a]) == Some(DecideEdgeUpsert(a, None).edge)
    ensures Accumulates(DecideEdgeUpsert(a, None).edge, [a])
  {
    assert [a][..0] == [] && [a][0] == a;
    assert Dedup([a]) == [a];
    DecisionIsGood(a, None);
    assert Doubt([a]) == Both(1.0, Miss(a));
  }

  /**
   * With independent evidence, however often assertions are replayed, the edge ends with one observation for each
   * distinct assertion, the noisy-OR of their confidences, and the union of their evidence.
   */
  lemma {:induction false} ReplaysDoNotCount(run: seq<Assertion>)
    requires run != [] && Independent(run)
    ensures AfterAll(run).Some? && Accumulates(AfterAll(run).value, run)
  {
    hide *;
    var init, last := run[..|run| - 1], run[|run| - 1];
    assert run == init + [last];
    if init == [] {
      assert run == [last];
      FirstAssertion(last);
    } else {
      InitIsIndependent(init, last);
      ReplaysDoNotCount(init);
      AfterSnoc(init, last);
      var e, e' := AfterAll(init).value, AfterAll(run).value;
      AccumulatesMeans(e, init);
      DecisionIsGood(last, Some(e));
      ReplayOrFresh(init, last, e);
      ObservedCounts(last);
      ReinforcesIffNovel(last, e, Observed(last));
      InDoubt(e.confidence, Observed(last), e'.confidence);
      OneMore(init, last, e, e');
    }
  }

  lemma InDoubt(x: real, c: real, y: real)
    ensures y == x + c - x * c ==> 1.0 - y == Both(1.0 - x, 1.0 - c)
  {
  }

  lemma AfterSnoc(init: seq<Assertion>, last: Assertion)
    ensures AfterAll(init + [last]) == Some(DecideEdgeUpsert(last, AfterAll(init)).edge)
  {
    hide DecideEdgeUpsert;
    assert (init + [last])[..|init|] == init;
  }

  lemma UnionGrows(init: seq<Assertion>, last: Assertion, e: Edge, e': Edge)
    requires EvidenceIsUnion(e, init)
    requires forall k :: k in e'.evidence <==> k in last.evidence || k in e.evidence
    ensures EvidenceIsUnion(e', init + [last])
  {
    var run := init + [last];
    forall k ensures k in e'.evidence <==> exists i :: 0 <= i < |run| && k in run[i].evidence {
      if k in last.evidence { assert k in run[|init|].evidence; }
      if k in e.evidence { var i :| 0 <= i < |init| && k in init[i].evidence; assert k in run[i].evidence; }
    }
  }

  /** A replayed assertion brings nothing new, an independent one nothing known. */
  lemma ReplayOrFresh(init: seq<Assertion>, last: Assertion, e: Edge)
    requires Independent(init + [last]) && EvidenceIsUnion(e, init)
    ensures last in init ==> DecideEdgeUpsert(last, Some(e)) == Noop(e)
    ensures last !in init ==> DecideEdgeUpsert(last, Some(e)).Reinforce?
  {
    var run := init + [last];
    assert run[|init|] == last;
    var first := last.evidence[0];
    assert first in Dedup(last.evidence);
    var novel := Novel(Dedup(last.evidence), e.evidence);
    if last in init {
      var i :| 0 <= i < |init| && init[i] == last;
      forall k | k in last.evidence ensures k in e.evidence { assert k in init[i].evidence; }
      if novel != [] { HasElement(novel); }
    } else {
      forall i | 0 <= i < |init| ensures first !in init[i].evidence {
        assert run[i] == init[i] && (run[i] == run[|init|] || Apart(run[i], run[|init|]));
      }
      assert first in novel;
    }
  }

  lemma AccumulatesMeans(e: Edge, run: seq<Assertion>)
    ensures Accumulates(e, run) <==>
              GoodEdge(e) && EvidenceIsUnion(e, run) && e.observations == |Dedup(run)|
              && 1.0 - e.confidence == Doubt(Dedup(run))
  {
    hide GoodEdge, EvidenceIsUnion, Dedup, Doubt;
  }

  lemma OneMore(init: seq<Assertion>, last: Assertion, e: Edge, e': Edge)
    requires Accumulates(e, init) && GoodEdge(e')
    requires forall k :: k in e'.evidence <==> k in last.evidence || k in e.evidence
    requires last in init ==> e' == e
    requires last !in init ==> e'.observations == e.observations + 1
    requires last !in init ==> 1.0 - e'.confidence == Both(1.0 - e.confidence, 1.0 - Observed(last))
    ensures Accumulates(e', init + [last])
  {
    hide *;
    AccumulatesMeans(e, init);
    AccumulatesMeans(e', init + [last]);
    UnionGrows(init, last, e, e');
    DedupSnoc(init, last);
    DoubtSnoc(Dedup(init), last);
    MissOf(last);
  }

  // ----- the order does not matter -----

  function Miss(a: Assertion): real { 1.0 - Observed(a) }

  lemma MissOf(a: Assertion)
    ensures Miss(a) == 1.0 - Observed(a)
  {
  }

  lemma DoubtSnoc(run: seq<Assertion>, a: Assertion)
    ensures Doubt(run + [a]) == Both(Doubt(run), Miss(a))
  {
    assert (run + [a])[..|run|] == run;
  }

  lemma {:induction false} DoubtWithout(run: seq<Assertion>, i: nat)
    requires i < |run|
    ensures Doubt(run) == Both(Doubt(run[..i] + run[i + 1..]), Miss(run[i]))
  {
    hide Doubt, Miss, Both;
    var n := |run| - 1;
    var init, last := run[..n], run[n];
    assert run == init + [last];
    DoubtSnoc(init, last);
    if i == n {
      assert run[..i] + run[i + 1..] == init;
    } else {
      DoubtWithout(init, i);
      var less := init[..i] + init[i + 1..];
      DoubtSnoc(less, last);
      assert run[..i] + run[i + 1..] == less + [last];
      Swap(Doubt(less), Miss(run[i]), Miss(last));
    }
  }

  lemma Swap(x: real, y: real, z: real)
    ensures Both(Both(x, y), z) == Both(Both(x, z), y)
  {
  }

  lemma {:induction false} DoubtIgnoresOrder(xs: seq<Assertion>, ys: seq<Assertion>)
    requires Distinct(xs) && Distinct(ys) && forall a :: a in xs <==> a in ys
    ensures |xs| == |ys| && Doubt(xs) == Doubt(ys)
  {
    hide Doubt, Miss, Both;
    if xs == [] {
      if ys != [] { HasElement(ys); }
    } else {
      var n := |xs| - 1;
      var last, init := xs[n], xs[..n];
      assert xs == init + [last];
      assert last in ys;
      var i :| 0 <= i < |ys| && ys[i] == last;
      var rest := ys[..i] + ys[i + 1..];
      DoubtWithout(ys, i);
      DoubtSnoc(init, last);
      SameWithoutLast(init, last, ys, i);
      DoubtIgnoresOrder(init, rest);
    }
  }

  lemma SameWithoutLast(init: seq<Assertion>, last: Assertion, ys: seq<Assertion>, i: nat)
    requires Distinct(init + [last]) && Distinct(ys) && i < |ys| && ys[i] == last
    requires forall a :: a in init + [last] <==> a in ys
    ensures Distinct(init) && Distinct(ys[..i] + ys[i + 1..])
    ensures forall a :: a in init <==> a in ys[..i] + ys[i + 1..]
  {
    var xs, rest := init + [last], ys[..i] + ys[i + 1..];
    forall k | 0 <= k < |init| ensures init[k] != last { assert xs[k] == init[k] && xs[|init|] == last; }
    forall j, k | 0 <= j < k < |init| ensures init[j] != init[k] { assert xs[j] != xs[k]; }
    forall a ensures a in init <==> a in rest {
      if a in init { assert a in xs; assert a in ys && a != last; }
      if a in rest { assert a in ys && a != last; assert a in xs; }
    }
  }

  /** Equal confidence and observations, and the same evidence in whatever order. */
  ghost predicate Agree(e: Edge, f: Edge) {
    && e.confidence == f.confidence && e.observations == f.observations
    && forall k :: k in e.evidence <==> k in f.evidence
  }

  /**
   * Two runs over the same assertions, in any order and with any replays, leave the same edge but for evidence
   * order.
   */
  lemma OrderDoesNotMatter(run: seq<Assertion>, other: seq<Assertion>)
    requires run != [] && Independent(run)
    requires forall a :: a in run <==> a in other
    ensures AfterAll(run).Some? && AfterAll(other).Some? && Agree(AfterAll(run).value, AfterAll(other).value)
  {
    assert run[0] in other;
    assert Independent(other) by {
      forall i | 0 <= i < |other| ensures other[i].evidence != [] { assert other[i] in run; }
      forall i, j | 0 <= i < |other| && 0 <= j < |other| ensures other[i] == other[j] || Apart(other[i], other[j]) {
        assert other[i] in run && other[j] in run;
      }
    }
    ReplaysDoNotCount(run);
    ReplaysDoNotCount(other);
    DoubtIgnoresOrder(Dedup(run), Dedup(other));
    SameUnion(run, other, AfterAll(run).value, AfterAll(other).value);
  }

  lemma SameUnion(run: seq<Assertion>, other: seq<Assertion>, e: Edge, f: Edge)
    requires EvidenceIsUnion(e, run) && EvidenceIsUnion(f, other)
    requires forall a :: a in run <==> a in other
    ensures forall k :: k in e.evidence <==> k in f.evidence
  {
    forall k ensures k in e.evidence <==> k in f.evidence {
      if k in e.evidence { var i :| 0 <= i < |run| && k in run[i].evidence; assert run[i] in other; }
      if k in f.evidence { var i :| 0 <= i < |other| && k in other[i].evidence; assert other[i] in run; }
    }
  }

  // ----- noisy-OR, multiplied out -----

  function Product(xs: seq<real>): real {
    if xs == [] then 1.0 else xs[0] * Product(xs[1..])
  }

  lemma {:induction false} ProductSnoc(xs: seq<real>, x: real)
    ensures Product(xs + [x]) == Product(xs) * x
  {
    if xs == [] {
      assert [] + [x] == [x] && [x][1..] == [];
    } else {
      ProductSnoc(xs[1..], x);
      assert (xs + [x])[1..] == xs[1..] + [x];
      Regroup(xs[0], Product(xs[1..]), x);
    }
  }

  lemma Regroup(x: real, y: real, z: real)
    ensures x * (y * z) == (x * y) * z
  {
  }

  /** The doubt that each assertion of a list leaves. */
  ghost predicate DoubtsOf(run: seq<Assertion>, doubts: seq<real>) {
    |doubts| == |run| && forall i :: 0 <= i < |run| ==> CountsFor(run[i].confidence, 1.0 - doubts[i])
  }

  lemma {:induction false} DoubtIsProduct(run: seq<Assertion>, doubts: seq<real>)
    requires DoubtsOf(run, doubts)
    ensures Doubt(run) == Product(doubts)
  {
    hide *;
    if run == [] {
      NoDoubts(doubts);
    } else {
      var n := |run| - 1;
      DoubtsInit(run, doubts);
      DoubtIsProduct(run[..n], doubts[..n]);
      DoubtSnoc(run[..n], run[n]);
      ProductSnoc(doubts[..n], doubts[n]);
      assert run == run[..n] + [run[n]] && doubts == doubts[..n] + [doubts[n]];
      BothIsProduct(Doubt(run[..n]), Miss(run[n]));
    }
  }

  lemma NoDoubts(doubts: seq<real>)
    requires DoubtsOf([], doubts)
    ensures Doubt([]) == Product(doubts)
  {
  }

  lemma DoubtsInit(run: seq<Assertion>, doubts: seq<real>)
    requires DoubtsOf(run, doubts) && run != []
    ensures |doubts| == |run| && DoubtsOf(run[..|run| - 1], doubts[..|run| - 1])
    ensures Miss(run[|run| - 1]) == doubts[|run| - 1]
  {
    ObservedCounts(run[|run| - 1]);
  }

  lemma BothIsProduct(u: real, v: real)
    ensures Both(u, v) == u * v
  {
  }

  /** An edge is what independent assertions make of it: the chance that they are all wrong is multiplied out. */
  ghost predicate IsNoisyOr(e: Edge, run: seq<Assertion>, distinct: seq<Assertion>, doubts: seq<real>) {
    && e.confidence == 1.0 - Product(doubts) && e.observations == |distinct| && Distinct(e.evidence)
    && forall k :: k in e.evidence <==> exists i :: 0 <= i < |run| && k in run[i].evidence
  }

  /**
   * After a run of independent assertions, in any order and with any replays, 1 - confidence is the product of
   * 1 - c over the distinct assertions, c being the stated confidence.
   */
  lemma RunIsNoisyOr(run: seq<Assertion>, distinct: seq<Assertion>, doubts: seq<real>)
    requires run != [] && Independent(run)
    requires Distinct(distinct) && (forall a :: a in distinct <==> a in run) && DoubtsOf(distinct, doubts)
    ensures AfterAll(run).Some? && IsNoisyOr(AfterAll(run).value, run, distinct, doubts)
  {
    hide Doubt, Product, AfterAll, Independent, CountsFor;
    ReplaysDoNotCount(run);
    DoubtIgnoresOrder(distinct, Dedup(run));
    DoubtIsProduct(distinct, doubts);
  }
}
