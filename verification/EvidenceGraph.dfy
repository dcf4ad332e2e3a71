/**
 * The evidence graph as a value: nodes, evidence anchors and at most one relation per (from, predicate key, to).
 * These are the meanings of the store's public operations, and what every run of them keeps.
 */
module EvidenceGraph {
  import opened Text
  import opened Order
  import opened EdgeEvidence

  type NodeKey = string

  datatype Triple = Triple(source: NodeKey, predicateKey: string, target: NodeKey)

  /** What is stored on a relation; the predicate is kept in the words of its first assertion. */
  datatype Fact = Fact(wording: string, edge: Edge)

  datatype Graph = Graph(
    nodes: map<NodeKey, seq<string>>,
    anchors: set<(NodeKey, ScopeKey)>,
    rels: map<Triple, Fact>)

  const EMPTY := Graph(map[], {}, map[])

  /** The name normalisation and trimming the store is built with. */
  datatype Naming = Naming(normalize: string -> string, trim: string -> string)

  // ----- aliases -----

  function AddAlias(naming: Naming, aliases: seq<string>, seen: set<string>, a: string): (seq<string>, set<string>) {
    var norm := naming.normalize(a);
    if norm == "" || norm in seen then (aliases, seen) else (aliases + [naming.trim(a)], seen + {norm})
  }

  function AliasesAfter(naming: Naming, names: seq<string>): (seq<string>, set<string>) {
    if names == [] then ([], {})
    else
      var before := AliasesAfter(naming, names[..|names| - 1]);
      AddAlias(naming, before.0, before.1, names[|names| - 1])
  }

  function MergeAliases(naming: Naming, existing: seq<string>, incoming: seq<string>): seq<string> {
    AliasesAfter(naming, existing + incoming).0
  }

  /** Trimming does not change what a name normalises to, and trims once and for all. */
  ghost predicate Lawful(naming: Naming) {
    && (forall a :: naming.normalize(naming.trim(a)) == naming.normalize(a))
    && (forall a :: naming.trim(naming.trim(a)) == naming.trim(a))
  }

  /** No two aliases of a node normalise alike, none to nothing, and all are trimmed. */
  ghost predicate GoodAliases(naming: Naming, aliases: seq<string>) {
    && (forall i :: 0 <= i < |aliases| ==> naming.normalize(aliases[i]) != "" && naming.trim(aliases[i]) == aliases[i])
    && (forall i, j :: 0 <= i < j < |aliases| ==> naming.normalize(aliases[i]) != naming.normalize(aliases[j]))
  }

  ghost predicate Among(naming: Naming, aliases: seq<string>, norm: string) {
    exists i :: 0 <= i < |aliases| && naming.normalize(aliases[i]) == norm
  }

  lemma AmongSnoc(naming: Naming, aliases: seq<string>, a: string)
    ensures forall n :: Among(naming, aliases + [a], n) <==> Among(naming, aliases, n) || n == naming.normalize(a)
  {
    var more := aliases + [a];
    assert more[|aliases|] == a;
    forall n | Among(naming, aliases, n) ensures Among(naming, more, n) {
      var i :| 0 <= i < |aliases| && naming.normalize(aliases[i]) == n;
      assert more[i] == aliases[i];
    }
  }

  lemma {:induction false} AliasesAreGood(naming: Naming, names: seq<string>)
    requires Lawful(naming)
    ensures GoodAliases(naming, AliasesAfter(naming, names).0)
    ensures forall n :: n in AliasesAfter(naming, names).1 <==> Among(naming, AliasesAfter(naming, names).0, n)
    ensures forall n :: Among(naming, AliasesAfter(naming, names).0, n) <==> n != "" && Among(naming, names, n)
  {
    if names != [] {
      var init, a := names[..|names| - 1], names[|names| - 1];
      assert names == init + [a];
      AliasesAreGood(naming, init);
      AmongSnoc(naming, init, a);
      AmongSnoc(naming, AliasesAfter(naming, init).0, naming.trim(a));
    }
  }

  lemma {:induction false} GoodAliasesStay(naming: Naming, names: seq<string>)
    requires GoodAliases(naming, names)
    ensures AliasesAfter(naming, names).0 == names
    ensures forall n :: n in AliasesAfter(naming, names).1 <==> Among(naming, names, n)
  {
    if names != [] {
      var init, a := names[..|names| - 1], names[|names| - 1];
      assert names == init + [a];
      GoodAliasesStay(naming, init);
      AmongSnoc(naming, init, a);
    }
  }

  /** The name at place i has a normal form, and is the first with that one. */
  ghost predicate FirstSeen(naming: Naming, names: seq<string>, i: nat) {
    i < |names| && naming.normalize(names[i]) != "" && !Among(naming, names[..i], naming.normalize(names[i]))
  }

  lemma {:induction false} SeenAre(naming: Naming, names: seq<string>)
    ensures forall n :: n in AliasesAfter(naming, names).1 <==> n != "" && Among(naming, names, n)
  {
    if names != [] {
      var init, a := names[..|names| - 1], names[|names| - 1];
      assert names == init + [a];
      SeenAre(naming, init);
      AmongSnoc(naming, init, a);
    }
  }

  /** The merged aliases are, trimmed and in order, exactly the names that are the first of their normal form. */
  lemma {:induction false} AliasesAreFirstSeen(naming: Naming, names: seq<string>) returns (places: seq<nat>)
    ensures |places| == |AliasesAfter(naming, names).0|
    ensures forall k :: 0 <= k < |places| ==>
              places[k] < |names| && AliasesAfter(naming, names).0[k] == naming.trim(names[places[k]])
    ensures forall k, l :: 0 <= k < l < |places| ==> places[k] < places[l]
    ensures forall i :: i in places <==> FirstSeen(naming, names, i)
  {
    if names == [] {
      places := [];
    } else {
      var n := |names| - 1;
      var init, a := names[..n], names[n];
      assert names == init + [a];
      places := AliasesAreFirstSeen(naming, init);
      SeenAre(naming, init);
      forall i: nat | i < n ensures FirstSeen(naming, names, i) <==> FirstSeen(naming, init, i) {
        assert names[..i] == init[..i];
      }
      assert names[..n] == init;
      if FirstSeen(naming, names, n) { places := places + [n]; }
    }
  }

  /** Aliases merged in two steps are those merged at once. */
  lemma {:induction false} AliasesInSteps(naming: Naming, xs: seq<string>, ys: seq<string>)
    requires Lawful(naming)
    ensures AliasesAfter(naming, xs + AliasesAfter(naming, ys).0) == AliasesAfter(naming, xs + ys)
  {
    if ys == [] {
    } else {
      var init, a := ys[..|ys| - 1], ys[|ys| - 1];
      var before := AliasesAfter(naming, init);
      assert ys == init + [a] && xs + ys == (xs + init) + [a] && (xs + ys)[..|xs + ys| - 1] == xs + init;
      AliasesInSteps(naming, xs, init);
      SeenAre(naming, init);
      SeenAre(naming, xs + init);
      if naming.normalize(a) in before.1 {
        AmongConcat(naming, xs, init, naming.normalize(a));
      } else if naming.normalize(a) != "" {
        var all := xs + (before.0 + [naming.trim(a)]);
        assert all[..|all| - 1] == xs + before.0;
      }
    }
  }

  /** Merging never loses or reorders the aliases a node already has, and merging nothing changes nothing. */
  lemma {:induction false} MergeKeepsExisting(naming: Naming, existing: seq<string>, incoming: seq<string>)
    requires Lawful(naming) && GoodAliases(naming, existing)
    ensures existing <= MergeAliases(naming, existing, incoming)
    ensures GoodAliases(naming, MergeAliases(naming, existing, incoming))
    ensures incoming == [] ==> MergeAliases(naming, existing, incoming) == existing
  {
    AliasesAreGood(naming, existing + incoming);
    if incoming == [] {
      assert existing + incoming == existing;
      GoodAliasesStay(naming, existing);
    } else {
      var less := incoming[..|incoming| - 1];
      MergeKeepsExisting(naming, existing, less);
      assert (existing + incoming)[..|existing + incoming| - 1] == existing + less;
    }
  }

  // ----- the operations -----

  datatype Error = Blank | SelfLoop | BadConfidence | MissingEndpoint(node: NodeKey) | MissingTarget(node: NodeKey)

  function UpsertNode(g: Graph, naming: Naming, key: NodeKey, name: string, aliases: seq<string>,
      evidence: seq<ScopeKey>): Graph
  {
    var incoming := MergeAliases(naming, aliases, [name]);
    var merged := if key in g.nodes then MergeAliases(naming, g.nodes[key], incoming) else incoming;
    g.(nodes := g.nodes[key := merged], anchors := g.anchors + set k | k in evidence :: (key, k))
  }

  function Lookup(rels: map<Triple, Fact>, t: Triple): Option<Fact> {
    if t in rels then Some(rels[t]) else None
  }

  function EdgeOf(f: Option<Fact>): Option<Edge> {
    if f.Some? then Some(f.value.edge) else None
  }

  function EdgeError(g: Graph, naming: Naming, t: Triple, wording: string, a: Assertion): Option<Error> {
    var confidence := if a.confidence.Some? then a.confidence.value else 1.0;
    if t.source == "" || t.target == "" then Some(Blank)
    else if t.source == t.target then Some(SelfLoop)
    else if naming.trim(wording) == "" then Some(Blank)
    else if confidence < 0.0 || confidence > 1.0 then Some(BadConfidence)
    else if t.source !in g.nodes then Some(MissingEndpoint(t.source))
    else if t.target !in g.nodes then Some(MissingEndpoint(t.target))
    else None
  }

  function UpsertEdge(g: Graph, naming: Naming, t: Triple, wording: string, a: Assertion): Graph {
    if EdgeError(g, naming, t, wording, a).Some? then g
    else
      match DecideEdgeUpsert(a, EdgeOf(Lookup(g.rels, t)))
      case Noop(_) => g
      case Create(edge) => g.(rels := g.rels[t := Fact(wording, edge)])
      case Reinforce(edge) => g.(rels := g.rels[t := Fact(g.rels[t].wording, edge)])
  }

  /** What an assertion about a relation has to bring along. */
  predicate Stateable(g: Graph, naming: Naming, t: Triple, wording: string, a: Assertion) {
    && t.source != "" && t.target != "" && t.source != t.target && naming.trim(wording) != ""
    && (a.confidence.Some? ==> 0.0 <= a.confidence.value <= 1.0)
    && t.source in g.nodes && t.target in g.nodes
  }

  predicate Touches(t: Triple, n: NodeKey) { t.source == n || t.target == n }

  /** DETACH DELETE of one node. */
  function Detach(g: Graph, n: NodeKey): Graph {
    Graph(g.nodes - {n},
          set a | a in g.anchors && a.0 != n,
          map t | t in g.rels && !Touches(t, n) :: g.rels[t])
  }

  /** What becomes of a survivor's edge when the duplicate has one of the same triple. */
  function Combine(kept: Fact, dup: Fact): Fact {
    var novel := Novel(dup.edge.evidence, kept.edge.evidence);
    if dup.edge.evidence != [] && novel == [] then kept
    else
      kept.(edge := Edge(Clamp01(ReinforceConfidence(kept.edge.confidence, dup.edge.confidence)),
                         kept.edge.observations + dup.edge.observations,
                         kept.edge.evidence + novel))
  }

  function CombineAny(kept: Option<Fact>, dup: Option<Fact>): Option<Fact> {
    if dup.None? then kept else if kept.None? then dup else Some(Combine(kept.value, dup.value))
  }

  function Redirect(t: Triple, d: NodeKey, s: NodeKey): Triple {
    Triple(if t.source == d then s else t.source, t.predicateKey, if t.target == d then s else t.target)
  }

  /** The relation a triple carries after d was merged into s. */
  function MergedAt(rels: map<Triple, Fact>, d: NodeKey, s: NodeKey, t: Triple): Option<Fact> {
    if Touches(t, d) || t.source == t.target then None
    else if t.source == s then CombineAny(Lookup(rels, t), Lookup(rels, t.(source := d)))
    else if t.target == s then CombineAny(Lookup(rels, t), Lookup(rels, t.(target := d)))
    else Lookup(rels, t)
  }

  function MergedRels(rels: map<Triple, Fact>, d: NodeKey, s: NodeKey): map<Triple, Fact> {
    map t | t in (set q | q in rels :: Redirect(q, d, s)) && MergedAt(rels, d, s, t).Some? ::
        MergedAt(rels, d, s, t).value
  }

  function MergeError(g: Graph, d: NodeKey, s: NodeKey): Option<Error> {
    if d in g.nodes && s !in g.nodes then Some(MissingTarget(s)) else None
  }

  /** Merging the duplicate d into the survivor s. A node merged into itself is only deleted. */
  function MergeNodes(g: Graph, naming: Naming, d: NodeKey, s: NodeKey): Graph {
    if d !in g.nodes || s !in g.nodes then g
    else if d == s then Detach(g, d)
    else
      Graph(g.nodes[s := MergeAliases(naming, g.nodes[s], g.nodes[d])] - {d},
            (set a | a in g.anchors :: (if a.0 == d then s else a.0, a.1)),
            MergedRels(g.rels, d, s))
  }

  function DeleteEdge(g: Graph, t: Triple): Graph { g.(rels := g.rels - {t}) }

  function Without(evidence: seq<ScopeKey>, k: ScopeKey): (r: seq<ScopeKey>)
    ensures forall x :: x in r <==> x in evidence && x != k
    ensures |r| <= |evidence| && (k in evidence <==> |r| < |evidence|)
    ensures Distinct(evidence) ==> Distinct(r) && (k in evidence ==> |r| == |evidence| - 1)
  {
    if evidence == [] then []
    else
      var rest := Without(evidence[1..], k);
      assert evidence == [evidence[0]] + evidence[1..];
      assert Distinct(evidence) ==> Distinct(evidence[1..]) && evidence[0] !in evidence[1..] by {
        if Distinct(evidence) { TailIsDistinct(evidence); }
      }
      if evidence[0] == k then rest else [evidence[0]] + rest
  }

  /** The nodes anchored on a piece of evidence. */
  function AnchoredOn(g: Graph, k: ScopeKey): set<NodeKey> {
    set a | a in g.anchors && a.1 == k :: a.0
  }

  function CitingEdges(rels: map<Triple, Fact>, k: ScopeKey): set<Triple> {
    set t | t in rels && k in rels[t].edge.evidence
  }

  function OrphanedEdges(rels: map<Triple, Fact>, k: ScopeKey): set<Triple> {
    set t | t in CitingEdges(rels, k) && Without(rels[t].edge.evidence, k) == []
  }

  function RelsWithout(rels: map<Triple, Fact>, k: ScopeKey): map<Triple, Fact> {
    map t | t in rels && t !in OrphanedEdges(rels, k) ::
      rels[t].(edge := rels[t].edge.(evidence := Without(rels[t].edge.evidence, k)))
  }

  function AnchorsWithout(g: Graph, k: ScopeKey): set<(NodeKey, ScopeKey)> {
    set a | a in g.anchors && a.1 != k
  }

  predicate Bare(n: NodeKey, anchors: set<(NodeKey, ScopeKey)>, rels: map<Triple, Fact>) {
    (forall a :: a in anchors ==> a.0 != n) && (forall t :: t in rels ==> !Touches(t, n))
  }

  function OrphanedNodes(g: Graph, k: ScopeKey): set<NodeKey> {
    set n | n in AnchoredOn(g, k) && Bare(n, AnchorsWithout(g, k), RelsWithout(g.rels, k))
  }

  function RemoveEvidence(g: Graph, k: ScopeKey): Graph {
    Graph(g.nodes - OrphanedNodes(g, k), AnchorsWithout(g, k), RelsWithout(g.rels, k))
  }

  // ----- what every run keeps -----

  ghost predicate Sound(g: Graph, naming: Naming) {
    && (forall t :: t in g.rels ==> t.source in g.nodes && t.target in g.nodes && t.source != t.target)
    && (forall t :: t in g.rels ==> GoodEdge(g.rels[t].edge))
    && (forall a :: a in g.anchors ==> a.0 in g.nodes)
    && (forall n :: n in g.nodes ==> GoodAliases(naming, g.nodes[n]))
  }

  datatype Operation =
    | DoUpsertNode(key: NodeKey, name: string, aliases: seq<string>, evidence: seq<ScopeKey>)
    | DoUpsertEdge(triple: Triple, wording: string, assertion: Assertion)
    | DoMerge(duplicate: NodeKey, survivor: NodeKey)
    | DoDeleteNode(key: NodeKey)
    | DoDeleteEdge(triple: Triple)
    | DoRemoveEvidence(scopeKey: ScopeKey)

  function Apply(g: Graph, naming: Naming, op: Operation): Graph {
    match op
    case DoUpsertNode(key, name, aliases, evidence) => UpsertNode(g, naming, key, name, aliases, evidence)
    case DoUpsertEdge(t, wording, a) => UpsertEdge(g, naming, t, wording, a)
    case DoMerge(d, s) => MergeNodes(g, naming, d, s)
    case DoDeleteNode(key) => Detach(g, key)
    case DoDeleteEdge(t) => DeleteEdge(g, t)
    case DoRemoveEvidence(k) => RemoveEvidence(g, k)
  }

  function Run(naming: Naming, ops: seq<Operation>): Graph {
    if ops == [] then EMPTY else Apply(Run(naming, ops[..|ops| - 1]), naming, ops[|ops| - 1])
  }

  lemma CombineIsGood(kept: Fact, dup: Fact)
    requires GoodEdge(kept.edge) && GoodEdge(dup.edge)
    ensures GoodEdge(Combine(kept, dup).edge)
    ensures Combine(kept, dup).edge.confidence >= kept.edge.confidence
    ensures kept.edge.evidence <= Combine(kept, dup).edge.evidence
    ensures forall k :: k in Combine(kept, dup).edge.evidence <==> k in kept.edge.evidence || k in dup.edge.evidence
  {
    hide ReinforceConfidence;
    var novel := Novel(dup.edge.evidence, kept.edge.evidence);
    ReinforcementIsMonotone(kept.edge.confidence, dup.edge.confidence);
    ConcatIsDistinct(kept.edge.evidence, novel);
    if dup.edge.evidence != [] && novel == [] {
      forall k | k in dup.edge.evidence ensures k in kept.edge.evidence { assert k !in novel; }
    }
  }

  lemma MergedAtIsGood(g: Graph, naming: Naming, d: NodeKey, s: NodeKey, t: Triple)
    requires Sound(g, naming) && MergedAt(g.rels, d, s, t).Some?
    ensures GoodEdge(MergedAt(g.rels, d, s, t).value.edge) && t.source != t.target && !Touches(t, d)
  {
    hide Combine;
    var kept := Lookup(g.rels, t);
    var dup := if t.source == s then Lookup(g.rels, t.(source := d)) else Lookup(g.rels, t.(target := d));
    if kept.Some? && dup.Some? { CombineIsGood(kept.value, dup.value); }
  }

  lemma MergeIsSound(g: Graph, naming: Naming, d: NodeKey, s: NodeKey)
    requires Lawful(naming) && Sound(g, naming)
    ensures Sound(MergeNodes(g, naming, d, s), naming)
  {
    hide MergedRels, MergeAliases, GoodEdge;
    if d in g.nodes && s in g.nodes && d != s {
      var g' := MergeNodes(g, naming, d, s);
      MergeKeepsExisting(naming, g.nodes[s], g.nodes[d]);
      forall t | t in g'.rels
        ensures t.source in g'.nodes && t.target in g'.nodes && t.source != t.target && GoodEdge(g'.rels[t].edge)
      {
        MergedRelIsSound(g, naming, d, s, t);
      }
    }
  }

  lemma MergedRelIsSound(g: Graph, naming: Naming, d: NodeKey, s: NodeKey, t: Triple)
    requires Sound(g, naming) && s in g.nodes && t in MergedRels(g.rels, d, s)
    ensures t.source in g.nodes && t.target in g.nodes && t.source != t.target && !Touches(t, d)
    ensures GoodEdge(MergedRels(g.rels, d, s)[t].edge)
  {
    hide MergedAt, GoodAliases, GoodEdge;
    var q :| q in g.rels && t == Redirect(q, d, s);
    assert q.source in g.nodes && q.target in g.nodes;
    MergedAtIsGood(g, naming, d, s, t);
  }

  lemma UpsertNodeIsSound(g: Graph, naming: Naming, key: NodeKey, name: string, aliases: seq<string>,
      evidence: seq<ScopeKey>)
    requires Lawful(naming) && Sound(g, naming)
    ensures Sound(UpsertNode(g, naming, key, name, aliases, evidence), naming)
  {
    hide AliasesAfter, GoodEdge;
    var incoming := MergeAliases(naming, aliases, [name]);
    AliasesAreGood(naming, aliases + [name]);
    if key in g.nodes { MergeKeepsExisting(naming, g.nodes[key], incoming); }
  }

  /**
   * An upserted node keeps its aliases and answers to its name, gains exactly the evidence, and nothing else
   * changes.
   */
  lemma UpsertNodeAdds(g: Graph, naming: Naming, key: NodeKey, name: string, aliases: seq<string>,
      evidence: seq<ScopeKey>)
    requires Lawful(naming) && Sound(g, naming)
    ensures
      var g' := UpsertNode(g, naming, key, name, aliases, evidence);
      && g'.nodes.Keys == g.nodes.Keys + {key} && g'.rels == g.rels
      && (forall n :: n in g.nodes && n != key ==> g'.nodes[n] == g.nodes[n])
      && (key in g.nodes ==> g.nodes[key] <= g'.nodes[key])
      && g'.nodes[key]
         == AliasesAfter(naming, (if key in g.nodes then g.nodes[key] else []) + (aliases + [name])).0
      && (forall a :: a == name || a in aliases ==>
          naming.normalize(a) == "" || Among(naming, g'.nodes[key], naming.normalize(a)))
      && (forall n, k :: (n, k) in g'.anchors <==> (n, k) in g.anchors || (n == key && k in evidence))
  {
    hide AliasesAfter, Among, GoodEdge;
    var incoming := MergeAliases(naming, aliases, [name]);
    var names := aliases + [name];
    AliasesAreGood(naming, names);
    assert [] + names == names;
    if key in g.nodes {
      AliasesInSteps(naming, g.nodes[key], names);
      AliasesAreGood(naming, g.nodes[key] + incoming);
      MergeKeepsExisting(naming, g.nodes[key], incoming);
    }
    forall a | (a == name || a in aliases) && naming.normalize(a) != ""
      ensures Among(naming, incoming, naming.normalize(a))
      ensures key in g.nodes ==> Among(naming, g.nodes[key] + incoming, naming.normalize(a))
    {
      assert a in names;
      AmongIf(naming, names, a);
      if key in g.nodes { AmongConcat(naming, g.nodes[key], incoming, naming.normalize(a)); }
    }
  }

  lemma AmongIf(naming: Naming, names: seq<string>, a: string)
    requires a in names
    ensures Among(naming, names, naming.normalize(a))
  {
    var i :| 0 <= i < |names| && names[i] == a;
  }

  lemma AmongConcat(naming: Naming, xs: seq<string>, ys: seq<string>, norm: string)
    requires Among(naming, ys, norm)
    ensures Among(naming, xs + ys, norm)
  {
    var i :| 0 <= i < |ys| && naming.normalize(ys[i]) == norm;
    assert (xs + ys)[|xs| + i] == ys[i];
  }

  lemma UpsertEdgeIsSound(g: Graph, naming: Naming, t: Triple, wording: string, a: Assertion)
    requires Sound(g, naming)
    ensures Sound(UpsertEdge(g, naming, t, wording, a), naming)
  {
    hide GoodAliases, GoodEdge;
    DecisionIsGood(a, EdgeOf(Lookup(g.rels, t)));
  }

  lemma RemoveEvidenceIsSound(g: Graph, naming: Naming, k: ScopeKey)
    requires Sound(g, naming)
    ensures Sound(RemoveEvidence(g, k), naming)
  {
    hide GoodAliases;
  }

  lemma ApplyIsSound(g: Graph, naming: Naming, op: Operation)
    requires Lawful(naming) && Sound(g, naming)
    ensures Sound(Apply(g, naming, op), naming)
  {
    match op {
      case DoUpsertNode(key, name, aliases, evidence) => UpsertNodeIsSound(g, naming, key, name, aliases, evidence);
      case DoUpsertEdge(t, wording, a) => UpsertEdgeIsSound(g, naming, t, wording, a);
      case DoMerge(d, s) => MergeIsSound(g, naming, d, s);
      case DoDeleteNode(_) =>
      case DoDeleteEdge(_) =>
      case DoRemoveEvidence(k) => RemoveEvidenceIsSound(g, naming, k);
    }
  }

  /** From the empty graph every run keeps the graph sound. */
  lemma {:induction false} RunsAreSound(naming: Naming, ops: seq<Operation>)
    requires Lawful(naming)
    ensures Sound(Run(naming, ops), naming)
  {
    if ops != [] {
      RunsAreSound(naming, ops[..|ops| - 1]);
      ApplyIsSound(Run(naming, ops[..|ops| - 1]), naming, ops[|ops| - 1]);
    }
  }

  // ----- what an edge upsert does -----

  /** Which error an assertion is refused with; several defects give the first in the order of the checks. */
  lemma EdgeErrorIs(g: Graph, naming: Naming, t: Triple, wording: string, a: Assertion)
    ensures
      var error, worded := EdgeError(g, naming, t, wording, a), naming.trim(wording) != "";
      var apart := t.source != "" && t.target != "" && t.source != t.target;
      var likely := a.confidence.Some? ==> 0.0 <= a.confidence.value <= 1.0;
      && (error.None? <==> Stateable(g, naming, t, wording, a))
      && (error == Some(Blank) <==> t.source == "" || t.target == "" || (apart && !worded))
      && (error == Some(SelfLoop) <==> t.source == t.target && t.source != "")
      && (error == Some(BadConfidence) <==> apart && worded && !likely)
      && (error == Some(MissingEndpoint(t.source)) <==> apart && worded && likely && t.source !in g.nodes)
      && (error == Some(MissingEndpoint(t.target)) <==>
            apart && worded && likely && t.source in g.nodes && t.target !in g.nodes)
  {
  }

  /**
   * An edge upsert in full: a refused assertion changes nothing; a first one is stored as it is; a later one adds its
   * new evidence behind the old, and unless all of its evidence was known counts once more and adds its confidence as
   * that of an independent witness. No other relation, no node and no anchor changes.
   */
  lemma UpsertEdgeIs(g: Graph, naming: Naming, t: Triple, wording: string, a: Assertion, c: real)
    requires Sound(g, naming) && CountsFor(a.confidence, c)
    ensures
      var g' := UpsertEdge(g, naming, t, wording, a);
      && g'.nodes == g.nodes && g'.anchors == g.anchors
      && (forall u :: u != t ==> Lookup(g'.rels, u) == Lookup(g.rels, u))
      && if !Stateable(g, naming, t, wording, a) then g' == g
         else if t !in g.rels then Lookup(g'.rels, t) == Some(Fact(wording, Edge(c, 1, Dedup(a.evidence))))
         else t in g'.rels && Strengthened(g.rels[t], g'.rels[t], a, c)
  {
    hide GoodAliases, DecideEdgeUpsert;
    EdgeErrorIs(g, naming, t, wording, a);
    if t in g.rels {
      var e := g.rels[t].edge;
      ReinforcesIffNovel(a, e, c);
      EvidenceGrowsInOrder(a, e);
    } else {
      FirstAssertionCreates(a, c);
    }
  }

  ghost predicate Strengthened(before: Fact, after: Fact, a: Assertion, c: real) {
    && after.wording == before.wording && after.edge.evidence == Dedup(before.edge.evidence + a.evidence)
    && if a.evidence != [] && forall k :: k in a.evidence ==> k in before.edge.evidence then after == before
       else
         && after.edge.observations == before.edge.observations + 1
         && after.edge.confidence == before.edge.confidence + c - before.edge.confidence * c
  }

  // ----- what a merge does -----

  predicate Cites(rels: map<Triple, Fact>, t: Triple, k: ScopeKey) { t in rels && k in rels[t].edge.evidence }

  lemma MergedRelsAt(rels: map<Triple, Fact>, d: NodeKey, s: NodeKey, t: Triple)
    ensures Lookup(MergedRels(rels, d, s), t) == MergedAt(rels, d, s, t)
  {
    hide Combine;
    if MergedAt(rels, d, s, t).Some? {
      var q := if t in rels then t else if t.source == s then t.(source := d) else t.(target := d);
      assert q in rels && Redirect(q, d, s) == t;
    }
  }

  /**
   * An edge of the survivor takes over the duplicate's edge of the same triple: evidence united, nothing lowered or
   * counted twice.
   */
  lemma CombinedEdge(g: Graph, naming: Naming, t: Triple, dup: Triple)
    requires Sound(g, naming)
    ensures
      var merged := CombineAny(Lookup(g.rels, t), Lookup(g.rels, dup));
      && (merged.Some? <==> t in g.rels || dup in g.rels)
      && (merged.Some? ==>
            forall k :: k in merged.value.edge.evidence <==> Cites(g.rels, t, k) || Cites(g.rels, dup, k))
      && (t in g.rels ==> merged.value.edge.confidence >= g.rels[t].edge.confidence
                          && merged.value.edge.observations >= g.rels[t].edge.observations
                          && merged.value.wording == g.rels[t].wording)
      && (t in g.rels && dup in g.rels ==>
            Absorbed(g.rels[t].edge, g.rels[dup].edge, merged.value.edge)
            && merged.value.edge.evidence == Dedup(g.rels[t].edge.evidence + g.rels[dup].edge.evidence))
  {
    hide Combine, Absorbed;
    if t in g.rels && dup in g.rels {
      CombineKeepsOrder(g.rels[t], g.rels[dup]);
      CombineIsGood(g.rels[t], g.rels[dup]);
      CombineAbsorbs(g.rels[t], g.rels[dup]);
    }
  }

  /**
   * A duplicate with nothing but known evidence changes nothing; any other adds its observations and its
   * confidence.
   */
  ghost predicate Absorbed(kept: Edge, dup: Edge, merged: Edge) {
    if dup.evidence != [] && forall k :: k in dup.evidence ==> k in kept.evidence then merged == kept
    else
      && merged.observations == kept.observations + dup.observations
      && merged.confidence == kept.confidence + dup.confidence - kept.confidence * dup.confidence
  }

  lemma CombineAbsorbs(kept: Fact, dup: Fact)
    requires GoodEdge(kept.edge) && GoodEdge(dup.edge)
    ensures Absorbed(kept.edge, dup.edge, Combine(kept, dup).edge)
    ensures Combine(kept, dup).edge.observations >= kept.edge.observations && Combine(kept, dup).wording == kept.wording
  {
    hide Both, ReinforceConfidence;
    var novel := Novel(dup.edge.evidence, kept.edge.evidence);
    if novel != [] { assert novel[0] in novel; }
    ReinforcementIsMonotone(kept.edge.confidence, dup.edge.confidence);
  }

  lemma CombineKeepsOrder(kept: Fact, dup: Fact)
    requires GoodEdge(kept.edge) && GoodEdge(dup.edge)
    ensures Combine(kept, dup).edge.evidence == Dedup(kept.edge.evidence + dup.edge.evidence)
  {
    hide ReinforceConfidence, Distinct;
    var known, novel := kept.edge.evidence, Novel(dup.edge.evidence, kept.edge.evidence);
    DedupOfDistinct(known);
    NovelIsTheRest(known, dup.edge.evidence);
    DedupOfDistinct(novel);
    assert known + [] == known;
  }

  ghost predicate TookOver(g: Graph, rels: map<Triple, Fact>, t: Triple, dup: Triple) {
    && (t in rels <==> t in g.rels || dup in g.rels)
    && (forall k :: Cites(rels, t, k) <==> Cites(g.rels, t, k) || Cites(g.rels, dup, k))
    && (t in g.rels ==> rels[t].edge.confidence >= g.rels[t].edge.confidence
                        && rels[t].edge.observations >= g.rels[t].edge.observations
                        && rels[t].wording == g.rels[t].wording)
    && (t in g.rels && dup in g.rels ==>
          Absorbed(g.rels[t].edge, g.rels[dup].edge, rels[t].edge)
          && rels[t].edge.evidence == Dedup(g.rels[t].edge.evidence + g.rels[dup].edge.evidence))
    && (t in g.rels && dup !in g.rels ==> rels[t] == g.rels[t])
    && (t !in g.rels && dup in g.rels ==> rels[t] == g.rels[dup])
  }

  /**
   * A merge removes the duplicate with every edge on it, makes each edge of the survivor take over the duplicate's
   * edge of the same triple, gives the survivor the anchors and the aliases of both, and changes nothing else.
   */
  lemma MergeTakesOver(g: Graph, naming: Naming, d: NodeKey, s: NodeKey)
    requires Lawful(naming) && Sound(g, naming) && d in g.nodes && s in g.nodes && d != s
    ensures
      var g' := MergeNodes(g, naming, d, s);
      && g'.nodes.Keys == g.nodes.Keys - {d} && g.nodes[s] <= g'.nodes[s]
      && g'.nodes[s] == AliasesAfter(naming, g.nodes[s] + g.nodes[d]).0
      && (forall n :: n in g'.nodes && n != s ==> g'.nodes[n] == g.nodes[n])
      && (forall n, k :: (n, k) in g'.anchors <==>
            n != d && ((n, k) in g.anchors || (n == s && (d, k) in g.anchors)))
      && (forall t :: t in g'.rels ==> !Touches(t, d) && t.source != t.target)
      && (forall t :: !Touches(t, d) && !Touches(t, s) ==> Lookup(g'.rels, t) == Lookup(g.rels, t))
      && (forall p, o :: o != s && o != d ==> TookOver(g, g'.rels, Triple(s, p, o), Triple(d, p, o)))
      && (forall p, o :: o != s && o != d ==> TookOver(g, g'.rels, Triple(o, p, s), Triple(o, p, d)))
  {
    hide AliasesAfter, CombineAny, MergedRels, GoodAliases, GoodEdge;
    MergeKeepsExisting(naming, g.nodes[s], g.nodes[d]);
    var g' := MergeNodes(g, naming, d, s);
    forall t ensures Lookup(g'.rels, t) == MergedAt(g.rels, d, s, t) { MergedRelsAt(g.rels, d, s, t); }
    forall t | t in g'.rels ensures !Touches(t, d) && t.source != t.target {
      assert Lookup(g'.rels, t).Some?;
    }
    forall n, k ensures (n, k) in g'.anchors <==> n != d && ((n, k) in g.anchors || (n == s && (d, k) in g.anchors)) {
      if (n, k) in g.anchors { assert (if n == d then s else n, k) in g'.anchors; }
      if (d, k) in g.anchors { assert (s, k) in g'.anchors; }
    }
    forall p, o | o != s && o != d ensures TookOver(g, g'.rels, Triple(s, p, o), Triple(d, p, o)) {
      assert Lookup(g'.rels, Triple(s, p, o)) == MergedAt(g.rels, d, s, Triple(s, p, o));
      TakesOver(g, naming, g'.rels, Triple(s, p, o), Triple(d, p, o));
    }
    forall p, o | o != s && o != d ensures TookOver(g, g'.rels, Triple(o, p, s), Triple(o, p, d)) {
      assert Lookup(g'.rels, Triple(o, p, s)) == MergedAt(g.rels, d, s, Triple(o, p, s));
      TakesOver(g, naming, g'.rels, Triple(o, p, s), Triple(o, p, d));
    }
  }

  /**
   * The survivor survives its merge exactly when it is not the duplicate itself: a node merged into itself is gone
   * with all its anchors and relations, and nothing takes them over.
   */
  lemma SurvivorStaysIff(g: Graph, naming: Naming, d: NodeKey, s: NodeKey)
    requires Lawful(naming) && Sound(g, naming) && d in g.nodes && s in g.nodes
    ensures
      var g' := MergeNodes(g, naming, d, s);
      && (s in g'.nodes <==> d != s) && g'.nodes.Keys == g.nodes.Keys - {d}
      && ((forall k :: (s, k) in g.anchors ==> (s, k) in g'.anchors) <==> d != s || forall k :: (s, k) !in g.anchors)
      && (d == s ==> Bare(s, g'.anchors, g'.rels)
                     && (forall a :: a in g.anchors && a.0 != s ==> a in g'.anchors)
                     && forall t :: !Touches(t, s) ==> Lookup(g'.rels, t) == Lookup(g.rels, t))
  {
    if d != s {
      hide MergeNodes, MergeAliases, GoodEdge, GoodAliases, TookOver;
      MergeTakesOver(g, naming, d, s);
    }
  }

  /** At that input: one node with an anchor and an edge, merged into itself, leaves only the other end. */
  lemma SelfMergeLosesTheNode(naming: Naming, edge: Edge)
    ensures
      var t := Triple("a", "p", "b");
      var g := Graph(map["a" := [], "b" := []], {("a", "k")}, map[t := Fact("p", edge)]);
      MergeNodes(g, naming, "a", "a") == Graph(map["b" := []], {}, map[])
  {
  }

  lemma TakesOver(g: Graph, naming: Naming, rels: map<Triple, Fact>, t: Triple, dup: Triple)
    requires Sound(g, naming) && Lookup(rels, t) == CombineAny(Lookup(g.rels, t), Lookup(g.rels, dup))
    ensures TookOver(g, rels, t, dup)
  {
    hide Absorbed, Combine;
    CombinedEdge(g, naming, t, dup);
  }

  /** A merge of a missing node does nothing; an error it is only where the survivor alone is missing. */
  lemma MergeOfMissing(g: Graph, naming: Naming, d: NodeKey, s: NodeKey)
    ensures MergeError(g, d, s) == if d in g.nodes && s !in g.nodes then Some(MissingTarget(s)) else None
    ensures d !in g.nodes || s !in g.nodes ==> MergeNodes(g, naming, d, s) == g
  {
  }

  /** Deleting a node takes its anchors and its relations along, deleting a relation nothing else. */
  lemma DeletionIsExact(g: Graph, n: NodeKey, t: Triple)
    ensures
      var g' := Detach(g, n);
      && (forall m :: m in g'.nodes <==> m in g.nodes && m != n)
      && (forall m :: m in g'.nodes ==> g'.nodes[m] == g.nodes[m])
      && (forall m, k :: (m, k) in g'.anchors <==> (m, k) in g.anchors && m != n)
      && (forall u :: Lookup(g'.rels, u) == if u.source == n || u.target == n then None else Lookup(g.rels, u))
    ensures
      var g' := DeleteEdge(g, t);
      && g'.nodes == g.nodes && g'.anchors == g.anchors
      && (forall u :: Lookup(g'.rels, u) == if u == t then None else Lookup(g.rels, u))
  {
  }

  // ----- what removing evidence does -----

  /**
   * Removing a piece of evidence leaves it nowhere: an edge goes exactly when it was its only evidence and otherwise
   * loses just that key, and a node goes exactly when it was anchored on it and is left without anchors and edges.
   */
  lemma RemovalIsExact(g: Graph, k: ScopeKey)
    ensures
      var g' := RemoveEvidence(g, k);
      && (forall a :: a in g'.anchors <==> a in g.anchors && a.1 != k)
      && (forall t :: t in g'.rels <==>
            t in g.rels && !(Cites(g.rels, t, k) && forall x :: Cites(g.rels, t, x) ==> x == k))
      && (forall t :: t in g'.rels ==>
            g'.rels[t].wording == g.rels[t].wording
            && g'.rels[t].edge == g.rels[t].edge.(evidence := g'.rels[t].edge.evidence)
            && (!Cites(g.rels, t, k) ==> g'.rels[t] == g.rels[t])
            && forall x :: Cites(g'.rels, t, x) <==> Cites(g.rels, t, x) && x != k)
      && (forall n :: n in g'.nodes <==> n in g.nodes && !((n, k) in g.anchors && Bare(n, g'.anchors, g'.rels)))
      && (forall n :: n in g'.nodes ==> g'.nodes[n] == g.nodes[n])
  {
    var g' := RemoveEvidence(g, k);
    forall t | t in g.rels
      ensures t in g'.rels <==> !(Cites(g.rels, t, k) && forall x :: Cites(g.rels, t, x) ==> x == k)
      ensures !Cites(g.rels, t, k) ==> Without(g.rels[t].edge.evidence, k) == g.rels[t].edge.evidence
    {
      var left := Without(g.rels[t].edge.evidence, k);
      if left != [] {
        assert left[0] in left;
        assert Cites(g.rels, t, left[0]);
      }
      if !Cites(g.rels, t, k) { WithoutNothing(g.rels[t].edge.evidence, k); }
    }
    forall n ensures n in AnchoredOn(g, k) <==> (n, k) in g.anchors {
      if (n, k) in g.anchors { assert (n, k).1 == k; }
    }
  }

  /**
   * The four counts of a removal are the sizes of what is gone: anchors, evidence of edges, nodes and edges.
   */
  lemma RemovalCounts(g: Graph, naming: Naming, k: ScopeKey)
    requires Sound(g, naming)
    ensures
      var g' := RemoveEvidence(g, k);
      && |AnchoredOn(g, k)| == |g.anchors - g'.anchors|
      && (forall t :: t in CitingEdges(g.rels, k) <==> Cites(g.rels, t, k) && !Cites(g'.rels, t, k))
      && OrphanedNodes(g, k) == g.nodes.Keys - g'.nodes.Keys
      && OrphanedEdges(g.rels, k) == g.rels.Keys - g'.rels.Keys
  {
    hide GoodAliases, GoodEdge, Bare;
    RemovalIsExact(g, k);
    var g' := RemoveEvidence(g, k);
    PairedOff(AnchoredOn(g, k), g.anchors - g'.anchors, k);
    forall n | n in OrphanedNodes(g, k) ensures n in g.nodes {
      assert n in AnchoredOn(g, k);
      var a :| a in g.anchors && a.1 == k && a.0 == n;
    }
  }

  lemma {:induction false} PairedOff(nodes: set<NodeKey>, anchors: set<(NodeKey, ScopeKey)>, k: ScopeKey)
    requires forall a :: a in anchors <==> a.1 == k && a.0 in nodes
    ensures |nodes| == |anchors|
    decreases |nodes|
  {
    if nodes == {} {
      assert anchors == {};
    } else {
      var n :| n in nodes;
      assert (n, k) in anchors;
      PairedOff(nodes - {n}, anchors - {(n, k)}, k);
    }
  }

  lemma {:induction false} WithoutNothing(evidence: seq<ScopeKey>, k: ScopeKey)
    requires k !in evidence
    ensures Without(evidence, k) == evidence
  {
    if evidence != [] { WithoutNothing(evidence[1..], k); }
  }

  lemma {:induction false} WithoutOne(front: seq<ScopeKey>, k: ScopeKey, back: seq<ScopeKey>)
    requires k !in front && k !in back
    ensures Without(front + [k] + back, k) == front + back
  {
    hide Distinct;
    if front == [] {
      assert front + [k] + back == [k] + back && ([k] + back)[1..] == back && front + back == back;
      WithoutNothing(back, k);
    } else {
      WithoutOne(front[1..], k, back);
      assert (front + [k] + back)[1..] == front[1..] + [k] + back;
    }
  }

  /** What an edge keeps of its evidence keeps its order. */
  lemma RemovalKeepsOrder(g: Graph, t: Triple, front: seq<ScopeKey>, k: ScopeKey, back: seq<ScopeKey>)
    requires t in g.rels && g.rels[t].edge.evidence == front + [k] + back
    requires k !in front && k !in back && front + back != []
    ensures t in RemoveEvidence(g, k).rels && RemoveEvidence(g, k).rels[t].edge.evidence == front + back
  {
    WithoutOne(front, k, back);
  }

  /** Removing the same evidence again finds nothing and changes nothing. */
  lemma RemovalIsIdempotent(g: Graph, k: ScopeKey)
    ensures RemoveEvidence(RemoveEvidence(g, k), k) == RemoveEvidence(g, k)
    ensures AnchoredOn(RemoveEvidence(g, k), k) == {} && CitingEdges(RemoveEvidence(g, k).rels, k) == {}
  {
    RemovalIsExact(g, k);
    var g' := RemoveEvidence(g, k);
    assert AnchoredOn(g', k) == {};
    forall t | t in g'.rels ensures Without(g'.rels[t].edge.evidence, k) == g'.rels[t].edge.evidence {
      assert !Cites(g'.rels, t, k);
      WithoutNothing(g'.rels[t].edge.evidence, k);
    }
    assert CitingEdges(g'.rels, k) == {} by { forall t | t in g'.rels ensures !Cites(g'.rels, t, k) {} }
    assert OrphanedNodes(g', k) == {};
    assert OrphanedEdges(g'.rels, k) == {};
    assert RelsWithout(g'.rels, k) == g'.rels;
    assert AnchorsWithout(g', k) == g'.anchors;
    assert g'.nodes - {} == g'.nodes;
  }

  // ----- what a run of edge assertions leaves -----

  datatype Claim = Claim(triple: Triple, wording: string, assertion: Assertion)

  function UpsertAll(g: Graph, naming: Naming, claims: seq<Claim>): Graph {
    if claims == [] then g
    else
      var last := claims[|claims| - 1];
      UpsertEdge(UpsertAll(g, naming, claims[..|claims| - 1]), naming, last.triple, last.wording, last.assertion)
  }

  predicate Counts(g: Graph, naming: Naming, t: Triple, c: Claim) {
    c.triple == t && Stateable(g, naming, t, c.wording, c.assertion)
  }

  /** The valid assertions about one triple, oldest first. */
  function AssertedOf(g: Graph, naming: Naming, t: Triple, claims: seq<Claim>): seq<Assertion> {
    if claims == [] then []
    else
      var last := claims[|claims| - 1];
      AssertedOf(g, naming, t, claims[..|claims| - 1])
      + if Counts(g, naming, t, last) then [last.assertion] else []
  }

  lemma {:induction false} UpsertsLeaveNodes(g: Graph, naming: Naming, claims: seq<Claim>)
    ensures UpsertAll(g, naming, claims).nodes == g.nodes && UpsertAll(g, naming, claims).anchors == g.anchors
  {
    if claims != [] { UpsertsLeaveNodes(g, naming, claims[..|claims| - 1]); }
  }

  /** The relation at t is what a list of assertions makes of it. */
  predicate Follows(g: Graph, t: Triple, run: seq<Assertion>) { EdgeOf(Lookup(g.rels, t)) == AfterAll(run) }

  /** However assertions about different relations interleave, each relation is what its own assertions make of it. */
  lemma {:induction false} RelationsAreIndependent(g: Graph, naming: Naming, t: Triple, claims: seq<Claim>)
    requires t !in g.rels
    ensures Follows(UpsertAll(g, naming, claims), t, AssertedOf(g, naming, t, claims))
  {
    hide *;
    if claims == [] {
      NothingClaimed(g, naming, t);
    } else {
      var init, last := claims[..|claims| - 1], claims[|claims| - 1];
      RelationsAreIndependent(g, naming, t, init);
      UpsertsLeaveNodes(g, naming, init);
      OneMoreClaim(g, naming, t, claims);
      OneClaim(UpsertAll(g, naming, init), g, naming, t, last);
      AfterSnoc(AssertedOf(g, naming, t, init), last.assertion);
      FollowsIs(UpsertAll(g, naming, init), t, AssertedOf(g, naming, t, init));
      FollowsIs(UpsertAll(g, naming, claims), t, AssertedOf(g, naming, t, claims));
    }
  }

  lemma FollowsIs(g: Graph, t: Triple, run: seq<Assertion>)
    ensures Follows(g, t, run) <==> EdgeOf(Lookup(g.rels, t)) == AfterAll(run)
  {
  }

  lemma NothingClaimed(g: Graph, naming: Naming, t: Triple)
    requires t !in g.rels
    ensures Follows(UpsertAll(g, naming, []), t, AssertedOf(g, naming, t, []))
  {
  }

  lemma OneMoreClaim(g: Graph, naming: Naming, t: Triple, claims: seq<Claim>)
    requires claims != []
    ensures
      var init, last := claims[..|claims| - 1], claims[|claims| - 1];
      && UpsertAll(g, naming, claims)
          == UpsertEdge(UpsertAll(g, naming, init), naming, last.triple, last.wording, last.assertion)
      && (Counts(g, naming, t, last) ==>
            AssertedOf(g, naming, t, claims) == AssertedOf(g, naming, t, init) + [last.assertion])
      && (!Counts(g, naming, t, last) ==> AssertedOf(g, naming, t, claims) == AssertedOf(g, naming, t, init))
  {
    hide UpsertEdge, EdgeError;
  }

  lemma OneClaim(g: Graph, start: Graph, naming: Naming, t: Triple, c: Claim)
    requires g.nodes == start.nodes
    ensures
      var after := EdgeOf(Lookup(UpsertEdge(g, naming, c.triple, c.wording, c.assertion).rels, t));
      if Counts(start, naming, t, c) then after == Some(DecideEdgeUpsert(c.assertion, EdgeOf(Lookup(g.rels, t))).edge)
      else after == EdgeOf(Lookup(g.rels, t))
  {
  }

  /**
   * In a graph without the relation, claims with independent evidence leave it with one observation for each distinct
   * assertion, the union of their evidence, and a doubt that is the product of theirs, whatever else is claimed in
   * between and however often.
   */
  lemma ClaimsAccumulate(g: Graph, naming: Naming, t: Triple, claims: seq<Claim>, distinct: seq<Assertion>,
      doubts: seq<real>)
    requires t !in g.rels && AssertedOf(g, naming, t, claims) != [] && Independent(AssertedOf(g, naming, t, claims))
    requires Distinct(distinct) && (forall a :: a in distinct <==> a in AssertedOf(g, naming, t, claims))
    requires DoubtsOf(distinct, doubts)
    ensures t in UpsertAll(g, naming, claims).rels
    ensures IsNoisyOr(UpsertAll(g, naming, claims).rels[t].edge, AssertedOf(g, naming, t, claims), distinct, doubts)
  {
    hide *;
    RelationsAreIndependent(g, naming, t, claims);
    FollowsIs(UpsertAll(g, naming, claims), t, AssertedOf(g, naming, t, claims));
    RunIsNoisyOr(AssertedOf(g, naming, t, claims), distinct, doubts);
    FoundEdge(UpsertAll(g, naming, claims).rels, t);
  }

  lemma FoundEdge(rels: map<Triple, Fact>, t: Triple)
    ensures EdgeOf(Lookup(rels, t)).Some? ==> t in rels && EdgeOf(Lookup(rels, t)).value == rels[t].edge
  {
  }
}
