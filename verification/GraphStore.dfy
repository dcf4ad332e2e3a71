/**
 * The graph store itself: rows of relations and anchors that nothing but its own methods keeps from repeating,
 * changed one row at a time.
 */
module GraphStore {
  import opened Text
  import opened Order
  import opened EdgeEvidence
  import opened EvidenceGraph

  datatype Row = Row(key: Triple, fact: Fact)

  // ----- one direction of repointing -----

  function Near(t: Triple, outward: bool): NodeKey { if outward then t.source else t.target }

  function Far(t: Triple, outward: bool): NodeKey { if outward then t.target else t.source }

  function Moved(t: Triple, n: NodeKey, outward: bool): Triple {
    if outward then t.(source := n) else t.(target := n)
  }

  /** The relation at t once every duplicate edge on the near side, but the pending ones, was moved from d to s. */
  ghost function RepointedAt(rels: map<Triple, Fact>, d: NodeKey, s: NodeKey, outward: bool, pending: set<Triple>,
      t: Triple): Option<Fact>
  {
    if Near(t, outward) == s && Far(t, outward) != s && Moved(t, d, outward) !in pending then
      CombineAny(Lookup(rels, t), Lookup(rels, Moved(t, d, outward)))
    else Lookup(rels, t)
  }

  ghost predicate Loopless(rels: map<Triple, Fact>) { forall t :: t in rels ==> t.source != t.target }

  ghost predicate Repointed(before: map<Triple, Fact>, after: map<Triple, Fact>, d: NodeKey, s: NodeKey,
      outward: bool, pending: set<Triple>)
  {
    && Loopless(after)
    && (forall t :: Near(t, outward) != s ==> Lookup(after, t) == Lookup(before, t))
    && (d != s ==> forall t :: Lookup(after, t) == RepointedAt(before, d, s, outward, pending, t))
  }

  /** Moving one more row from the duplicate to the survivor. */
  lemma RepointOne(before: map<Triple, Fact>, after: map<Triple, Fact>, after': map<Triple, Fact>,
                   d: NodeKey, s: NodeKey, outward: bool, pending: set<Triple>, q: Triple)
    requires Loopless(before) && Repointed(before, after, d, s, outward, pending)
    requires q in pending && q in before && Near(q, outward) == d
    requires forall t :: t != Moved(q, s, outward) ==> Lookup(after', t) == Lookup(after, t)
    requires Far(q, outward) == s ==> after' == after
    requires d != s && Far(q, outward) != s ==>
               Lookup(after', Moved(q, s, outward)) == CombineAny(Lookup(after, Moved(q, s, outward)), Some(before[q]))
    ensures Repointed(before, after', d, s, outward, pending - {q})
  {
    hide CombineAny;
    var target := Moved(q, s, outward);
    assert Moved(target, d, outward) == q;
    assert Loopless(after') by {
      forall t | t in after' ensures t.source != t.target {
        if t != target || Far(q, outward) == s { assert Lookup(after', t) == Lookup(after, t); }
      }
    }
    if d != s {
      forall t ensures Lookup(after', t) == RepointedAt(before, d, s, outward, pending - {q}, t) {
        if t == target && Far(q, outward) != s {
          assert Lookup(after, t) == RepointedAt(before, d, s, outward, pending, t) == Lookup(before, t);
        } else {
          assert Moved(t, d, outward) == q ==> Near(t, outward) != s || Far(t, outward) == s;
        }
      }
    }
  }

  /** Out, then in, then deleting the duplicate: together they are the merge. */
  lemma RepointingMerges(rels: map<Triple, Fact>, rels1: map<Triple, Fact>, rels2: map<Triple, Fact>, d: NodeKey,
      s: NodeKey)
    requires Loopless(rels) && d != s
    requires Repointed(rels, rels1, d, s, true, {}) && Repointed(rels1, rels2, d, s, false, {})
    ensures (map t | t in rels2 && !Touches(t, d) :: rels2[t]) == MergedRels(rels, d, s)
  {
    hide CombineAny, MergedRels;
    var detached := map t | t in rels2 && !Touches(t, d) :: rels2[t];
    forall t ensures Lookup(detached, t) == Lookup(MergedRels(rels, d, s), t) {
      MergedRelsAt(rels, d, s, t);
      assert Lookup(rels2, t) == RepointedAt(rels1, d, s, false, {}, t);
      assert Lookup(rels1, t) == RepointedAt(rels, d, s, true, {}, t);
      if !Touches(t, d) && t.source != t.target && t.target == s {
        var dup := t.(target := d);
        assert Lookup(rels1, dup) == RepointedAt(rels, d, s, true, {}, dup);
      }
      if t.source == t.target { assert t !in rels && t !in rels2; }
    }
    SameLookups(detached, MergedRels(rels, d, s));
  }

  lemma SameLookups(a: map<Triple, Fact>, b: map<Triple, Fact>)
    requires forall t :: Lookup(a, t) == Lookup(b, t)
    ensures a == b
  {
    forall t ensures t in a <==> t in b { assert Lookup(a, t) == Lookup(b, t); }
    forall t | t in a ensures a[t] == b[t] { assert Lookup(a, t) == Lookup(b, t); }
  }

  datatype RemovalCounts = RemovalCounts(nodeEvidence: nat, edgeEvidence: nat, nodes: nat, edges: nat)

  /** The relation rows show each relation once. */
  ghost predicate RelRows(rows: map<nat, Row>, at: map<Triple, nat>, rels: map<Triple, Fact>, next: nat) {
    && at.Keys == rels.Keys
    && (forall t :: t in at ==> at[t] in rows && rows[at[t]] == Row(t, rels[t]))
    && (forall i :: i in rows ==> i < next && rows[i].key in at && at[rows[i].key] == i)
  }

  /** The anchor rows show each anchor once. */
  ghost predicate AnchorRows(rows: map<nat, (NodeKey, ScopeKey)>, at: map<(NodeKey, ScopeKey), nat>,
                             anchors: set<(NodeKey, ScopeKey)>, next: nat)
  {
    && at.Keys == anchors
    && (forall a :: a in at ==> at[a] in rows && rows[at[a]] == a)
    && (forall i :: i in rows ==> i < next && rows[i] in at && at[rows[i]] == i)
  }

  lemma DetachRels(rows: map<nat, Row>, at: map<Triple, nat>, rels: map<Triple, Fact>, next: nat, n: NodeKey)
    requires RelRows(rows, at, rels, next)
    ensures RelRows(map i | i in rows && !Touches(rows[i].key, n) :: rows[i],
                    map t | t in at && !Touches(t, n) :: at[t],
                    map t | t in rels && !Touches(t, n) :: rels[t], next)
  {
    hide Touches;
  }

  lemma DetachAnchors(rows: map<nat, (NodeKey, ScopeKey)>, at: map<(NodeKey, ScopeKey), nat>,
                      anchors: set<(NodeKey, ScopeKey)>, next: nat, n: NodeKey)
    requires AnchorRows(rows, at, anchors, next)
    ensures AnchorRows(map i | i in rows && rows[i].0 != n :: rows[i],
                       map a | a in at && a.0 != n :: at[a],
                       (set a | a in anchors && a.0 != n), next)
  {
  }

  lemma DropAnchors(rows: map<nat, (NodeKey, ScopeKey)>, at: map<(NodeKey, ScopeKey), nat>,
                    anchors: set<(NodeKey, ScopeKey)>, next: nat, k: ScopeKey)
    requires AnchorRows(rows, at, anchors, next)
    ensures AnchorRows(map i | i in rows && rows[i].1 != k :: rows[i],
                       map a | a in at && a.1 != k :: at[a],
                       (set a | a in anchors && a.1 != k), next)
  {
  }

  class GraphStore {
    const naming: Naming
    const nodeKeyOf: (string, string) -> NodeKey
    const predicateKeyOf: string -> string

    var nodes: map<NodeKey, seq<string>>
    var anchors: map<nat, (NodeKey, ScopeKey)>
    var rels: map<nat, Row>
    var nextId: nat

    ghost var graph: Graph
    ghost var relAt: map<Triple, nat>
    ghost var anchorAt: map<(NodeKey, ScopeKey), nat>

    /** The rows hold exactly the graph: in particular no triple and no anchor has two rows. */
    ghost predicate Valid()
      reads this
    {
      && nodes == graph.nodes
      && RelRows(rels, relAt, graph.rels, nextId)
      && AnchorRows(anchors, anchorAt, graph.anchors, nextId)
    }

    constructor (naming: Naming, nodeKeyOf: (string, string) -> NodeKey, predicateKeyOf: string -> string)
      ensures Valid() && graph == EMPTY
      ensures this.naming == naming && this.nodeKeyOf == nodeKeyOf && this.predicateKeyOf == predicateKeyOf
    {
      this.naming, this.nodeKeyOf, this.predicateKeyOf := naming, nodeKeyOf, predicateKeyOf;
      nodes, anchors, rels, nextId := map[], map[], map[], 0;
      graph, relAt, anchorAt := EMPTY, map[], map[];
    }

    // --- single statements ---

    method MatchRel(t: Triple) returns (found: Option<Fact>)
      requires Valid()
      ensures found == Lookup(graph.rels, t)
    {
      var ids := set i | i in rels && rels[i].key == t;
      assert t in relAt ==> relAt[t] in ids;
      if ids == {} { return None; }
      var i :| i in ids;
      return Some(rels[i].fact);
    }

    /** The rows a MATCH over all relations returns. */
    method MatchRels(wanted: Row -> bool) returns (found: map<Triple, Fact>)
      requires Valid()
      ensures found == map t | t in graph.rels && wanted(Row(t, graph.rels[t])) :: graph.rels[t]
    {
      var ids := set i | i in rels && wanted(rels[i]);
      ghost var all := ids;
      found := map[];
      while ids != {}
        invariant ids <= all
        invariant found == map t | t in graph.rels && wanted(Row(t, graph.rels[t])) && relAt[t] !in ids :: graph.rels[t]
        decreases ids
      {
        var i :| i in ids;
        found := found[rels[i].key := rels[i].fact];
        ids := ids - {i};
      }
    }

    method CreateRel(t: Triple, fact: Fact)
      requires Valid() && t !in graph.rels
      modifies this
      ensures Valid() && graph == old(graph).(rels := old(graph).rels[t := fact])
    {
      rels := rels[nextId := Row(t, fact)];
      relAt := relAt[t := nextId];
      graph := graph.(rels := graph.rels[t := fact]);
      nextId := nextId + 1;
    }

    method SetRel(t: Triple, fact: Fact)
      requires Valid() && t in graph.rels
      modifies this
      ensures Valid() && graph == old(graph).(rels := old(graph).rels[t := fact])
    {
      rels := map i | i in rels :: if rels[i].key == t then Row(t, fact) else rels[i];
      graph := graph.(rels := graph.rels[t := fact]);
    }

    method DeleteRel(t: Triple)
      requires Valid()
      modifies this
      ensures Valid() && graph == old(graph).(rels := old(graph).rels - {t})
    {
      rels := map i | i in rels && rels[i].key != t :: rels[i];
      relAt := relAt - {t};
      graph := graph.(rels := graph.rels - {t});
    }

    method SetNode(n: NodeKey, aliases: seq<string>)
      requires Valid()
      modifies this
      ensures Valid() && graph == old(graph).(nodes := old(graph).nodes[n := aliases])
    {
      nodes := nodes[n := aliases];
      graph := graph.(nodes := graph.nodes[n := aliases]);
    }

    method DetachDelete(n: NodeKey)
      requires Valid()
      modifies this
      ensures Valid() && graph == Detach(old(graph), n)
    {
      hide RelRows, AnchorRows, Touches;
      DetachRels(rels, relAt, graph.rels, nextId, n);
      DetachAnchors(anchors, anchorAt, graph.anchors, nextId, n);
      nodes := nodes - {n};
      rels := map i | i in rels && !Touches(rels[i].key, n) :: rels[i];
      anchors := map i | i in anchors && anchors[i].0 != n :: anchors[i];
      relAt := map t | t in relAt && !Touches(t, n) :: relAt[t];
      anchorAt := map a | a in anchorAt && a.0 != n :: anchorAt[a];
      graph := Detach(graph, n);
    }

    /** Skips when the anchor is there already, so linking twice never makes a second row. */
    method LinkEvidenceAnchor(n: NodeKey, k: ScopeKey)
      requires Valid()
      modifies this
      ensures Valid() && graph == old(graph).(anchors := old(graph).anchors + {(n, k)})
    {
      if exists i :: i in anchors && anchors[i] == (n, k) {
        assert graph.anchors + {(n, k)} == graph.anchors;
        return;
      }
      assert (n, k) !in anchorAt;
      anchors := anchors[nextId := (n, k)];
      anchorAt := anchorAt[(n, k) := nextId];
      graph := graph.(anchors := graph.anchors + {(n, k)});
      nextId := nextId + 1;
    }

    // --- public operations ---

    method UpsertGraphNode(kind: string, name: string, aliases: seq<string>, evidence: seq<ScopeKey>)
      returns (r: Result<(NodeKey, bool), Error>)
      requires Valid()
      modifies this
      ensures Valid()
      ensures r.Err? <==> naming.trim(kind) == "" || naming.trim(name) == ""
      ensures r.Err? ==> graph == old(graph) && r.error == Blank
      ensures r.Ok? ==>
                r.value == (nodeKeyOf(kind, name), nodeKeyOf(kind, name) !in old(graph).nodes)
                && graph == UpsertNode(old(graph), naming, nodeKeyOf(kind, name), name, aliases, evidence)
    {
      hide AliasesAfter, MergeAliases, RelRows, AnchorRows;
      if naming.trim(kind) == "" || naming.trim(name) == "" { return Err(Blank); }
      var key := nodeKeyOf(kind, name);
      var incoming := MergeAliases(naming, aliases, [name]);
      var created := key !in nodes;
      SetNode(key, if created then incoming else MergeAliases(naming, nodes[key], incoming));
      var scopes := Dedup(evidence);
      for i := 0 to |scopes|
        invariant Valid()
        invariant graph.nodes == UpsertNode(old(graph), naming, key, name, aliases, evidence).nodes
        invariant graph.rels == old(graph).rels
        invariant graph.anchors == old(graph).anchors + set k | k in scopes[..i] :: (key, k)
      {
        LinkEvidenceAnchor(key, scopes[i]);
      }
      assert scopes[..|scopes|] == scopes;
      assert (set k | k in scopes :: (key, k)) == (set k | k in evidence :: (key, k));
      return Ok((key, created));
    }

    method UpsertGraphEdge(source: NodeKey, target: NodeKey, wording: string, a: Assertion)
      returns (r: Result<(Edge, bool), Error>)
      requires Valid()
      modifies this
      ensures Valid()
      ensures
        var t := Triple(source, predicateKeyOf(wording), target);
        && graph == UpsertEdge(old(graph), naming, t, wording, a)
        && (r.Err? <==> EdgeError(old(graph), naming, t, wording, a).Some?)
        && (r.Err? ==> EdgeError(old(graph), naming, t, wording, a) == Some(r.error))
        && (r.Ok? ==> t in graph.rels && graph.rels[t].edge == r.value.0
                      && (r.value.1 <==> t in old(graph).rels && old(graph).rels[t].edge != r.value.0))
    {
      var t := Triple(source, predicateKeyOf(wording), target);
      if source == "" || target == "" { return Err(Blank); }
      if source == target { return Err(SelfLoop); }
      if naming.trim(wording) == "" { return Err(Blank); }
      var confidence := if a.confidence.Some? then a.confidence.value else 1.0;
      if confidence < 0.0 || confidence > 1.0 { return Err(BadConfidence); }
      if source !in nodes { return Err(MissingEndpoint(source)); }
      if target !in nodes { return Err(MissingEndpoint(target)); }
      var existing := MatchRel(t);
      var d := DecideEdgeUpsert(a, EdgeOf(existing));
      match d {
        case Create(edge) => CreateRel(t, Fact(wording, edge));
        case Reinforce(edge) => SetRel(t, existing.value.(edge := edge));
        case Noop(_) =>
      }
      return Ok((d.edge, d.Reinforce?));
    }

    method DeleteGraphNode(n: NodeKey) returns (deleted: bool)
      requires Valid() && forall t :: t in graph.rels ==> t.source in graph.nodes && t.target in graph.nodes
      requires forall a :: a in graph.anchors ==> a.0 in graph.nodes
      modifies this
      ensures Valid() && graph == Detach(old(graph), n) && (deleted <==> n in old(graph).nodes)
    {
      if n !in nodes {
        assert Detach(graph, n) == graph;
        return false;
      }
      DetachDelete(n);
      return true;
    }

    method DeleteGraphEdge(t: Triple) returns (deleted: bool)
      requires Valid()
      modifies this
      ensures Valid() && graph == DeleteEdge(old(graph), t) && (deleted <==> t in old(graph).rels)
    {
      var found := MatchRel(t);
      DeleteRel(t);
      return found.Some?;
    }

    /** Moves the duplicate's edges of one direction to the survivor, combining where the survivor has one already. */
    method Repoint(d: NodeKey, s: NodeKey, outward: bool)
      requires Valid() && Loopless(graph.rels)
      modifies this
      ensures Valid() && graph == old(graph).(rels := graph.rels)
      ensures Repointed(old(graph).rels, graph.rels, d, s, outward, {})
    {
      hide CombineAny, Combine, Repointed, RepointedAt, RelRows, AnchorRows;
      ghost var before := graph.rels;
      var rows := MatchRels((r: Row) => Near(r.key, outward) == d);
      var todo := rows.Keys;
      RepointNothing(before, d, s, outward, todo);
      while todo != {}
        invariant Valid() && graph == old(graph).(rels := graph.rels) && todo <= rows.Keys
        invariant Repointed(before, graph.rels, d, s, outward, todo)
        decreases todo
      {
        var q :| q in todo;
        ghost var after := graph.rels;
        MoveRow(Row(q, rows[q]), d, s, outward);
        RepointOne(before, after, graph.rels, d, s, outward, todo, q);
        todo := todo - {q};
      }
    }

    /** One row: dropped when it joins duplicate and survivor, combined when there is a twin, copied otherwise. */
    method MoveRow(row: Row, d: NodeKey, s: NodeKey, outward: bool)
      requires Valid() && Near(row.key, outward) == d
      modifies this
      ensures Valid() && graph == old(graph).(rels := graph.rels)
      ensures forall t :: t != Moved(row.key, s, outward) ==> Lookup(graph.rels, t) == Lookup(old(graph).rels, t)
      ensures Far(row.key, outward) == s ==> graph.rels == old(graph).rels
      ensures Far(row.key, outward) != s ==>
                Lookup(graph.rels, Moved(row.key, s, outward))
                == CombineAny(Lookup(old(graph).rels, Moved(row.key, s, outward)), Some(row.fact))
    {
      hide ReinforceConfidence, RelRows, AnchorRows;
      if Far(row.key, outward) == s { return; }
      var t := Moved(row.key, s, outward);
      var twin := MatchRel(t);
      if twin.Some? {
        var kept := twin.value;
        var novel := Novel(row.fact.edge.evidence, kept.edge.evidence);
        if row.fact.edge.evidence != [] && novel == [] { return; }
        var confidence := ReinforceConfidence(kept.edge.confidence, row.fact.edge.confidence);
        SetRel(t, kept.(edge := Edge(Clamp01(confidence), kept.edge.observations + row.fact.edge.observations,
                                     kept.edge.evidence + novel)));
      } else {
        CreateRel(t, row.fact);
      }
    }

    method MergeGraphNodes(d: NodeKey, s: NodeKey) returns (error: Option<Error>)
      requires Valid() && Sound(graph, naming)
      modifies this
      ensures Valid() && error == MergeError(old(graph), d, s)
      ensures graph == MergeNodes(old(graph), naming, d, s)
    {
      hide AliasesAfter, MergeAliases, MergedRels, Repointed, GoodAliases, GoodEdge;
      ghost var g := graph;
      if d !in nodes { return None; }
      if s !in nodes { return Some(MissingTarget(s)); }
      SetNode(s, MergeAliases(naming, nodes[s], nodes[d]));
      assert graph.rels == g.rels;
      assert Loopless(graph.rels);
      Repoint(d, s, true);
      ghost var rels1 := graph.rels;
      RepointedIsLoopless(g.rels, rels1, d, s, true);
      Repoint(d, s, false);
      ghost var rels2 := graph.rels;
      MoveAnchors(d, s);
      ghost var g2 := graph;
      DetachDelete(d);
      MergedInSteps(g, naming, d, s, rels1, rels2, g2);
      return None;
    }

    method MoveAnchors(d: NodeKey, s: NodeKey)
      requires Valid()
      modifies this
      ensures Valid() && graph == old(graph).(anchors := graph.anchors)
      ensures graph.anchors == old(graph).anchors + set a | a in old(graph).anchors && a.0 == d :: (s, a.1)
    {
      var todo := set i | i in anchors && anchors[i].0 == d :: anchors[i].1;
      ghost var scopes := todo;
      while todo != {}
        invariant Valid() && graph == old(graph).(anchors := graph.anchors) && todo <= scopes
        invariant graph.anchors == old(graph).anchors + set k | k in scopes && k !in todo :: (s, k)
        decreases todo
      {
        var k :| k in todo;
        LinkEvidenceAnchor(s, k);
        todo := todo - {k};
      }
      forall a | a in old(graph).anchors && a.0 == d ensures a.1 in scopes {
        assert old(anchors)[old(anchorAt)[a]] == a;
      }
      assert (set k | k in scopes && k !in todo :: (s, k)) == (set a | a in old(graph).anchors && a.0 == d :: (s, a.1));
    }

    // --- removing evidence ---

    method RemoveGraphEvidence(k: ScopeKey) returns (r: Result<RemovalCounts, Error>)
      requires Valid() && Sound(graph, naming)
      modifies this
      ensures Valid()
      ensures r.Err? <==> naming.trim(k) == ""
      ensures r.Err? ==> graph == old(graph) && r.error == Blank
      ensures r.Ok? ==>
                graph == RemoveEvidence(old(graph), k)
                && r.value == RemovalCounts(|AnchoredOn(old(graph), k)|, |CitingEdges(old(graph).rels, k)|,
                                            |OrphanedNodes(old(graph), k)|, |OrphanedEdges(old(graph).rels, k)|)
    {
      hide RelRows, AnchorRows, Bare, RelsWithout, CitingEdges, OrphanedEdges, GoodAliases;
      if naming.trim(k) == "" { return Err(Blank); }
      ghost var g := graph;
      var nodeKeys, nodeEvidence := RemoveAnchors(k);
      var edgeEvidence, edgesDeleted := RemoveFromEdges(k);
      ghost var rest := graph;
      var nodesDeleted := DeleteBareNodes(nodeKeys);
      RemovedInSteps(g, rest, k);
      return Ok(RemovalCounts(nodeEvidence, edgeEvidence, nodesDeleted, edgesDeleted));
    }

    method RemoveAnchors(k: ScopeKey) returns (nodeKeys: set<NodeKey>, removed: nat)
      requires Valid()
      modifies this
      ensures Valid() && graph == old(graph).(anchors := AnchorsWithout(old(graph), k))
      ensures nodeKeys == AnchoredOn(old(graph), k) && removed == |nodeKeys|
    {
      var found := map i | i in anchors && anchors[i].1 == k :: anchors[i].0;
      nodeKeys := set i | i in found :: found[i];
      removed := |found|;
      assert nodeKeys == AnchoredOn(graph, k) by {
        forall a | a in graph.anchors && a.1 == k ensures a.0 in nodeKeys { assert anchorAt[a] in found; }
      }
      ImageSize(found, nodeKeys);
      DropAnchors(anchors, anchorAt, graph.anchors, nextId, k);
      hide RelRows, AnchorRows;
      anchors := map i | i in anchors && anchors[i].1 != k :: anchors[i];
      anchorAt := map a | a in anchorAt && a.1 != k :: anchorAt[a];
      graph := graph.(anchors := AnchorsWithout(graph, k));
    }

    method RemoveFromEdges(k: ScopeKey) returns (removed: nat, deleted: nat)
      requires Valid() && forall t :: t in graph.rels ==> Distinct(graph.rels[t].edge.evidence)
      modifies this
      ensures Valid() && graph == old(graph).(rels := RelsWithout(old(graph).rels, k))
      ensures removed == |CitingEdges(old(graph).rels, k)| && deleted == |OrphanedEdges(old(graph).rels, k)|
    {
      hide RelRows, AnchorRows, RelsWithoutOn, OrphanedEdges, Stripped;
      ghost var g := graph;
      var rows := MatchRels((r: Row) => k in r.fact.edge.evidence);
      assert rows.Keys == CitingEdges(g.rels, k);
      var todo := rows.Keys;
      StrippedNothing(g.rels, k, rows.Keys);
      removed, deleted := 0, 0;
      while todo != {}
        invariant Valid() && todo <= rows.Keys && graph == g.(rels := graph.rels)
        invariant Stripped(g.rels, graph.rels, k, rows.Keys, todo, removed, deleted)
        decreases todo
      {
        var q :| q in todo;
        StrippedSoFar(g.rels, graph.rels, k, rows.Keys, todo, removed, deleted);
        var lost, gone := StripRow(Row(q, rows[q]), k, g, rows.Keys - todo);
        StrippedOne(g.rels, graph.rels, k, rows.Keys, todo, removed, deleted, q);
        todo := todo - {q};
        removed := removed + lost;
        if gone { deleted := deleted + 1; }
      }
      StrippedAll(g.rels, graph.rels, k, removed, deleted);
    }

    /** One edge loses the evidence, and goes when nothing else vouches for it. */
    method StripRow(row: Row, k: ScopeKey, ghost g: Graph, ghost done: set<Triple>) returns (lost: nat, gone: bool)
      requires Valid() && graph == g.(rels := RelsWithoutOn(g.rels, k, done)) && row.key !in done
      requires row.key in g.rels && row.fact == g.rels[row.key]
      requires Distinct(row.fact.edge.evidence) && k in row.fact.edge.evidence
      modifies this
      ensures Valid() && graph == g.(rels := RelsWithoutOn(g.rels, k, done + {row.key}))
      ensures lost == 1 && (gone <==> row.key in OrphanedEdges(g.rels, k))
    {
      hide RelRows, AnchorRows;
      StripStep(g.rels, k, done, row.key);
      var left := Without(row.fact.edge.evidence, k);
      lost := |row.fact.edge.evidence| - |left|;
      gone := left == [];
      if gone {
        DeleteRel(row.key);
      } else {
        SetRel(row.key, row.fact.(edge := row.fact.edge.(evidence := left)));
      }
    }

    method DeleteBareNodes(nodeKeys: set<NodeKey>) returns (deleted: nat)
      requires Valid()
      modifies this
      ensures Valid()
      ensures
        var bare := set n | n in nodeKeys && Bare(n, old(graph).anchors, old(graph).rels);
        graph == old(graph).(nodes := old(graph).nodes - bare) && deleted == |bare|
    {
      hide Valid, Bare;
      ghost var g := graph;
      ghost var bare := set n | n in nodeKeys && Bare(n, g.anchors, g.rels);
      var todo := nodeKeys;
      deleted := 0;
      while todo != {}
        invariant Valid() && todo <= nodeKeys
        invariant graph == g.(nodes := g.nodes - (bare - todo))
        invariant deleted == |bare - todo|
        decreases todo
      {
        var n :| n in todo;
        var gone := DeleteIfBare(n);
        OneMoreBare(g.nodes, bare, todo, n);
        todo := todo - {n};
        if gone { deleted := deleted + 1; }
      }
      assert bare - {} == bare;
    }

    method DeleteIfBare(n: NodeKey) returns (gone: bool)
      requires Valid()
      modifies this
      ensures Valid() && (gone <==> Bare(n, old(graph).anchors, old(graph).rels))
      ensures graph == if gone then old(graph).(nodes := old(graph).nodes - {n}) else old(graph)
    {
      BareInRows(n);
      var remaining := exists i :: i in anchors && anchors[i].0 == n;
      if remaining { return false; }
      var stillLinked := exists i :: i in rels && Touches(rels[i].key, n);
      if stillLinked { return false; }
      DetachBare(graph, n);
      DetachDelete(n);
      return true;
    }

    lemma BareInRows(n: NodeKey)
      requires Valid()
      ensures Bare(n, graph.anchors, graph.rels) <==>
                !(exists i :: i in anchors && anchors[i].0 == n) && !(exists i :: i in rels && Touches(rels[i].key, n))
    {
      forall a | a in graph.anchors && a.0 == n ensures exists i :: i in anchors && anchors[i].0 == n {
        assert anchors[anchorAt[a]].0 == n;
      }
      forall t | t in graph.rels && Touches(t, n) ensures exists i :: i in rels && Touches(rels[i].key, n) {
        assert Touches(rels[relAt[t]].key, n);
      }
    }
  }

  // ----- the pieces put together -----

  lemma RepointNothing(rels: map<Triple, Fact>, d: NodeKey, s: NodeKey, outward: bool, pending: set<Triple>)
    requires Loopless(rels) && forall t :: t in rels && Near(t, outward) == d ==> t in pending
    ensures Repointed(rels, rels, d, s, outward, pending)
  {
    hide Combine;
    forall t ensures Lookup(rels, t) == RepointedAt(rels, d, s, outward, pending, t) {
      assert Near(Moved(t, d, outward), outward) == d;
    }
  }

  lemma RepointedIsLoopless(before: map<Triple, Fact>, after: map<Triple, Fact>, d: NodeKey, s: NodeKey, outward: bool)
    requires Repointed(before, after, d, s, outward, {})
    ensures Loopless(after)
  {
  }

  lemma MergedInSteps(g: Graph, naming: Naming, d: NodeKey, s: NodeKey,
                      rels1: map<Triple, Fact>, rels2: map<Triple, Fact>, g2: Graph)
    requires Loopless(g.rels) && d in g.nodes && s in g.nodes
    requires Repointed(g.rels, rels1, d, s, true, {}) && Repointed(rels1, rels2, d, s, false, {})
    requires g2.nodes == g.nodes[s := MergeAliases(naming, g.nodes[s], g.nodes[d])] && g2.rels == rels2
    requires g2.anchors == g.anchors + set a | a in g.anchors && a.0 == d :: (s, a.1)
    ensures Detach(g2, d) == MergeNodes(g, naming, d, s)
  {
    hide MergeAliases, MergedRels;
    if d == s {
      var left := map t | t in g.rels && !Touches(t, d) :: g.rels[t];
      var right := map t | t in rels2 && !Touches(t, d) :: rels2[t];
      forall t ensures Lookup(left, t) == Lookup(right, t) {
        if !Touches(t, d) { assert Lookup(rels2, t) == Lookup(rels1, t) == Lookup(g.rels, t); }
      }
      SameLookups(left, right);
    } else {
      RepointingMerges(g.rels, rels1, rels2, d, s);
      var merged := set a | a in g.anchors :: (if a.0 == d then s else a.0, a.1);
      var left := set a | a in g2.anchors && a.0 != d;
      forall a ensures a in left <==> a in merged {
        if a in merged { var b :| b in g.anchors && a == (if b.0 == d then s else b.0, b.1); }
        if a in g.anchors && a.0 != d { assert a == (if a.0 == d then s else a.0, a.1); }
        if a in left && a !in g.anchors {
          var b :| b in g.anchors && b.0 == d && a == (s, b.1);
          assert a == (if b.0 == d then s else b.0, b.1);
        }
      }
    }
  }

  lemma ImageWithout(m: map<nat, NodeKey>, image: set<NodeKey>, i: nat)
    requires i in m && image == set j | j in m :: m[j]
    requires forall j :: j in m && m[j] == m[i] ==> j == i
    ensures image - {m[i]} == set j | j in m - {i} :: (m - {i})[j]
    ensures |image| == |image - {m[i]}| + 1 && |m| == |m - {i}| + 1
  {
    var less := m - {i};
    assert forall j :: j in less ==> less[j] == m[j] && m[j] != m[i];
    assert m.Keys == less.Keys + {i} && i !in less.Keys;
    assert m[i] in image;
  }

  lemma {:induction false} ImageSize(m: map<nat, NodeKey>, image: set<NodeKey>)
    requires image == set i | i in m :: m[i]
    requires forall i, j :: i in m && j in m && m[i] == m[j] ==> i == j
    ensures |m| == |image|
    decreases |m|
  {
    if m == map[] {
      assert image == {};
    } else {
      var i :| i in m;
      var less := m - {i};
      ImageWithout(m, image, i);
      ImageSize(less, image - {m[i]});
    }
  }

  /** The relations once the evidence is gone from the edges done so far. */
  ghost function RelsWithoutOn(rels: map<Triple, Fact>, k: ScopeKey, done: set<Triple>): map<Triple, Fact> {
    map t | t in rels && !(t in done && t in OrphanedEdges(rels, k)) ::
      if t in done then rels[t].(edge := rels[t].edge.(evidence := Without(rels[t].edge.evidence, k))) else rels[t]
  }

  /** How far the edge pass has come: the citing edges but the pending ones are stripped and counted. */
  ghost predicate Stripped(rels: map<Triple, Fact>, now: map<Triple, Fact>, k: ScopeKey,
                           citing: set<Triple>, pending: set<Triple>, removed: nat, deleted: nat)
  {
    && now == RelsWithoutOn(rels, k, citing - pending)
    && removed == |citing - pending|
    && deleted == |(citing - pending) * OrphanedEdges(rels, k)|
  }

  lemma StrippedNothing(rels: map<Triple, Fact>, k: ScopeKey, citing: set<Triple>)
    ensures Stripped(rels, rels, k, citing, citing, 0, 0)
  {
    assert citing - citing == {};
    assert {} * OrphanedEdges(rels, k) == {};
  }

  lemma StrippedSoFar(rels: map<Triple, Fact>, now: map<Triple, Fact>, k: ScopeKey,
                     citing: set<Triple>, pending: set<Triple>, removed: nat, deleted: nat)
    requires Stripped(rels, now, k, citing, pending, removed, deleted)
    ensures now == RelsWithoutOn(rels, k, citing - pending)
    ensures removed == |citing - pending| && deleted == |(citing - pending) * OrphanedEdges(rels, k)|
  {
  }

  lemma StrippedOne(rels: map<Triple, Fact>, now: map<Triple, Fact>, k: ScopeKey,
                    citing: set<Triple>, pending: set<Triple>, removed: nat, deleted: nat, q: Triple)
    requires q in pending && pending <= citing
    requires removed == |citing - pending| && deleted == |(citing - pending) * OrphanedEdges(rels, k)|
    requires now == RelsWithoutOn(rels, k, citing - pending + {q})
    ensures Stripped(rels, now, k, citing, pending - {q}, removed + 1,
                     if q in OrphanedEdges(rels, k) then deleted + 1 else deleted)
  {
    hide RelsWithoutOn, OrphanedEdges;
    OneMoreOrphan(rels, k, citing - pending, q);
    assert citing - (pending - {q}) == citing - pending + {q};
  }

  lemma StrippedAll(rels: map<Triple, Fact>, now: map<Triple, Fact>, k: ScopeKey, removed: nat, deleted: nat)
    requires Stripped(rels, now, k, CitingEdges(rels, k), {}, removed, deleted)
    ensures now == RelsWithout(rels, k)
    ensures removed == |CitingEdges(rels, k)| && deleted == |OrphanedEdges(rels, k)|
  {
    assert CitingEdges(rels, k) - {} == CitingEdges(rels, k);
    OrphansCite(rels, k);
    AllRelsWithout(rels, k);
  }

  lemma OneMoreOrphan(rels: map<Triple, Fact>, k: ScopeKey, done: set<Triple>, t: Triple)
    requires t !in done
    ensures |(done + {t}) * OrphanedEdges(rels, k)|
         == |done * OrphanedEdges(rels, k)| + if t in OrphanedEdges(rels, k) then 1 else 0
  {
    if t in OrphanedEdges(rels, k) {
      assert (done + {t}) * OrphanedEdges(rels, k) == done * OrphanedEdges(rels, k) + {t};
    } else {
      assert (done + {t}) * OrphanedEdges(rels, k) == done * OrphanedEdges(rels, k);
    }
  }

  lemma OrphansCite(rels: map<Triple, Fact>, k: ScopeKey)
    ensures CitingEdges(rels, k) * OrphanedEdges(rels, k) == OrphanedEdges(rels, k)
  {
  }

  lemma StripStep(rels: map<Triple, Fact>, k: ScopeKey, done: set<Triple>, t: Triple)
    requires t in rels && t !in done && k in rels[t].edge.evidence
    ensures
      var now, left := RelsWithoutOn(rels, k, done), Without(rels[t].edge.evidence, k);
      && t in now && (t in OrphanedEdges(rels, k) <==> left == [])
      && RelsWithoutOn(rels, k, done + {t})
         == if left == [] then now - {t} else now[t := rels[t].(edge := rels[t].edge.(evidence := left))]
  {
  }

  lemma AllRelsWithout(rels: map<Triple, Fact>, k: ScopeKey)
    ensures RelsWithoutOn(rels, k, CitingEdges(rels, k)) == RelsWithout(rels, k)
  {
    forall t | t in rels && t !in CitingEdges(rels, k)
      ensures Without(rels[t].edge.evidence, k) == rels[t].edge.evidence
    {
      WithoutNothing(rels[t].edge.evidence, k);
    }
  }

  lemma RemovedInSteps(g: Graph, rest: Graph, k: ScopeKey)
    requires rest == Graph(g.nodes, AnchorsWithout(g, k), RelsWithout(g.rels, k))
    ensures (set n | n in AnchoredOn(g, k) && Bare(n, rest.anchors, rest.rels)) == OrphanedNodes(g, k)
    ensures rest.(nodes := rest.nodes - OrphanedNodes(g, k)) == RemoveEvidence(g, k)
  {
    hide RelsWithout, Bare;
  }

  lemma OneMoreBare(nodes: map<NodeKey, seq<string>>, bare: set<NodeKey>, pending: set<NodeKey>, n: NodeKey)
    requires n in pending
    ensures nodes - (bare - (pending - {n})) == if n in bare then nodes - (bare - pending) - {n}
        else nodes - (bare - pending)
    ensures bare - (pending - {n}) == if n in bare then bare - pending + {n} else bare - pending
    ensures |bare - (pending - {n})| == |bare - pending| + if n in bare then 1 else 0
  {
  }

  lemma DetachBare(g: Graph, n: NodeKey)
    requires Bare(n, g.anchors, g.rels)
    ensures Detach(g, n) == g.(nodes := g.nodes - {n})
  {
  }
}
