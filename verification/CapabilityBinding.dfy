/** Binding selected capabilities to a session: each selection wholly or not at all. */
module CapabilityBinding {
  import opened Text
  import opened Order
  import opened CapabilityState

  datatype Owner = Owner(provider: string, subject: string)

  datatype Tool = Tool(name: string, handler: string)

  datatype Server = Server(allowedAgents: Option<string>, config: string)

  datatype Source = Source(
    id: string, revision: string, shared: bool, owner: Option<Owner>,
    tools: map<string, Tool>, servers: map<string, Server>)

  /** A parsed source reference: source id, revision and kind. */
  datatype Ref = Ref(sourceId: string, revision: string, kind: string)

  /** What binding is given: the sources and who asks, the names already taken, and three host rules. */
  datatype Context = Context(
    sources: seq<Source>, owner: Option<Owner>, originalTools: set<string>, originalServers: set<string>,
    parseRef: string -> Option<Ref>, reserved: string -> bool, admits: string -> bool)

  datatype BoundEntry = BoundEntry(sourceId: string, revision: string, tools: seq<string>, mcpServers: seq<string>)

  datatype Bindings = Bindings(tools: seq<Tool>, servers: map<string, string>, unavailable: seq<string>,
      bound: seq<BoundEntry>)

  const NOTHING := Bindings([], map[], [], [])

  predicate Visible(source: Source, owner: Option<Owner>) {
    source.shared || (owner.Some? && source.owner == owner)
  }

  /** The first visible source with this id, by its place in the list. */
  function FindSource(sources: seq<Source>, owner: Option<Owner>, id: string): (found: Option<nat>)
    ensures found.Some? ==>
              found.value < |sources| && sources[found.value].id == id && Visible(sources[found.value], owner)
              && forall i :: 0 <= i < found.value ==> !(sources[i].id == id && Visible(sources[i], owner))
    ensures found.None? ==> forall i :: 0 <= i < |sources| ==> !(sources[i].id == id && Visible(sources[i], owner))
  {
    FindSourceFrom(sources, owner, id, 0)
  }

  function FindSourceFrom(sources: seq<Source>, owner: Option<Owner>, id: string, k: nat): (found: Option<nat>)
    requires k <= |sources|
    ensures found.Some? ==>
              k <= found.value < |sources| && sources[found.value].id == id && Visible(sources[found.value], owner)
              && forall i :: k <= i < found.value ==> !(sources[i].id == id && Visible(sources[i], owner))
    ensures found.None? ==> forall i :: k <= i < |sources| ==> !(sources[i].id == id && Visible(sources[i], owner))
    decreases |sources| - k
  {
    if k == |sources| then None
    else if sources[k].id == id && Visible(sources[k], owner) then Some(k)
    else FindSourceFrom(sources, owner, id, k + 1)
  }

  /** The source a reference resolves to: visible, and still at the revision the reference names. */
  function ResolveSource(ctx: Context, ref: string): Option<(nat, Ref)> {
    match ctx.parseRef(ref)
    case None => None
    case Some(parsed) =>
      match FindSource(ctx.sources, ctx.owner, parsed.sourceId)
      case None => None
      case Some(i) => if ctx.sources[i].revision != parsed.revision then None else Some((i, parsed))
  }

  /** A held reference has to resolve to the selected source itself, at its present revision. */
  predicate RefAgrees(ctx: Context, sel: Selection, at: nat) {
    sel.sourceRef.None? || sel.sourceRef == Some("")
    || (ResolveSource(ctx, sel.sourceRef.value).Some?
        && ResolveSource(ctx, sel.sourceRef.value).value.1.kind == "source"
        && ResolveSource(ctx, sel.sourceRef.value).value.0 == at)
  }

  predicate ToolUsable(ctx: Context, source: Source, taken: set<string>, name: string) {
    name in source.tools && source.tools[name].name == name && name !in taken && !ctx.reserved(name)
  }

  /** A server without an allowlist is open to every agent. */
  predicate Admitted(ctx: Context, server: Server) {
    server.allowedAgents.None? || ctx.admits(server.allowedAgents.value)
  }

  predicate ServerUsable(ctx: Context, source: Source, taken: set<string>, name: string) {
    && name != "__proto__" && name != "prototype" && name != "constructor"
    && name in source.servers && name !in taken && Admitted(ctx, source.servers[name])
  }

  predicate Usable(ctx: Context, source: Source, sel: Selection, takenTools: set<string>, takenServers: set<string>) {
    && (forall i :: 0 <= i < |sel.tools| ==> ToolUsable(ctx, source, takenTools, sel.tools[i]))
    && (forall i :: 0 <= i < |sel.mcpServers| ==> ServerUsable(ctx, source, takenServers, sel.mcpServers[i]))
  }

  function Names(tools: seq<Tool>): (names: seq<string>)
    ensures |names| == |tools|
  {
    seq(|tools|, i requires 0 <= i < |tools| => tools[i].name)
  }

  function TakenTools(ctx: Context, b: Bindings): set<string> {
    ctx.originalTools + set n | n in Names(b.tools)
  }

  function TakenServers(ctx: Context, b: Bindings): set<string> { ctx.originalServers + b.servers.Keys }

  /** Whether a selection can be bound after `b`. */
  predicate Binds(ctx: Context, b: Bindings, sel: Selection) {
    var at := FindSource(ctx.sources, ctx.owner, sel.sourceId);
    at.Some? && RefAgrees(ctx, sel, at.value)
    && Usable(ctx, ctx.sources[at.value], sel, TakenTools(ctx, b), TakenServers(ctx, b))
  }

  function SourceOf(ctx: Context, sel: Selection): Source
    requires FindSource(ctx.sources, ctx.owner, sel.sourceId).Some?
  {
    ctx.sources[FindSource(ctx.sources, ctx.owner, sel.sourceId).value]
  }

  function ToolsOf(source: Source, sel: Selection): (tools: seq<Tool>)
    requires forall i :: 0 <= i < |sel.tools| ==> sel.tools[i] in source.tools
    ensures |tools| == |sel.tools|
  {
    seq(|sel.tools|, i requires 0 <= i < |sel.tools| => source.tools[sel.tools[i]])
  }

  function ServersOf(source: Source, sel: Selection): map<string, string>
    requires forall i :: 0 <= i < |sel.mcpServers| ==> sel.mcpServers[i] in source.servers
  {
    map n | n in sel.mcpServers && n in source.servers :: source.servers[n].config
  }

  function BindOne(ctx: Context, b: Bindings, sel: Selection): Bindings {
    if !Binds(ctx, b, sel) then b.(unavailable := b.unavailable + [sel.sourceId])
    else
      var source := SourceOf(ctx, sel);
      Bindings(b.tools + ToolsOf(source, sel), b.servers + ServersOf(source, sel), b.unavailable,
               b.bound + [BoundEntry(source.id, source.revision, Sort(sel.tools), Sort(sel.mcpServers))])
  }

  function BindAll(ctx: Context, selections: seq<Selection>): Bindings {
    if selections == [] then NOTHING
    else BindOne(ctx, BindAll(ctx, selections[..|selections| - 1]), selections[|selections| - 1])
  }

  // ----- the code's own form -----

  datatype Problem = Unavailable | Collision

  method SelectTools(ctx: Context, source: Source, sel: Selection, toolNames: set<string>)
    returns (selected: seq<Tool>, problem: Option<Problem>)
    ensures problem.None? <==> forall i :: 0 <= i < |sel.tools| ==> ToolUsable(ctx, source, toolNames, sel.tools[i])
    ensures problem.None? ==> selected == ToolsOf(source, sel)
  {
    selected, problem := [], None;
    for i := 0 to |sel.tools|
      invariant forall k :: 0 <= k < i ==> ToolUsable(ctx, source, toolNames, sel.tools[k])
      invariant problem.None? && |selected| == i
      invariant forall k :: 0 <= k < i ==> selected[k] == source.tools[sel.tools[k]]
    {
      var name := sel.tools[i];
      if name !in source.tools || source.tools[name].name != name { return selected, Some(Unavailable); }
      if name in toolNames || ctx.reserved(name) { return selected, Some(Collision); }
      selected := selected + [source.tools[name]];
    }
  }

  method SelectServers(ctx: Context, source: Source, sel: Selection, serverNames: set<string>)
    returns (selected: map<string, string>, problem: Option<Problem>)
    ensures problem.None? <==> forall i :: 0 <= i < |sel.mcpServers| ==>
        ServerUsable(ctx, source, serverNames, sel.mcpServers[i])
    ensures problem.None? ==> selected == ServersOf(source, sel)
  {
    selected, problem := map[], None;
    for i := 0 to |sel.mcpServers|
      invariant forall k :: 0 <= k < i ==> ServerUsable(ctx, source, serverNames, sel.mcpServers[k])
      invariant problem.None?
      invariant selected == map n | n in sel.mcpServers[..i] && n in source.servers :: source.servers[n].config
    {
      var name := sel.mcpServers[i];
      if name == "__proto__" || name == "prototype" || name == "constructor" || name !in source.servers {
        return selected, Some(Unavailable);
      }
      var server := source.servers[name];
      if name in serverNames { return selected, Some(Collision); }
      if server.allowedAgents.Some? && !ctx.admits(server.allowedAgents.value) { return selected, Some(Unavailable); }
      selected := selected[name := server.config];
    }
    assert sel.mcpServers[..|sel.mcpServers|] == sel.mcpServers;
  }

  /** One selection: its bound tools and servers, or `None` when it has a problem. */
  method TrySelection(ctx: Context, sel: Selection, toolNames: set<string>, serverNames: set<string>)
    returns (r: Option<(Source, seq<Tool>, map<string, string>)>)
    ensures
      var at := FindSource(ctx.sources, ctx.owner, sel.sourceId);
      && (r.Some? <==>
            at.Some? && RefAgrees(ctx, sel, at.value)
            && Usable(ctx, ctx.sources[at.value], sel, toolNames, serverNames))
      && (r.Some? ==>
            var source := ctx.sources[at.value];
            r.value == (source, ToolsOf(source, sel), ServersOf(source, sel)))
  {
    var at := FindSource(ctx.sources, ctx.owner, sel.sourceId);
    if at.None? { return None; }
    if sel.sourceRef.Some? && sel.sourceRef.value != "" {
      var exact := ResolveSource(ctx, sel.sourceRef.value);
      if exact.None? || exact.value.1.kind != "source" || exact.value.0 != at.value { return None; }
    }
    var source := ctx.sources[at.value];
    var tools, toolProblem := SelectTools(ctx, source, sel, toolNames);
    var servers, serverProblem := SelectServers(ctx, source, sel, serverNames);
    if toolProblem.Some? || serverProblem.Some? { return None; }
    return Some((source, tools, servers));
  }

  /** In strict mode the first selection that cannot be bound fails the whole call. */
  method BindCapabilities(ctx: Context, selections: seq<Selection>, strict: bool) returns (r: Option<Bindings>)
    ensures r.None? <==> strict && BindAll(ctx, selections).unavailable != []
    ensures r.Some? ==> r.value == BindAll(ctx, selections)
  {
    hide Usable, FindSource, RefAgrees;
    var b := NOTHING;
    var toolNames, serverNames := ctx.originalTools, ctx.originalServers;
    for i := 0 to |selections|
      invariant b == BindAll(ctx, selections[..i])
      invariant toolNames == TakenTools(ctx, b) && serverNames == TakenServers(ctx, b)
      invariant strict ==> b.unavailable == []
    {
      var sel := selections[i];
      assert selections[..i + 1][..i] == selections[..i] && selections[..i + 1][i] == sel;
      assert BindAll(ctx, selections[..i + 1]) == BindOne(ctx, b, sel);
      var bound := TrySelection(ctx, sel, toolNames, serverNames);
      if bound.None? {
        if strict {
          UnavailableStays(ctx, selections, i + 1);
          return None;
        }
        b := b.(unavailable := b.unavailable + [sel.sourceId]);
      } else {
        var (source, tools, servers) := bound.value;
        TakenGrows(ctx, b, tools, servers);
        b := Bindings(b.tools + tools, b.servers + servers, b.unavailable,
                      b.bound + [BoundEntry(source.id, source.revision, Sort(sel.tools), Sort(sel.mcpServers))]);
        toolNames := toolNames + set n | n in Names(tools);
        serverNames := serverNames + servers.Keys;
      }
    }
    assert selections[..|selections|] == selections;
    return Some(b);
  }

  lemma TakenGrows(ctx: Context, b: Bindings, tools: seq<Tool>, servers: map<string, string>)
    ensures TakenTools(ctx, b.(tools := b.tools + tools)) == TakenTools(ctx, b) + set n | n in Names(tools)
    ensures TakenServers(ctx, b.(servers := b.servers + servers)) == TakenServers(ctx, b) + servers.Keys
    ensures Names(b.tools + tools) == Names(b.tools) + Names(tools)
  {
    assert Names(b.tools + tools) == Names(b.tools) + Names(tools);
  }

  lemma {:induction false} UnavailableStays(ctx: Context, selections: seq<Selection>, i: nat)
    requires i <= |selections| && BindAll(ctx, selections[..i]).unavailable != []
    ensures BindAll(ctx, selections).unavailable != []
    decreases |selections|
  {
    hide Binds;
    if i == |selections| {
      assert selections[..i] == selections;
    } else {
      var init := selections[..|selections| - 1];
      assert init[..i] == selections[..i];
      UnavailableStays(ctx, init, i);
    }
  }

  // ----- all or nothing -----

  /** Which selections were bound, in order. */
  function Fates(ctx: Context, selections: seq<Selection>): (fates: seq<bool>)
    ensures |fates| == |selections|
  {
    if selections == [] then []
    else
      var init := selections[..|selections| - 1];
      Fates(ctx, init) + [Binds(ctx, BindAll(ctx, init), selections[|selections| - 1])]
  }

  function Picked(selections: seq<Selection>, fates: seq<bool>, fate: bool): seq<Selection>
    requires |fates| == |selections|
  {
    if selections == [] then []
    else
      var n := |selections| - 1;
      Picked(selections[..n], fates[..n], fate) + if fates[n] == fate then [selections[n]] else []
  }

  function SourceIds(selections: seq<Selection>): seq<string> {
    seq(|selections|, i requires 0 <= i < |selections| => selections[i].sourceId)
  }

  function AllTools(selections: seq<Selection>): seq<string> {
    if selections == [] then []
    else AllTools(selections[..|selections| - 1]) + selections[|selections| - 1].tools
  }

  function AllServers(selections: seq<Selection>): seq<string> {
    if selections == [] then []
    else AllServers(selections[..|selections| - 1]) + selections[|selections| - 1].mcpServers
  }

  function EntryOf(ctx: Context, sel: Selection): BoundEntry {
    var at := FindSource(ctx.sources, ctx.owner, sel.sourceId);
    var revision := if at.Some? then ctx.sources[at.value].revision else "";
    BoundEntry(sel.sourceId, revision, Sort(sel.tools), Sort(sel.mcpServers))
  }

  function Entries(ctx: Context, selections: seq<Selection>): seq<BoundEntry> {
    seq(|selections|, i requires 0 <= i < |selections| => EntryOf(ctx, selections[i]))
  }

  /** Selections as a stored state holds them. */
  ghost predicate WellFormed(selections: seq<Selection>) {
    forall i :: 0 <= i < |selections| ==> Distinct(selections[i].tools) && Distinct(selections[i].mcpServers)
  }

  /** The bound names are those of the bound selections, in order, each once, and none was taken before. */
  ghost predicate Exact(ctx: Context, b: Bindings, bound: seq<Selection>) {
    ExactTools(ctx, b, bound) && ExactServers(ctx, b, bound) && b.bound == Entries(ctx, bound)
  }

  ghost predicate ExactTools(ctx: Context, b: Bindings, bound: seq<Selection>) {
    && Names(b.tools) == AllTools(bound) && Distinct(AllTools(bound))
    && (forall n :: n in AllTools(bound) ==> n !in ctx.originalTools && !ctx.reserved(n))
  }

  ghost predicate ExactServers(ctx: Context, b: Bindings, bound: seq<Selection>) {
    && Distinct(AllServers(bound)) && (forall n :: n in b.servers <==> n in AllServers(bound))
    && (forall n :: n in AllServers(bound) ==> n !in ctx.originalServers)
  }

  lemma UsableNamesAreNew(ctx: Context, source: Source, sel: Selection, takenTools: set<string>,
      takenServers: set<string>)
    requires Usable(ctx, source, sel, takenTools, takenServers)
    ensures forall i :: 0 <= i < |sel.tools| ==> sel.tools[i] !in takenTools && !ctx.reserved(sel.tools[i])
    ensures forall i :: 0 <= i < |sel.mcpServers| ==> sel.mcpServers[i] !in takenServers
    ensures Names(ToolsOf(source, sel)) == sel.tools
    ensures forall n :: n in ServersOf(source, sel) <==> n in sel.mcpServers
  {
    assert forall i :: 0 <= i < |sel.tools| ==> ToolUsable(ctx, source, takenTools, sel.tools[i]);
    assert forall i :: 0 <= i < |sel.mcpServers| ==> ServerUsable(ctx, source, takenServers, sel.mcpServers[i]);
  }

  lemma ToolsGrow(ctx: Context, b: Bindings, b': Bindings, bound: seq<Selection>, sel: Selection, tools: seq<Tool>)
    requires ExactTools(ctx, b, bound) && b'.tools == b.tools + tools && Names(tools) == sel.tools
        && Distinct(sel.tools)
    requires forall i :: 0 <= i < |sel.tools| ==> sel.tools[i] !in TakenTools(ctx, b) && !ctx.reserved(sel.tools[i])
    ensures ExactTools(ctx, b', bound + [sel])
  {
    hide Distinct;
    assert (bound + [sel])[..|bound|] == bound;
    TakenGrows(ctx, b, tools, map[]);
    NewNames(AllTools(bound), sel.tools, TakenTools(ctx, b));
  }

  lemma ServersGrow(ctx: Context, b: Bindings, b': Bindings, bound: seq<Selection>, sel: Selection,
      servers: map<string, string>)
    requires ExactServers(ctx, b, bound) && b'.servers == b.servers + servers && Distinct(sel.mcpServers)
    requires forall n :: n in servers <==> n in sel.mcpServers
    requires forall i :: 0 <= i < |sel.mcpServers| ==> sel.mcpServers[i] !in TakenServers(ctx, b)
    ensures ExactServers(ctx, b', bound + [sel])
  {
    hide Distinct;
    assert (bound + [sel])[..|bound|] == bound;
    NewNames(AllServers(bound), sel.mcpServers, TakenServers(ctx, b));
  }

  lemma BindOneIsExact(ctx: Context, b: Bindings, bound: seq<Selection>, sel: Selection)
    requires Exact(ctx, b, bound) && Binds(ctx, b, sel) && Distinct(sel.tools) && Distinct(sel.mcpServers)
    ensures Exact(ctx, BindOne(ctx, b, sel), bound + [sel])
  {
    hide Usable, ToolsOf, ServersOf, FindSource, Distinct, RefAgrees, ExactTools, ExactServers, TakenTools,
        TakenServers, Entries;
    var source, b' := SourceOf(ctx, sel), BindOne(ctx, b, sel);
    UsableHasAll(ctx, source, sel, TakenTools(ctx, b), TakenServers(ctx, b));
    UsableNamesAreNew(ctx, source, sel, TakenTools(ctx, b), TakenServers(ctx, b));
    ToolsGrow(ctx, b, b', bound, sel, ToolsOf(source, sel));
    ServersGrow(ctx, b, b', bound, sel, ServersOf(source, sel));
    EntriesGrow(ctx, bound, sel);
  }

  lemma UsableHasAll(ctx: Context, source: Source, sel: Selection, takenTools: set<string>, takenServers: set<string>)
    requires Usable(ctx, source, sel, takenTools, takenServers)
    ensures forall i :: 0 <= i < |sel.tools| ==> sel.tools[i] in source.tools
    ensures forall i :: 0 <= i < |sel.mcpServers| ==> sel.mcpServers[i] in source.servers
  {
    assert forall i :: 0 <= i < |sel.tools| ==> ToolUsable(ctx, source, takenTools, sel.tools[i]);
    assert forall i :: 0 <= i < |sel.mcpServers| ==> ServerUsable(ctx, source, takenServers, sel.mcpServers[i]);
  }

  lemma UsableServers(ctx: Context, source: Source, sel: Selection, takenTools: set<string>, takenServers: set<string>)
    requires Usable(ctx, source, sel, takenTools, takenServers)
    ensures forall n :: n in sel.mcpServers ==>
              n in source.servers && Admitted(ctx, source.servers[n]) && n !in {"__proto__", "prototype", "constructor"}
  {
    forall n | n in sel.mcpServers ensures ServerUsable(ctx, source, takenServers, n) {
      var i :| 0 <= i < |sel.mcpServers| && sel.mcpServers[i] == n;
    }
  }

  lemma EntriesGrow(ctx: Context, bound: seq<Selection>, sel: Selection)
    ensures Entries(ctx, bound + [sel]) == Entries(ctx, bound) + [EntryOf(ctx, sel)]
  {
    hide EntryOf;
  }

  lemma NewNames(old_: seq<string>, names: seq<string>, taken: set<string>)
    requires Distinct(old_) && Distinct(names)
    requires forall n :: n in old_ ==> n in taken
    requires forall i :: 0 <= i < |names| ==> names[i] !in taken
    ensures Distinct(old_ + names)
    ensures forall n :: n in old_ + names <==> n in old_ || n in names
    ensures forall n :: n in names ==> n !in taken
  {
  }

  /** The bound selections are wholly in the result, and the others, in order, are what is unavailable. */
  ghost predicate Parted(ctx: Context, b: Bindings, selections: seq<Selection>, fates: seq<bool>)
    requires |fates| == |selections|
  {
    Exact(ctx, b, Picked(selections, fates, true)) && b.unavailable == SourceIds(Picked(selections, fates, false))
  }

  /**
   * Every selection is wholly bound or wholly unavailable: the bound tools, servers and entries are exactly those of
   * the bound selections in order, without repetition or collision, and the unavailable ids those of all others.
   */
  lemma {:induction false} WhollyOrNotAtAll(ctx: Context, selections: seq<Selection>)
    requires WellFormed(selections)
    ensures Parted(ctx, BindAll(ctx, selections), selections, Fates(ctx, selections))
  {
    hide Exact, Binds, BindOne;
    if selections == [] {
      NothingIsExact(ctx);
    } else {
      var init, last := selections[..|selections| - 1], selections[|selections| - 1];
      WhollyOrNotAtAll(ctx, init);
      var b, fates := BindAll(ctx, init), Fates(ctx, init);
      var fate := Binds(ctx, b, last);
      assert Fates(ctx, selections)[..|init|] == fates;
      if fate {
        BindOneIsExact(ctx, b, Picked(init, fates, true), last);
      } else {
        assert Picked(selections, Fates(ctx, selections), true) == Picked(init, fates, true);
      }
      OneFate(ctx, b, init, fates, last, fate);
    }
  }

  lemma NothingIsExact(ctx: Context)
    ensures Exact(ctx, NOTHING, [])
  {
  }

  lemma OneFate(ctx: Context, b: Bindings, init: seq<Selection>, fates: seq<bool>, last: Selection, fate: bool)
    requires |fates| == |init| && fate == Binds(ctx, b, last) && b.unavailable == SourceIds(Picked(init, fates, false))
    ensures BindOne(ctx, b, last).unavailable == SourceIds(Picked(init, fates, false) + if fate then [] else [last])
    ensures !fate ==> BindOne(ctx, b, last) == b.(unavailable := b.unavailable + [last.sourceId])
    ensures forall bound :: Exact(ctx, b, bound) && !fate ==> Exact(ctx, BindOne(ctx, b, last), bound)
  {
    hide Binds;
    var dropped := Picked(init, fates, false);
    assert SourceIds(dropped + [last]) == SourceIds(dropped) + [last.sourceId];
    assert dropped + [] == dropped;
  }

  /** Every export a selection names is bound to what the source exports under that name, and the agent may use it. */
  ghost predicate ExportsBound(ctx: Context, sel: Selection, source: Source, b: Bindings) {
    && (forall n :: n in sel.tools ==> n in source.tools && source.tools[n] in b.tools)
    && (forall n :: n in sel.mcpServers ==>
          n in source.servers && n in b.servers && b.servers[n] == source.servers[n].config
          && Admitted(ctx, source.servers[n]) && n !in {"__proto__", "prototype", "constructor"})
  }

  lemma LastIsBound(ctx: Context, b: Bindings, sel: Selection)
    requires Binds(ctx, b, sel)
    ensures FindSource(ctx.sources, ctx.owner, sel.sourceId).Some?
    ensures ExportsBound(ctx, sel, SourceOf(ctx, sel), BindOne(ctx, b, sel))
  {
    hide FindSource, RefAgrees;
    var source := SourceOf(ctx, sel);
    UsableServers(ctx, source, sel, TakenTools(ctx, b), TakenServers(ctx, b));
    forall n | n in sel.tools ensures source.tools[n] in BindOne(ctx, b, sel).tools {
      var k :| 0 <= k < |sel.tools| && sel.tools[k] == n;
      assert ToolsOf(source, sel)[k] == source.tools[n];
    }
  }

  /** No later selection replaces a bound export. */
  lemma StaysBound(ctx: Context, b: Bindings, sel: Selection, source: Source, next: Selection)
    requires ExportsBound(ctx, sel, source, b)
    ensures ExportsBound(ctx, sel, source, BindOne(ctx, b, next))
  {
    hide FindSource, RefAgrees;
    if Binds(ctx, b, next) {
      forall n | n in sel.mcpServers ensures n !in ServersOf(SourceOf(ctx, next), next) {
        assert n in TakenServers(ctx, b);
      }
    }
  }

  lemma BindAllSnoc(ctx: Context, selections: seq<Selection>)
    requires selections != []
    ensures
      var init, n := selections[..|selections| - 1], |selections| - 1;
      && BindAll(ctx, selections) == BindOne(ctx, BindAll(ctx, init), selections[n])
      && (Fates(ctx, selections)[n] <==> Binds(ctx, BindAll(ctx, init), selections[n]))
      && (forall i :: 0 <= i < n ==> Fates(ctx, selections)[i] == Fates(ctx, init)[i] && init[i] == selections[i])
  {
    hide Binds, BindOne;
  }

  lemma BindsMeans(ctx: Context, b: Bindings, sel: Selection)
    requires Binds(ctx, b, sel)
    ensures
      var at := FindSource(ctx.sources, ctx.owner, sel.sourceId);
      at.Some? && RefAgrees(ctx, sel, at.value) && SourceOf(ctx, sel) == ctx.sources[at.value]
  {
  }

  /**
   * A bound tool or server is what its source exports under that name, from the first visible source of that id at
   * the held revision.
   */
  lemma {:induction false} BoundFromTheSource(ctx: Context, selections: seq<Selection>, i: nat)
    requires WellFormed(selections) && i < |selections| && Fates(ctx, selections)[i]
    ensures
      var sel, b := selections[i], BindAll(ctx, selections);
      var at := FindSource(ctx.sources, ctx.owner, sel.sourceId);
      at.Some? && RefAgrees(ctx, sel, at.value) && ExportsBound(ctx, sel, ctx.sources[at.value], b)
  {
    hide *;
    var init, last := selections[..|selections| - 1], selections[|selections| - 1];
    var before := BindAll(ctx, init);
    BindAllSnoc(ctx, selections);
    if i == |selections| - 1 {
      BindsMeans(ctx, before, last);
      LastIsBound(ctx, before, last);
    } else {
      InitIsWellFormed(selections);
      BoundFromTheSource(ctx, init, i);
      var at := FindSource(ctx.sources, ctx.owner, selections[i].sourceId).value;
      StaysBound(ctx, before, selections[i], ctx.sources[at], last);
    }
  }

  lemma InitIsWellFormed(selections: seq<Selection>)
    requires selections != [] && WellFormed(selections)
    ensures WellFormed(selections[..|selections| - 1])
  {
  }

  /** With a source reference held, a bound selection comes from exactly the revision the reference names. */
  lemma HeldRevisionIsBound(ctx: Context, selections: seq<Selection>, i: nat)
    requires WellFormed(selections) && i < |selections| && Fates(ctx, selections)[i]
    requires selections[i].sourceRef.Some? && selections[i].sourceRef.value != ""
    ensures
      var at := FindSource(ctx.sources, ctx.owner, selections[i].sourceId);
      at.Some? && Visible(ctx.sources[at.value], ctx.owner)
      && ctx.parseRef(selections[i].sourceRef.value).Some?
      && ctx.parseRef(selections[i].sourceRef.value).value
         == Ref(selections[i].sourceId, ctx.sources[at.value].revision, "source")
  {
    BoundFromTheSource(ctx, selections, i);
  }
}
