/**
 * What binding promises to callers, over the fields of sources and selections alone: who gets what, from which source,
 * and that nobody entitled is turned away.
 */
module BindingLaw {
  import opened Text
  import opened Order
  import opened CapabilityState
  import opened CapabilityBinding

  /** Shared with everyone, or owned by the one who asks. */
  ghost predicate MaySee(source: Source, owner: Option<Owner>) {
    source.shared
    || (source.owner.Some? && owner.Some?
        && source.owner.value.provider == owner.value.provider && source.owner.value.subject == owner.value.subject)
  }

  /** The first source of that id that the caller may see. */
  ghost predicate FirstOf(ctx: Context, id: string, at: nat) {
    && at < |ctx.sources| && ctx.sources[at].id == id && MaySee(ctx.sources[at], ctx.owner)
    && forall i :: 0 <= i < at ==> !(ctx.sources[i].id == id && MaySee(ctx.sources[i], ctx.owner))
  }

  /** A held reference, if any, names this very source at its present revision. */
  ghost predicate RefNames(ctx: Context, ref: Option<string>, source: Source) {
    ref.None? || ref.value == "" || ctx.parseRef(ref.value) == Some(Ref(source.id, source.revision, "source"))
  }

  ghost predicate ToolsFree(ctx: Context, b: Bindings, names: seq<string>, source: Source) {
    forall n :: n in names ==>
      && n in source.tools && source.tools[n].name == n
      && n !in ctx.originalTools && !ctx.reserved(n) && forall i :: 0 <= i < |b.tools| ==> b.tools[i].name != n
  }

  ghost predicate ServersFree(ctx: Context, b: Bindings, names: seq<string>, source: Source) {
    forall n :: n in names ==>
      && n in source.servers && n !in {"__proto__", "prototype", "constructor"}
      && n !in ctx.originalServers && n !in b.servers
      && (source.servers[n].allowedAgents.None? || ctx.admits(source.servers[n].allowedAgents.value))
  }

  /** The selection can be had from this source, after what was bound before. */
  ghost predicate ToBeHad(ctx: Context, b: Bindings, sel: Selection, source: Source) {
    RefNames(ctx, sel.sourceRef, source) && ToolsFree(ctx, b, sel.tools, source)
    && ServersFree(ctx, b, sel.mcpServers, source)
  }

  ghost predicate Entitled(ctx: Context, b: Bindings, sel: Selection, at: nat) {
    FirstOf(ctx, sel.sourceId, at) && ToBeHad(ctx, b, sel, ctx.sources[at])
  }

  /** The result with everything the selection names taken from the source, in the order it names them. */
  ghost predicate Gained(b: Bindings, b': Bindings, sel: Selection, source: Source) {
    && |b'.tools| == |b.tools| + |sel.tools| && b.tools <= b'.tools
    && (forall i :: 0 <= i < |sel.tools| ==>
          sel.tools[i] in source.tools && b'.tools[|b.tools| + i] == source.tools[sel.tools[i]])
    && (forall n :: n in b'.servers <==> n in b.servers || n in sel.mcpServers)
    && (forall n :: n in b'.servers ==>
          if n in sel.mcpServers then n in source.servers && b'.servers[n] == source.servers[n].config
          else b'.servers[n] == b.servers[n])
    && b'.unavailable == b.unavailable
    && b'.bound == b.bound + [BoundEntry(source.id, source.revision, Sort(sel.tools), Sort(sel.mcpServers))]
  }

  lemma VisibleIs(source: Source, owner: Option<Owner>)
    ensures Visible(source, owner) <==> MaySee(source, owner)
  {
    if owner.Some? && source.owner.Some? {
      assert source.owner == owner <==> source.owner.value == owner.value;
    }
  }

  lemma FindIsFirst(ctx: Context, id: string)
    ensures FindSource(ctx.sources, ctx.owner, id).Some? ==>
              FirstOf(ctx, id, FindSource(ctx.sources, ctx.owner, id).value)
    ensures forall at: nat :: FirstOf(ctx, id, at) ==> FindSource(ctx.sources, ctx.owner, id) == Some(at)
  {
    hide Visible, MaySee;
    forall i | 0 <= i < |ctx.sources|
      ensures Visible(ctx.sources[i], ctx.owner) <==> MaySee(ctx.sources[i], ctx.owner)
    {
      VisibleIs(ctx.sources[i], ctx.owner);
    }
  }

  lemma RefIs(ctx: Context, sel: Selection, at: nat)
    requires FirstOf(ctx, sel.sourceId, at)
    ensures RefAgrees(ctx, sel, at) <==> RefNames(ctx, sel.sourceRef, ctx.sources[at])
  {
    hide FindSource;
    FindIsFirst(ctx, sel.sourceId);
    if sel.sourceRef.Some? && ctx.parseRef(sel.sourceRef.value).Some? {
      FindIsFirst(ctx, ctx.parseRef(sel.sourceRef.value).value.sourceId);
    }
  }

  lemma UsableIs(ctx: Context, b: Bindings, sel: Selection, source: Source)
    ensures Usable(ctx, source, sel, TakenTools(ctx, b), TakenServers(ctx, b))
        <==> ToolsFree(ctx, b, sel.tools, source) && ServersFree(ctx, b, sel.mcpServers, source)
  {
    forall n ensures n in TakenTools(ctx, b)
                     <==> n in ctx.originalTools || exists i :: 0 <= i < |b.tools| && b.tools[i].name == n {
      NameIsTaken(b.tools, n);
    }
    forall i | 0 <= i < |sel.tools|
      ensures ToolUsable(ctx, source, TakenTools(ctx, b), sel.tools[i]) <==> ToolsFree(ctx, b, [sel.tools[i]], source)
    {
    }
    if ToolsFree(ctx, b, sel.tools, source) {
      forall i | 0 <= i < |sel.tools| ensures ToolsFree(ctx, b, [sel.tools[i]], source) {
        assert sel.tools[i] in sel.tools;
      }
    }
    if ServersFree(ctx, b, sel.mcpServers, source) {
      forall i | 0 <= i < |sel.mcpServers|
        ensures ServerUsable(ctx, source, TakenServers(ctx, b), sel.mcpServers[i])
      {
        assert sel.mcpServers[i] in sel.mcpServers;
      }
    }
  }

  lemma NameIsTaken(tools: seq<Tool>, n: string)
    ensures n in Names(tools) <==> exists i :: 0 <= i < |tools| && tools[i].name == n
  {
    if i :| 0 <= i < |tools| && tools[i].name == n { assert Names(tools)[i] == n; }
  }

  lemma BoundIsGained(ctx: Context, b: Bindings, sel: Selection)
    requires Binds(ctx, b, sel)
    ensures Gained(b, BindOne(ctx, b, sel), sel, SourceOf(ctx, sel))
  {
    hide FindSource, RefAgrees;
    var source := SourceOf(ctx, sel);
    UsableHasAll(ctx, source, sel, TakenTools(ctx, b), TakenServers(ctx, b));
    forall n | n in sel.mcpServers ensures n in source.servers {
      var i :| 0 <= i < |sel.mcpServers| && sel.mcpServers[i] == n;
    }
  }

  /**
   * One turn, both ways: a selection is bound exactly when the first source of its id that the caller may see is the
   * one a held reference names and exports all that is asked for under names still free, to an agent that may use it;
   * then just these exports are added, and otherwise nothing but the id to the unavailable ones.
   */
  lemma OneSelection(ctx: Context, b: Bindings, sel: Selection)
    ensures forall at: nat :: Entitled(ctx, b, sel, at) ==>
              at < |ctx.sources| && Gained(b, BindOne(ctx, b, sel), sel, ctx.sources[at])
    ensures (forall at: nat :: !Entitled(ctx, b, sel, at)) ==>
              BindOne(ctx, b, sel) == b.(unavailable := b.unavailable + [sel.sourceId])
  {
    hide Usable, RefAgrees, FindSource, RefNames, ToolsFree, ServersFree, Gained, FirstOf, BindOne;
    FindIsFirst(ctx, sel.sourceId);
    var found := FindSource(ctx.sources, ctx.owner, sel.sourceId);
    forall at: nat | Entitled(ctx, b, sel, at) ensures found == Some(at) && at < |ctx.sources| {}
    if found.Some? {
      assert FirstOf(ctx, sel.sourceId, found.value);
      assert Entitled(ctx, b, sel, found.value) <==> ToBeHad(ctx, b, sel, ctx.sources[found.value]);
      RefIs(ctx, sel, found.value);
      UsableIs(ctx, b, sel, ctx.sources[found.value]);
    }
    if Binds(ctx, b, sel) { BoundIsGained(ctx, b, sel); } else { NotBound(ctx, b, sel); }
  }

  lemma NotBound(ctx: Context, b: Bindings, sel: Selection)
    requires !Binds(ctx, b, sel)
    ensures BindOne(ctx, b, sel) == b.(unavailable := b.unavailable + [sel.sourceId])
  {
  }

  /** Nothing bound is ever lost or replaced, and nothing unavailable becomes available. */
  ghost predicate Grown(b: Bindings, b': Bindings) {
    && b.tools <= b'.tools && b.unavailable <= b'.unavailable && b.bound <= b'.bound
    && forall n :: n in b.servers ==> n in b'.servers && b'.servers[n] == b.servers[n]
  }

  lemma OneTurnGrows(ctx: Context, b: Bindings, sel: Selection)
    ensures Grown(b, BindOne(ctx, b, sel))
  {
    hide Usable, RefAgrees, FindSource;
    if Binds(ctx, b, sel) {
      var source := SourceOf(ctx, sel);
      UsableHasAll(ctx, source, sel, TakenTools(ctx, b), TakenServers(ctx, b));
      forall n | n in b.servers ensures n !in ServersOf(source, sel) {
        UsableNamesAreNew(ctx, source, sel, TakenTools(ctx, b), TakenServers(ctx, b));
        assert n in TakenServers(ctx, b);
      }
    }
  }

  lemma {:induction false} BindingOnlyGrows(ctx: Context, selections: seq<Selection>, k: nat)
    requires k <= |selections|
    ensures Grown(BindAll(ctx, selections[..k]), BindAll(ctx, selections))
    decreases |selections|
  {
    hide BindOne;
    if k == |selections| {
      assert selections[..k] == selections;
    } else {
      var init := selections[..|selections| - 1];
      BindingOnlyGrows(ctx, init, k);
      assert init[..k] == selections[..k];
      OneTurnGrows(ctx, BindAll(ctx, init), selections[|selections| - 1]);
    }
  }

  /** Everything a selection names is in the result, taken from this source. */
  ghost predicate HasAll(b: Bindings, sel: Selection, source: Source) {
    && (forall n :: n in sel.tools ==> n in source.tools && source.tools[n] in b.tools)
    && (forall n :: n in sel.mcpServers ==>
          n in source.servers && n in b.servers && b.servers[n] == source.servers[n].config)
    && BoundEntry(source.id, source.revision, Sort(sel.tools), Sort(sel.mcpServers)) in b.bound
  }

  lemma GainedIsKept(b: Bindings, b': Bindings, end: Bindings, sel: Selection, source: Source)
    requires Gained(b, b', sel, source) && Grown(b', end)
    ensures HasAll(end, sel, source)
  {
    forall n | n in sel.tools ensures n in source.tools && source.tools[n] in end.tools {
      var i :| 0 <= i < |sel.tools| && sel.tools[i] == n;
      assert end.tools[|b.tools| + i] == b'.tools[|b.tools| + i];
    }
    assert end.bound[|b.bound|] == b'.bound[|b.bound|];
  }

  /**
   * Every selection of a list is judged by what stands before it: who is entitled to it gets all of it, from the first
   * source of that id he may see, and keeps it to the end; who is not finds its id among the unavailable ones, and the
   * turn changes nothing else.
   */
  lemma EachSelectionIsJudged(ctx: Context, selections: seq<Selection>, i: nat)
    requires i < |selections|
    ensures
      var sel, b, next := selections[i], BindAll(ctx, selections[..i]), BindAll(ctx, selections[..i + 1]);
      && (forall at: nat :: Entitled(ctx, b, sel, at) ==>
            at < |ctx.sources| && Gained(b, next, sel, ctx.sources[at])
            && HasAll(BindAll(ctx, selections), sel, ctx.sources[at]))
      && ((forall at: nat :: !Entitled(ctx, b, sel, at)) ==>
            next == b.(unavailable := b.unavailable + [sel.sourceId])
            && sel.sourceId in BindAll(ctx, selections).unavailable)
  {
    hide BindOne, Entitled, Gained, HasAll, Grown;
    var sel, b, next := selections[i], BindAll(ctx, selections[..i]), BindAll(ctx, selections[..i + 1]);
    assert selections[..i + 1][..i] == selections[..i];
    assert next == BindOne(ctx, b, sel);
    OneSelection(ctx, b, sel);
    BindingOnlyGrows(ctx, selections, i + 1);
    forall at: nat | Entitled(ctx, b, sel, at) ensures HasAll(BindAll(ctx, selections), sel, ctx.sources[at]) {
      GainedIsKept(b, next, BindAll(ctx, selections), sel, ctx.sources[at]);
    }
    if next == b.(unavailable := b.unavailable + [sel.sourceId]) {
      StaysUnavailable(b, next, BindAll(ctx, selections), sel.sourceId);
    }
  }

  lemma StaysUnavailable(b: Bindings, next: Bindings, end: Bindings, id: string)
    requires next == b.(unavailable := b.unavailable + [id]) && Grown(next, end)
    ensures id in end.unavailable
  {
    assert end.unavailable[|b.unavailable|] == next.unavailable[|b.unavailable|];
  }

  /** At the beginning nothing is bound, so a private tool of somebody else is never bound to the caller. */
  lemma OthersToolStaysPrivate(ctx: Context, sel: Selection, alice: Owner, bob: Owner)
    requires alice != bob && ctx.owner == Some(bob)
    requires forall s :: s in ctx.sources && s.id == sel.sourceId ==> !s.shared && s.owner == Some(alice)
    ensures BindAll(ctx, [sel]) == Bindings([], map[], [sel.sourceId], [])
  {
    hide BindOne, ToBeHad;
    assert alice == Owner(alice.provider, alice.subject) && bob == Owner(bob.provider, bob.subject);
    forall at: nat | at < |ctx.sources| && ctx.sources[at].id == sel.sourceId
      ensures !MaySee(ctx.sources[at], ctx.owner)
    {
      assert ctx.sources[at] in ctx.sources;
    }
    assert [sel][..0] == [] && [sel][0] == sel;
    OneSelection(ctx, NOTHING, sel);
    assert [] + [sel.sourceId] == [sel.sourceId];
  }
}
