/** What the macro engine and the template macro guarantee: the reapply ceiling,
    the walk that never skips a sibling, the failures of a template call, and
    the layout of the copies an invocation splices in. */
module MacroProperties {
  import opened Results
  import opened Text
  import opened Strings
  import opened Nodes
  import opened MacroResults
  import opened Templates
  import opened Macros

  // ---------------------------------------------------------------------------
  // The engine

  /** A macro that answers `ReapplyTransform` `|ws| - 2` times in a row, moving
      the world through `ws`, and then `Break`: from reapply `j` on, the run ends
      in the last world when there were at most 1000 reapplies, and throws the
      "possible infinite recursion" error otherwise. */
  lemma {:induction false} ReapplyChain(m: Macro, ws: seq<World>, id: NodeId, fuel: nat, j: nat)
    requires |ws| >= 2 && j <= |ws| - 2 && j <= 1000
    requires forall i :: 0 <= i < |ws| ==> WorldValid(ws[i]) && id < |ws[i].nodes|
    requires forall i :: 0 <= i < |ws| - 2 ==> Step(m, ws[i], id, fuel) == Ok(Move(ws[i + 1], ReapplyTransform))
    requires Step(m, ws[|ws| - 2], id, fuel) == Ok(Move(ws[|ws| - 1], Break))
    ensures Reapply(m, ws[j], id, j, fuel) == if |ws| - 2 <= 1000 then Ok(ws[|ws| - 1]) else Err(InfiniteRecursion)
    decreases |ws| - j
  {
    if j < |ws| - 2 {
      assert Step(m, ws[j], id, fuel) == Ok(Move(ws[j + 1], ReapplyTransform));
      if j + 1 <= 1000 {
        ReapplyChain(m, ws, id, fuel, j + 1);
      }
    } else {
      assert Step(m, ws[j], id, fuel) == Ok(Move(ws[j + 1], Break));
    }
  }

  /** Up to 1000 consecutive reapplies are allowed; the 1001st throws. */
  lemma ReapplyCeiling(m: Macro, ws: seq<World>, id: NodeId, fuel: nat)
    requires |ws| >= 2
    requires forall i :: 0 <= i < |ws| ==> WorldValid(ws[i]) && id < |ws[i].nodes|
    requires forall i :: 0 <= i < |ws| - 2 ==> Step(m, ws[i], id, fuel) == Ok(Move(ws[i + 1], ReapplyTransform))
    requires Step(m, ws[|ws| - 2], id, fuel) == Ok(Move(ws[|ws| - 1], Break))
    ensures |ws| - 2 <= 1000 ==> Run(m, ws[0], id, fuel) == Ok(ws[|ws| - 1])
    ensures |ws| - 2 > 1000 ==> Run(m, ws[0], id, fuel) == Err(InfiniteRecursion)
  {
    ReapplyChain(m, ws, id, fuel, 0);
  }

  /** When the run on the child in slot `i` replaces it by `inserted` (nothing,
      when it removed itself), the walk goes on at the same index, so the next
      node visited is the first inserted node or else the next sibling: no
      sibling is skipped and spliced nodes are visited. When the last child
      removes itself, reading its slot throws. */
  lemma WalkSplice(m: Macro, w: World, id: NodeId, i: nat, fuel: nat, after: World, inserted: seq<NodeId>)
    requires WorldValid(w) && id < |w.nodes| && i < |w.nodes[id].children| && fuel > 0
    requires Run(m, w, w.nodes[id].children[i], fuel) == Ok(after)
    requires after.nodes[id].children ==
      w.nodes[id].children[..i] + inserted + w.nodes[id].children[i + 1..]
    requires inserted == [] || inserted[0] != w.nodes[id].children[i]
    requires DistinctIds(w.nodes[id].children)
    ensures i + 1 < |w.nodes[id].children| || inserted != [] ==>
      Walk(m, w, id, i, fuel) == Walk(m, after, id, i, fuel - 1) &&
      after.nodes[id].children[i] == if inserted == [] then w.nodes[id].children[i + 1] else inserted[0]
    ensures i + 1 == |w.nodes[id].children| && inserted == [] ==> Walk(m, w, id, i, fuel) == Err(IndexOutOfRange)
  {
    var kids := w.nodes[id].children;
    var now := after.nodes[id].children;
    WalkStep(m, w, id, i, fuel, after);
    if inserted == [] {
      assert |now| == |kids| - 1;
      if i + 1 < |kids| {
        assert now[i] == kids[i + 1] != kids[i];
      }
    } else {
      assert now[i] == inserted[0];
    }
  }

  /** A run whose child slot is untouched moves on to the next slot. */
  lemma WalkAdvances(m: Macro, w: World, id: NodeId, i: nat, fuel: nat, after: World)
    requires WorldValid(w) && id < |w.nodes| && i < |w.nodes[id].children| && fuel > 0
    requires Run(m, w, w.nodes[id].children[i], fuel) == Ok(after)
    requires after.nodes[id].children == w.nodes[id].children
    ensures Walk(m, w, id, i, fuel) == Walk(m, after, id, i + 1, fuel - 1)
  {
    WalkStep(m, w, id, i, fuel, after);
  }

  // ---------------------------------------------------------------------------
  // Template calls

  /** A line holding a lone quoted fragment gives a node without a key, which
      the template macro passes over whatever its quotation. */
  lemma BareValueIgnored(w: World, id: NodeId, fuel: nat)
    requires WorldValid(w) && id < |w.nodes| && IsBareValue(w.nodes[id])
    ensures TemplateStep(w, id, fuel) == Ok(Move(w, ContinueToChildren))
  {
  }

  /** The failures of a template call, in the order the source meets them. */
  lemma CallFailures(w: World, id: NodeId, fuel: nat)
    requires WorldValid(w) && id < |w.nodes| && IsTemplateCall(w.nodes[id])
    ensures ParseFunctionHeader(w.nodes[id].key.value.snippet).Err? ==>
      TemplateStep(w, id, fuel) == Err(MalformedTemplateHeader)
    ensures ParseFunctionHeader(w.nodes[id].key.value.snippet).Ok? && w.nodes[id].parent.None? ==>
      TemplateStep(w, id, fuel) == Err(NullReference)
    ensures (ParseFunctionHeader(w.nodes[id].key.value.snippet).Ok? && w.nodes[id].parent.Some? &&
             w.nodes[id].parent.value < |w.nodes| && id !in w.nodes[w.nodes[id].parent.value].children) ==>
      TemplateStep(w, id, fuel) == Err(IndexOutOfRange)
  {
  }

  /** A definition leaves its parent's children list at the first slot holding
      it and registers the name after the prefix with the trimmed formals and
      the node itself, whose children stay the body; nothing else changes.
      Defining a name twice throws. */
  lemma DefinitionRegisters(w: World, id: NodeId, fuel: nat, h: Header, p: NodeId, index: nat)
    requires WorldValid(w) && id < |w.nodes| && IsTemplateCall(w.nodes[id])
    requires ParseFunctionHeader(w.nodes[id].key.value.snippet) == Ok(h) && IsDefinitionName(h.name)
    requires w.nodes[id].parent == Some(p) && p < |w.nodes|
    requires IndexOf(w.nodes[p].children, id) == Some(index)
    ensures DefinedName(h.name) in w.functions ==> TemplateStep(w, id, fuel) == Err(DuplicateKey)
    ensures DefinedName(h.name) !in w.functions ==>
      TemplateStep(w, id, fuel).Ok? &&
      var after := TemplateStep(w, id, fuel).value;
      after.next == Break &&
      after.world.functions == w.functions[DefinedName(h.name) := Definition(TrimAll(h.arguments), id)] &&
      |after.world.nodes| == |w.nodes| &&
      after.world.nodes[p].children == w.nodes[p].children[..index] + w.nodes[p].children[index + 1..] &&
      (forall y :: 0 <= y < |w.nodes| && y != p ==> after.world.nodes[y] == w.nodes[y])
  {
  }

  /** The failures of an invocation, after the call has left its parent. */
  lemma InvocationFailures(w: World, parent: NodeId, index: nat, h: Header, fuel: nat)
    requires WorldValid(w) && parent < |w.nodes|
    ensures h.name !in w.functions ==> Invocation(w, parent, index, h, fuel) == Err(UnknownTemplate)
    ensures h.name in w.functions && |w.functions[h.name].parameters| != |h.arguments| ==>
      Invocation(w, parent, index, h, fuel) == Err(ParameterCountMismatch)
    ensures (h.name in w.functions && |w.functions[h.name].parameters| == |h.arguments| &&
             SnapAll(w.nodes, w.nodes[w.functions[h.name].body].children, |w.nodes|).Some? &&
             !Distinct(w.functions[h.name].parameters)) ==>
      Invocation(w, parent, index, h, fuel) == Err(DuplicateKey)
  {
  }

  /** An invocation is handled after the call node has left its slot. */
  lemma InvocationRemovesCall(w: World, id: NodeId, fuel: nat, h: Header, p: NodeId, index: nat)
    requires WorldValid(w) && id < |w.nodes| && IsTemplateCall(w.nodes[id])
    requires ParseFunctionHeader(w.nodes[id].key.value.snippet) == Ok(h) && !IsDefinitionName(h.name)
    requires w.nodes[id].parent == Some(p) && p < |w.nodes|
    requires IndexOf(w.nodes[p].children, id) == Some(index)
    ensures WorldValid(World(RemoveAt(w.nodes, p, index), w.functions))
    ensures TemplateStep(w, id, fuel) == Invocation(World(RemoveAt(w.nodes, p, index), w.functions), p, index, h, fuel)
  {
    RemoveAtWellformed(w.nodes, p, index);
  }

  // ---------------------------------------------------------------------------
  // Fuel

  /** The fuel bound only ever cuts a run short: a run that did not run out of
      fuel gives the same result with any larger bound. */
  lemma {:induction false} RunFuelMonotone(m: Macro, w: World, id: NodeId, fuel: nat, more: nat)
    requires WorldValid(w) && id < |w.nodes| && fuel <= more
    requires Run(m, w, id, fuel) != Err(ExpansionBudget)
    ensures Run(m, w, id, more) == Run(m, w, id, fuel)
    decreases fuel, 3, 0
  {
    ReapplyFuelMonotone(m, w, id, 0, fuel, more);
  }

  lemma {:induction false} StepFuelMonotone(m: Macro, w: World, id: NodeId, fuel: nat, more: nat)
    requires WorldValid(w) && id < |w.nodes| && fuel <= more
    requires Step(m, w, id, fuel) != Err(ExpansionBudget)
    ensures Step(m, w, id, more) == Step(m, w, id, fuel)
    decreases fuel, 1, 0
  {
    if m.Templates? {
      TemplateStepFuelMonotone(w, id, fuel, more);
    }
  }

  lemma {:induction false} TemplateStepFuelMonotone(w: World, id: NodeId, fuel: nat, more: nat)
    requires WorldValid(w) && id < |w.nodes| && fuel <= more
    requires TemplateStep(w, id, fuel) != Err(ExpansionBudget)
    ensures TemplateStep(w, id, more) == TemplateStep(w, id, fuel)
    decreases fuel, 0, 1
  {
    var n := w.nodes[id];
    if IsTemplateCall(n) {
      var h := ParseFunctionHeader(n.key.value.snippet);
      if h.Ok? && n.parent.Some? && !IsDefinitionName(h.value.name) {
        assert Linked(n, |w.nodes|);
        var p := n.parent.value;
        var index := IndexOf(w.nodes[p].children, id);
        if index.Some? {
          InvocationRemovesCall(w, id, fuel, h.value, p, index.value);
          InvocationRemovesCall(w, id, more, h.value, p, index.value);
          InvocationFuelMonotone(World(RemoveAt(w.nodes, p, index.value), w.functions), p, index.value, h.value, fuel, more);
        }
      }
    }
  }

  lemma {:induction false} InvocationFuelMonotone(w: World, parent: NodeId, index: nat, h: Header, fuel: nat, more: nat)
    requires WorldValid(w) && parent < |w.nodes| && fuel <= more
    requires Invocation(w, parent, index, h, fuel) != Err(ExpansionBudget)
    ensures Invocation(w, parent, index, h, more) == Invocation(w, parent, index, h, fuel)
    decreases fuel, 0, 0
  {
    if h.name in w.functions && |w.functions[h.name].parameters| == |h.arguments| {
      var def := w.functions[h.name];
      var ts := SnapAll(w.nodes, w.nodes[def.body].children, |w.nodes|);
      if ts.Some? {
        var copies := Copies(w.nodes, ts.value);
        var kv := KeyValues(def.parameters, h.arguments);
        if kv.Ok? && fuel > 0 {
          CopiesWellformed(w.nodes, ts.value);
          RunEachFuelMonotone(Parameters(kv.value), World(copies.nodes, w.functions), copies.roots, fuel - 1, more - 1);
        }
      }
    }
  }

  lemma {:induction false} ReapplyFuelMonotone(m: Macro, w: World, id: NodeId, iterations: nat, fuel: nat, more: nat)
    requires WorldValid(w) && id < |w.nodes| && iterations <= 1000 && fuel <= more
    requires Reapply(m, w, id, iterations, fuel) != Err(ExpansionBudget)
    ensures Reapply(m, w, id, iterations, more) == Reapply(m, w, id, iterations, fuel)
    decreases fuel, 2, 1000 - iterations
  {
    var s := Step(m, w, id, fuel);
    if s != Err(ExpansionBudget) {
      StepFuelMonotone(m, w, id, fuel, more);
    }
    if s.Ok? {
      if s.value.next == ReapplyTransform {
        if iterations + 1 <= 1000 {
          ReapplyFuelMonotone(m, s.value.world, id, iterations + 1, fuel, more);
        }
      } else if s.value.next != Break && fuel > 0 {
        WalkFuelMonotone(m, s.value.world, id, 0, fuel - 1, more - 1);
      }
    }
  }

  lemma {:induction false} WalkFuelMonotone(m: Macro, w: World, id: NodeId, i: nat, fuel: nat, more: nat)
    requires WorldValid(w) && id < |w.nodes| && fuel <= more
    requires Walk(m, w, id, i, fuel) != Err(ExpansionBudget)
    ensures Walk(m, w, id, i, more) == Walk(m, w, id, i, fuel)
    decreases fuel, 5, 0
  {
    var kids := w.nodes[id].children;
    if i < |kids| && fuel > 0 {
      assert Linked(w.nodes[id], |w.nodes|);
      var child := kids[i];
      var r := Run(m, w, child, fuel);
      if r != Err(ExpansionBudget) {
        RunFuelMonotone(m, w, child, fuel, more);
      }
      if r.Ok? {
        var after := r.value.nodes[id].children;
        if i < |after| {
          WalkFuelMonotone(m, r.value, id, if after[i] == child then i + 1 else i, fuel - 1, more - 1);
        }
      }
    }
  }

  lemma {:induction false} RunEachFuelMonotone(m: Macro, w: World, ids: seq<NodeId>, fuel: nat, more: nat)
    requires WorldValid(w) && (forall k :: 0 <= k < |ids| ==> ids[k] < |w.nodes|) && fuel <= more
    requires RunEach(m, w, ids, fuel) != Err(ExpansionBudget)
    ensures RunEach(m, w, ids, more) == RunEach(m, w, ids, fuel)
    decreases fuel, 4, |ids|
  {
    if ids != [] {
      var r := Run(m, w, ids[0], fuel);
      if r != Err(ExpansionBudget) {
        RunFuelMonotone(m, w, ids[0], fuel, more);
      }
      if r.Ok? {
        RunEachFuelMonotone(m, r.value, ids[1..], fuel, more);
      }
    }
  }
}
