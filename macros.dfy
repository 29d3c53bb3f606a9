/** The macro engine (LessML.Macros.MacroExpander) and the template macro
    (LessML.Macros.TemplateTransformer with its TemplateParameterExpander).

    The engine runs a macro on a node, again while the macro asks for it (at
    most 1000 times more), and then, unless the macro answered `Break`, on the
    node's children by index, advancing only when the slot still holds the child
    it just ran on. The template macro removes template calls from their parent:
    a definition is kept in a registry, an invocation is replaced by copies of
    the definition's children in which the formal parameters are substituted.

    The specification is a family of functions over a `World` (the node arena
    and the registry) with a `fuel` bound, since a self-invoking template makes
    the source recurse until its stack overflows; the methods below do the same
    work in place on a `Forest` and a `TemplateTransformer` and are proved
    against those functions. */
module Macros {
  import opened Results
  import opened Strings
  import opened Rules
  import opened Nodes
  import opened MacroResults
  import opened Templates
  import Xaml

  /** A registered template: its trimmed formal parameters and the definition
      node, whose children list is the body. The source keeps that list object
      itself, so the body is read from the node when the template is used. */
  datatype Definition = Definition(parameters: seq<string>, body: NodeId)

  /** Everything a macro run can change: the nodes and the template registry. */
  datatype World = World(nodes: seq<Node>, functions: map<string, Definition>)

  predicate WorldValid(w: World) {
    Wellformed(w.nodes) && forall name :: name in w.functions ==> w.functions[name].body < |w.nodes|
  }

  /** `w2` may follow `w`: it is valid and no node has gone. */
  predicate Grows(w: World, w2: World) {
    WorldValid(w2) && |w.nodes| <= |w2.nodes|
  }

  /** The three macros of the translator: the template macro, the parameter
      expander of one invocation (its substitution list, in insertion order) and
      the XAML rules. */
  datatype Macro = Templates | Parameters(keyValues: seq<(string, string)>) | XamlRules

  /** One call of a macro: the world afterwards and the macro's answer. */
  datatype Move = Move(world: World, next: MacroResult)

  // ---------------------------------------------------------------------------
  // The parameter expander

  /** No formal is empty, so `String.Replace` accepts every pair. */
  predicate Replaceable(kvs: seq<(string, string)>) {
    forall k :: 0 <= k < |kvs| ==> kvs[k].0 != ""
  }

  /** `Expand` on one fragment: its snippet after every replacement in turn. */
  function Expanded(q: QuotedString, kvs: seq<(string, string)>): (r: QuotedString)
    requires Replaceable(kvs)
    ensures r.quotation == q.quotation && Substitute(q.snippet, kvs) == Ok(r.snippet)
  {
    q.(snippet := Substitute(q.snippet, kvs).value)
  }

  /** `Expand` on a key or operator, which it skips when null. */
  function ExpandedOption(q: Option<QuotedString>, kvs: seq<(string, string)>): (r: Option<QuotedString>)
    requires Replaceable(kvs)
    ensures r.Some? <==> q.Some?
    ensures q.Some? ==> r.value == Expanded(q.value, kvs)
  {
    if q.None? then None else Some(Expanded(q.value, kvs))
  }

  /** A node with its key, operator and every value fragment expanded. */
  function ExpandedNode(n: Node, kvs: seq<(string, string)>): (r: Node)
    requires Replaceable(kvs)
    ensures r.parent == n.parent && r.children == n.children && |r.value| == |n.value|
    ensures r.key == ExpandedOption(n.key, kvs) && r.op == ExpandedOption(n.op, kvs)
    ensures forall k :: 0 <= k < |n.value| ==> r.value[k] == Expanded(n.value[k], kvs)
  {
    n.(key := ExpandedOption(n.key, kvs), op := ExpandedOption(n.op, kvs),
       value := seq(|n.value|, k requires 0 <= k < |n.value| => Expanded(n.value[k], kvs)))
  }

  /** `TemplateParameterExpander.Transform`: an empty formal makes the first
      snippet it meets throw; a node with no snippet at all is left as it is. The
      answer is always `ContinueToChildren`. */
  function ExpandStep(nodes: seq<Node>, id: NodeId, kvs: seq<(string, string)>): (r: Result<Stepped>)
    requires id < |nodes|
    ensures r.Err? <==> !Replaceable(kvs) && (nodes[id].key.Some? || nodes[id].op.Some? || nodes[id].value != [])
    ensures r.Err? ==> r.error == EmptyReplacePattern
    ensures r.Ok? ==> r.value.next == ContinueToChildren && |r.value.nodes| == |nodes|
    ensures r.Ok? ==> forall x :: 0 <= x < |nodes| && x != id ==> r.value.nodes[x] == nodes[x]
    ensures r.Ok? && Replaceable(kvs) ==> r.value.nodes[id] == ExpandedNode(nodes[id], kvs)
    ensures r.Ok? && !Replaceable(kvs) ==> r.value.nodes == nodes
  {
    var n := nodes[id];
    if !Replaceable(kvs) then
      if n.key.Some? || n.op.Some? || n.value != [] then Err(EmptyReplacePattern)
      else Ok(Stepped(nodes, ContinueToChildren))
    else Ok(Stepped(nodes[id := ExpandedNode(n, kvs)], ContinueToChildren))
  }

  // ---------------------------------------------------------------------------
  // Changes to a child list

  /** `Children.RemoveAt(index)`; the removed node keeps its parent link. */
  function RemoveAt(nodes: seq<Node>, parent: NodeId, index: nat): (r: seq<Node>)
    requires parent < |nodes| && index < |nodes[parent].children|
    ensures |r| == |nodes|
  {
    var cs := nodes[parent].children;
    nodes[parent := nodes[parent].(children := cs[..index] + cs[index + 1..])]
  }

  /** `Children.InsertRange(index, ids)`; the parent links of `ids` are not set. */
  function InsertAt(nodes: seq<Node>, parent: NodeId, index: nat, ids: seq<NodeId>): (r: seq<Node>)
    requires parent < |nodes| && index <= |nodes[parent].children|
    ensures |r| == |nodes|
  {
    var cs := nodes[parent].children;
    nodes[parent := nodes[parent].(children := cs[..index] + ids + cs[index..])]
  }

  lemma RemoveAtWellformed(nodes: seq<Node>, parent: NodeId, index: nat)
    requires Wellformed(nodes) && parent < |nodes| && index < |nodes[parent].children|
    ensures Wellformed(RemoveAt(nodes, parent, index))
  {
    var r := RemoveAt(nodes, parent, index);
    forall x | 0 <= x < |r| ensures Linked(r[x], |r|) {
      assert Linked(nodes[x], |nodes|);
    }
  }

  lemma InsertAtWellformed(nodes: seq<Node>, parent: NodeId, index: nat, ids: seq<NodeId>)
    requires Wellformed(nodes) && parent < |nodes| && index <= |nodes[parent].children|
    requires forall k :: 0 <= k < |ids| ==> ids[k] < |nodes|
    ensures Wellformed(InsertAt(nodes, parent, index, ids))
  {
    var r := InsertAt(nodes, parent, index, ids);
    forall x | 0 <= x < |r| ensures Linked(r[x], |r|) {
      assert Linked(nodes[x], |nodes|);
    }
  }

  // ---------------------------------------------------------------------------
  // Copies of a template body

  /** The arena after copying each tree in turn, and where each copy's root went. */
  datatype Cloned = Cloned(nodes: seq<Node>, roots: seq<NodeId>)

  function Copies(nodes: seq<Node>, ts: seq<Tree>): (r: Cloned)
    ensures |r.nodes| >= |nodes| && |r.roots| == |ts|
    ensures forall k :: 0 <= k < |ts| ==> |nodes| <= r.roots[k] < |r.nodes|
    decreases |ts|
  {
    if ts == [] then Cloned(nodes, [])
    else
      var rest := Copies(Grow(nodes, ts[0]), ts[1..]);
      Cloned(rest.nodes, [|nodes|] + rest.roots)
  }

  lemma {:induction false} CopiesWellformed(nodes: seq<Node>, ts: seq<Tree>)
    requires Wellformed(nodes)
    ensures Wellformed(Copies(nodes, ts).nodes)
    decreases |ts|
  {
    if ts != [] {
      GrowFacts(nodes, ts[0]);
      CopiesWellformed(Grow(nodes, ts[0]), ts[1..]);
    }
  }

  // ---------------------------------------------------------------------------
  // The engine, as functions

  /** One call of macro `m` on node `id`. */
  function Step(m: Macro, w: World, id: NodeId, fuel: nat): (r: Result<Move>)
    requires WorldValid(w) && id < |w.nodes|
    ensures r.Ok? ==> Grows(w, r.value.world)
    decreases fuel, 1, 0
  {
    if m.Templates? then TemplateStep(w, id, fuel)
    else
      var s := if m.Parameters? then ExpandStep(w.nodes, id, m.keyValues) else Xaml.Step(w.nodes, id);
      if s.Err? then Err(s.error)
      else
        assert m.Parameters? ==> Wellformed(s.value.nodes) by {
          if m.Parameters? && Replaceable(m.keyValues) {
            forall x | 0 <= x < |s.value.nodes| ensures Linked(s.value.nodes[x], |s.value.nodes|) {
              assert Linked(w.nodes[x], |w.nodes|);
            }
          }
        }
        Ok(Move(World(s.value.nodes, w.functions), s.value.next))
  }

  /** `MacroExpander.Transform(node, macro)`. */
  function Run(m: Macro, w: World, id: NodeId, fuel: nat): (r: Result<World>)
    requires WorldValid(w) && id < |w.nodes|
    ensures r.Ok? ==> Grows(w, r.value)
    decreases fuel, 3, 0
  {
    Reapply(m, w, id, 0, fuel)
  }

  /** The engine's first loop, `iterations` reapplies in: the macro is called
      again while it answers `ReapplyTransform`, and the 1001st reapply throws.
      `Break` ends the run; `ContinueToChildren` goes on to the children. */
  function Reapply(m: Macro, w: World, id: NodeId, iterations: nat, fuel: nat): (r: Result<World>)
    requires WorldValid(w) && id < |w.nodes| && iterations <= 1000
    ensures r.Ok? ==> Grows(w, r.value)
    decreases fuel, 2, 1000 - iterations
  {
    var s := Step(m, w, id, fuel);
    if s.Err? then Err(s.error)
    else if s.value.next == ReapplyTransform then
      if iterations + 1 > 1000 then Err(InfiniteRecursion)
      else Reapply(m, s.value.world, id, iterations + 1, fuel)
    else if s.value.next == Break then Ok(s.value.world)
    else if fuel == 0 then Err(ExpansionBudget)
    else Walk(m, s.value.world, id, 0, fuel - 1)
  }

  /** The engine's second loop, at index `i`: the children list is read afresh
      each time; after a child's run the index advances only if slot `i` still
      holds that child, and reading slot `i` past the end throws. */
  function Walk(m: Macro, w: World, id: NodeId, i: nat, fuel: nat): (r: Result<World>)
    requires WorldValid(w) && id < |w.nodes|
    ensures r.Ok? ==> Grows(w, r.value)
    decreases fuel, 5, 0
  {
    var kids := w.nodes[id].children;
    if i >= |kids| then Ok(w)
    else if fuel == 0 then Err(ExpansionBudget)
    else
      assert Linked(w.nodes[id], |w.nodes|);
      var child := kids[i];
      var r := Run(m, w, child, fuel);
      if r.Err? then r
      else
        var after := r.value.nodes[id].children;
        if i >= |after| then Err(IndexOutOfRange)
        else Walk(m, r.value, id, if after[i] == child then i + 1 else i, fuel - 1)
  }

  /** The engine run on each node in turn (`foreach (var child in children)`). */
  function RunEach(m: Macro, w: World, ids: seq<NodeId>, fuel: nat): (r: Result<World>)
    requires WorldValid(w) && forall k :: 0 <= k < |ids| ==> ids[k] < |w.nodes|
    ensures r.Ok? ==> Grows(w, r.value)
    decreases fuel, 4, |ids|
  {
    if ids == [] then Ok(w)
    else
      var r := Run(m, w, ids[0], fuel);
      if r.Err? then r
      else RunEach(m, r.value, ids[1..], fuel)
  }

  // ---------------------------------------------------------------------------
  // The template macro, as functions

  /** What the template macro acts on: a node whose key is quoted with the
      template quotation itself (reference equality, not an equal copy) and
      whose value is empty. */
  predicate IsTemplateCall(n: Node) {
    n.key.Some? && n.value == [] && n.key.value.quotation == Some(TemplateApplication)
  }

  /** `ParseTemplateInvocation`. */
  function TemplateStep(w: World, id: NodeId, fuel: nat): (r: Result<Move>)
    requires WorldValid(w) && id < |w.nodes|
    ensures r.Ok? ==> Grows(w, r.value.world)
    ensures !IsTemplateCall(w.nodes[id]) ==> r == Ok(Move(w, ContinueToChildren))
    ensures IsTemplateCall(w.nodes[id]) && r.Ok? ==> r.value.next == Break
    decreases fuel, 0, 1
  {
    var n := w.nodes[id];
    if !IsTemplateCall(n) then Ok(Move(w, ContinueToChildren))
    else
      var h := ParseFunctionHeader(n.key.value.snippet);
      if h.Err? then Err(h.error)
      else if n.parent.None? then Err(NullReference)
      else
        assert Linked(n, |w.nodes|);
        var p := n.parent.value;
        var index := IndexOf(w.nodes[p].children, id);
        if index.None? then Err(IndexOutOfRange)
        else
          var removed := RemoveAt(w.nodes, p, index.value);
          RemoveAtWellformed(w.nodes, p, index.value);
          if IsDefinitionName(h.value.name) then
            var name := DefinedName(h.value.name);
            if name in w.functions then Err(DuplicateKey)
            else Ok(Move(World(removed, w.functions[name := Definition(TrimAll(h.value.arguments), id)]), Break))
          else Invocation(World(removed, w.functions), p, index.value, h.value, fuel)
  }

  /** The invocation branch, after the call node has left slot `index` of
      `parent`: the body's nodes are copied, the substitution list is built, the
      expander runs over each copy, and the copies go in at `index`. */
  function Invocation(w: World, parent: NodeId, index: nat, h: Header, fuel: nat): (r: Result<Move>)
    requires WorldValid(w) && parent < |w.nodes|
    ensures r.Ok? ==> Grows(w, r.value.world) && r.value.next == Break
    decreases fuel, 0, 0
  {
    if h.name !in w.functions then Err(UnknownTemplate)
    else
      var def := w.functions[h.name];
      if |def.parameters| != |h.arguments| then Err(ParameterCountMismatch)
      else
        var ts := SnapAll(w.nodes, w.nodes[def.body].children, |w.nodes|);
        if ts.None? then Err(ExpansionBudget)
        else
          var copies := Copies(w.nodes, ts.value);
          var kv := KeyValues(def.parameters, h.arguments);
          if kv.Err? then Err(kv.error)
          else if fuel == 0 then Err(ExpansionBudget)
          else
            CopiesWellformed(w.nodes, ts.value);
            var ran := RunEach(Parameters(kv.value), World(copies.nodes, w.functions), copies.roots, fuel - 1);
            if ran.Err? then Err(ran.error)
            else if index > |ran.value.nodes[parent].children| then Err(IndexOutOfRange)
            else
              InsertAtWellformed(ran.value.nodes, parent, index, copies.roots);
              Ok(Move(World(InsertAt(ran.value.nodes, parent, index, copies.roots), ran.value.functions), Break))
  }

  // ---------------------------------------------------------------------------
  // The engine and the macros, in place

  /** How a macro method reports its call: its answer with the new world, or its exception. */
  function Outcome(r: Result<MacroResult>, w: World): (s: Result<Move>)
    ensures s.Ok? <==> r.Ok?
    ensures s.Ok? ==> s.value == Move(w, r.value)
    ensures s.Err? ==> s.error == r.error
  {
    if r.Err? then Err(r.error) else Ok(Move(w, r.value))
  }

  /** How the engine method reports a run: the new world, or the exception. */
  function Settled(r: Result<()>, w: World): (s: Result<World>)
    ensures s.Ok? <==> r.Ok?
    ensures s.Ok? ==> s.value == w
    ensures s.Err? ==> s.error == r.error
  {
    if r.Err? then Err(r.error) else Ok(w)
  }

  /** `MacroExpander.Transform`, on the nodes of `f` and the registry of `t`
      (which only the template macro uses). */
  method RunMacro(f: Forest, t: TemplateTransformer, m: Macro, id: NodeId, fuel: nat) returns (r: Result<()>)
    requires WorldValid(World(f.nodes, t.functions)) && id < |f.nodes|
    modifies f, t
    ensures Settled(r, World(f.nodes, t.functions)) == Run(m, World(old(f.nodes), old(t.functions)), id, fuel)
    decreases fuel, 3, 0
  {
    ghost var whole := Run(m, World(f.nodes, t.functions), id, fuel);
    var iterations := 0;
    var next := ContinueToChildren;
    while true
      invariant WorldValid(World(f.nodes, t.functions)) && id < |f.nodes| && iterations <= 1000
      invariant Reapply(m, World(f.nodes, t.functions), id, iterations, fuel) == whole
      decreases 1000 - iterations
    {
      ghost var before := World(f.nodes, t.functions);
      var s := Apply(f, t, m, id, fuel);
      if s.Err? {
        return Err(s.error);
      }
      if s.value != ReapplyTransform {
        next := s.value;
        ReapplyEnds(m, before, id, iterations, fuel, World(f.nodes, t.functions), next);
        assert next == ContinueToChildren && fuel > 0 ==> Walk(m, World(f.nodes, t.functions), id, 0, fuel - 1) == whole;
        break;
      }
      iterations := iterations + 1;
      if iterations > 1000 {
        return Err(InfiniteRecursion);
      }
    }
    if next == Break {
      return Ok(());
    }
    if fuel == 0 {
      return Err(ExpansionBudget);
    }
    r := WalkChildren(f, t, m, id, fuel - 1);
  }

  /** The engine's second loop: the children of `id`, each run in turn, with
      `fuel` runs left between them. */
  method WalkChildren(f: Forest, t: TemplateTransformer, m: Macro, id: NodeId, fuel: nat) returns (r: Result<()>)
    requires WorldValid(World(f.nodes, t.functions)) && id < |f.nodes|
    modifies f, t
    ensures Settled(r, World(f.nodes, t.functions)) == Walk(m, World(old(f.nodes), old(t.functions)), id, 0, fuel)
    decreases fuel, 4, 0
  {
    ghost var whole := Walk(m, World(f.nodes, t.functions), id, 0, fuel);
    var budget: nat := fuel;
    var i: nat := 0;
    while i < |f.nodes[id].children|
      invariant WorldValid(World(f.nodes, t.functions)) && id < |f.nodes| && budget <= fuel
      invariant Walk(m, World(f.nodes, t.functions), id, i, budget) == whole
      decreases budget
    {
      if budget == 0 {
        return Err(ExpansionBudget);
      }
      assert Linked(f.nodes[id], |f.nodes|);
      ghost var before := World(f.nodes, t.functions);
      var child := f.nodes[id].children[i];
      var done := RunMacro(f, t, m, child, budget);
      if done.Err? {
        return done;
      }
      WalkStep(m, before, id, i, budget, World(f.nodes, t.functions));
      if i >= |f.nodes[id].children| {
        return Err(IndexOutOfRange);
      }
      ghost var after := World(f.nodes, t.functions);
      if f.nodes[id].children[i] == child {
        i := i + 1;
      }
      assert Walk(m, after, id, i, budget - 1) == whole;
      budget := budget - 1;
    }
    return Ok(());
  }

  /** The first loop ends when the macro answers anything but `ReapplyTransform`:
      `Break` ends the run with the children unvisited, `ContinueToChildren`
      starts the walk over them at index 0. */
  lemma ReapplyEnds(m: Macro, w: World, id: NodeId, iterations: nat, fuel: nat, after: World, next: MacroResult)
    requires WorldValid(w) && id < |w.nodes| && iterations <= 1000
    requires Step(m, w, id, fuel) == Ok(Move(after, next)) && next != ReapplyTransform
    ensures next == Break ==> Reapply(m, w, id, iterations, fuel) == Ok(after)
    ensures next == ContinueToChildren && fuel > 0 ==> Reapply(m, w, id, iterations, fuel) == Walk(m, after, id, 0, fuel - 1)
  {
  }

  /** One round of the walk: after the run on the child in slot `i`, reading slot
      `i` past the end throws; otherwise the walk goes on at `i + 1` when the slot
      still holds that child and at `i` itself when it does not. */
  lemma WalkStep(m: Macro, w: World, id: NodeId, i: nat, fuel: nat, after: World)
    requires WorldValid(w) && id < |w.nodes| && i < |w.nodes[id].children| && fuel > 0
    requires Run(m, w, w.nodes[id].children[i], fuel) == Ok(after)
    ensures i >= |after.nodes[id].children| ==> Walk(m, w, id, i, fuel) == Err(IndexOutOfRange)
    ensures i < |after.nodes[id].children| ==>
      Walk(m, w, id, i, fuel) ==
      Walk(m, after, id, if after.nodes[id].children[i] == w.nodes[id].children[i] then i + 1 else i, fuel - 1)
  {
  }

  /** `macro.Transform(node)`, dispatched on the macro. */
  method Apply(f: Forest, t: TemplateTransformer, m: Macro, id: NodeId, fuel: nat) returns (r: Result<MacroResult>)
    requires WorldValid(World(f.nodes, t.functions)) && id < |f.nodes|
    modifies f, t
    ensures Outcome(r, World(f.nodes, t.functions)) == Step(m, World(old(f.nodes), old(t.functions)), id, fuel)
    decreases fuel, 1, 0
  {
    if m.Templates? {
      r := t.Transform(f, id, fuel);
    } else if m.Parameters? {
      r := ExpandParameters(f, id, m.keyValues);
    } else {
      r := Xaml.Transform(f, id);
    }
  }

  /** `TemplateParameterExpander.Transform`: the key, the operator and then each
      value fragment, each replaced in place. */
  method ExpandParameters(f: Forest, id: NodeId, kvs: seq<(string, string)>) returns (r: Result<MacroResult>)
    requires f.Valid() && id < |f.nodes|
    modifies f
    ensures Reported(r, f.nodes) == ExpandStep(old(f.nodes), id, kvs)
  {
    var n := f.nodes[id];
    if n.key.Some? {
      var s := Substitute(n.key.value.snippet, kvs);
      if s.Err? {
        return Err(s.error);
      }
      f.SetKey(id, Some(n.key.value.(snippet := s.value)));
    }
    if n.op.Some? {
      var s := Substitute(n.op.value.snippet, kvs);
      if s.Err? {
        return Err(s.error);
      }
      f.SetOperator(id, Some(n.op.value.(snippet := s.value)));
    }
    ghost var labelled := f.nodes;
    assert !Replaceable(kvs) ==> labelled == old(f.nodes);
    for k := 0 to |n.value|
      invariant f.Valid() && |f.nodes| == |old(f.nodes)|
      invariant f.nodes == labelled[id := labelled[id].(value := f.nodes[id].value)]
      invariant |f.nodes[id].value| == |n.value| && f.nodes[id].value[k..] == n.value[k..]
      invariant k > 0 ==> Replaceable(kvs)
      invariant Replaceable(kvs) ==> forall j :: 0 <= j < k ==> f.nodes[id].value[j] == Expanded(n.value[j], kvs)
    {
      var s := Substitute(n.value[k].snippet, kvs);
      if s.Err? {
        return Err(s.error);
      }
      f.SetValues(id, f.nodes[id].value[k := n.value[k].(snippet := s.value)]);
    }
    if Replaceable(kvs) {
      assert f.nodes[id] == ExpandedNode(n, kvs);
      assert f.nodes == old(f.nodes)[id := ExpandedNode(n, kvs)];
    } else {
      assert f.nodes[id] == labelled[id];
    }
    return Ok(ContinueToChildren);
  }

  /** Copies the trees one after the other (the `Clone` of each body node). */
  method CloneAll(f: Forest, ts: seq<Tree>) returns (roots: seq<NodeId>)
    requires f.Valid()
    modifies f
    ensures f.Valid()
    ensures f.nodes == Copies(old(f.nodes), ts).nodes && roots == Copies(old(f.nodes), ts).roots
  {
    roots := [];
    for k := 0 to |ts|
      invariant f.Valid()
      invariant Copies(old(f.nodes), ts) ==
        Cloned(Copies(f.nodes, ts[k..]).nodes, roots + Copies(f.nodes, ts[k..]).roots)
    {
      assert ts[k..][1..] == ts[k + 1..];
      var root := f.Build(ts[k]);
      roots := roots + [root];
    }
    assert ts[|ts|..] == [];
  }

  /** `TemplateTransformer`: the registry of the templates defined so far. */
  class TemplateTransformer {
    var functions: map<string, Definition>

    constructor ()
      ensures functions == map[]
    {
      functions := map[];
    }

    /** `Transform` (that is, `ParseTemplateInvocation`). */
    method Transform(f: Forest, id: NodeId, fuel: nat) returns (r: Result<MacroResult>)
      requires WorldValid(World(f.nodes, functions)) && id < |f.nodes|
      modifies f, this
      ensures Outcome(r, World(f.nodes, functions)) == TemplateStep(World(old(f.nodes), old(functions)), id, fuel)
      decreases fuel, 0, 1
    {
      var n := f.nodes[id];
      if !IsTemplateCall(n) {
        return Ok(ContinueToChildren);
      }
      var h := ParseFunctionHeader(n.key.value.snippet);
      if h.Err? {
        return Err(h.error);
      }
      if n.parent.None? {
        return Err(NullReference);
      }
      assert Linked(n, |f.nodes|);
      var p := n.parent.value;
      var index := IndexOf(f.nodes[p].children, id);
      if index.None? {
        return Err(IndexOutOfRange);
      }
      f.RemoveChildAt(p, index.value);
      if IsDefinitionName(h.value.name) {
        var name := DefinedName(h.value.name);
        if name in functions {
          return Err(DuplicateKey);
        }
        functions := functions[name := Definition(TrimAll(h.value.arguments), id)];
        return Ok(Break);
      }
      r := Invoke(f, p, index.value, h.value, fuel);
    }

    /** The invocation branch of `ParseTemplateInvocation`. */
    method Invoke(f: Forest, parent: NodeId, index: nat, h: Header, fuel: nat) returns (r: Result<MacroResult>)
      requires WorldValid(World(f.nodes, functions)) && parent < |f.nodes|
      modifies f, this
      ensures Outcome(r, World(f.nodes, functions)) == Invocation(World(old(f.nodes), old(functions)), parent, index, h, fuel)
      decreases fuel, 0, 0
    {
      if h.name !in functions {
        return Err(UnknownTemplate);
      }
      var def := functions[h.name];
      if |def.parameters| != |h.arguments| {
        return Err(ParameterCountMismatch);
      }
      var ts := SnapAll(f.nodes, f.nodes[def.body].children, |f.nodes|);
      if ts.None? {
        return Err(ExpansionBudget);
      }
      var roots := CloneAll(f, ts.value);
      var kv := KeyValues(def.parameters, h.arguments);
      if kv.Err? {
        return Err(kv.error);
      }
      if fuel == 0 {
        return Err(ExpansionBudget);
      }
      ghost var whole := RunEach(Parameters(kv.value), World(f.nodes, functions), roots, fuel - 1);
      for k := 0 to |roots|
        invariant WorldValid(World(f.nodes, functions)) && parent < |f.nodes|
        invariant forall j :: 0 <= j < |roots| ==> roots[j] < |f.nodes|
        invariant RunEach(Parameters(kv.value), World(f.nodes, functions), roots[k..], fuel - 1) == whole
      {
        assert roots[k..][1..] == roots[k + 1..];
        var done := RunMacro(f, this, Parameters(kv.value), roots[k], fuel - 1);
        if done.Err? {
          return Err(done.error);
        }
      }
      assert roots[|roots|..] == [];
      if index > |f.nodes[parent].children| {
        return Err(IndexOutOfRange);
      }
      f.InsertChildrenAt(parent, index, roots);
      return Ok(Break);
    }
  }
}
