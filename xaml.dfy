/** The XAML macro (LessML.Xaml.XamlTransformer): one call of `Transform` on a
    node rewrites it in place with one of four rules, chosen in this order:

      .P op V           Setter :               (key starting with `.`)
        children    =>    Property = P
                          Value op V
                            children

      A:                A:
        a -> b      =>    A.a :                (operator `->`)
          children          b :
                              children

      A := B        =>  A -> Binding           (operator `:=`)
        children          children
                          Path = B

      k op **x      =>  k op {DynamicResource x}    (`*x`: StaticResource)

    The first three answer `ReapplyTransform`, the last `ContinueToChildren`.
    Each rule is a function of the arena (the specification) and a method that
    performs the source's sequence of in-place updates on a `Forest`. */
module Xaml {
  import opened Results
  import opened Text
  import opened Strings
  import opened Nodes
  import opened MacroResults
  import LegacyParser

  /** A fragment made by the source's implicit string-to-fragment conversion. */
  function Literal(s: string): Option<QuotedString> {
    Some(Unquoted(s))
  }

  // ---------------------------------------------------------------------------
  // The rules, as functions of the arena

  /** `.P op V`: a `Property = P` node and a `Value op V` node that takes over the
      children become the only children of a node renamed `Setter :`. */
  function SetterRule(nodes: seq<Node>, id: NodeId): (r: Result<Stepped>)
    requires Wellformed(nodes) && id < |nodes| && nodes[id].key.Some?
    requires StartsWith(nodes[id].key.value.snippet, ".")
    ensures r.Ok? ==> Wellformed(r.value.nodes) && |r.value.nodes| == |nodes| + 2
  {
    SetterMoveWellformed(nodes, id);
    var moved := SetterMove(nodes, id);
    if !moved.ok then Err(AlreadyHasParent)
    else SetterFinish(moved.nodes, id, |nodes|, |nodes| + 1)
  }

  /** The first half of the setter rule: the two new nodes are created and the
      `Value` node takes over the children. */
  function SetterMove(nodes: seq<Node>, id: NodeId): (r: Attached)
    requires Wellformed(nodes) && id < |nodes| && nodes[id].key.Some?
    requires StartsWith(nodes[id].key.value.snippet, ".")
  {
    var n := nodes[id];
    var made := nodes + [Fresh(Literal("Property"), Literal("="), ValueOf(n.key.value.snippet[1..]))]
                      + [Fresh(Literal("Value"), n.op, n.value)];
    assert Linked(nodes[id], |nodes|);
    AttachAll(Detach(made, id), |nodes| + 1, n.children)
  }

  lemma SetterMoveWellformed(nodes: seq<Node>, id: NodeId)
    requires Wellformed(nodes) && id < |nodes| && nodes[id].key.Some?
    requires StartsWith(nodes[id].key.value.snippet, ".")
    ensures Wellformed(SetterMove(nodes, id).nodes) && |SetterMove(nodes, id).nodes| == |nodes| + 2
  {
    var n := nodes[id];
    var p := Fresh(Literal("Property"), Literal("="), ValueOf(n.key.value.snippet[1..]));
    var h := Fresh(Literal("Value"), n.op, n.value);
    AppendWellformed(nodes, p);
    AppendWellformed(nodes + [p], h);
    var made := nodes + [p] + [h];
    DetachWellformed(made, id);
    assert Linked(nodes[id], |nodes|);
    AttachAllWellformed(Detach(made, id), |nodes| + 1, n.children);
  }

  /** The second half: the node is renamed `Setter :` with no value, and the
      `Property` and `Value` nodes are added as its children. */
  function SetterFinish(nodes: seq<Node>, id: NodeId, prop: NodeId, holder: NodeId): (r: Result<Stepped>)
    requires Wellformed(nodes) && id < |nodes| && prop < |nodes| && holder < |nodes|
    ensures r.Ok? ==> Wellformed(r.value.nodes) && |r.value.nodes| == |nodes|
  {
    RelabelWellformed(nodes, id, Literal("Setter"), Literal(":"), ValueOf(""));
    var renamed := Relabel(nodes, id, Literal("Setter"), Literal(":"), ValueOf(""));
    var withProp := AddChildTo(renamed, id, prop);
    if withProp.Err? then Err(withProp.error)
    else
      AttachWellformed(renamed, id, prop);
      var withHolder := AddChildTo(withProp.value, id, holder);
      if withHolder.Err? then Err(withHolder.error)
      else
        AttachWellformed(withProp.value, id, holder);
        Ok(Stepped(withHolder.value, ReapplyTransform))
  }

  /** `a -> b` below `A`: a node keyed by the joined value takes over the children,
      and the node itself is renamed `A.a :` after its parent. The new node has
      no parent yet, so adding it as a child cannot fail. */
  function AttachedRule(nodes: seq<Node>, id: NodeId): (r: Result<Stepped>)
    requires Wellformed(nodes) && id < |nodes| && nodes[id].key.Some?
    ensures r.Ok? ==> Wellformed(r.value.nodes) && |r.value.nodes| == |nodes| + 1
  {
    AttachedMoveWellformed(nodes, id);
    var moved := AttachedMove(nodes, id);
    if !moved.ok then Err(AlreadyHasParent)
    else
      var parent := moved.nodes[id].parent;
      assert Linked(moved.nodes[id], |moved.nodes|);
      if parent.None? || moved.nodes[parent.value].key.None? then Err(NullReference)
      else
        var key := moved.nodes[parent.value].key.value.snippet + "." + nodes[id].key.value.snippet;
        RelabelWellformed(moved.nodes, id, Literal(key), Literal(":"), ValueOf(""));
        Ok(Stepped(Relabel(moved.nodes, id, Literal(key), Literal(":"), ValueOf("")), ReapplyTransform))
  }

  /** The moves of the `->` rule: a new node keyed by the joined value becomes
      the only child and takes over the former children. */
  function AttachedMove(nodes: seq<Node>, id: NodeId): (r: Attached)
    requires Wellformed(nodes) && id < |nodes|
  {
    var n := nodes[id];
    var made := nodes + [Fresh(Literal(JoinValue(n.value)), Literal(":"), [])];
    assert Linked(n, |nodes|);
    AttachAll(Attach(Detach(made, id), id, |nodes|), |nodes|, n.children)
  }

  lemma AttachedMoveWellformed(nodes: seq<Node>, id: NodeId)
    requires Wellformed(nodes) && id < |nodes|
    ensures Wellformed(AttachedMove(nodes, id).nodes) && |AttachedMove(nodes, id).nodes| == |nodes| + 1
  {
    var n := nodes[id];
    var h := Fresh(Literal(JoinValue(n.value)), Literal(":"), []);
    AppendWellformed(nodes, h);
    var made := nodes + [h];
    DetachWellformed(made, id);
    var cleared := Detach(made, id);
    AttachWellformed(cleared, id, |nodes|);
    assert Linked(n, |nodes|);
    AttachAllWellformed(Attach(cleared, id, |nodes|), |nodes|, n.children);
  }

  /** `A := B`: a `Path = B` child is added and the node becomes `A -> Binding`.
      The new node has no parent yet, so `AddChild` cannot fail here. */
  function BindingRule(nodes: seq<Node>, id: NodeId): (r: Stepped)
    requires Wellformed(nodes) && id < |nodes|
    ensures Wellformed(r.nodes) && |r.nodes| == |nodes| + 1 && r.next == ReapplyTransform
  {
    var n := nodes[id];
    var path := |nodes|;
    var p := Fresh(Literal("Path"), Literal("="), n.value);
    AppendWellformed(nodes, p);
    AttachWellformed(nodes + [p], id, path);
    var linked := Attach(nodes + [p], id, path);
    RelabelWellformed(linked, id, n.key, Literal("->"), ValueOf("Binding"));
    Stepped(Relabel(linked, id, n.key, Literal("->"), ValueOf("Binding")), ReapplyTransform)
  }

  /** The resource shorthands: a joined value `**x` or `*x` becomes a single
      fragment naming a dynamic or static resource; any other node is left alone. */
  function ResourceRule(nodes: seq<Node>, id: NodeId): (r: Stepped)
    requires Wellformed(nodes) && id < |nodes|
    ensures Wellformed(r.nodes) && |r.nodes| == |nodes| && r.next == ContinueToChildren
  {
    var n := nodes[id];
    var val := JoinValue(n.value);
    if StartsWith(val, "**") then
      RelabelWellformed(nodes, id, n.key, n.op, ValueOf(LegacyParser.DynamicPrefix + val[2..] + "}"));
      Stepped(Relabel(nodes, id, n.key, n.op, ValueOf(LegacyParser.DynamicPrefix + val[2..] + "}")), ContinueToChildren)
    else if StartsWith(val, "*") then
      RelabelWellformed(nodes, id, n.key, n.op, ValueOf(LegacyParser.StaticPrefix + val[1..] + "}"));
      Stepped(Relabel(nodes, id, n.key, n.op, ValueOf(LegacyParser.StaticPrefix + val[1..] + "}")), ContinueToChildren)
    else Stepped(nodes, ContinueToChildren)
  }

  /** `XamlTransformer.Transform`: reading `Key.Snippet` and `Operator.Snippet`
      fails on a null key or operator. */
  function Step(nodes: seq<Node>, id: NodeId): (r: Result<Stepped>)
    requires Wellformed(nodes) && id < |nodes|
    ensures r.Ok? ==> Wellformed(r.value.nodes) && |r.value.nodes| >= |nodes| && r.value.next != Break
  {
    var n := nodes[id];
    if n.key.None? then Err(NullReference)
    else if StartsWith(n.key.value.snippet, ".") then SetterRule(nodes, id)
    else if n.op.None? then Err(NullReference)
    else if n.op.value.snippet == "->" then AttachedRule(nodes, id)
    else if n.op.value.snippet == ":=" then Ok(BindingRule(nodes, id))
    else Ok(ResourceRule(nodes, id))
  }

  // ---------------------------------------------------------------------------
  // The rules, in place

  method Transform(f: Forest, id: NodeId) returns (r: Result<MacroResult>)
    requires f.Valid() && id < |f.nodes|
    modifies f
    ensures f.Valid()
    ensures Reported(r, f.nodes) == Step(old(f.nodes), id)
  {
    var n := f.nodes[id];
    if n.key.None? {
      return Err(NullReference);
    }
    if StartsWith(n.key.value.snippet, ".") {
      r := ApplySetter(f, id);
      return;
    }
    if n.op.None? {
      return Err(NullReference);
    }
    if n.op.value.snippet == "->" {
      r := ApplyAttached(f, id);
    } else if n.op.value.snippet == ":=" {
      r := ApplyBinding(f, id);
    } else {
      r := ApplyResource(f, id);
    }
  }

  method ApplySetter(f: Forest, id: NodeId) returns (r: Result<MacroResult>)
    requires f.Valid() && id < |f.nodes| && f.nodes[id].key.Some?
    requires StartsWith(f.nodes[id].key.value.snippet, ".")
    modifies f
    ensures f.Valid()
    ensures Reported(r, f.nodes) == SetterRule(old(f.nodes), id)
  {
    var prop, holder, moved := MoveForSetter(f, id);
    if moved.Err? {
      return Err(moved.error);
    }
    r := FinishSetter(f, id, prop, holder);
  }

  /** The first half of the setter rewrite: `Property` and `Value` are made and
      the node's children move below `Value`. */
  method MoveForSetter(f: Forest, id: NodeId) returns (prop: NodeId, holder: NodeId, r: Result<()>)
    requires f.Valid() && id < |f.nodes| && f.nodes[id].key.Some?
    requires StartsWith(f.nodes[id].key.value.snippet, ".")
    modifies f
    ensures f.Valid() && prop == |old(f.nodes)| && holder == |old(f.nodes)| + 1
    ensures f.nodes == SetterMove(old(f.nodes), id).nodes
    ensures r.Ok? <==> SetterMove(old(f.nodes), id).ok
    ensures r.Err? ==> r.error == AlreadyHasParent
  {
    var n := f.nodes[id];
    var p := Fresh(Literal("Property"), Literal("="), ValueOf(n.key.value.snippet[1..]));
    var h := Fresh(Literal("Value"), n.op, n.value);
    prop := f.NewNode(p.key, p.op, p.value);
    holder := f.NewNode(h.key, h.op, h.value);
    ghost var made := f.nodes;
    r := MoveChildrenBelow(f, id, holder);
    SetterMoveUnfold(old(f.nodes), id, made);
  }

  /** `ClearChildren` followed by `AddChildren` of the same children to `holder`. */
  method MoveChildrenBelow(f: Forest, id: NodeId, holder: NodeId) returns (r: Result<()>)
    requires f.Valid() && id < |f.nodes| && holder < |f.nodes|
    modifies f
    ensures f.Valid() && Linked(old(f.nodes)[id], |old(f.nodes)|)
    ensures f.nodes == AttachAll(Detach(old(f.nodes), id), holder, old(f.nodes)[id].children).nodes
    ensures r.Ok? <==> AttachAll(Detach(old(f.nodes), id), holder, old(f.nodes)[id].children).ok
    ensures r.Err? ==> r.error == AlreadyHasParent
  {
    var children := f.nodes[id].children;
    assert Linked(f.nodes[id], |f.nodes|);
    f.ClearChildren(id);
    r := f.AddChildren(holder, children);
  }

  lemma SetterMoveUnfold(nodes: seq<Node>, id: NodeId, made: seq<Node>)
    requires Wellformed(nodes) && id < |nodes| && nodes[id].key.Some?
    requires StartsWith(nodes[id].key.value.snippet, ".")
    requires made == nodes + [Fresh(Literal("Property"), Literal("="), ValueOf(nodes[id].key.value.snippet[1..]))]
                           + [Fresh(Literal("Value"), nodes[id].op, nodes[id].value)]
    ensures Linked(nodes[id], |nodes|)
    ensures SetterMove(nodes, id) == AttachAll(Detach(made, id), |nodes| + 1, nodes[id].children)
  {
  }

  method FinishSetter(f: Forest, id: NodeId, prop: NodeId, holder: NodeId) returns (r: Result<MacroResult>)
    requires f.Valid() && id < |f.nodes| && prop < |f.nodes| && holder < |f.nodes|
    modifies f
    ensures f.Valid()
    ensures Reported(r, f.nodes) == SetterFinish(old(f.nodes), id, prop, holder)
  {
    f.SetKey(id, Literal("Setter"));
    f.SetOperator(id, Literal(":"));
    f.SetValue(id, "");
    assert f.nodes == Relabel(old(f.nodes), id, Literal("Setter"), Literal(":"), ValueOf(""));
    ghost var renamed := f.nodes;
    var added := f.AddChild(id, prop);
    if added.Err? {
      return Err(added.error);
    }
    ghost var withProp := f.nodes;
    added := f.AddChild(id, holder);
    if added.Err? {
      return Err(added.error);
    }
    return Ok(ReapplyTransform);
  }

  method ApplyAttached(f: Forest, id: NodeId) returns (r: Result<MacroResult>)
    requires f.Valid() && id < |f.nodes| && f.nodes[id].key.Some?
    modifies f
    ensures f.Valid()
    ensures Reported(r, f.nodes) == AttachedRule(old(f.nodes), id)
  {
    var n := f.nodes[id];
    var holder := f.NewNode(Literal(JoinValue(n.value)), Literal(":"), []);
    ghost var made := f.nodes;
    var children := f.nodes[id].children;
    assert Linked(f.nodes[id], |f.nodes|);
    assert holder !in children;
    f.ClearChildren(id);
    var _ := f.AddChild(id, holder);
    ghost var linked := f.nodes;
    var moved := f.AddChildren(holder, children);
    if moved.Err? {
      return Err(moved.error);
    }
    ghost var after := f.nodes;
    assert after == AttachAll(linked, holder, n.children).nodes;
    var parent := f.nodes[id].parent;
    assert Linked(f.nodes[id], |f.nodes|);
    if parent.None? || f.nodes[parent.value].key.None? {
      return Err(NullReference);
    }
    AttachAllFrame(linked, holder, children, id);
    assert f.nodes[id].key == n.key;
    var key := f.nodes[parent.value].key.value.snippet + "." + f.nodes[id].key.value.snippet;
    f.SetKey(id, Literal(key));
    f.SetOperator(id, Literal(":"));
    f.SetValue(id, "");
    assert f.nodes == Relabel(after, id, Literal(key), Literal(":"), ValueOf(""));
    return Ok(ReapplyTransform);
  }

  method ApplyBinding(f: Forest, id: NodeId) returns (r: Result<MacroResult>)
    requires f.Valid() && id < |f.nodes|
    modifies f
    ensures f.Valid()
    ensures r == Ok(ReapplyTransform) && f.nodes == BindingRule(old(f.nodes), id).nodes
  {
    var n := f.nodes[id];
    var path := f.NewNode(Literal("Path"), Literal("="), n.value);
    var _ := f.AddChild(id, path);
    ghost var before := f.nodes;
    f.SetOperator(id, Literal("->"));
    f.SetValue(id, "Binding");
    assert f.nodes == Relabel(before, id, n.key, Literal("->"), ValueOf("Binding"));
    return Ok(ReapplyTransform);
  }

  method ApplyResource(f: Forest, id: NodeId) returns (r: Result<MacroResult>)
    requires f.Valid() && id < |f.nodes|
    modifies f
    ensures f.Valid()
    ensures r == Ok(ContinueToChildren) && f.nodes == ResourceRule(old(f.nodes), id).nodes
  {
    var val := JoinValue(f.nodes[id].value);
    if StartsWith(val, "**") {
      f.SetValue(id, LegacyParser.DynamicPrefix + val[2..] + "}");
    } else if StartsWith(val, "*") {
      f.SetValue(id, LegacyParser.StaticPrefix + val[1..] + "}");
    }
    return Ok(ContinueToChildren);
  }

  // ---------------------------------------------------------------------------
  // What the rules do

  /** A node none of the rules applies to. */
  predicate Inert(n: Node) {
    n.key.Some? && !StartsWith(n.key.value.snippet, ".") && n.op.Some? &&
    n.op.value.snippet != "->" && n.op.value.snippet != ":=" && !StartsWith(JoinValue(n.value), "*")
  }

  /** Reading the key or, past the setter test, the operator of a node that has
      none fails. */
  lemma NullKeyOrOperator(nodes: seq<Node>, id: NodeId)
    requires Wellformed(nodes) && id < |nodes|
    requires nodes[id].key.None? || (!StartsWith(nodes[id].key.value.snippet, ".") && nodes[id].op.None?)
    ensures Step(nodes, id) == Err(NullReference)
  {
  }

  /** The macro leaves a node exactly as it found it, answering
      `ContinueToChildren`, exactly when no rule applies to it. */
  lemma UnchangedExactlyWhenInert(nodes: seq<Node>, id: NodeId)
    requires Wellformed(nodes) && id < |nodes|
    ensures Step(nodes, id) == Ok(Stepped(nodes, ContinueToChildren)) <==> Inert(nodes[id])
  {
    var n := nodes[id];
    if n.key.Some? && !StartsWith(n.key.value.snippet, ".") && n.op.Some? &&
       n.op.value.snippet != "->" && n.op.value.snippet != ":=" {
      var val := JoinValue(n.value);
      if StartsWith(val, "*") {
        var s := if StartsWith(val, "**") then LegacyParser.DynamicPrefix + val[2..] + "}"
                 else LegacyParser.StaticPrefix + val[1..] + "}";
        var r := ResourceRule(nodes, id).nodes;
        assert r[id].value == ValueOf(s);
        assert JoinValue(r[id].value) == s;
        assert s[0] == '{' && val[0] == '*' by {
          assert val[..1][0] == val[0];
        }
        assert r[id] != nodes[id];
      }
    }
  }

  /** The setter rule on `.P op V` with children `cs` (no node twice, not the node
      itself): the node becomes `Setter :` with no value and exactly two children,
      `Property = P` and `Value op V`; the second holds `cs`, which now point back
      at it; nothing else changes. */
  lemma SetterShape(nodes: seq<Node>, id: NodeId) returns (r: seq<Node>)
    requires Wellformed(nodes) && id < |nodes|
    requires nodes[id].key.Some? && StartsWith(nodes[id].key.value.snippet, ".")
    requires id !in nodes[id].children && DistinctIds(nodes[id].children)
    ensures Step(nodes, id) == Ok(Stepped(r, ReapplyTransform)) && |r| == |nodes| + 2
    ensures r[id] == Node(Literal("Setter"), Literal(":"), [], nodes[id].parent, [|nodes|, |nodes| + 1])
    ensures r[|nodes|] == Node(Literal("Property"), Literal("="), ValueOf(nodes[id].key.value.snippet[1..]), Some(id), [])
    ensures r[|nodes| + 1] == Node(Literal("Value"), nodes[id].op, nodes[id].value, Some(id), nodes[id].children)
    ensures forall k :: 0 <= k < |nodes[id].children| ==>
      r[nodes[id].children[k]] == nodes[nodes[id].children[k]].(parent := Some(|nodes| + 1))
    ensures forall x :: 0 <= x < |nodes| && x != id && x !in nodes[id].children ==> r[x] == nodes[x]
  {
    var moved := SetterMoveShape(nodes, id);
    SetterMoveWellformed(nodes, id);
    var n := nodes[id];
    var renamed := Relabel(moved, id, Literal("Setter"), Literal(":"), ValueOf(""));
    var withProp := Attach(renamed, id, |nodes|);
    r := Attach(withProp, id, |nodes| + 1);
    assert SetterFinish(moved, id, |nodes|, |nodes| + 1) == Ok(Stepped(r, ReapplyTransform));
  }

  /** The first half of the setter rule on such a node. */
  lemma SetterMoveShape(nodes: seq<Node>, id: NodeId) returns (m: seq<Node>)
    requires Wellformed(nodes) && id < |nodes|
    requires nodes[id].key.Some? && StartsWith(nodes[id].key.value.snippet, ".")
    requires id !in nodes[id].children && DistinctIds(nodes[id].children)
    ensures SetterMove(nodes, id) == Attached(m, true) && |m| == |nodes| + 2
    ensures m[id] == nodes[id].(children := [])
    ensures m[|nodes|] == Fresh(Literal("Property"), Literal("="), ValueOf(nodes[id].key.value.snippet[1..]))
    ensures m[|nodes| + 1] == Node(Literal("Value"), nodes[id].op, nodes[id].value, None, nodes[id].children)
    ensures forall k :: 0 <= k < |nodes[id].children| ==>
      m[nodes[id].children[k]] == nodes[nodes[id].children[k]].(parent := Some(|nodes| + 1))
    ensures forall x :: 0 <= x < |nodes| && x != id && x !in nodes[id].children ==> m[x] == nodes[x]
  {
    var n := nodes[id];
    var cleared := SetterCleared(nodes, id);
    m := MoveBelow(nodes, cleared, id, |nodes| + 1);
  }

  /** Moving the former children of `id` below `holder` in an arena `cleared`
      where they have lost their parent: it succeeds, `holder` gets them in order,
      they point back at it, and nothing else changes. */
  lemma MoveBelow(nodes: seq<Node>, cleared: seq<Node>, id: NodeId, holder: NodeId) returns (m: seq<Node>)
    requires id < |nodes| <= holder < |cleared| && Linked(nodes[id], |nodes|)
    requires id !in nodes[id].children && DistinctIds(nodes[id].children)
    requires cleared[holder].children == []
    requires forall x :: 0 <= x < |nodes| && x != id && x in nodes[id].children ==> cleared[x] == nodes[x].(parent := None)
    ensures AttachAll(cleared, holder, nodes[id].children) == Attached(m, true) && |m| == |cleared|
    ensures m[holder] == cleared[holder].(children := nodes[id].children)
    ensures forall k :: 0 <= k < |nodes[id].children| ==>
      m[nodes[id].children[k]] == nodes[nodes[id].children[k]].(parent := Some(holder))
    ensures forall x :: 0 <= x < |cleared| && x != holder && x !in nodes[id].children ==> m[x] == cleared[x]
  {
    var cs := nodes[id].children;
    forall k | 0 <= k < |cs| ensures cleared[cs[k]] == nodes[cs[k]].(parent := None) {
      assert cs[k] in cs;
    }
    AttachAllShape(cleared, holder, cs);
    var moved := AttachAll(cleared, holder, cs);
    m := moved.nodes;
    assert moved == Attached(m, true);
    assert cleared[holder].children + cs == cs;
  }

  /** The setter rule's arena once the two new nodes exist and the node's
      children are cleared, before they are moved below `Value`. */
  lemma SetterCleared(nodes: seq<Node>, id: NodeId) returns (cleared: seq<Node>)
    requires Wellformed(nodes) && id < |nodes| && id !in nodes[id].children
    requires nodes[id].key.Some? && StartsWith(nodes[id].key.value.snippet, ".")
    ensures Linked(nodes[id], |nodes|) && |cleared| == |nodes| + 2
    ensures SetterMove(nodes, id) == AttachAll(cleared, |nodes| + 1, nodes[id].children)
    ensures cleared[id] == nodes[id].(children := [])
    ensures cleared[|nodes|] == Fresh(Literal("Property"), Literal("="), ValueOf(nodes[id].key.value.snippet[1..]))
    ensures cleared[|nodes| + 1] == Fresh(Literal("Value"), nodes[id].op, nodes[id].value)
    ensures forall x :: 0 <= x < |nodes| && x != id && x !in nodes[id].children ==> cleared[x] == nodes[x]
    ensures forall x :: 0 <= x < |nodes| && x != id && x in nodes[id].children ==> cleared[x] == nodes[x].(parent := None)
  {
    var n := nodes[id];
    var p := Fresh(Literal("Property"), Literal("="), ValueOf(n.key.value.snippet[1..]));
    var h := Fresh(Literal("Value"), n.op, n.value);
    var made := nodes + [p] + [h];
    assert made[|nodes|] == p && made[|nodes| + 1] == h;
    assert forall x :: 0 <= x < |nodes| ==> made[x] == nodes[x];
    SetterMoveUnfold(nodes, id, made);
    cleared := Detach(made, id);
  }

  /** The `->` rule on `a -> b` (children `cs`, no node twice, not the node itself)
      below a keyed parent `A`: the node becomes `A.a :` with no value and one
      child `b :`, which holds `cs`; they now point back at it; nothing else
      changes. */
  lemma AttachedShape(nodes: seq<Node>, id: NodeId) returns (r: seq<Node>)
    requires Wellformed(nodes) && id < |nodes|
    requires nodes[id].key.Some? && !StartsWith(nodes[id].key.value.snippet, ".")
    requires nodes[id].op.Some? && nodes[id].op.value.snippet == "->"
    requires nodes[id].parent.Some? && nodes[id].parent.value < |nodes|
    requires nodes[nodes[id].parent.value].key.Some?
    requires id !in nodes[id].children && DistinctIds(nodes[id].children)
    ensures Step(nodes, id) == Ok(Stepped(r, ReapplyTransform)) && |r| == |nodes| + 1
    ensures r[id] == Node(Literal(nodes[nodes[id].parent.value].key.value.snippet + "." + nodes[id].key.value.snippet),
                          Literal(":"), [], nodes[id].parent, [|nodes|])
    ensures r[|nodes|] == Node(Literal(JoinValue(nodes[id].value)), Literal(":"), [], Some(id), nodes[id].children)
    ensures forall k :: 0 <= k < |nodes[id].children| ==>
      r[nodes[id].children[k]] == nodes[nodes[id].children[k]].(parent := Some(|nodes|))
    ensures forall x :: 0 <= x < |nodes| && x != id && x !in nodes[id].children ==> r[x] == nodes[x]
  {
    r := AttachedRuleShape(nodes, id);
  }

  lemma AttachedRuleShape(nodes: seq<Node>, id: NodeId) returns (r: seq<Node>)
    requires Wellformed(nodes) && id < |nodes|
    requires nodes[id].key.Some? && !StartsWith(nodes[id].key.value.snippet, ".")
    requires nodes[id].op.Some? && nodes[id].op.value.snippet == "->"
    requires nodes[id].parent.Some? && nodes[id].parent.value < |nodes|
    requires nodes[nodes[id].parent.value].key.Some?
    requires id !in nodes[id].children && DistinctIds(nodes[id].children)
    ensures AttachedRule(nodes, id) == Ok(Stepped(r, ReapplyTransform)) && |r| == |nodes| + 1
    ensures r[id] == Node(Literal(nodes[nodes[id].parent.value].key.value.snippet + "." + nodes[id].key.value.snippet),
                          Literal(":"), [], nodes[id].parent, [|nodes|])
    ensures r[|nodes|] == Node(Literal(JoinValue(nodes[id].value)), Literal(":"), [], Some(id), nodes[id].children)
    ensures forall k :: 0 <= k < |nodes[id].children| ==>
      r[nodes[id].children[k]] == nodes[nodes[id].children[k]].(parent := Some(|nodes|))
    ensures forall x :: 0 <= x < |nodes| && x != id && x !in nodes[id].children ==> r[x] == nodes[x]
  {
    var n := nodes[id];
    var m := AttachedMoveShape(nodes, id);
    AttachedMoveWellformed(nodes, id);
    var p := n.parent.value;
    var key := nodes[p].key.value.snippet + "." + n.key.value.snippet;
    assert m[p].key == nodes[p].key;
    r := Relabel(m, id, Literal(key), Literal(":"), ValueOf(""));
  }

  /** The node moves of the `->` rule on such a node, before it is renamed. */
  lemma AttachedMoveShape(nodes: seq<Node>, id: NodeId) returns (m: seq<Node>)
    requires Wellformed(nodes) && id < |nodes|
    requires id !in nodes[id].children && DistinctIds(nodes[id].children)
    ensures AttachedMove(nodes, id) == Attached(m, true) && |m| == |nodes| + 1
    ensures m[id] == nodes[id].(children := [|nodes|])
    ensures m[|nodes|] == Node(Literal(JoinValue(nodes[id].value)), Literal(":"), [], Some(id), nodes[id].children)
    ensures forall k :: 0 <= k < |nodes[id].children| ==>
      m[nodes[id].children[k]] == nodes[nodes[id].children[k]].(parent := Some(|nodes|))
    ensures forall x :: 0 <= x < |nodes| && x != id && x !in nodes[id].children ==> m[x] == nodes[x]
  {
    var linked := HolderLinked(nodes, id);
    m := MoveBelow(nodes, linked, id, |nodes|);
  }

  /** The `->` rule's arena once the new node is the only child, before the
      former children are moved below it. */
  lemma HolderLinked(nodes: seq<Node>, id: NodeId) returns (linked: seq<Node>)
    requires Wellformed(nodes) && id < |nodes| && id !in nodes[id].children
    ensures Linked(nodes[id], |nodes|)
    ensures linked == Attach(Detach(nodes + [Fresh(Literal(JoinValue(nodes[id].value)), Literal(":"), [])], id), id, |nodes|)
    ensures AttachedMove(nodes, id) == AttachAll(linked, |nodes|, nodes[id].children)
    ensures |linked| == |nodes| + 1
    ensures linked[id] == nodes[id].(children := [|nodes|])
    ensures linked[|nodes|] == Node(Literal(JoinValue(nodes[id].value)), Literal(":"), [], Some(id), [])
    ensures forall x :: 0 <= x < |nodes| && x != id && x !in nodes[id].children ==> linked[x] == nodes[x]
    ensures forall x :: 0 <= x < |nodes| && x != id && x in nodes[id].children ==> linked[x] == nodes[x].(parent := None)
  {
    var n := nodes[id];
    var holder := |nodes|;
    var h := Fresh(Literal(JoinValue(n.value)), Literal(":"), []);
    var made := nodes + [h];
    assert made[holder] == h;
    assert forall x :: 0 <= x < |nodes| ==> made[x] == nodes[x];
    assert Linked(n, |nodes|);
    var cleared := Detach(made, id);
    linked := Attach(cleared, id, holder);
  }

  /** The `->` rule reads the key of the node's parent: a root, or a parent
      without a key, fails. */
  lemma AttachedNeedsKeyedParent(nodes: seq<Node>, id: NodeId)
    requires Wellformed(nodes) && id < |nodes|
    requires nodes[id].key.Some? && !StartsWith(nodes[id].key.value.snippet, ".")
    requires nodes[id].op.Some? && nodes[id].op.value.snippet == "->"
    requires nodes[id].parent.None? || (nodes[id].parent.value < |nodes| && nodes[nodes[id].parent.value].key.None?)
    requires id !in nodes[id].children && DistinctIds(nodes[id].children)
    ensures Step(nodes, id) == Err(NullReference)
  {
    var m := AttachedMoveShape(nodes, id);
    AttachedMoveWellformed(nodes, id);
    var p := nodes[id].parent;
    if p.Some? {
      assert m[p.value].key == nodes[p.value].key;
    }
  }

  /** The `:=` rule on `A := B`: the node becomes `A -> Binding` and gains a last
      child `Path = B`; nothing else changes. */
  lemma BindingShape(nodes: seq<Node>, id: NodeId) returns (r: seq<Node>)
    requires Wellformed(nodes) && id < |nodes|
    requires nodes[id].key.Some? && !StartsWith(nodes[id].key.value.snippet, ".")
    requires nodes[id].op.Some? && nodes[id].op.value.snippet == ":="
    ensures Step(nodes, id) == Ok(Stepped(r, ReapplyTransform)) && |r| == |nodes| + 1 && Wellformed(r)
    ensures r[id] == nodes[id].(op := Literal("->"), value := ValueOf("Binding"),
                                children := nodes[id].children + [|nodes|])
    ensures r[|nodes|] == Node(Literal("Path"), Literal("="), nodes[id].value, Some(id), [])
    ensures forall x :: 0 <= x < |nodes| && x != id ==> r[x] == nodes[x]
  {
    r := BindingRuleShape(nodes, id);
  }

  lemma BindingRuleShape(nodes: seq<Node>, id: NodeId) returns (r: seq<Node>)
    requires Wellformed(nodes) && id < |nodes|
    requires nodes[id].key.Some? && !StartsWith(nodes[id].key.value.snippet, ".")
    requires nodes[id].op.Some? && nodes[id].op.value.snippet == ":="
    ensures BindingRule(nodes, id) == Stepped(r, ReapplyTransform) && |r| == |nodes| + 1 && Wellformed(r)
    ensures r[id] == nodes[id].(op := Literal("->"), value := ValueOf("Binding"),
                                children := nodes[id].children + [|nodes|])
    ensures r[|nodes|] == Node(Literal("Path"), Literal("="), nodes[id].value, Some(id), [])
    ensures forall x :: 0 <= x < |nodes| && x != id ==> r[x] == nodes[x]
  {
    r := BindingRule(nodes, id).nodes;
  }

  /** After the binding rule, reapplying the macro applies the `->` rule to the
      same node (whose shape `AttachedShape` then gives when it has a keyed parent). */
  lemma BindingReappliesAttached(nodes: seq<Node>, id: NodeId)
    requires Wellformed(nodes) && id < |nodes|
    requires nodes[id].key.Some? && !StartsWith(nodes[id].key.value.snippet, ".")
    requires nodes[id].op.Some? && nodes[id].op.value.snippet == ":="
    ensures Step(nodes, id) == Ok(BindingRule(nodes, id))
    ensures Step(BindingRule(nodes, id).nodes, id) == AttachedRule(BindingRule(nodes, id).nodes, id)
  {
    var b := BindingRuleShape(nodes, id);
  }

  /** The resource rule leaves the key, operator and links alone and rewrites the
      value as the older translator's `FormatValue` did. */
  lemma ResourceFormats(nodes: seq<Node>, id: NodeId) returns (r: seq<Node>)
    requires Wellformed(nodes) && id < |nodes|
    requires nodes[id].key.Some? && !StartsWith(nodes[id].key.value.snippet, ".")
    requires nodes[id].op.Some? && nodes[id].op.value.snippet != "->" && nodes[id].op.value.snippet != ":="
    ensures Step(nodes, id) == Ok(Stepped(r, ContinueToChildren)) && |r| == |nodes| && Wellformed(r)
    ensures JoinValue(r[id].value) == LegacyParser.FormatValue(JoinValue(nodes[id].value))
    ensures r[id] == if StartsWith(JoinValue(nodes[id].value), "*")
                     then nodes[id].(value := ValueOf(LegacyParser.FormatValue(JoinValue(nodes[id].value))))
                     else nodes[id]
    ensures forall x :: 0 <= x < |nodes| && x != id ==> r[x] == nodes[x]
  {
    r := ResourceRule(nodes, id).nodes;
  }

  /** After the resource rule the node is inert: applying the macro to it again
      changes nothing. */
  lemma ResourceSettles(nodes: seq<Node>, id: NodeId) returns (r: seq<Node>)
    requires Wellformed(nodes) && id < |nodes|
    requires nodes[id].key.Some? && !StartsWith(nodes[id].key.value.snippet, ".")
    requires nodes[id].op.Some? && nodes[id].op.value.snippet != "->" && nodes[id].op.value.snippet != ":="
    ensures Step(nodes, id) == Ok(Stepped(r, ContinueToChildren))
    ensures Step(r, id) == Ok(Stepped(r, ContinueToChildren))
  {
    r := ResourceFormats(nodes, id);
    var val := JoinValue(nodes[id].value);
    if StartsWith(val, "*") {
      var s := LegacyParser.FormatValue(val);
      assert s[0] == '{';
      assert !StartsWith(s, "*") by {
        assert s[..1][0] == s[0];
      }
    }
    UnchangedExactlyWhenInert(r, id);
  }
}
