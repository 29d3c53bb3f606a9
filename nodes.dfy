/** The node tree (LessML.Vamp.VampNode).

    Nodes are objects that the macro passes rewrite in place, and a node holds a
    back reference to its parent, so the model keeps every node in one arena: the
    class `Forest` owns a sequence of `Node` records and a node reference is an
    index into it (`NodeId`); reference equality of nodes is equality of indices.
    Read-only consumers (semantic equivalence, the printer, the XML converter)
    work on `Tree`, a value snapshot of the subtree below a node. */
module Nodes {
  import opened Results
  import opened Text
  import opened Strings

  type NodeId = nat

  /** One `VampNode`: `Key` and `Operator` may be null, `Value` is a list of
      fragments, `Parent` a back reference and `Children` the owned children. */
  datatype Node = Node(
    key: Option<QuotedString>, op: Option<QuotedString>, value: seq<QuotedString>,
    parent: Option<NodeId>, children: seq<NodeId>)

  /** A node as `new VampNode { Key = key, Operator = op }` leaves it, with `value` set. */
  function Fresh(key: Option<QuotedString>, op: Option<QuotedString>, value: seq<QuotedString>): (n: Node)
    ensures n.parent.None? && n.children == []
    ensures n.key == key && n.op == op && n.value == value
  {
    Node(key, op, value, None, [])
  }

  /** `VampNode.IsBareValue`: a node without a key carries only literal content. */
  predicate IsBareValue(n: Node) {
    n.key.None?
  }

  /** `VampNode.JoinValue`: the snippets of the value fragments, concatenated in order. */
  function JoinValue(value: seq<QuotedString>): string {
    if value == [] then "" else value[0].snippet + JoinValue(value[1..])
  }

  /** Joining is compatible with concatenation of fragment lists, and one fragment
      joins to its snippet: together these pin `JoinValue` down as "the snippets in order". */
  lemma {:induction false} JoinValueAppend(a: seq<QuotedString>, b: seq<QuotedString>)
    ensures JoinValue(a + b) == JoinValue(a) + JoinValue(b)
  {
    if a == [] {
      assert a + b == b;
    } else {
      assert (a + b)[1..] == a[1..] + b;
      JoinValueAppend(a[1..], b);
    }
  }

  lemma JoinValueSingle(q: QuotedString)
    ensures JoinValue([q]) == q.snippet
    ensures JoinValue([]) == ""
  {
    assert [q][1..] == [];
  }

  /** The value list `SetValue(s)` installs: empty for a null or empty string
      (both are `""` here), otherwise one unquoted fragment. */
  function ValueOf(s: string): (r: seq<QuotedString>)
    ensures s == "" ==> r == []
    ensures s != "" ==> |r| == 1 && r[0].quotation.None?
    ensures JoinValue(r) == s
  {
    if s == "" then [] else [Unquoted(s)]
  }

  /** A value snapshot of a node and everything below it. */
  datatype Tree = Tree(
    key: Option<QuotedString>, op: Option<QuotedString>, value: seq<QuotedString>, children: seq<Tree>)

  /** Length of the longest root-to-leaf path. */
  function Height(t: Tree): (h: nat)
    ensures h >= 1
    ensures forall i :: 0 <= i < |t.children| ==> Height(t.children[i]) < h
    decreases t, 1
  {
    1 + MaxHeight(t.children)
  }

  function MaxHeight(ts: seq<Tree>): (h: nat)
    ensures forall i :: 0 <= i < |ts| ==> Height(ts[i]) <= h
    decreases ts, 0
  {
    if ts == [] then 0
    else
      var a := Height(ts[0]);
      var b := MaxHeight(ts[1..]);
      assert forall i :: 1 <= i < |ts| ==> ts[i] == ts[1..][i - 1];
      if a < b then b else a
  }

  /** Number of nodes of a tree. */
  function Size(t: Tree): (n: nat)
    ensures n >= 1
    decreases t, 1
  {
    1 + SizeAll(t.children)
  }

  function SizeAll(ts: seq<Tree>): nat
    decreases ts, 0
  {
    if ts == [] then 0 else Size(ts[0]) + SizeAll(ts[1..])
  }

  // ---------------------------------------------------------------------------
  // Semantic equivalence (VampNode.IsSemanticallyEquivalent)

  /** Pairwise equivalent fragment lists of equal length. */
  predicate ValuesEquivalent(a: seq<QuotedString>, b: seq<QuotedString>) {
    |a| == |b| && forall i :: 0 <= i < |a| ==> Equivalent(Some(a[i]), Some(b[i]))
  }

  /** `IsSemanticallyEquivalent`: equivalent key and operator, pairwise equivalent
      value fragments, and pairwise equivalent children in order. */
  predicate TreeEquivalent(a: Tree, b: Tree)
    decreases a
  {
    Equivalent(a.key, b.key) && Equivalent(a.op, b.op) && ValuesEquivalent(a.value, b.value) &&
    |a.children| == |b.children| &&
    forall i :: 0 <= i < |a.children| ==> TreeEquivalent(a.children[i], b.children[i])
  }

  /** A comment fragment somewhere in the tree. */
  predicate HasComment(t: Tree)
    decreases t
  {
    (t.key.Some? && IsComment(t.key.value)) || (t.op.Some? && IsComment(t.op.value)) ||
    (exists i :: 0 <= i < |t.value| && IsComment(t.value[i])) ||
    (exists i :: 0 <= i < |t.children| && HasComment(t.children[i]))
  }

  lemma {:induction false} TreeEquivalentSymmetric(a: Tree, b: Tree)
    requires TreeEquivalent(a, b)
    ensures TreeEquivalent(b, a)
    decreases a
  {
    EquivalentProperties(a.key, b.key);
    EquivalentProperties(a.op, b.op);
    forall i | 0 <= i < |a.value| ensures Equivalent(Some(b.value[i]), Some(a.value[i])) {
      EquivalentProperties(Some(a.value[i]), Some(b.value[i]));
    }
    forall i | 0 <= i < |b.children| ensures TreeEquivalent(b.children[i], a.children[i]) {
      TreeEquivalentSymmetric(a.children[i], b.children[i]);
    }
  }

  /** A tree is equivalent to itself exactly when it holds no comment fragment:
      comments never compare equivalent, not even to themselves. */
  lemma {:induction false} TreeEquivalentReflexive(t: Tree)
    ensures TreeEquivalent(t, t) <==> !HasComment(t)
    decreases t
  {
    forall i | 0 <= i < |t.children| ensures TreeEquivalent(t.children[i], t.children[i]) <==> !HasComment(t.children[i]) {
      TreeEquivalentReflexive(t.children[i]);
    }
    if t.key.Some? { EquivalentProperties(t.key, t.key); }
    if t.op.Some? { EquivalentProperties(t.op, t.op); }
    if !HasComment(t) {
      forall i | 0 <= i < |t.value| ensures Equivalent(Some(t.value[i]), Some(t.value[i])) {
        EquivalentProperties(Some(t.value[i]), Some(t.value[i]));
      }
    } else if exists i :: 0 <= i < |t.value| && IsComment(t.value[i]) {
      var i :| 0 <= i < |t.value| && IsComment(t.value[i]);
      assert !Equivalent(Some(t.value[i]), Some(t.value[i]));
    }
  }

  lemma {:induction false} TreeEquivalentTransitive(a: Tree, b: Tree, c: Tree)
    requires TreeEquivalent(a, b) && TreeEquivalent(b, c)
    ensures TreeEquivalent(a, c)
    decreases a
  {
    forall i | 0 <= i < |a.children| ensures TreeEquivalent(a.children[i], c.children[i]) {
      TreeEquivalentTransitive(a.children[i], b.children[i], c.children[i]);
    }
  }

  // ---------------------------------------------------------------------------
  // Snapshots of the arena

  /** Every reference a node holds points into an arena of `size` nodes. */
  predicate Linked(n: Node, size: nat) {
    (n.parent.Some? ==> n.parent.value < size) && forall k :: 0 <= k < |n.children| ==> n.children[k] < size
  }

  predicate Wellformed(nodes: seq<Node>) {
    forall id :: 0 <= id < |nodes| ==> Linked(nodes[id], |nodes|)
  }

  /** The subtree below `id`, followed to depth `fuel`; None when it is deeper
      (which in an arena of fewer than `fuel` nodes means the children links
      run in a cycle). */
  function Snap(nodes: seq<Node>, id: NodeId, fuel: nat): Option<Tree>
    decreases fuel, 0
  {
    if id >= |nodes| || fuel == 0 then None
    else
      var n := nodes[id];
      var kids := SnapAll(nodes, n.children, fuel - 1);
      if kids.None? then None else Some(Tree(n.key, n.op, n.value, kids.value))
  }

  function SnapAll(nodes: seq<Node>, ids: seq<NodeId>, fuel: nat): (r: Option<seq<Tree>>)
    ensures r.Some? ==> |r.value| == |ids|
    decreases fuel, |ids|
  {
    if ids == [] then Some([])
    else
      var h := Snap(nodes, ids[0], fuel);
      var t := SnapAll(nodes, ids[1..], fuel);
      if h.None? || t.None? then None else Some([h.value] + t.value)
  }

  lemma {:induction false} SnapAllIndex(nodes: seq<Node>, ids: seq<NodeId>, fuel: nat, i: nat)
    requires SnapAll(nodes, ids, fuel).Some? && i < |ids|
    ensures Snap(nodes, ids[i], fuel).Some?
    ensures SnapAll(nodes, ids, fuel).value[i] == Snap(nodes, ids[i], fuel).value
    decreases |ids|
  {
    if i > 0 {
      SnapAllIndex(nodes, ids[1..], fuel, i - 1);
    }
  }

  lemma {:induction false} SnapAllAppend(nodes: seq<Node>, ids: seq<NodeId>, id: NodeId, fuel: nat)
    requires SnapAll(nodes, ids, fuel).Some? && Snap(nodes, id, fuel).Some?
    ensures SnapAll(nodes, ids + [id], fuel) == Some(SnapAll(nodes, ids, fuel).value + [Snap(nodes, id, fuel).value])
    decreases |ids|
  {
    if ids == [] {
      assert ids + [id] == [id];
      assert [id][1..] == [];
      assert [id][0] == id;
      assert SnapAll(nodes, [id][1..], fuel) == Some([]);
      var x := Snap(nodes, id, fuel).value;
      assert SnapAll(nodes, [id], fuel) == Some([x] + []);
      assert SnapAll(nodes, ids, fuel).value + [x] == [x] + [];
    } else {
      assert (ids + [id])[0] == ids[0];
      assert (ids + [id])[1..] == ids[1..] + [id];
      SnapAllAppend(nodes, ids[1..], id, fuel);
      var h := Snap(nodes, ids[0], fuel).value;
      var t := SnapAll(nodes, ids[1..], fuel).value;
      assert [h] + (t + [Snap(nodes, id, fuel).value]) == ([h] + t) + [Snap(nodes, id, fuel).value];
    }
  }

  /** More fuel never changes a snapshot that was already complete. */
  lemma {:induction false} SnapMoreFuel(nodes: seq<Node>, id: NodeId, fuel: nat, more: nat)
    requires Snap(nodes, id, fuel).Some? && fuel <= more
    ensures Snap(nodes, id, more) == Snap(nodes, id, fuel)
    decreases fuel, 0
  {
    SnapAllMoreFuel(nodes, nodes[id].children, fuel - 1, more - 1);
  }

  lemma {:induction false} SnapAllMoreFuel(nodes: seq<Node>, ids: seq<NodeId>, fuel: nat, more: nat)
    requires SnapAll(nodes, ids, fuel).Some? && fuel <= more
    ensures SnapAll(nodes, ids, more) == SnapAll(nodes, ids, fuel)
    decreases fuel, |ids|
  {
    if ids != [] {
      SnapMoreFuel(nodes, ids[0], fuel, more);
      SnapAllMoreFuel(nodes, ids[1..], fuel, more);
    }
  }

  /** The nodes `lo..hi` form a closed region: their children stay inside it. */
  predicate Closed(nodes: seq<Node>, lo: nat, hi: nat) {
    lo <= hi <= |nodes| &&
    forall i :: lo <= i < hi ==> forall k :: 0 <= k < |nodes[i].children| ==> lo <= nodes[i].children[k] < hi
  }

  /** Two arenas that agree on the content and children of a closed region give
      the same snapshots inside it (parents are not part of a snapshot). */
  predicate SameRegion(a: seq<Node>, b: seq<Node>, lo: nat, hi: nat) {
    hi <= |a| && hi <= |b| &&
    forall i :: lo <= i < hi ==>
      a[i].key == b[i].key && a[i].op == b[i].op && a[i].value == b[i].value && a[i].children == b[i].children
  }

  lemma {:induction false} SnapFrame(a: seq<Node>, b: seq<Node>, lo: nat, hi: nat, id: NodeId, fuel: nat)
    requires Closed(a, lo, hi) && SameRegion(a, b, lo, hi) && lo <= id < hi
    ensures Snap(a, id, fuel) == Snap(b, id, fuel)
    decreases fuel, 0
  {
    if fuel > 0 {
      SnapAllFrame(a, b, lo, hi, a[id].children, fuel - 1);
    }
  }

  lemma {:induction false} SnapAllFrame(a: seq<Node>, b: seq<Node>, lo: nat, hi: nat, ids: seq<NodeId>, fuel: nat)
    requires Closed(a, lo, hi) && SameRegion(a, b, lo, hi)
    requires forall k :: 0 <= k < |ids| ==> lo <= ids[k] < hi
    ensures SnapAll(a, ids, fuel) == SnapAll(b, ids, fuel)
    decreases fuel, |ids|
  {
    if ids != [] {
      SnapFrame(a, b, lo, hi, ids[0], fuel);
      SnapAllFrame(a, b, lo, hi, ids[1..], fuel);
    }
  }

  // ---------------------------------------------------------------------------
  // State changes of nodes, as functions of the arena

  /** `parent.AddChild(child)` after its null check: the child goes last and
      points back at the parent. */
  function Attach(nodes: seq<Node>, parent: NodeId, child: NodeId): (r: seq<Node>)
    requires parent < |nodes| && child < |nodes|
    ensures |r| == |nodes|
  {
    var added := nodes[parent := nodes[parent].(children := nodes[parent].children + [child])];
    added[child := added[child].(parent := Some(parent))]
  }

  /** What `AddChildren` leaves behind: the arena after attaching `children` one by
      one, and whether every attachment found the child without a parent (the
      first failure throws, after the earlier children were attached). */
  datatype Attached = Attached(nodes: seq<Node>, ok: bool)

  function AttachAll(nodes: seq<Node>, parent: NodeId, children: seq<NodeId>): (r: Attached)
    requires parent < |nodes| && forall k :: 0 <= k < |children| ==> children[k] < |nodes|
    ensures |r.nodes| == |nodes|
    decreases |children|
  {
    if children == [] then Attached(nodes, true)
    else if nodes[children[0]].parent.Some? then Attached(nodes, false)
    else AttachAll(Attach(nodes, parent, children[0]), parent, children[1..])
  }

  /** `AddChildren` keeps the order: a successful call appends exactly the given
      children to the parent's list. */
  lemma {:induction false} AttachAllAppends(nodes: seq<Node>, parent: NodeId, children: seq<NodeId>)
    requires parent < |nodes| && forall k :: 0 <= k < |children| ==> children[k] < |nodes|
    requires AttachAll(nodes, parent, children).ok
    ensures AttachAll(nodes, parent, children).nodes[parent].children == nodes[parent].children + children
    ensures forall k :: 0 <= k < |children| ==> AttachAll(nodes, parent, children).nodes[children[k]].parent == Some(parent)
    decreases |children|
  {
    if children != [] {
      var next := Attach(nodes, parent, children[0]);
      AttachAllAppends(next, parent, children[1..]);
      assert next[parent].children == nodes[parent].children + [children[0]];
      assert nodes[parent].children + children == nodes[parent].children + [children[0]] + children[1..];
      AttachAllKeepsParents(next, parent, children[1..], children[0]);
      forall k | 0 <= k < |children|
        ensures AttachAll(nodes, parent, children).nodes[children[k]].parent == Some(parent)
      {
        if k > 0 {
          assert children[k] == children[1..][k - 1];
        }
      }
    }
  }

  /** Attaching more children never clears a parent link that is already set. */
  lemma {:induction false} AttachAllKeepsParents(nodes: seq<Node>, parent: NodeId, children: seq<NodeId>, x: NodeId)
    requires parent < |nodes| && forall k :: 0 <= k < |children| ==> children[k] < |nodes|
    requires x < |nodes| && nodes[x].parent == Some(parent)
    ensures AttachAll(nodes, parent, children).nodes[x].parent == Some(parent)
    decreases |children|
  {
    if children != [] && nodes[children[0]].parent.None? {
      AttachAllKeepsParents(Attach(nodes, parent, children[0]), parent, children[1..], x);
    }
  }

  /** `ClearChildren`: every former child loses its parent link, then the list is emptied. */
  function Detach(nodes: seq<Node>, parent: NodeId): (r: seq<Node>)
    requires parent < |nodes|
    ensures |r| == |nodes| && r[parent].children == []
    ensures forall x :: 0 <= x < |nodes| && x in nodes[parent].children ==> r[x].parent.None?
    ensures forall x :: 0 <= x < |nodes| && x !in nodes[parent].children ==> r[x].parent == nodes[x].parent
    ensures forall x :: 0 <= x < |nodes| && x != parent ==> r[x].children == nodes[x].children
    ensures forall x :: 0 <= x < |nodes| ==>
      r[x].key == nodes[x].key && r[x].op == nodes[x].op && r[x].value == nodes[x].value
  {
    var orphaned := seq(|nodes|, i requires 0 <= i < |nodes| =>
      if i in nodes[parent].children then nodes[i].(parent := None) else nodes[i]);
    orphaned[parent := orphaned[parent].(children := [])]
  }

  /** `IndexOf`: the first slot holding `x`, or None for -1. */
  function IndexOf(ids: seq<NodeId>, x: NodeId): (r: Option<nat>)
    ensures r.Some? ==> r.value < |ids| && ids[r.value] == x
    ensures r.Some? ==> forall k :: 0 <= k < r.value ==> ids[k] != x
    ensures r.None? ==> x !in ids
  {
    if ids == [] then None
    else if ids[0] == x then Some(0)
    else
      var r := IndexOf(ids[1..], x);
      if r.None? then None else Some(r.value + 1)
  }

  /** No node appears twice in the list. */
  predicate DistinctIds(ids: seq<NodeId>) {
    forall x, y :: 0 <= x < y < |ids| ==> ids[x] != ids[y]
  }

  /** A node without links. */
  predicate Unlinked(n: Node) {
    n.parent.None? && n.children == []
  }

  lemma AppendWellformed(nodes: seq<Node>, n: Node)
    requires Wellformed(nodes) && Unlinked(n)
    ensures Wellformed(nodes + [n])
  {
    var next := nodes + [n];
    forall i | 0 <= i < |next| ensures Linked(next[i], |next|) {
      if i < |nodes| {
        assert Linked(nodes[i], |nodes|);
      }
    }
  }

  /** `AddChildren` changes only the parent's child list and the children's
      parent links. */
  lemma {:induction false} AttachAllFrame(nodes: seq<Node>, parent: NodeId, children: seq<NodeId>, x: NodeId)
    requires parent < |nodes| && forall k :: 0 <= k < |children| ==> children[k] < |nodes|
    requires x < |nodes|
    ensures var after := AttachAll(nodes, parent, children).nodes[x];
      after.key == nodes[x].key && after.op == nodes[x].op && after.value == nodes[x].value &&
      (x != parent ==> after.children == nodes[x].children) &&
      (x !in children ==> after.parent == nodes[x].parent)
    decreases |children|
  {
    if children != [] && nodes[children[0]].parent.None? {
      AttachAllFrame(Attach(nodes, parent, children[0]), parent, children[1..], x);
    }
  }

  /** `AddChildren` succeeds when none of the children has a parent yet and they
      are distinct from each other and from the parent. */
  lemma {:induction false} AttachAllFrees(nodes: seq<Node>, parent: NodeId, children: seq<NodeId>)
    requires parent < |nodes| && forall k :: 0 <= k < |children| ==> children[k] < |nodes| && children[k] != parent
    requires forall k :: 0 <= k < |children| ==> nodes[children[k]].parent.None?
    requires forall x, y :: 0 <= x < y < |children| ==> children[x] != children[y]
    ensures AttachAll(nodes, parent, children).ok
    decreases |children|
  {
    if children != [] {
      var next := Attach(nodes, parent, children[0]);
      forall k | 0 <= k < |children[1..]| ensures next[children[1..][k]].parent.None? {
        assert children[1..][k] == children[k + 1];
      }
      AttachAllFrees(next, parent, children[1..]);
    }
  }

  /** `AddChildren` of distinct parentless nodes: they go last, in order, and
      point back at the parent; no other node changes. */
  lemma AttachAllShape(nodes: seq<Node>, parent: NodeId, children: seq<NodeId>)
    requires parent < |nodes| && forall k :: 0 <= k < |children| ==> children[k] < |nodes| && children[k] != parent
    requires forall k :: 0 <= k < |children| ==> nodes[children[k]].parent.None?
    requires DistinctIds(children)
    ensures AttachAll(nodes, parent, children).ok
    ensures var m := AttachAll(nodes, parent, children).nodes;
      m[parent] == nodes[parent].(children := nodes[parent].children + children) &&
      (forall k :: 0 <= k < |children| ==> m[children[k]] == nodes[children[k]].(parent := Some(parent))) &&
      (forall x :: 0 <= x < |nodes| && x != parent && x !in children ==> m[x] == nodes[x])
  {
    AttachAllFrees(nodes, parent, children);
    AttachAllAppends(nodes, parent, children);
    forall x | 0 <= x < |nodes|
      ensures var after := AttachAll(nodes, parent, children).nodes[x];
        after.key == nodes[x].key && after.op == nodes[x].op && after.value == nodes[x].value &&
        (x != parent ==> after.children == nodes[x].children) &&
        (x !in children ==> after.parent == nodes[x].parent)
    {
      AttachAllFrame(nodes, parent, children, x);
    }
  }

  /** `AddChild` on the arena: fails when the child already has a parent. */
  function AddChildTo(nodes: seq<Node>, parent: NodeId, child: NodeId): (r: Result<seq<Node>>)
    requires parent < |nodes| && child < |nodes|
    ensures r.Err? <==> nodes[child].parent.Some?
    ensures r.Err? ==> r.error == AlreadyHasParent
    ensures r.Ok? ==> r.value == Attach(nodes, parent, child)
  {
    if nodes[child].parent.Some? then Err(AlreadyHasParent) else Ok(Attach(nodes, parent, child))
  }

  lemma AttachAllWellformed(nodes: seq<Node>, parent: NodeId, children: seq<NodeId>)
    requires Wellformed(nodes) && parent < |nodes| && forall k :: 0 <= k < |children| ==> children[k] < |nodes|
    ensures Wellformed(AttachAll(nodes, parent, children).nodes)
    decreases |children|
  {
    if children != [] && nodes[children[0]].parent.None? {
      AttachWellformed(nodes, parent, children[0]);
      AttachAllWellformed(Attach(nodes, parent, children[0]), parent, children[1..]);
    }
  }

  lemma DetachWellformed(nodes: seq<Node>, parent: NodeId)
    requires Wellformed(nodes) && parent < |nodes|
    ensures Wellformed(Detach(nodes, parent))
  {
    var r := Detach(nodes, parent);
    forall x | 0 <= x < |r| ensures Linked(r[x], |r|) {
      assert Linked(nodes[x], |nodes|);
    }
  }

  /** The key, operator and value of one node replaced; every link is kept. */
  function Relabel(nodes: seq<Node>, id: NodeId, key: Option<QuotedString>, op: Option<QuotedString>,
                   value: seq<QuotedString>): (r: seq<Node>)
    requires id < |nodes|
    ensures |r| == |nodes|
  {
    nodes[id := nodes[id].(key := key, op := op, value := value)]
  }

  lemma RelabelWellformed(nodes: seq<Node>, id: NodeId, key: Option<QuotedString>, op: Option<QuotedString>,
                          value: seq<QuotedString>)
    requires Wellformed(nodes) && id < |nodes|
    ensures Wellformed(Relabel(nodes, id, key, op, value))
  {
    var r := Relabel(nodes, id, key, op, value);
    forall x | 0 <= x < |r| ensures Linked(r[x], |r|) {
      assert Linked(nodes[x], |nodes|);
    }
  }

  /** The arena `Build(t)` leaves: a copy of `t` appended, its root first, each
      child subtree copied after its parent and attached to it in order. */
  function Grow(nodes: seq<Node>, t: Tree): (r: seq<Node>)
    ensures |r| > |nodes|
    decreases t, 1
  {
    GrowKids(nodes + [Fresh(t.key, t.op, t.value)], |nodes|, t.children)
  }

  function GrowKids(nodes: seq<Node>, id: NodeId, ts: seq<Tree>): (r: seq<Node>)
    requires id < |nodes|
    ensures |r| >= |nodes|
    decreases ts, 0
  {
    if ts == [] then nodes
    else GrowKids(Attach(Grow(nodes, ts[0]), id, |nodes|), id, ts[1..])
  }

  // ---------------------------------------------------------------------------
  // The arena

  class Forest {
    var nodes: seq<Node>

    /** Every reference held by a node stays inside the arena. */
    ghost predicate Valid()
      reads this
    {
      Wellformed(nodes)
    }

    constructor ()
      ensures nodes == [] && Valid()
    {
      nodes := [];
    }

    /** `new VampNode { Key = key, Operator = op }` followed by a value assignment. */
    method NewNode(key: Option<QuotedString>, op: Option<QuotedString>, value: seq<QuotedString>) returns (id: NodeId)
      requires Valid()
      modifies this
      ensures Valid()
      ensures id == |old(nodes)| && nodes == old(nodes) + [Fresh(key, op, value)]
    {
      id := |nodes|;
      nodes := nodes + [Fresh(key, op, value)];
      assert forall i :: 0 <= i < id ==> nodes[i] == old(nodes)[i];
    }

    method SetKey(id: NodeId, key: Option<QuotedString>)
      requires Valid() && id < |nodes|
      modifies this
      ensures Valid() && nodes == old(nodes)[id := old(nodes)[id].(key := key)]
    {
      nodes := nodes[id := nodes[id].(key := key)];
    }

    method SetOperator(id: NodeId, op: Option<QuotedString>)
      requires Valid() && id < |nodes|
      modifies this
      ensures Valid() && nodes == old(nodes)[id := old(nodes)[id].(op := op)]
    {
      nodes := nodes[id := nodes[id].(op := op)];
    }

    /** `SetValues`: the value list becomes exactly the given fragments, in order. */
    method SetValues(id: NodeId, values: seq<QuotedString>)
      requires Valid() && id < |nodes|
      modifies this
      ensures Valid() && nodes == old(nodes)[id := old(nodes)[id].(value := values)]
    {
      nodes := nodes[id := nodes[id].(value := values)];
    }

    /** `SetValue`: no fragment for an empty string, one unquoted fragment otherwise. */
    method SetValue(id: NodeId, s: string)
      requires Valid() && id < |nodes|
      modifies this
      ensures Valid() && nodes == old(nodes)[id := old(nodes)[id].(value := ValueOf(s))]
      ensures JoinValue(nodes[id].value) == s
    {
      nodes := nodes[id := nodes[id].(value := ValueOf(s))];
    }

    /** `AddChild`: fails when the child already has a parent; otherwise the child
        goes last in the parent's list and points back at it. */
    method AddChild(parent: NodeId, child: NodeId) returns (r: Result<()>)
      requires Valid() && parent < |nodes| && child < |nodes|
      modifies this
      ensures Valid()
      ensures r.Err? <==> old(nodes)[child].parent.Some?
      ensures r.Err? ==> r.error == AlreadyHasParent && nodes == old(nodes)
      ensures r.Ok? ==> nodes == Attach(old(nodes), parent, child)
    {
      if nodes[child].parent.Some? {
        return Err(AlreadyHasParent);
      }
      nodes := Attach(nodes, parent, child);
      return Ok(());
    }

    /** `AddChildren`: `AddChild` for each node in turn. */
    method AddChildren(parent: NodeId, children: seq<NodeId>) returns (r: Result<()>)
      requires Valid() && parent < |nodes| && forall k :: 0 <= k < |children| ==> children[k] < |nodes|
      modifies this
      ensures Valid()
      ensures nodes == AttachAll(old(nodes), parent, children).nodes
      ensures r.Ok? <==> AttachAll(old(nodes), parent, children).ok
      ensures r.Err? ==> r.error == AlreadyHasParent
    {
      ghost var whole := AttachAll(nodes, parent, children);
      for k := 0 to |children|
        invariant Valid() && |nodes| == |old(nodes)|
        invariant AttachAll(nodes, parent, children[k..]) == whole
      {
        assert children[k..][1..] == children[k + 1..];
        var added := AddChild(parent, children[k]);
        if added.Err? {
          return added;
        }
      }
      assert children[|children|..] == [];
      return Ok(());
    }

    /** `ClearChildren`: every former child loses its parent link and the list is emptied. */
    method ClearChildren(parent: NodeId)
      requires Valid() && parent < |nodes|
      modifies this
      ensures Valid() && nodes == Detach(old(nodes), parent)
    {
      var children := nodes[parent].children;
      for k := 0 to |children|
        invariant |nodes| == |old(nodes)|
        invariant nodes == seq(|old(nodes)|, i requires 0 <= i < |old(nodes)| =>
          if i in children[..k] then old(nodes)[i].(parent := None) else old(nodes)[i])
      {
        assert forall i :: i in children[..k + 1] <==> i in children[..k] || i == children[k];
        nodes := nodes[children[k] := nodes[children[k]].(parent := None)];
      }
      assert children[..|children|] == children;
      nodes := nodes[parent := nodes[parent].(children := [])];
    }

    /** `Children.RemoveAt(index)`: the slot goes, the removed node keeps its parent link. */
    method RemoveChildAt(parent: NodeId, index: nat)
      requires Valid() && parent < |nodes| && index < |nodes[parent].children|
      modifies this
      ensures Valid()
      ensures nodes == old(nodes)[parent := old(nodes)[parent].(children :=
        old(nodes)[parent].children[..index] + old(nodes)[parent].children[index + 1..])]
    {
      var cs := nodes[parent].children;
      nodes := nodes[parent := nodes[parent].(children := cs[..index] + cs[index + 1..])];
    }

    /** `Children.InsertRange(index, ids)`: the nodes are spliced in at `index`;
        their parent links are not touched. */
    method InsertChildrenAt(parent: NodeId, index: nat, ids: seq<NodeId>)
      requires Valid() && parent < |nodes| && index <= |nodes[parent].children|
      requires forall k :: 0 <= k < |ids| ==> ids[k] < |nodes|
      modifies this
      ensures Valid()
      ensures nodes == old(nodes)[parent := old(nodes)[parent].(children :=
        old(nodes)[parent].children[..index] + ids + old(nodes)[parent].children[index..])]
    {
      var cs := nodes[parent].children;
      nodes := nodes[parent := nodes[parent].(children := cs[..index] + ids + cs[index..])];
    }

    /** Builds fresh nodes holding a copy of `t` (the deep clone of the source): the
        new root has no parent, each new child points at its new parent, and the
        snapshot of the new root is `t` itself. Nothing that existed is changed. */
    method Build(t: Tree) returns (id: NodeId)
      requires Valid()
      modifies this
      ensures Valid()
      ensures id == |old(nodes)| < |nodes| && nodes[..id] == old(nodes)
      ensures Closed(nodes, id, |nodes|)
      ensures nodes[id].parent.None?
      ensures Snap(nodes, id, Height(t)) == Some(t)
      ensures nodes == Grow(old(nodes), t)
      decreases t
    {
      id := |nodes|;
      AppendWellformed(nodes, Fresh(t.key, t.op, t.value));
      nodes := nodes + [Fresh(t.key, t.op, t.value)];
      for k := 0 to |t.children|
        invariant Valid() && id < |nodes|
        invariant GrowKids(nodes, id, t.children[k..]) == Grow(old(nodes), t)
      {
        ghost var before := nodes;
        var c := Build(t.children[k]);
        GrowKidsStep(before, id, t.children, k);
        AttachWellformed(nodes, id, c);
        nodes := Attach(nodes, id, c);
      }
      assert t.children[|t.children|..] == [];
      GrowFacts(old(nodes), t);
    }
  }

  /** What `Build(t)` leaves behind, by induction over `t`: the arena stays well
      formed, nothing that existed changes, the new nodes only point at each
      other, the new root has no parent, and its snapshot is `t` itself. */
  lemma {:induction false} GrowFacts(nodes: seq<Node>, t: Tree)
    requires Wellformed(nodes)
    ensures var r := Grow(nodes, t);
      Wellformed(r) && |nodes| < |r| && r[..|nodes|] == nodes && Closed(r, |nodes|, |r|) &&
      r[|nodes|].parent.None? && Snap(r, |nodes|, Height(t)) == Some(t)
    decreases t, 1
  {
    var start := nodes + [Fresh(t.key, t.op, t.value)];
    AppendWellformed(nodes, Fresh(t.key, t.op, t.value));
    assert t.children[0..] == t.children && t.children[..0] == [];
    var r := GrowKidsFacts(nodes, start, |nodes|, t, 0, []);
  }

  lemma {:induction false} GrowKidsFacts(old0: seq<Node>, nodes: seq<Node>, id: NodeId, t: Tree, k: nat, kids: seq<NodeId>)
    returns (r: seq<Node>)
    requires id == |old0| && k <= |t.children|
    requires Wellformed(nodes) && id < |nodes| && nodes[..id] == old0
    requires Closed(nodes, id + 1, |nodes|) && Closed(nodes, id, |nodes|)
    requires nodes[id] == Node(t.key, t.op, t.value, None, kids)
    requires |kids| == k && forall j :: 0 <= j < k ==> id < kids[j] < |nodes|
    requires SnapAll(nodes, kids, Height(t) - 1) == Some(t.children[..k])
    ensures r == GrowKids(nodes, id, t.children[k..])
    ensures Wellformed(r) && id < |r| && r[..id] == old0 && Closed(r, id, |r|)
    ensures r[id].parent.None? && Snap(r, id, Height(t)) == Some(t)
    decreases t, 0, |t.children| - k
  {
    if k == |t.children| {
      GrowKidsDone(nodes, id, t, kids);
      r := nodes;
    } else {
      var next := GrowKidsNext(old0, nodes, id, t, k, kids);
      GrowKidsStep(nodes, id, t.children, k);
      r := GrowKidsFacts(old0, next, id, t, k + 1, kids + [|nodes|]);
    }
  }

  /** Once every child is grown, the node snapshots to `t`. */
  lemma GrowKidsDone(nodes: seq<Node>, id: NodeId, t: Tree, kids: seq<NodeId>)
    requires id < |nodes| && |kids| == |t.children|
    requires nodes[id] == Node(t.key, t.op, t.value, None, kids)
    requires SnapAll(nodes, kids, Height(t) - 1) == Some(t.children[..|kids|])
    ensures nodes == GrowKids(nodes, id, t.children[|kids|..])
    ensures Snap(nodes, id, Height(t)) == Some(t)
  {
    assert t.children[..|kids|] == t.children;
    assert t.children[|kids|..] == [];
    SnapOfNode(nodes, id, Height(t), t);
  }

  /** A node whose children snapshot to `t`'s children snapshots to `t`. */
  lemma SnapOfNode(nodes: seq<Node>, id: NodeId, fuel: nat, t: Tree)
    requires id < |nodes| && fuel >= 1
    requires nodes[id].key == t.key && nodes[id].op == t.op && nodes[id].value == t.value
    requires SnapAll(nodes, nodes[id].children, fuel - 1) == Some(t.children)
    ensures Snap(nodes, id, fuel) == Some(t)
  {
  }

  /** Growing child `k` and attaching it re-establishes the facts for `k + 1`. */
  lemma GrowKidsNext(old0: seq<Node>, nodes: seq<Node>, id: NodeId, t: Tree, k: nat, kids: seq<NodeId>)
    returns (next: seq<Node>)
    requires id == |old0| && k < |t.children|
    requires Wellformed(nodes) && id < |nodes| && nodes[..id] == old0
    requires Closed(nodes, id + 1, |nodes|) && Closed(nodes, id, |nodes|)
    requires nodes[id] == Node(t.key, t.op, t.value, None, kids)
    requires |kids| == k && forall j :: 0 <= j < k ==> id < kids[j] < |nodes|
    requires SnapAll(nodes, kids, Height(t) - 1) == Some(t.children[..k])
    ensures next == Attach(Grow(nodes, t.children[k]), id, |nodes|)
    ensures Wellformed(next) && id < |next| && next[..id] == old0
    ensures Closed(next, id + 1, |next|) && Closed(next, id, |next|)
    ensures next[id] == Node(t.key, t.op, t.value, None, kids + [|nodes|])
    ensures forall j :: 0 <= j < k + 1 ==> id < (kids + [|nodes|])[j] < |next|
    ensures SnapAll(next, kids + [|nodes|], Height(t) - 1) == Some(t.children[..k + 1])
    decreases t, 0, 0
  {
    var c := |nodes|;
    var grown := Grow(nodes, t.children[k]);
    GrowFacts(nodes, t.children[k]);
    BuildStepShape(nodes, grown, id, kids, c);
    BuildStepSnap(nodes, grown, id, kids, c, t, k);
    next := Attach(grown, id, c);
    assert next[..id] == old0 by {
      assert forall j :: 0 <= j < id ==> next[j] == grown[j] == nodes[j];
    }
  }

  /** One round of `Build`, arena: building child `k` and attaching it is the
      first step of growing the remaining children. */
  lemma GrowKidsStep(before: seq<Node>, id: NodeId, ts: seq<Tree>, k: nat)
    requires id < |before| && k < |ts|
    ensures GrowKids(before, id, ts[k..]) ==
      GrowKids(Attach(Grow(before, ts[k]), id, |before|), id, ts[k + 1..])
  {
    assert ts[k..][1..] == ts[k + 1..];
  }

  /** One round of `Build`, shape: after the child just built is attached as the
      last child of `id`, the region from `id` on is still closed. */
  lemma BuildStepShape(before: seq<Node>, after: seq<Node>, id: NodeId, kids: seq<NodeId>, c: NodeId)
    requires id < |before| && Closed(before, id + 1, |before|)
    requires before[id].children == kids
    requires forall j :: 0 <= j < |kids| ==> id < kids[j] < |before|
    requires Wellformed(after) && c == |before| < |after| && after[..c] == before
    requires Closed(after, c, |after|)
    ensures var next := Attach(after, id, c);
      Wellformed(next) && Closed(next, id + 1, |next|) && Closed(next, id, |next|) &&
      next[id] == before[id].(children := kids + [c])
  {
    ClosedUnion(before, after, id + 1);
    AttachWellformed(after, id, c);
    assert after[id] == before[id];
    AttachClosed(after, id, c, kids);
  }

  /** One round of `Build`, content: the snapshots of all children built so far,
      the new one included, are the first `k + 1` subtrees of `t`. */
  lemma BuildStepSnap(before: seq<Node>, after: seq<Node>, id: NodeId, kids: seq<NodeId>, c: NodeId, t: Tree, k: nat)
    requires id < |before| && k < |t.children| && |kids| == k
    requires Closed(before, id + 1, |before|) && Closed(before, id, |before|)
    requires forall j :: 0 <= j < k ==> id < kids[j] < |before|
    requires SnapAll(before, kids, Height(t) - 1) == Some(t.children[..k])
    requires c == |before| < |after| && after[..c] == before
    requires Closed(after, c, |after|)
    requires Snap(after, c, Height(t.children[k])) == Some(t.children[k])
    ensures SnapAll(Attach(after, id, c), kids + [c], Height(t) - 1) == Some(t.children[..k + 1])
  {
    var fuel := Height(t) - 1;
    GrownSnap(before, after, id, kids, c, t, k);
    ClosedUnion(before, after, id + 1);
    var ids := kids + [c];
    forall j | 0 <= j < |ids| ensures id < ids[j] < |after| {
      if j < k {
        assert ids[j] == kids[j];
      }
    }
    AttachFrame(after, id, c, ids, fuel);
  }

  /** The children built so far, the new one included, snapshot to the first
      `k + 1` subtrees of `t` before the new one is attached. */
  lemma GrownSnap(before: seq<Node>, after: seq<Node>, id: NodeId, kids: seq<NodeId>, c: NodeId, t: Tree, k: nat)
    requires id < |before| && k < |t.children| && |kids| == k
    requires Closed(before, id, |before|)
    requires forall j :: 0 <= j < k ==> id < kids[j] < |before|
    requires SnapAll(before, kids, Height(t) - 1) == Some(t.children[..k])
    requires c == |before| < |after| && after[..c] == before
    requires Snap(after, c, Height(t.children[k])) == Some(t.children[k])
    ensures SnapAll(after, kids + [c], Height(t) - 1) == Some(t.children[..k + 1])
  {
    var fuel := Height(t) - 1;
    BuildFrame(before, after, id, kids, fuel);
    SnapMoreFuel(after, c, Height(t.children[k]), fuel);
    SnapAllAppend(after, kids, c, fuel);
    assert t.children[..k + 1] == t.children[..k] + [t.children[k]];
  }

  /** A closed region followed by a closed block of new nodes is closed. */
  lemma ClosedUnion(before: seq<Node>, after: seq<Node>, lo: nat)
    requires Closed(before, lo, |before|) && |before| <= |after| && after[..|before|] == before
    requires Closed(after, |before|, |after|)
    ensures Closed(after, lo, |after|)
  {
    forall i | lo <= i < |after|
      ensures forall m :: 0 <= m < |after[i].children| ==> lo <= after[i].children[m] < |after|
    {
      if i < |before| {
        assert after[i] == before[i];
      }
    }
  }

  lemma AttachWellformed(nodes: seq<Node>, parent: NodeId, child: NodeId)
    requires Wellformed(nodes) && parent < |nodes| && child < |nodes|
    ensures Wellformed(Attach(nodes, parent, child))
  {
    var next := Attach(nodes, parent, child);
    forall i | 0 <= i < |next| ensures Linked(next[i], |next|) {
      assert Linked(nodes[i], |nodes|);
    }
  }

  /** Attaching the newest block's root below `id` keeps the region from `id` on closed. */
  lemma AttachClosed(nodes: seq<Node>, id: NodeId, c: NodeId, kids: seq<NodeId>)
    requires id < c < |nodes| && Closed(nodes, id + 1, |nodes|)
    requires nodes[id].children == kids && forall j :: 0 <= j < |kids| ==> id < kids[j] < |nodes|
    ensures Closed(Attach(nodes, id, c), id + 1, |nodes|) && Closed(Attach(nodes, id, c), id, |nodes|)
  {
    var next := Attach(nodes, id, c);
    assert next[id].children == kids + [c];
    forall i | id + 1 <= i < |nodes| ensures next[i].children == nodes[i].children {
    }
  }

  /** The children built so far keep their snapshots while a later sibling is built. */
  lemma BuildFrame(before: seq<Node>, after: seq<Node>, id: NodeId, kids: seq<NodeId>, fuel: nat)
    requires id < |before| <= |after| && after[..|before|] == before
    requires Closed(before, id, |before|)
    requires forall k :: 0 <= k < |kids| ==> id < kids[k] < |before|
    ensures SnapAll(after, kids, fuel) == SnapAll(before, kids, fuel)
  {
    assert SameRegion(before, after, id, |before|);
    SnapAllFrame(before, after, id, |before|, kids, fuel);
  }

  /** Attaching a new child to `id` changes only `id`'s list and the child's parent,
      so the snapshots of the other children stay as they were. */
  lemma AttachFrame(nodes: seq<Node>, id: NodeId, c: NodeId, kids: seq<NodeId>, fuel: nat)
    requires id < c < |nodes| && Closed(nodes, id + 1, |nodes|)
    requires forall k :: 0 <= k < |kids| ==> id < kids[k] < |nodes|
    ensures SnapAll(Attach(nodes, id, c), kids, fuel) == SnapAll(nodes, kids, fuel)
  {
    var a := Attach(nodes, id, c);
    assert SameRegion(nodes, a, id + 1, |nodes|);
    SnapAllFrame(nodes, a, id + 1, |nodes|, kids, fuel);
  }
}
