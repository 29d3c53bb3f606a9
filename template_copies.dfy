/** The copies a template invocation splices in. The copy of a body node is laid
    out in fresh nodes in preorder (`Laid`); the parameter expander then visits
    every node of it exactly once, so the copy ends up holding the body tree with
    every snippet substituted (`ExpandTree`), in which no formal is left. */
module TemplateCopies {
  import opened Results
  import opened Text
  import opened Strings
  import opened Nodes
  import opened MacroResults
  import opened Templates
  import opened Macros
  import MacroProperties

  // ---------------------------------------------------------------------------
  // Sizes

  lemma {:induction false} SizeAllAppend(a: seq<Tree>, b: seq<Tree>)
    ensures SizeAll(a + b) == SizeAll(a) + SizeAll(b)
    decreases |a|
  {
    if a == [] {
      assert a + b == b;
    } else {
      assert (a + b)[0] == a[0] && (a + b)[1..] == a[1..] + b;
      SizeAllAppend(a[1..], b);
    }
  }

  /** The first `j + 1` trees take the size of the first `j` plus that of tree `j`. */
  lemma SizeAllStep(ts: seq<Tree>, j: nat)
    requires j < |ts|
    ensures SizeAll(ts[..j + 1]) == SizeAll(ts[..j]) + Size(ts[j])
  {
    assert ts[..j + 1] == ts[..j] + [ts[j]];
    SizeAllAppend(ts[..j], [ts[j]]);
    assert [ts[j]][1..] == [];
  }

  /** A longer prefix is never smaller. */
  lemma SizeAllMonotone(ts: seq<Tree>, a: nat, b: nat)
    requires a <= b <= |ts|
    ensures SizeAll(ts[..a]) <= SizeAll(ts[..b])
  {
    assert ts[..b] == ts[..a] + ts[a..b];
    SizeAllAppend(ts[..a], ts[a..b]);
  }

  /** Lists of trees of the same sizes have the same total size. */
  lemma {:induction false} SizeAllSame(a: seq<Tree>, b: seq<Tree>)
    requires |a| == |b| && forall j :: 0 <= j < |a| ==> Size(a[j]) == Size(b[j])
    ensures SizeAll(a) == SizeAll(b)
    decreases |a|
  {
    if a != [] {
      SizeAllSame(a[1..], b[1..]);
    }
  }

  // ---------------------------------------------------------------------------
  // Layout

  /** The nodes from `x` on hold `t` in preorder: node `x` carries the key,
      operator and value of `t`, and its children are the roots of the layouts
      of `t`'s children, one after the other. */
  predicate Laid(nodes: seq<Node>, x: NodeId, t: Tree)
    decreases t
  {
    x + Size(t) <= |nodes| &&
    nodes[x].key == t.key && nodes[x].op == t.op && nodes[x].value == t.value &&
    |nodes[x].children| == |t.children| &&
    forall j :: 0 <= j < |t.children| ==>
      nodes[x].children[j] == x + 1 + SizeAll(t.children[..j]) && Laid(nodes, nodes[x].children[j], t.children[j])
  }

  /** Child `j` of a layout lies inside it, after the node itself and after
      every earlier child's layout. */
  lemma ChildRegion(t: Tree, x: NodeId, j: nat)
    requires j < |t.children|
    ensures x < x + 1 + SizeAll(t.children[..j])
    ensures x + 1 + SizeAll(t.children[..j]) + Size(t.children[j]) <= x + Size(t)
  {
    SizeAllStep(t.children, j);
    SizeAllMonotone(t.children, j + 1, |t.children|);
    assert t.children[..|t.children|] == t.children;
  }

  /** A layout only depends on the content and the children of its own nodes. */
  lemma {:induction false} LaidFrame(a: seq<Node>, b: seq<Node>, x: NodeId, t: Tree)
    requires Laid(a, x, t) && SameRegion(a, b, x, x + Size(t))
    ensures Laid(b, x, t)
    decreases t
  {
    forall j | 0 <= j < |t.children|
      ensures Laid(b, b[x].children[j], t.children[j])
    {
      ChildRegion(t, x, j);
      LaidFrame(a, b, a[x].children[j], t.children[j]);
    }
  }

  /** A layout outside the part of the arena that changed is still there. */
  lemma LaidKept(a: seq<Node>, b: seq<Node>, lo: nat, hi: nat, x: NodeId, t: Tree)
    requires Laid(a, x, t) && |b| == |a|
    requires forall y :: 0 <= y < |a| && !(lo <= y < hi) ==> b[y] == a[y]
    requires x + Size(t) <= lo || hi <= x
    ensures Laid(b, x, t)
  {
    LaidFrame(a, b, x, t);
  }

  // ---------------------------------------------------------------------------
  // Substitution over a whole tree

  /** The tree with the substitution applied to every key, operator and value
      fragment. */
  function ExpandTree(t: Tree, kvs: seq<(string, string)>): (r: Tree)
    requires Replaceable(kvs)
    ensures |r.children| == |t.children|
    decreases t
  {
    Tree(ExpandedOption(t.key, kvs), ExpandedOption(t.op, kvs),
         seq(|t.value|, k requires 0 <= k < |t.value| => Expanded(t.value[k], kvs)),
         seq(|t.children|, j requires 0 <= j < |t.children| => ExpandTree(t.children[j], kvs)))
  }

  lemma {:induction false} ExpandSize(t: Tree, kvs: seq<(string, string)>)
    requires Replaceable(kvs)
    ensures Size(ExpandTree(t, kvs)) == Size(t)
    decreases t
  {
    var e := ExpandTree(t, kvs);
    forall j | 0 <= j < |t.children| ensures Size(e.children[j]) == Size(t.children[j]) {
      ExpandSize(t.children[j], kvs);
    }
    SizeAllSame(e.children, t.children);
  }

  /** The prefixes of the expanded children have the sizes of the original ones. */
  lemma ExpandPrefixSize(t: Tree, kvs: seq<(string, string)>, j: nat)
    requires Replaceable(kvs) && j <= |t.children|
    ensures SizeAll(ExpandTree(t, kvs).children[..j]) == SizeAll(t.children[..j])
  {
    var e := ExpandTree(t, kvs);
    forall k | 0 <= k < j ensures Size(e.children[..j][k]) == Size(t.children[..j][k]) {
      ExpandSize(t.children[k], kvs);
    }
    SizeAllSame(e.children[..j], t.children[..j]);
  }

  /** No snippet of the tree contains `x`. */
  predicate NoOccurrence(t: Tree, x: string)
    decreases t
  {
    (t.key.Some? ==> !Contains(t.key.value.snippet, x)) &&
    (t.op.Some? ==> !Contains(t.op.value.snippet, x)) &&
    (forall k :: 0 <= k < |t.value| ==> !Contains(t.value[k].snippet, x)) &&
    forall j :: 0 <= j < |t.children| ==> NoOccurrence(t.children[j], x)
  }

  /** After substitution with a separated list no formal is left anywhere in
      the tree. */
  lemma {:induction false} FormalsGone(t: Tree, kvs: seq<(string, string)>, f: nat)
    requires Separated(kvs) && f < |kvs|
    ensures Replaceable(kvs) && NoOccurrence(ExpandTree(t, kvs), kvs[f].0)
    decreases t
  {
    var e := ExpandTree(t, kvs);
    if t.key.Some? {
      SubstituteRemoves(t.key.value.snippet, kvs, f);
    }
    if t.op.Some? {
      SubstituteRemoves(t.op.value.snippet, kvs, f);
    }
    forall k | 0 <= k < |t.value| ensures !Contains(e.value[k].snippet, kvs[f].0) {
      SubstituteRemoves(t.value[k].snippet, kvs, f);
    }
    forall j | 0 <= j < |t.children| ensures NoOccurrence(e.children[j], kvs[f].0) {
      FormalsGone(t.children[j], kvs, f);
    }
  }

  // ---------------------------------------------------------------------------
  // Copies

  /** The first `k + 1` trees take the size of the first tree plus that of the
      first `k` of the rest. */
  lemma PrefixShift(ts: seq<Tree>, k: nat)
    requires k < |ts|
    ensures SizeAll(ts[..k + 1]) == Size(ts[0]) + SizeAll(ts[1..][..k])
  {
    assert ts[..k + 1][0] == ts[0] && ts[..k + 1][1..] == ts[1..][..k];
  }

  /** `Build` lays its tree out in preorder in the nodes it appends and changes
      nothing before them. */
  lemma {:induction false} GrowLaid(nodes: seq<Node>, t: Tree)
    ensures |Grow(nodes, t)| == |nodes| + Size(t)
    ensures Grow(nodes, t)[..|nodes|] == nodes
    ensures Laid(Grow(nodes, t), |nodes|, t)
    decreases t, 1
  {
    var start := nodes + [Fresh(t.key, t.op, t.value)];
    assert t.children[..0] == [] && t.children[0..] == t.children;
    GrowKidsLaid(start, |nodes|, t, 0);
  }

  /** The first `k` children of `t` hang below `id` in `cur`, each laid out
      right after the previous one. */
  predicate Growing(cur: seq<Node>, id: NodeId, t: Tree, k: nat) {
    id < |cur| && k <= |t.children| &&
    cur[id].key == t.key && cur[id].op == t.op && cur[id].value == t.value &&
    |cur[id].children| == k && |cur| == id + 1 + SizeAll(t.children[..k]) &&
    forall j :: 0 <= j < k ==>
      cur[id].children[j] == id + 1 + SizeAll(t.children[..j]) && Laid(cur, cur[id].children[j], t.children[j])
  }

  /** Attaching a fresh node touches only the parent and the child. */
  lemma AttachKept(g: seq<Node>, id: NodeId, c: NodeId)
    requires id < c < |g|
    ensures Attach(g, id, c)[id].children == g[id].children + [c]
    ensures Attach(g, id, c)[id].key == g[id].key && Attach(g, id, c)[id].op == g[id].op
    ensures Attach(g, id, c)[id].value == g[id].value
    ensures SameRegion(g, Attach(g, id, c), c, |g|)
    ensures forall y :: 0 <= y < |g| && y != id && y != c ==> Attach(g, id, c)[y] == g[y]
  {
  }

  /** Earlier children keep their place and layout when the arena only changes
      at `id` and from `|cur|` on. */
  lemma EarlierKept(cur: seq<Node>, a: seq<Node>, id: NodeId, t: Tree, k: nat)
    requires Growing(cur, id, t, k) && |a| >= |cur|
    requires forall y :: 0 <= y < |cur| && y != id ==> a[y] == cur[y]
    requires |a[id].children| > k && a[id].children[..k] == cur[id].children
    ensures forall j :: 0 <= j < k ==>
      a[id].children[j] == id + 1 + SizeAll(t.children[..j]) && Laid(a, a[id].children[j], t.children[j])
  {
    forall j | 0 <= j < k
      ensures a[id].children[j] == id + 1 + SizeAll(t.children[..j]) && Laid(a, a[id].children[j], t.children[j])
    {
      assert a[id].children[j] == a[id].children[..k][j];
      SizeAllStep(t.children, j);
      SizeAllMonotone(t.children, j + 1, k);
      LaidFrame(cur, a, cur[id].children[j], t.children[j]);
    }
  }

  /** One turn of `GrowKids`: the next child is built and attached after the
      others. */
  lemma GrowingStep(cur: seq<Node>, id: NodeId, t: Tree, k: nat)
    requires Growing(cur, id, t, k) && k < |t.children|
    ensures Growing(Attach(Grow(cur, t.children[k]), id, |cur|), id, t, k + 1)
    ensures forall y :: 0 <= y < id ==> Attach(Grow(cur, t.children[k]), id, |cur|)[y] == cur[y]
    decreases t, 0, |t.children| - k, 0
  {
    var tk := t.children[k];
    GrowLaid(cur, tk);
    var g := Grow(cur, tk);
    assert forall y :: 0 <= y < |cur| ==> g[y] == cur[y] by {
      forall y | 0 <= y < |cur| ensures g[y] == cur[y] {
        assert g[..|cur|][y] == cur[y];
      }
    }
    AttachKept(g, id, |cur|);
    var a := Attach(g, id, |cur|);
    LaidFrame(g, a, |cur|, tk);
    SizeAllStep(t.children, k);
    assert a[id].children[..k] == cur[id].children;
    EarlierKept(cur, a, id, t, k);
    assert a[id].children[k] == |cur|;
  }

  lemma {:induction false} GrowKidsLaid(cur: seq<Node>, id: NodeId, t: Tree, k: nat)
    requires Growing(cur, id, t, k)
    ensures |GrowKids(cur, id, t.children[k..])| == id + Size(t)
    ensures Laid(GrowKids(cur, id, t.children[k..]), id, t)
    ensures forall y :: 0 <= y < id ==> GrowKids(cur, id, t.children[k..])[y] == cur[y]
    decreases t, 0, |t.children| - k, 1
  {
    if k == |t.children| {
      assert t.children[k..] == [];
      assert t.children[..k] == t.children;
    } else {
      GrowingStep(cur, id, t, k);
      assert t.children[k..][0] == t.children[k] && t.children[k..][1..] == t.children[k + 1..];
      GrowKidsLaid(Attach(Grow(cur, t.children[k]), id, |cur|), id, t, k + 1);
    }
  }

  /** Copies that lie one after the other from `base` on, in the order of `ts`. */
  predicate Packed(nodes: seq<Node>, base: nat, roots: seq<NodeId>, ts: seq<Tree>) {
    |roots| == |ts| && base + SizeAll(ts) <= |nodes| &&
    forall k :: 0 <= k < |ts| ==> roots[k] == base + SizeAll(ts[..k]) && Laid(nodes, roots[k], ts[k])
  }

  /** Where the copies of `ts` go when they are appended from `base` on. */
  function Roots(base: nat, ts: seq<Tree>): (r: seq<NodeId>)
    ensures |r| == |ts|
  {
    seq(|ts|, k requires 0 <= k < |ts| => base + SizeAll(ts[..k]))
  }

  lemma PackedRoots(nodes: seq<Node>, base: nat, roots: seq<NodeId>, ts: seq<Tree>)
    requires Packed(nodes, base, roots, ts)
    ensures roots == Roots(base, ts)
  {
  }

  /** The copies of the body are appended one after the other, each laid out
      in preorder, and nothing before them changes. */
  lemma {:induction false} CopiesPacked(nodes: seq<Node>, ts: seq<Tree>)
    ensures |Copies(nodes, ts).nodes| == |nodes| + SizeAll(ts)
    ensures Copies(nodes, ts).nodes[..|nodes|] == nodes
    ensures Packed(Copies(nodes, ts).nodes, |nodes|, Copies(nodes, ts).roots, ts)
    decreases |ts|
  {
    if ts == [] {
      assert Copies(nodes, ts).nodes == nodes;
    } else {
      var g := Grow(nodes, ts[0]);
      GrowLaid(nodes, ts[0]);
      CopiesPacked(g, ts[1..]);
      var rest := Copies(g, ts[1..]);
      var c := Copies(nodes, ts);
      assert c.nodes == rest.nodes && c.roots == [|nodes|] + rest.roots;
      assert c.nodes[..|nodes|] == nodes by {
        assert c.nodes[..|nodes|] == rest.nodes[..|g|][..|nodes|];
      }
      assert SameRegion(g, c.nodes, |nodes|, |g|) by {
        forall y | |nodes| <= y < |g| ensures c.nodes[y] == g[y] {
          assert rest.nodes[..|g|][y] == g[y];
        }
      }
      LaidFrame(g, c.nodes, |nodes|, ts[0]);
      assert ts[..0] == [];
      forall k | 0 < k < |ts|
        ensures c.roots[k] == |nodes| + SizeAll(ts[..k]) && Laid(c.nodes, c.roots[k], ts[k])
      {
        PrefixShift(ts, k - 1);
        assert c.roots[k] == rest.roots[k - 1] && ts[k] == ts[1..][k - 1];
      }
    }
  }

  // ---------------------------------------------------------------------------
  // The parameter expander over a copy

  /** `after` holds the expansion of `t` where `before` held `t` at `x`, and
      nothing outside that layout changed. */
  predicate ExpandedAt(before: seq<Node>, after: seq<Node>, x: NodeId, t: Tree, kvs: seq<(string, string)>)
    requires Replaceable(kvs)
  {
    |after| == |before| && Laid(after, x, ExpandTree(t, kvs)) &&
    forall y :: 0 <= y < |before| && !(x <= y < x + Size(t)) ==> after[y] == before[y]
  }

  /** The walk over `x`'s children at index `i`: `x` itself is expanded, the
      first `i` children hold their expansions, the others their originals, and
      nothing outside the layout of `t` at `x` changed since `before`. */
  predicate Walking(before: seq<Node>, nodes: seq<Node>, x: NodeId, t: Tree, kvs: seq<(string, string)>, i: nat)
    requires Replaceable(kvs)
  {
    var e := ExpandTree(t, kvs);
    |nodes| == |before| && x + Size(t) <= |nodes| && i <= |t.children| &&
    nodes[x].key == e.key && nodes[x].op == e.op && nodes[x].value == e.value &&
    |nodes[x].children| == |t.children| &&
    (forall j :: 0 <= j < |t.children| ==> nodes[x].children[j] == x + 1 + SizeAll(t.children[..j])) &&
    (forall j :: 0 <= j < i ==> Laid(nodes, nodes[x].children[j], ExpandTree(t.children[j], kvs))) &&
    (forall j :: i <= j < |t.children| ==> Laid(nodes, nodes[x].children[j], t.children[j])) &&
    (forall y :: 0 <= y < |before| && !(x <= y < x + Size(t)) ==> nodes[y] == before[y])
  }

  /** A finished walk leaves the expansion of the whole layout. */
  lemma WalkDone(before: seq<Node>, nodes: seq<Node>, x: NodeId, t: Tree, kvs: seq<(string, string)>)
    requires Replaceable(kvs) && Walking(before, nodes, x, t, kvs, |t.children|)
    ensures ExpandedAt(before, nodes, x, t, kvs)
  {
    var e := ExpandTree(t, kvs);
    ExpandSize(t, kvs);
    forall j | 0 <= j < |t.children| ensures nodes[x].children[j] == x + 1 + SizeAll(e.children[..j]) {
      ExpandPrefixSize(t, kvs, j);
    }
  }

  /** Expanding child `i` in place leaves the layouts of the earlier children. */
  lemma EarlierSiblings(a: seq<Node>, b: seq<Node>, x: NodeId, t: Tree, kvs: seq<(string, string)>, i: nat)
    requires Replaceable(kvs) && x < |a| && i < |t.children| && |b| == |a| && |a[x].children| == |t.children|
    requires forall j :: 0 <= j < |t.children| ==> a[x].children[j] == x + 1 + SizeAll(t.children[..j])
    requires forall j :: 0 <= j < i ==> Laid(a, a[x].children[j], ExpandTree(t.children[j], kvs))
    requires forall y :: 0 <= y < |a| && !(a[x].children[i] <= y < a[x].children[i] + Size(t.children[i])) ==> b[y] == a[y]
    ensures forall j :: 0 <= j < i ==> Laid(b, a[x].children[j], ExpandTree(t.children[j], kvs))
  {
    var c := a[x].children[i];
    forall j | 0 <= j < i ensures Laid(b, a[x].children[j], ExpandTree(t.children[j], kvs)) {
      SizeAllStep(t.children, j);
      SizeAllMonotone(t.children, j + 1, i);
      ExpandSize(t.children[j], kvs);
      LaidKept(a, b, c, c + Size(t.children[i]), a[x].children[j], ExpandTree(t.children[j], kvs));
    }
  }

  /** Expanding child `i` in place leaves the layouts of the later children. */
  lemma LaterSiblings(a: seq<Node>, b: seq<Node>, x: NodeId, t: Tree, i: nat)
    requires x < |a| && i < |t.children| && |b| == |a| && |a[x].children| == |t.children|
    requires forall j :: 0 <= j < |t.children| ==> a[x].children[j] == x + 1 + SizeAll(t.children[..j])
    requires forall j :: i < j < |t.children| ==> Laid(a, a[x].children[j], t.children[j])
    requires forall y :: 0 <= y < |a| && !(a[x].children[i] <= y < a[x].children[i] + Size(t.children[i])) ==> b[y] == a[y]
    ensures forall j :: i < j < |t.children| ==> Laid(b, a[x].children[j], t.children[j])
  {
    var c := a[x].children[i];
    SizeAllStep(t.children, i);
    forall j | i < j < |t.children| ensures Laid(b, a[x].children[j], t.children[j]) {
      SizeAllMonotone(t.children, i + 1, j);
      LaidKept(a, b, c, c + Size(t.children[i]), a[x].children[j], t.children[j]);
    }
  }

  /** Expanding child `i` in place moves the walk on to child `i + 1`. */
  lemma WalkOn(before: seq<Node>, a: seq<Node>, b: seq<Node>, x: NodeId, t: Tree, kvs: seq<(string, string)>, i: nat)
    requires Replaceable(kvs) && Walking(before, a, x, t, kvs, i) && i < |t.children|
    requires ExpandedAt(a, b, a[x].children[i], t.children[i], kvs)
    ensures b[x] == a[x]
    ensures Walking(before, b, x, t, kvs, i + 1)
  {
    ChildRegion(t, x, i);
    EarlierSiblings(a, b, x, t, kvs, i);
    LaterSiblings(a, b, x, t, i);
  }

  /** The expander's run over a laid-out tree, when it succeeds, leaves the
      tree's expansion in place and changes nothing else. */
  lemma {:induction false} RunExpands(kvs: seq<(string, string)>, w: World, x: NodeId, t: Tree, fuel: nat, after: World)
    requires WorldValid(w) && Replaceable(kvs) && Laid(w.nodes, x, t)
    requires Run(Parameters(kvs), w, x, fuel) == Ok(after)
    ensures after.functions == w.functions && ExpandedAt(w.nodes, after.nodes, x, t, kvs)
    decreases fuel, 0, 0
  {
    var m := Parameters(kvs);
    var w1 := World(w.nodes[x := ExpandedNode(w.nodes[x], kvs)], w.functions);
    assert Step(m, w, x, fuel) == Ok(Move(w1, ContinueToChildren));
    ReapplyEnds(m, w, x, 0, fuel, w1, ContinueToChildren);
    forall j | 0 <= j < |t.children| ensures Laid(w1.nodes, w1.nodes[x].children[j], t.children[j]) {
      ChildRegion(t, x, j);
      LaidKept(w.nodes, w1.nodes, x, x + 1, w.nodes[x].children[j], t.children[j]);
    }
    assert Walking(w.nodes, w1.nodes, x, t, kvs, 0);
    WalkExpands(kvs, w.nodes, w1, x, t, 0, fuel - 1, after);
  }

  lemma {:induction false} WalkExpands(kvs: seq<(string, string)>, before: seq<Node>, w: World, x: NodeId, t: Tree, i: nat, fuel: nat, after: World)
    requires WorldValid(w) && Replaceable(kvs) && Walking(before, w.nodes, x, t, kvs, i)
    requires Walk(Parameters(kvs), w, x, i, fuel) == Ok(after)
    ensures after.functions == w.functions && ExpandedAt(before, after.nodes, x, t, kvs)
    decreases fuel, 1, 1
  {
    if i == |t.children| {
      WalkDone(before, w.nodes, x, t, kvs);
    } else {
      WalkExpandsChild(kvs, before, w, x, t, i, fuel, after);
    }
  }

  /** One step of `WalkExpands`: child `i` is expanded, then the walk goes on. */
  lemma {:induction false} WalkExpandsChild(kvs: seq<(string, string)>, before: seq<Node>, w: World, x: NodeId, t: Tree, i: nat, fuel: nat, after: World)
    requires WorldValid(w) && Replaceable(kvs) && Walking(before, w.nodes, x, t, kvs, i) && i < |t.children|
    requires Walk(Parameters(kvs), w, x, i, fuel) == Ok(after)
    ensures after.functions == w.functions && ExpandedAt(before, after.nodes, x, t, kvs)
    decreases fuel, 1, 0
  {
    var m := Parameters(kvs);
    var c := w.nodes[x].children[i];
    ChildRegion(t, x, i);
    var r := Run(m, w, c, fuel);
    RunExpands(kvs, w, c, t.children[i], fuel, r.value);
    WalkOn(before, w.nodes, r.value.nodes, x, t, kvs, i);
    WalkStep(m, w, x, i, fuel, r.value);
    WalkExpands(kvs, before, r.value, x, t, i + 1, fuel - 1, after);
  }

  /** The expander's runs over packed copies leave each copy's expansion in
      place and change nothing outside the copies. */
  lemma {:induction false} RunEachExpands(kvs: seq<(string, string)>, w: World, base: nat, roots: seq<NodeId>, ts: seq<Tree>, fuel: nat)
    requires WorldValid(w) && Replaceable(kvs) && Packed(w.nodes, base, roots, ts)
    requires forall k :: 0 <= k < |roots| ==> roots[k] < |w.nodes|
    ensures RunEach(Parameters(kvs), w, roots, fuel).Ok? ==>
      var after := RunEach(Parameters(kvs), w, roots, fuel).value;
      after.functions == w.functions && |after.nodes| == |w.nodes| &&
      (forall k :: 0 <= k < |ts| ==> Laid(after.nodes, roots[k], ExpandTree(ts[k], kvs))) &&
      (forall y :: 0 <= y < |w.nodes| && !(base <= y < base + SizeAll(ts)) ==> after.nodes[y] == w.nodes[y])
    decreases |ts|
  {
    var m := Parameters(kvs);
    if ts != [] {
      assert ts[..0] == [];
      var r := Run(m, w, roots[0], fuel);
      if r.Ok? {
        RunExpands(kvs, w, roots[0], ts[0], fuel, r.value);
        var w1 := r.value;
        var base1 := base + Size(ts[0]);
        forall k | 0 <= k < |ts| - 1
          ensures roots[1..][k] == base1 + SizeAll(ts[1..][..k]) && Laid(w1.nodes, roots[1..][k], ts[1..][k])
        {
          PrefixShift(ts, k);
          SizeAllStep(ts, 0);
          SizeAllMonotone(ts, 1, k + 1);
          LaidKept(w.nodes, w1.nodes, base, base1, roots[k + 1], ts[k + 1]);
        }
        RunEachExpands(kvs, w1, base1, roots[1..], ts[1..], fuel);
        var rest := RunEach(m, w1, roots[1..], fuel);
        if rest.Ok? {
          ExpandSize(ts[0], kvs);
          LaidKept(w1.nodes, rest.value.nodes, base1, base1 + SizeAll(ts[1..]), roots[0], ExpandTree(ts[0], kvs));
          forall k | 0 < k < |ts| ensures Laid(rest.value.nodes, roots[k], ExpandTree(ts[k], kvs)) {
            assert roots[k] == roots[1..][k - 1] && ts[k] == ts[1..][k - 1];
          }
        }
      }
    }
  }

  // ---------------------------------------------------------------------------
  // An invocation

  /** A successful invocation ran the expander over the copies and then
      spliced their roots in at `index`. */
  lemma InvocationRan(w: World, parent: NodeId, index: nat, h: Header, fuel: nat, ts: seq<Tree>, kvs: seq<(string, string)>)
    requires WorldValid(w) && parent < |w.nodes|
    requires h.name in w.functions && |w.functions[h.name].parameters| == |h.arguments|
    requires SnapAll(w.nodes, w.nodes[w.functions[h.name].body].children, |w.nodes|) == Some(ts)
    requires KeyValues(w.functions[h.name].parameters, h.arguments) == Ok(kvs)
    requires Invocation(w, parent, index, h, fuel).Ok?
    ensures fuel > 0 && WorldValid(World(Copies(w.nodes, ts).nodes, w.functions))
    ensures var c := Copies(w.nodes, ts);
      var ran := RunEach(Parameters(kvs), World(c.nodes, w.functions), c.roots, fuel - 1);
      ran.Ok? && index <= |ran.value.nodes[parent].children| &&
      Invocation(w, parent, index, h, fuel).value.world ==
        World(InsertAt(ran.value.nodes, parent, index, c.roots), ran.value.functions)
  {
    CopiesWellformed(w.nodes, ts);
  }

  /** Splicing the roots of expanded copies into a parent that lies before them. */
  lemma Spliced(nodes: seq<Node>, ran: seq<Node>, parent: NodeId, index: nat, ts: seq<Tree>, kvs: seq<(string, string)>)
    requires Replaceable(kvs) && parent < |nodes| && |ran| == |nodes| + SizeAll(ts)
    requires forall y :: 0 <= y < |nodes| ==> ran[y] == nodes[y]
    requires forall k :: 0 <= k < |ts| ==> Laid(ran, Roots(|nodes|, ts)[k], ExpandTree(ts[k], kvs))
    requires index <= |nodes[parent].children|
    ensures var after := InsertAt(ran, parent, index, Roots(|nodes|, ts));
      |after| == |nodes| + SizeAll(ts) &&
      after[parent].children == nodes[parent].children[..index] + Roots(|nodes|, ts) + nodes[parent].children[index..] &&
      (forall k :: 0 <= k < |ts| ==> Laid(after, Roots(|nodes|, ts)[k], ExpandTree(ts[k], kvs))) &&
      (forall y :: 0 <= y < |nodes| && y != parent ==> after[y] == nodes[y])
  {
    var after := InsertAt(ran, parent, index, Roots(|nodes|, ts));
    forall k | 0 <= k < |ts| ensures Laid(after, Roots(|nodes|, ts)[k], ExpandTree(ts[k], kvs)) {
      ExpandSize(ts[k], kvs);
      LaidKept(ran, after, parent, parent + 1, Roots(|nodes|, ts)[k], ExpandTree(ts[k], kvs));
    }
  }

  /** A successful invocation splices the expanded copies of the body, one per
      child of the definition, into the parent's children at the call's old slot;
      the copies are appended to the arena in order, each laid out in preorder
      with every formal replaced by its actual, and no other old node changes. */
  lemma InvocationSplices(w: World, parent: NodeId, index: nat, h: Header, fuel: nat, ts: seq<Tree>, kvs: seq<(string, string)>)
    requires WorldValid(w) && parent < |w.nodes|
    requires h.name in w.functions && |w.functions[h.name].parameters| == |h.arguments|
    requires SnapAll(w.nodes, w.nodes[w.functions[h.name].body].children, |w.nodes|) == Some(ts)
    requires KeyValues(w.functions[h.name].parameters, h.arguments) == Ok(kvs) && Replaceable(kvs)
    requires Invocation(w, parent, index, h, fuel).Ok?
    ensures index <= |w.nodes[parent].children|
    ensures var after := Invocation(w, parent, index, h, fuel).value.world;
      after.functions == w.functions && |after.nodes| == |w.nodes| + SizeAll(ts) &&
      after.nodes[parent].children ==
        w.nodes[parent].children[..index] + Roots(|w.nodes|, ts) + w.nodes[parent].children[index..] &&
      (forall k :: 0 <= k < |ts| ==> Laid(after.nodes, Roots(|w.nodes|, ts)[k], ExpandTree(ts[k], kvs))) &&
      (forall y :: 0 <= y < |w.nodes| && y != parent ==> after.nodes[y] == w.nodes[y])
  {
    InvocationRan(w, parent, index, h, fuel, ts, kvs);
    var copies := Copies(w.nodes, ts);
    CopiesPacked(w.nodes, ts);
    PackedRoots(copies.nodes, |w.nodes|, copies.roots, ts);
    var cw := World(copies.nodes, w.functions);
    assert forall y :: 0 <= y < |w.nodes| ==> copies.nodes[y] == w.nodes[y] by {
      forall y | 0 <= y < |w.nodes| ensures copies.nodes[y] == w.nodes[y] {
        assert copies.nodes[..|w.nodes|][y] == w.nodes[y];
      }
    }
    RunEachExpands(kvs, cw, |w.nodes|, copies.roots, ts, fuel - 1);
    var ran := RunEach(Parameters(kvs), cw, copies.roots, fuel - 1).value;
    Spliced(w.nodes, ran.nodes, parent, index, ts, kvs);
  }

  /** A template call that invokes a known template is replaced, in its parent's
      children, by the expanded copies of the template's body; when the formals
      are pairwise separated, no formal is left in the copies. */
  lemma CallReplacedByCopies(w: World, id: NodeId, fuel: nat, h: Header, p: NodeId, index: nat,
                             removed: seq<Node>, ts: seq<Tree>, kvs: seq<(string, string)>)
    requires WorldValid(w) && id < |w.nodes| && IsTemplateCall(w.nodes[id])
    requires ParseFunctionHeader(w.nodes[id].key.value.snippet) == Ok(h) && !IsDefinitionName(h.name)
    requires w.nodes[id].parent == Some(p) && p < |w.nodes|
    requires IndexOf(w.nodes[p].children, id) == Some(index)
    requires removed == RemoveAt(w.nodes, p, index)
    requires h.name in w.functions && |w.functions[h.name].parameters| == |h.arguments|
    requires SnapAll(removed, removed[w.functions[h.name].body].children, |removed|) == Some(ts)
    requires KeyValues(w.functions[h.name].parameters, h.arguments) == Ok(kvs) && Replaceable(kvs)
    requires TemplateStep(w, id, fuel).Ok?
    ensures var after := TemplateStep(w, id, fuel).value;
      after.next == Break && after.world.functions == w.functions &&
      |after.world.nodes| == |w.nodes| + SizeAll(ts) &&
      after.world.nodes[p].children ==
        w.nodes[p].children[..index] + Roots(|w.nodes|, ts) + w.nodes[p].children[index + 1..] &&
      (forall k :: 0 <= k < |ts| ==> Laid(after.world.nodes, Roots(|w.nodes|, ts)[k], ExpandTree(ts[k], kvs))) &&
      (forall y :: 0 <= y < |w.nodes| && y != p ==> after.world.nodes[y] == w.nodes[y])
    ensures Separated(kvs) ==>
      forall k, f :: 0 <= k < |ts| && 0 <= f < |kvs| ==> NoOccurrence(ExpandTree(ts[k], kvs), kvs[f].0)
  {
    MacroProperties.InvocationRemovesCall(w, id, fuel, h, p, index);
    var rw := World(removed, w.functions);
    InvocationSplices(rw, p, index, h, fuel, ts, kvs);
    var kids := w.nodes[p].children;
    assert removed[p].children == kids[..index] + kids[index + 1..];
    assert removed[p].children[..index] == kids[..index];
    assert removed[p].children[index..] == kids[index + 1..];
    if Separated(kvs) {
      forall k, f | 0 <= k < |ts| && 0 <= f < |kvs| ensures NoOccurrence(ExpandTree(ts[k], kvs), kvs[f].0) {
        FormalsGone(ts[k], kvs, f);
      }
    }
  }
}
