/** `VampParser.Parse` (Vamp/Vamp.cs): the token stream becomes nodes. A stack
    holds the open nodes, bottom first; an `Indentation(n)` token opens a new
    node, at top level for n = 0 and otherwise below the open node left after
    popping the stack down to n entries; the other tokens fill in the newest
    node. At the end a pseudo-root adopts the top-level nodes. */
module TreeBuilder {
  import opened Results
  import opened Text
  import opened Strings
  import opened Rules
  import opened Nodes
  import opened Indentation
  import opened Quoter
  import opened Tokenizer

  function Min(a: nat, b: nat): nat {
    if a < b then a else b
  }

  /** The locals of `Parse` between two tokens: the nodes made so far, the stack
      of open nodes (bottom first) and the top-level nodes in order. */
  datatype Builder = Builder(nodes: seq<Node>, stack: seq<NodeId>, roots: seq<NodeId>)

  const Start: Builder := Builder([], [], [])

  predicate BuilderOk(b: Builder) {
    Wellformed(b.nodes) &&
    (forall k :: 0 <= k < |b.stack| ==> b.stack[k] < |b.nodes|) &&
    (forall k :: 0 <= k < |b.roots| ==> b.roots[k] < |b.nodes|)
  }

  /** The `Indentation(n)` case with the new node `node`: a new top-level node
      for level 0, else the stack is popped to `n` entries and the node goes last
      below the open node on top; `Peek` on an empty stack throws. */
  function Open(b: Builder, n: nat, node: Node): (r: Result<Builder>)
    requires BuilderOk(b) && Unlinked(node)
    ensures r.Err? <==> n > 0 && b.stack == []
    ensures r.Err? ==> r.error == EmptyStack
    ensures r.Ok? ==> BuilderOk(r.value) && |r.value.nodes| == |b.nodes| + 1
    ensures r.Ok? ==> r.value.stack != [] && r.value.stack[|r.value.stack| - 1] == |b.nodes|
  {
    var id := |b.nodes|;
    var nodes := b.nodes + [node];
    AppendWellformed(b.nodes, node);
    if n == 0 then Ok(Builder(nodes, [id], b.roots + [id]))
    else
      var kept := b.stack[..Min(n, |b.stack|)];
      if kept == [] then Err(EmptyStack)
      else
        AttachWellformed(nodes, kept[|kept| - 1], id);
        Ok(Builder(Attach(nodes, kept[|kept| - 1], id), kept + [id], b.roots))
  }

  /** What a `Key`, `Operator`, `Value` or `ElementValue` token writes into the
      node on top of the stack. */
  function Fill(n: Node, t: Token): (r: Node)
    ensures r.parent == n.parent && r.children == n.children
  {
    match t
    case Indentation(_) => n
    case Key(k) => n.(key := Some(k))
    case Operator(o) => n.(op := Some(o))
    case Value(vs) => n.(value := vs)
    case ElementValue(v) => n.(value := [v])
  }

  lemma FillWellformed(nodes: seq<Node>, id: NodeId, t: Token)
    requires Wellformed(nodes) && id < |nodes|
    ensures Wellformed(nodes[id := Fill(nodes[id], t)])
  {
    var next := nodes[id := Fill(nodes[id], t)];
    forall i | 0 <= i < |next| ensures Linked(next[i], |next|) {
      assert Linked(nodes[i], |nodes|);
    }
  }

  /** One pass of the `foreach` in `Parse`. */
  function ParseToken(b: Builder, t: Token): (r: Result<Builder>)
    requires BuilderOk(b)
    ensures r.Ok? ==> BuilderOk(r.value)
    ensures r.Err? ==> r.error == EmptyStack
  {
    if t.Indentation? then Open(b, t.level, Fresh(None, None, []))
    else if b.stack == [] then Err(EmptyStack)
    else
      var top := b.stack[|b.stack| - 1];
      FillWellformed(b.nodes, top, t);
      Ok(b.(nodes := b.nodes[top := Fill(b.nodes[top], t)]))
  }

  function ParseTokens(b: Builder, ts: seq<Token>): (r: Result<Builder>)
    requires BuilderOk(b)
    ensures r.Ok? ==> BuilderOk(r.value)
    ensures r.Err? ==> r.error == EmptyStack
    decreases |ts|
  {
    if ts == [] then Ok(b)
    else
      var next := ParseToken(b, ts[0]);
      if next.Err? then Err(next.error) else ParseTokens(next.value, ts[1..])
  }

  /** The tree `Parse` returns: the arena and its pseudo-root. */
  datatype Parsed = Parsed(nodes: seq<Node>, root: NodeId)

  /** The pseudo-root and its `AddChildren(rootNodes)`. */
  function Finish(b: Builder): (r: Result<Parsed>)
    requires BuilderOk(b)
    ensures r.Ok? ==> r.value.root == |b.nodes| < |r.value.nodes|
  {
    var root := |b.nodes|;
    var nodes := b.nodes + [Fresh(None, None, [])];
    var att := AttachAll(nodes, root, b.roots);
    if att.ok then Ok(Parsed(att.nodes, root)) else Err(AlreadyHasParent)
  }

  /** `Parse(program, rules)`: the tokens are consumed as `Tokenize` yields them,
      so a tree-building error on an earlier line wins over a lexing error on a
      later one. */
  function ParseProgram(rules: VampRules, program: string): Result<Parsed>
    requires QuotationsOk(rules.quotations)
  {
    var lexed := TokenizeSpec(rules, program);
    var b := ParseTokens(Start, lexed.tokens);
    if b.Err? then Err(b.error)
    else if lexed.error.Some? then Err(lexed.error.value)
    else Finish(b.value)
  }

  // ---------------------------------------------------------------------------
  // The methods

  /** One token applied to the arena and the two lists. */
  method ApplyToken(forest: Forest, stack: seq<NodeId>, roots: seq<NodeId>, t: Token)
    returns (r: Result<(seq<NodeId>, seq<NodeId>)>)
    requires forest.Valid() && BuilderOk(Builder(forest.nodes, stack, roots))
    modifies forest
    ensures forest.Valid()
    ensures var s := ParseToken(Builder(old(forest.nodes), stack, roots), t);
      (s.Ok? ==> r.Ok? && s.value == Builder(forest.nodes, r.value.0, r.value.1)) &&
      (s.Err? ==> r == Err(s.error))
  {
    if t.Indentation? {
      var node := forest.NewNode(None, None, []);
      if t.level == 0 {
        return Ok(([node], roots + [node]));
      }
      var open := stack;
      while t.level < |open|
        invariant |open| <= |stack| && open == stack[..|open|] && |open| >= Min(t.level, |stack|)
        decreases |open|
      {
        open := open[..|open| - 1];
      }
      if open == [] {
        return Err(EmptyStack);
      }
      var added := forest.AddChild(open[|open| - 1], node);
      return Ok((open + [node], roots));
    }
    if stack == [] {
      return Err(EmptyStack);
    }
    var top := stack[|stack| - 1];
    match t {
      case Key(k) => forest.SetKey(top, Some(k));
      case Operator(o) => forest.SetOperator(top, Some(o));
      case Value(vs) => forest.SetValues(top, vs);
      case ElementValue(v) => forest.SetValues(top, [v]);
    }
    return Ok((stack, roots));
  }

  /** `Parse`: a fresh arena holding the parsed nodes, and its pseudo-root. */
  method Parse(program: string, rules: VampRules) returns (r: Result<(Forest, NodeId)>)
    requires QuotationsOk(rules.quotations)
    ensures var s := ParseProgram(rules, program);
      (s.Ok? <==> r.Ok?) &&
      (s.Ok? ==> r.value.0.nodes == s.value.nodes && r.value.1 == s.value.root && r.value.0.Valid()) &&
      (s.Err? ==> r.error == s.error)
    ensures r.Ok? ==> fresh(r.value.0)
  {
    var lexed := Tokenize(program, rules);
    var forest := new Forest();
    var stack: seq<NodeId> := [];
    var roots: seq<NodeId> := [];
    for i := 0 to |lexed.tokens|
      invariant forest.Valid() && BuilderOk(Builder(forest.nodes, stack, roots))
      invariant ParseTokens(Builder(forest.nodes, stack, roots), lexed.tokens[i..]) == ParseTokens(Start, lexed.tokens)
    {
      assert lexed.tokens[i..][1..] == lexed.tokens[i + 1..];
      var step := ApplyToken(forest, stack, roots, lexed.tokens[i]);
      if step.Err? {
        return Err(step.error);
      }
      stack, roots := step.value.0, step.value.1;
    }
    assert lexed.tokens[|lexed.tokens|..] == [];
    if lexed.error.Some? {
      return Err(lexed.error.value);
    }
    var root := forest.NewNode(None, None, []);
    var added := forest.AddChildren(root, roots);
    if added.Err? {
      return Err(added.error);
    }
    return Ok((forest, root));
  }

  // ---------------------------------------------------------------------------
  // Lines instead of tokens

  /** One line of the program as `Parse` sees it: its level and what its tokens
      write into its node (a line holding a lone quoted fragment has no key and
      no operator). */
  datatype Entry = Entry(level: nat, key: Option<QuotedString>, op: Option<QuotedString>, value: seq<QuotedString>)

  function Entries(ts: seq<Token>): (es: seq<Entry>)
    requires Grouped(ts)
    decreases |ts|
  {
    if ts == [] then []
    else if ts[1].ElementValue? then [Entry(ts[0].level, None, None, [ts[1].value])] + Entries(ts[2..])
    else [Entry(ts[0].level, Some(ts[1].key), Some(ts[2].op), ts[3].values)] + Entries(ts[4..])
  }

  function AddEntry(b: Builder, e: Entry): (r: Result<Builder>)
    requires BuilderOk(b)
    ensures r.Ok? ==> BuilderOk(r.value)
  {
    Open(b, e.level, Fresh(e.key, e.op, e.value))
  }

  function ParseEntries(b: Builder, es: seq<Entry>): (r: Result<Builder>)
    requires BuilderOk(b)
    ensures r.Ok? ==> BuilderOk(r.value)
    decreases |es|
  {
    if es == [] then Ok(b)
    else
      var next := AddEntry(b, es[0]);
      if next.Err? then Err(next.error) else ParseEntries(next.value, es[1..])
  }

  /** Opening a node and then filling it in is opening the filled node. */
  lemma OpenThenFill(b: Builder, n: nat, node: Node, t: Token)
    requires BuilderOk(b) && Unlinked(node) && !t.Indentation?
    requires Open(b, n, node).Ok?
    ensures var b1 := Open(b, n, node).value;
      ParseToken(b1, t) == Open(b, n, Fill(node, t))
  {
    var b1 := Open(b, n, node).value;
    var id := |b.nodes|;
    var b2 := Open(b, n, Fill(node, t)).value;
    assert b1.stack[|b1.stack| - 1] == id;
    assert b2.nodes == b1.nodes[id := Fill(b1.nodes[id], t)];
  }

  /** `ParseTokens` takes one token at a time. */
  lemma ParseTokensStep(b: Builder, ts: seq<Token>)
    requires BuilderOk(b) && ts != []
    ensures var next := ParseToken(b, ts[0]);
      ParseTokens(b, ts) == if next.Err? then Err(next.error) else ParseTokens(next.value, ts[1..])
  {
  }

  /** A filling token right after the line's `Indentation` token. */
  lemma FillStep(b: Builder, n: nat, node: Node, ts: seq<Token>)
    requires BuilderOk(b) && Unlinked(node) && Open(b, n, node).Ok? && ts != [] && !ts[0].Indentation?
    ensures ParseTokens(Open(b, n, node).value, ts) == ParseTokens(Open(b, n, Fill(node, ts[0])).value, ts[1..])
  {
    OpenThenFill(b, n, node, ts[0]);
    ParseTokensStep(Open(b, n, node).value, ts);
  }

  /** The two tokens of a line holding a lone quoted fragment. */
  lemma ElementGroup(b: Builder, ts: seq<Token>)
    requires BuilderOk(b) && |ts| >= 2 && ts[0].Indentation? && ts[1].ElementValue?
    ensures var a := AddEntry(b, Entry(ts[0].level, None, None, [ts[1].value]));
      ParseTokens(b, ts) == if a.Err? then Err(a.error) else ParseTokens(a.value, ts[2..])
  {
    var n := ts[0].level;
    var blank := Fresh(None, None, []);
    ParseTokensStep(b, ts);
    if Open(b, n, blank).Ok? {
      FillStep(b, n, blank, ts[1..]);
      assert ts[1..][1..] == ts[2..];
      FillElement(ts[1]);
    }
  }

  lemma FillElement(t: Token)
    requires t.ElementValue?
    ensures Fill(Fresh(None, None, []), t) == Fresh(None, None, [t.value])
  {
  }

  /** The four tokens of a line with a key. */
  lemma KeyGroup(b: Builder, ts: seq<Token>)
    requires BuilderOk(b) && |ts| >= 4 && ts[0].Indentation? && ts[1].Key? && ts[2].Operator? && ts[3].Value?
    ensures var a := AddEntry(b, Entry(ts[0].level, Some(ts[1].key), Some(ts[2].op), ts[3].values));
      ParseTokens(b, ts) == if a.Err? then Err(a.error) else ParseTokens(a.value, ts[4..])
  {
    var n := ts[0].level;
    var blank := Fresh(None, None, []);
    var n1 := Fill(blank, ts[1]);
    var n2 := Fill(n1, ts[2]);
    assert Fill(n2, ts[3]) == Fresh(Some(ts[1].key), Some(ts[2].op), ts[3].values);
    ParseTokensStep(b, ts);
    if Open(b, n, blank).Ok? {
      FillStep(b, n, blank, ts[1..]);
      assert ts[1..][1..] == ts[2..];
      FillStep(b, n, n1, ts[2..]);
      assert ts[2..][1..] == ts[3..];
      FillStep(b, n, n2, ts[3..]);
      assert ts[3..][1..] == ts[4..];
    }
  }

  lemma {:induction false} GroupsAreEntries(b: Builder, ts: seq<Token>)
    requires BuilderOk(b) && Grouped(ts)
    ensures ParseTokens(b, ts) == ParseEntries(b, Entries(ts))
    decreases |ts|
  {
    if ts != [] {
      if ts[1].ElementValue? {
        var e := Entry(ts[0].level, None, None, [ts[1].value]);
        assert Entries(ts) == [e] + Entries(ts[2..]);
        ElementGroup(b, ts);
        if AddEntry(b, e).Ok? {
          GroupsAreEntries(AddEntry(b, e).value, ts[2..]);
        }
      } else {
        var e := Entry(ts[0].level, Some(ts[1].key), Some(ts[2].op), ts[3].values);
        assert Entries(ts) == [e] + Entries(ts[4..]);
        KeyGroup(b, ts);
        if AddEntry(b, e).Ok? {
          GroupsAreEntries(AddEntry(b, e).value, ts[4..]);
        }
      }
    }
  }

  // ---------------------------------------------------------------------------
  // When `Parse` fails

  lemma {:induction false} OpenStackNeverEmpties(b: Builder, es: seq<Entry>)
    requires BuilderOk(b) && b.stack != []
    ensures ParseEntries(b, es).Ok?
    decreases |es|
  {
    if es != [] {
      OpenStackNeverEmpties(AddEntry(b, es[0]).value, es[1..]);
    }
  }

  /** Tree building fails exactly when the first line is indented (the stack is
      empty when its node looks for a parent); after a top-level line the stack
      is never empty again. */
  lemma ParseFailsIffFirstIndented(es: seq<Entry>)
    ensures ParseEntries(Start, es).Err? <==> es != [] && es[0].level > 0
    ensures ParseEntries(Start, es).Err? ==> ParseEntries(Start, es).error == EmptyStack
  {
    if es != [] && es[0].level == 0 {
      OpenStackNeverEmpties(AddEntry(Start, es[0]).value, es[1..]);
    }
  }

  // ---------------------------------------------------------------------------
  // What `Parse` builds, for levels that go deeper by at most one per line

  /** Levels starting at top level and never more than one deeper than the line
      before. The indenter keeps to this from one line it unindents to the next,
      but a comment-only line is unindented without yielding tokens, so the
      levels of the lines that do can jump further (module CommentLines). */
  predicate Steps(es: seq<Entry>) {
    (es != [] ==> es[0].level == 0) &&
    forall i :: 0 < i < |es| ==> es[i].level <= es[i - 1].level + 1
  }

  /** The last of the first `i` lines that has level `k`. */
  function LastAt(es: seq<Entry>, i: nat, k: nat): Option<nat>
    requires i <= |es|
  {
    if i == 0 then None
    else if es[i - 1].level == k then Some(i - 1)
    else LastAt(es, i - 1, k)
  }

  lemma {:induction false} LastAtMeaning(es: seq<Entry>, i: nat, k: nat)
    requires i <= |es|
    ensures var r := LastAt(es, i, k);
      (r.Some? ==> r.value < i && es[r.value].level == k && forall j :: r.value < j < i ==> es[j].level != k) &&
      (r.None? ==> forall j :: 0 <= j < i ==> es[j].level != k)
  {
    if i > 0 && es[i - 1].level != k {
      LastAtMeaning(es, i - 1, k);
    }
  }

  /** The parent line of line `i`: the last line before it one level up, none for
      a top-level line. */
  function ParentLine(es: seq<Entry>, i: nat): Option<nat>
    requires i < |es|
  {
    if es[i].level == 0 then None else LastAt(es, i, es[i].level - 1)
  }

  lemma ParentLineMeaning(es: seq<Entry>, i: nat)
    requires i < |es|
    ensures var r := ParentLine(es, i);
      (r.Some? ==> (r.value < i && es[r.value].level + 1 == es[i].level &&
        forall j :: r.value < j < i ==> es[j].level + 1 != es[i].level)) &&
      (r.None? ==> es[i].level == 0 || forall j :: 0 <= j < i ==> es[j].level + 1 != es[i].level)
  {
    if es[i].level > 0 {
      LastAtMeaning(es, i, es[i].level - 1);
    }
  }

  /** Under `Steps` every indented line has a parent line. */
  lemma {:induction false} ParentLineExists(es: seq<Entry>, i: nat)
    requires Steps(es) && i < |es| && es[i].level > 0
    ensures ParentLine(es, i).Some?
    decreases i
  {
    var k := es[i].level - 1;
    if es[i - 1].level != k {
      assert es[i - 1].level > k;
      if es[i - 1].level == k + 1 {
        ParentLineExists(es, i - 1);
        ParentLineMeaning(es, i - 1);
        LastAtMeaning(es, i, k);
      } else {
        LastAtAbove(es, i - 1, k);
        LastAtMeaning(es, i, k);
      }
    }
  }

  /** Under `Steps`, a line above level `k` has a line of level `k` before it. */
  lemma {:induction false} LastAtAbove(es: seq<Entry>, i: nat, k: nat)
    requires Steps(es) && i < |es| && es[i].level > k
    ensures LastAt(es, i, k).Some?
    decreases i
  {
    assert i > 0;
    if es[i - 1].level != k {
      LastAtAbove(es, i - 1, k);
    }
  }

  /** The lines among the first `m` whose parent line is `p`, in order. */
  function ChildLines(es: seq<Entry>, m: nat, p: nat): seq<nat>
    requires m <= |es|
  {
    if m == 0 then []
    else ChildLines(es, m - 1, p) + (if ParentLine(es, m - 1) == Some(p) then [m - 1] else [])
  }

  lemma {:induction false} ChildLinesMeaning(es: seq<Entry>, m: nat, p: nat)
    requires m <= |es|
    ensures forall x :: 0 <= x < |ChildLines(es, m, p)| ==>
      ChildLines(es, m, p)[x] < m && ParentLine(es, ChildLines(es, m, p)[x]) == Some(p)
    ensures forall x, y :: 0 <= x < y < |ChildLines(es, m, p)| ==> ChildLines(es, m, p)[x] < ChildLines(es, m, p)[y]
    ensures forall j :: 0 <= j < m && ParentLine(es, j) == Some(p) ==> j in ChildLines(es, m, p)
  {
    if m > 0 {
      ChildLinesMeaning(es, m - 1, p);
      var r0 := ChildLines(es, m - 1, p);
      var r := ChildLines(es, m, p);
      forall x | 0 <= x < |r|
        ensures r[x] < m && ParentLine(es, r[x]) == Some(p)
      {
        if x < |r0| {
          assert r[x] == r0[x];
        }
      }
    }
  }

  /** The top-level lines among the first `m`, in order. */
  function TopLines(es: seq<Entry>, m: nat): seq<nat>
    requires m <= |es|
  {
    if m == 0 then []
    else TopLines(es, m - 1) + (if es[m - 1].level == 0 then [m - 1] else [])
  }

  lemma {:induction false} TopLinesMeaning(es: seq<Entry>, m: nat)
    requires m <= |es|
    ensures forall x :: 0 <= x < |TopLines(es, m)| ==> TopLines(es, m)[x] < m && es[TopLines(es, m)[x]].level == 0
    ensures forall x, y :: 0 <= x < y < |TopLines(es, m)| ==> TopLines(es, m)[x] < TopLines(es, m)[y]
    ensures forall j :: 0 <= j < m && es[j].level == 0 ==> j in TopLines(es, m)
  {
    if m > 0 {
      TopLinesMeaning(es, m - 1);
      var r0 := TopLines(es, m - 1);
      var r := TopLines(es, m);
      forall x | 0 <= x < |r|
        ensures r[x] < m && es[r[x]].level == 0
      {
        if x < |r0| {
          assert r[x] == r0[x];
        }
      }
    }
  }

  /** Node `i` is line `i`, with its content and its parent line as parent. */
  predicate NodesHold(es: seq<Entry>, m: nat, nodes: seq<Node>) {
    m <= |es| && |nodes| == m &&
    forall i :: 0 <= i < m ==>
      nodes[i].key == es[i].key && nodes[i].op == es[i].op && nodes[i].value == es[i].value &&
      nodes[i].parent == ParentLine(es, i)
  }

  /** Every node's children are its child lines, in order. */
  predicate ChildrenHold(es: seq<Entry>, m: nat, nodes: seq<Node>)
    requires m <= |es| && |nodes| == m
  {
    forall p :: 0 <= p < m ==> nodes[p].children == ChildLines(es, m, p)
  }

  /** The stack holds, for each level up to the last line's, the last line of
      that level. */
  predicate StackHolds(es: seq<Entry>, m: nat, stack: seq<NodeId>)
    requires m <= |es|
  {
    (m > 0 ==> |stack| == es[m - 1].level + 1) &&
    (m == 0 ==> stack == []) &&
    (forall k :: 0 <= k < |stack| ==> LastAt(es, m, k) == Some(stack[k]))
  }

  /** The state of `Parse` after the first `m` lines. */
  predicate Built(es: seq<Entry>, m: nat, b: Builder) {
    BuilderOk(b) && NodesHold(es, m, b.nodes) && ChildrenHold(es, m, b.nodes) &&
    b.roots == TopLines(es, m) && StackHolds(es, m, b.stack)
  }

  lemma {:induction false} ChildLinesBeyond(es: seq<Entry>, m: nat, p: nat)
    requires m <= |es| && m <= p + 1
    ensures ChildLines(es, m, p) == []
    decreases m
  {
    if m > 0 {
      ParentLineMeaning(es, m - 1);
      ChildLinesBeyond(es, m - 1, p);
    }
  }

  /** Adding line `m` as a node leaves the older nodes' content and parents. */
  lemma NodesStep(es: seq<Entry>, m: nat, nodes: seq<Node>, next: seq<Node>)
    requires NodesHold(es, m, nodes) && m < |es| && |next| == m + 1
    requires forall i :: 0 <= i < m ==> (next[i].key == nodes[i].key && next[i].op == nodes[i].op &&
      next[i].value == nodes[i].value && next[i].parent == nodes[i].parent)
    requires next[m].key == es[m].key && next[m].op == es[m].op && next[m].value == es[m].value
    requires next[m].parent == ParentLine(es, m)
    ensures NodesHold(es, m + 1, next)
  {
  }

  /** Adding line `m` appends it to its parent's children and to no one else's. */
  lemma ChildrenStep(es: seq<Entry>, m: nat, nodes: seq<Node>, next: seq<Node>)
    requires m < |es| && |nodes| == m && |next| == m + 1 && ChildrenHold(es, m, nodes)
    requires forall q :: 0 <= q < m ==>
      next[q].children == nodes[q].children + (if ParentLine(es, m) == Some(q) then [m] else [])
    requires next[m].children == []
    ensures ChildrenHold(es, m + 1, next)
  {
    ChildLinesBeyond(es, m, m);
    ParentLineMeaning(es, m);
  }

  /** Line `m` is top-level: a new root, alone on the stack. */
  lemma BuiltTop(es: seq<Entry>, m: nat, b: Builder)
    requires Built(es, m, b) && m < |es| && es[m].level == 0
    ensures AddEntry(b, es[m]).Ok? && Built(es, m + 1, AddEntry(b, es[m]).value)
  {
    var e := es[m];
    var b1 := AddEntry(b, e).value;
    assert b1 == Builder(b.nodes + [Fresh(e.key, e.op, e.value)], [m], b.roots + [m]);
    assert forall i :: 0 <= i < m ==> b1.nodes[i] == b.nodes[i];
    NodesStep(es, m, b.nodes, b1.nodes);
    ChildrenStep(es, m, b.nodes, b1.nodes);
    assert LastAt(es, m + 1, 0) == Some(m);
  }

  /** For an indented line the stack, popped to the line's level, ends with its
      parent line, and pushing the line keeps the stack right. */
  lemma StackStep(es: seq<Entry>, m: nat, stack: seq<NodeId>)
    requires m < |es| && StackHolds(es, m, stack) && Steps(es) && es[m].level > 0
    ensures m > 0 && es[m].level <= |stack|
    ensures ParentLine(es, m) == Some(stack[es[m].level - 1])
    ensures StackHolds(es, m + 1, stack[..es[m].level] + [m])
  {
    var n := es[m].level;
    var next := stack[..n] + [m];
    forall k | 0 <= k < |next|
      ensures LastAt(es, m + 1, k) == Some(next[k])
    {
      if k < n {
        assert next[k] == stack[k];
      }
    }
  }

  /** Attaching line `m` below its parent line `p`. */
  lemma AttachStep(es: seq<Entry>, m: nat, nodes: seq<Node>, p: NodeId)
    requires NodesHold(es, m, nodes) && m < |es| && ChildrenHold(es, m, nodes)
    requires p < m && ParentLine(es, m) == Some(p)
    ensures var next := Attach(nodes + [Fresh(es[m].key, es[m].op, es[m].value)], p, m);
      NodesHold(es, m + 1, next) && ChildrenHold(es, m + 1, next)
  {
    var e := es[m];
    var next := Attach(nodes + [Fresh(e.key, e.op, e.value)], p, m);
    assert forall i :: 0 <= i < m && i != p ==> next[i] == nodes[i];
    assert next[p] == nodes[p].(children := nodes[p].children + [m]);
    NodesStep(es, m, nodes, next);
    ChildrenStep(es, m, nodes, next);
  }

  lemma OpenBelow(b: Builder, n: nat, node: Node)
    requires BuilderOk(b) && Unlinked(node) && 0 < n <= |b.stack|
    ensures Open(b, n, node) ==
      Ok(Builder(Attach(b.nodes + [node], b.stack[n - 1], |b.nodes|), b.stack[..n] + [|b.nodes|], b.roots))
  {
    assert Min(n, |b.stack|) == n;
  }

  /** Line `m` is indented: it goes last below the open node one level up. */
  lemma BuiltChild(es: seq<Entry>, m: nat, b: Builder)
    requires Built(es, m, b) && Steps(es) && m < |es| && es[m].level > 0
    ensures AddEntry(b, es[m]).Ok? && Built(es, m + 1, AddEntry(b, es[m]).value)
  {
    var e := es[m];
    var n := e.level;
    StackStep(es, m, b.stack);
    var p := b.stack[n - 1];
    OpenBelow(b, n, Fresh(e.key, e.op, e.value));
    AttachStep(es, m, b.nodes, p);
  }

  lemma {:induction false} BuiltAll(es: seq<Entry>, m: nat, b: Builder)
    requires Built(es, m, b) && Steps(es)
    ensures ParseEntries(b, es[m..]).Ok? && Built(es, |es|, ParseEntries(b, es[m..]).value)
    decreases |es| - m
  {
    if m < |es| {
      if es[m].level == 0 {
        BuiltTop(es, m, b);
      } else {
        BuiltChild(es, m, b);
      }
      assert es[m..][1..] == es[m + 1..];
      BuiltAll(es, m + 1, AddEntry(b, es[m]).value);
    } else {
      assert es[m..] == [];
    }
  }

  /** The tree `Parse` returns when each line is at most one level deeper than
      the line before it: one node per line, in order, with the line's content;
      a top-level line hangs below the pseudo-root, any other line below the
      last line one level up; every node's children are the lines that name it
      as parent, in order, and the pseudo-root's children are the top-level
      lines in order. */
  lemma ParseOutline(es: seq<Entry>)
    requires Steps(es)
    ensures ParseEntries(Start, es).Ok?
    ensures var b := ParseEntries(Start, es).value;
      var root := |es|;
      Finish(b).Ok? && Finish(b).value.root == root &&
      var nodes := Finish(b).value.nodes;
      |nodes| == |es| + 1 &&
      nodes[root].children == TopLines(es, |es|) && nodes[root].parent.None? &&
      (forall i :: 0 <= i < |es| ==>
        nodes[i].key == es[i].key && nodes[i].op == es[i].op && nodes[i].value == es[i].value) &&
      (forall i :: 0 <= i < |es| ==>
        nodes[i].parent == if es[i].level == 0 then Some(root) else ParentLine(es, i)) &&
      (forall p :: 0 <= p < |es| ==> nodes[p].children == ChildLines(es, |es|, p))
  {
    assert es[0..] == es;
    BuiltAll(es, 0, Start);
    var b := ParseEntries(Start, es).value;
    FinishRoot(es, b);
    FinishNodes(es, b);
  }

  /** The pseudo-root adopts the top-level lines, in order. */
  lemma FinishRoot(es: seq<Entry>, b: Builder)
    requires Built(es, |es|, b)
    ensures Finish(b).Ok?
    ensures var nodes := Finish(b).value.nodes;
      nodes[|es|].children == TopLines(es, |es|) && nodes[|es|].parent.None? &&
      forall k :: 0 <= k < |b.roots| ==> nodes[b.roots[k]].parent == Some(|es|)
  {
    assert NodesHold(es, |es|, b.nodes) && b.roots == TopLines(es, |es|);
    RootsAdopted(es, b.nodes);
  }

  /** The top-level lines have no parent yet, so the pseudo-root adopts them all. */
  lemma RootsAdopted(es: seq<Entry>, nodes: seq<Node>)
    requires NodesHold(es, |es|, nodes)
    ensures forall k :: 0 <= k < |TopLines(es, |es|)| ==> TopLines(es, |es|)[k] < |es|
    ensures var roots := TopLines(es, |es|);
      var att := AttachAll(nodes + [Fresh(None, None, [])], |es|, roots);
      att.ok && att.nodes[|es|].children == roots && att.nodes[|es|].parent.None? &&
      forall k :: 0 <= k < |roots| ==> att.nodes[roots[k]].parent == Some(|es|)
  {
    var roots := TopLines(es, |es|);
    var all := nodes + [Fresh(None, None, [])];
    TopLinesMeaning(es, |es|);
    forall k | 0 <= k < |roots| ensures all[roots[k]].parent.None? {
      assert all[roots[k]] == nodes[roots[k]];
    }
    AdoptAll(all, |es|, roots);
  }

  /** The pseudo-root, fresh and last, adopts the top-level nodes in order. */
  lemma AdoptAll(nodes: seq<Node>, root: NodeId, roots: seq<NodeId>)
    requires root < |nodes| && nodes[root].parent.None? && nodes[root].children == []
    requires forall k :: 0 <= k < |roots| ==> roots[k] < root && nodes[roots[k]].parent.None?
    requires forall x, y :: 0 <= x < y < |roots| ==> roots[x] < roots[y]
    ensures AttachAll(nodes, root, roots).ok
    ensures var after := AttachAll(nodes, root, roots).nodes;
      after[root].children == roots && after[root].parent.None? &&
      forall k :: 0 <= k < |roots| ==> after[roots[k]].parent == Some(root)
  {
    AttachAllFrees(nodes, root, roots);
    AttachAllAppends(nodes, root, roots);
    AttachAllFrame(nodes, root, roots, root);
    assert [] + roots == roots;
  }

  /** Adoption by the pseudo-root changes no line's node but for the parent link
      of the top-level ones. */
  lemma FinishNodes(es: seq<Entry>, b: Builder)
    requires Built(es, |es|, b) && Finish(b).Ok?
    requires forall k :: 0 <= k < |b.roots| ==> Finish(b).value.nodes[b.roots[k]].parent == Some(|es|)
    ensures var nodes := Finish(b).value.nodes;
      (forall i :: 0 <= i < |es| ==>
        nodes[i].key == es[i].key && nodes[i].op == es[i].op && nodes[i].value == es[i].value) &&
      (forall i :: 0 <= i < |es| ==>
        nodes[i].parent == if es[i].level == 0 then Some(|es|) else ParentLine(es, i)) &&
      (forall p :: 0 <= p < |es| ==> nodes[p].children == ChildLines(es, |es|, p))
  {
    var root := |es|;
    var nodes := b.nodes + [Fresh(None, None, [])];
    var roots := b.roots;
    var after := Finish(b).value.nodes;
    assert after == AttachAll(nodes, root, roots).nodes;
    TopLinesMeaning(es, |es|);
    forall i | 0 <= i < |es|
      ensures after[i].key == es[i].key && after[i].op == es[i].op && after[i].value == es[i].value
      ensures after[i].parent == if es[i].level == 0 then Some(root) else ParentLine(es, i)
      ensures after[i].children == ChildLines(es, |es|, i)
    {
      AttachAllFrame(nodes, root, roots, i);
      if es[i].level == 0 {
        assert i in roots;
        var k :| 0 <= k < |roots| && roots[k] == i;
      }
    }
  }

  /** The lines of a program, as far as it lexes. */
  function ProgramEntries(rules: VampRules, program: string): seq<Entry>
    requires QuotationsOk(rules.quotations)
  {
    TokenizeGrouped(rules, Lines(program), IndentState([""], None), []);
    Entries(TokenizeSpec(rules, program).tokens)
  }

  /** The same for a program: when lexing succeeds and each line is at most one
      level deeper than the line before it, `Parse` succeeds with the tree
      `ParseOutline` describes. */
  lemma ParseProgramOutline(rules: VampRules, program: string)
    requires QuotationsOk(rules.quotations)
    requires TokenizeSpec(rules, program).error.None?
    requires Steps(ProgramEntries(rules, program))
    ensures ParseProgram(rules, program).Ok?
    ensures ParseProgram(rules, program).value.root == |ProgramEntries(rules, program)|
  {
    var ts := TokenizeSpec(rules, program).tokens;
    TokenizeGrouped(rules, Lines(program), IndentState([""], None), []);
    GroupsAreEntries(Start, ts);
    ParseOutline(Entries(ts));
  }
}
