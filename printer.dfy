/** The printer back to source form (LessML.StringConverter): every node of a
    forest becomes one line, in pre-order, indented by one copy of the
    indentation string per level of depth.

      key op v1v2...      a keyed node: key, a space, the operator, and a space
                          before the first value fragment only
      v1v2...             a bare value node: its fragments only

    Fragments are printed with their delimiters (`QuotedString.ToString`). The
    `StringBuilder` the source appends to is the class `Builder`. */
module Printer {
  import opened Results
  import opened Text
  import opened Strings
  import opened Nodes

  const DefaultIndentation: string := "    "

  /** What `StringBuilder.AppendLine` appends. */
  const NewLine: string := "\n"

  // ---------------------------------------------------------------------------
  // The printed text, as functions

  /** A possibly-null fragment appended to a `StringBuilder`: null appends nothing. */
  function ShowOrEmpty(q: Option<QuotedString>): (r: string)
    ensures q.None? ==> r == ""
  {
    match q
    case None => ""
    case Some(x) => Show(x)
  }

  /** The value fragments shown one after the other. */
  function Shown(vs: seq<QuotedString>): string
  {
    if vs == [] then "" else Shown(vs[..|vs| - 1]) + Show(vs[|vs| - 1])
  }

  /** The text of a node's line, without its line terminator. */
  function LineText(t: Tree): string {
    if t.key.None? then Shown(t.value)
    else Show(t.key.value) + " " + ShowOrEmpty(t.op) + (if t.value == [] then "" else " ") + Shown(t.value)
  }

  /** The text `Append(sb, nodes, indent, indentation)` appends: each node's
      indented line followed by its children one level deeper. */
  function Render(ts: seq<Tree>, indent: nat, indentation: string): string
    decreases ts
  {
    if ts == [] then ""
    else
      Repeat(indentation, indent) + LineText(ts[0]) + NewLine +
      Render(ts[0].children, indent + 1, indentation) + Render(ts[1..], indent, indentation)
  }

  // ---------------------------------------------------------------------------
  // A reference layout: the nodes in pre-order with their depths

  datatype Entry = Entry(depth: nat, node: Tree)

  /** The nodes of a forest in pre-order, each with its depth below `depth`. */
  function Outline(ts: seq<Tree>, depth: nat): (r: seq<Entry>)
    ensures |r| == SizeAll(ts)
    ensures forall k :: 0 <= k < |r| ==> r[k].depth >= depth
    ensures ts != [] ==> r[0] == Entry(depth, ts[0])
    decreases ts
  {
    if ts == [] then []
    else [Entry(depth, ts[0])] + Outline(ts[0].children, depth + 1) + Outline(ts[1..], depth)
  }

  /** The printed line of an entry: its indentation, then the node's text. */
  function IndentedLine(e: Entry, indentation: string): string {
    Repeat(indentation, e.depth) + LineText(e.node)
  }

  /** The entries' lines, each followed by a line terminator. */
  function Layout(es: seq<Entry>, indentation: string): string {
    if es == [] then "" else IndentedLine(es[0], indentation) + NewLine + Layout(es[1..], indentation)
  }

  /** The entries' lines, one string per entry. */
  function LinesOf(es: seq<Entry>, indentation: string): (r: seq<string>)
    ensures |r| == |es|
  {
    seq(|es|, k requires 0 <= k < |es| => IndentedLine(es[k], indentation))
  }

  lemma {:induction false} LayoutAppend(a: seq<Entry>, b: seq<Entry>, indentation: string)
    ensures Layout(a + b, indentation) == Layout(a, indentation) + Layout(b, indentation)
  {
    if a == [] {
      assert a + b == b;
    } else {
      assert (a + b)[1..] == a[1..] + b;
      LayoutAppend(a[1..], b, indentation);
    }
  }

  /** The printer writes exactly the pre-order layout of the forest. */
  lemma {:induction false} RenderIsLayout(ts: seq<Tree>, indent: nat, indentation: string)
    ensures Render(ts, indent, indentation) == Layout(Outline(ts, indent), indentation)
    decreases ts
  {
    if ts != [] {
      var head := [Entry(indent, ts[0])];
      var kids := Outline(ts[0].children, indent + 1);
      var rest := Outline(ts[1..], indent);
      RenderIsLayout(ts[0].children, indent + 1, indentation);
      RenderIsLayout(ts[1..], indent, indentation);
      LayoutAppend(head + kids, rest, indentation);
      LayoutAppend(head, kids, indentation);
      assert Layout(head, indentation) == IndentedLine(Entry(indent, ts[0]), indentation) + NewLine + Layout([], indentation);
    }
  }

  lemma {:induction false} RenderAppend(a: seq<Tree>, b: seq<Tree>, indent: nat, indentation: string)
    ensures Render(a + b, indent, indentation) == Render(a, indent, indentation) + Render(b, indent, indentation)
  {
    RenderIsLayout(a + b, indent, indentation);
    RenderIsLayout(a, indent, indentation);
    RenderIsLayout(b, indent, indentation);
    OutlineAppend(a, b, indent);
    LayoutAppend(Outline(a, indent), Outline(b, indent), indentation);
  }

  lemma {:induction false} OutlineAppend(a: seq<Tree>, b: seq<Tree>, depth: nat)
    ensures Outline(a + b, depth) == Outline(a, depth) + Outline(b, depth)
    decreases a
  {
    if a == [] {
      assert a + b == b;
    } else {
      assert (a + b)[0] == a[0];
      assert (a + b)[1..] == a[1..] + b;
      OutlineAppend(a[1..], b, depth);
    }
  }

  // ---------------------------------------------------------------------------
  // One line per node

  /** A node whose key, operator and fragments hold no line break. */
  predicate OneLine(t: Tree) {
    (t.key.Some? ==> NoLineBreak(Show(t.key.value))) &&
    (t.op.Some? ==> NoLineBreak(Show(t.op.value))) &&
    forall i :: 0 <= i < |t.value| ==> NoLineBreak(Show(t.value[i]))
  }

  /** A tree all of whose nodes are `OneLine`. */
  predicate Flat(t: Tree)
    decreases t
  {
    OneLine(t) && forall i :: 0 <= i < |t.children| ==> Flat(t.children[i])
  }

  lemma NoLineBreakJoin(a: string, b: string)
    requires NoLineBreak(a) && NoLineBreak(b)
    ensures NoLineBreak(a + b)
  {
    assert forall i :: |a| <= i < |a + b| ==> (a + b)[i] == b[i - |a|];
  }

  lemma {:induction false} ShownOneLine(vs: seq<QuotedString>)
    requires forall i :: 0 <= i < |vs| ==> NoLineBreak(Show(vs[i]))
    ensures NoLineBreak(Shown(vs))
  {
    if vs != [] {
      var init := vs[..|vs| - 1];
      forall i | 0 <= i < |init| ensures NoLineBreak(Show(init[i])) {
        assert init[i] == vs[i];
      }
      ShownOneLine(init);
      NoLineBreakJoin(Shown(init), Show(vs[|vs| - 1]));
    }
  }

  /** The line of a `OneLine` node, indented by a single-line indentation, is a
      single line. */
  lemma IndentedLineOneLine(e: Entry, indentation: string)
    requires OneLine(e.node) && NoLineBreak(indentation)
    ensures NoLineBreak(IndentedLine(e, indentation))
  {
    var t := e.node;
    ShownOneLine(t.value);
    RepeatOneLine(indentation, e.depth);
    if t.key.Some? {
      NoLineBreakJoin(Show(t.key.value), " ");
      NoLineBreakJoin(Show(t.key.value) + " ", ShowOrEmpty(t.op));
      var sep := if t.value == [] then "" else " ";
      NoLineBreakJoin(Show(t.key.value) + " " + ShowOrEmpty(t.op), sep);
      NoLineBreakJoin(Show(t.key.value) + " " + ShowOrEmpty(t.op) + sep, Shown(t.value));
    }
    NoLineBreakJoin(Repeat(indentation, e.depth), LineText(t));
  }

  lemma {:induction false} RepeatOneLine(s: string, n: nat)
    requires NoLineBreak(s)
    ensures NoLineBreak(Repeat(s, n))
  {
    if n > 0 {
      RepeatOneLine(s, n - 1);
      NoLineBreakJoin(s, Repeat(s, n - 1));
    }
  }

  /** Every node in the outline of a flat forest is `OneLine`. */
  lemma {:induction false} OutlineOneLine(ts: seq<Tree>, depth: nat)
    requires forall i :: 0 <= i < |ts| ==> Flat(ts[i])
    ensures forall k :: 0 <= k < |Outline(ts, depth)| ==> OneLine(Outline(ts, depth)[k].node)
    decreases ts
  {
    if ts != [] {
      var kids := Outline(ts[0].children, depth + 1);
      var rest := Outline(ts[1..], depth);
      OutlineOneLine(ts[0].children, depth + 1);
      forall i | 0 <= i < |ts[1..]| ensures Flat(ts[1..][i]) {
        assert ts[1..][i] == ts[i + 1];
      }
      OutlineOneLine(ts[1..], depth);
      var r := Outline(ts, depth);
      assert r == [Entry(depth, ts[0])] + kids + rest;
      forall k | 0 <= k < |r| ensures OneLine(r[k].node) {
        if k == 0 {
        } else if k < 1 + |kids| {
          assert r[k] == kids[k - 1];
        } else {
          assert r[k] == rest[k - 1 - |kids|];
        }
      }
    }
  }

  /** `Lines` of one line and a terminator followed by more text. */
  lemma LinesStep(x: string, rest: string)
    requires NoLineBreak(x)
    ensures Lines(x + NewLine + rest) == [x] + Lines(rest)
  {
    var s := x + NewLine + rest;
    assert s[|x|] == '\n';
    assert FindAny(s, {'\r', '\n'}) == Some(|x|);
    assert s[..|x|] == x;
    assert s[|x| + 1..] == rest;
  }

  lemma {:induction false} LayoutLines(es: seq<Entry>, indentation: string)
    requires NoLineBreak(indentation)
    requires forall k :: 0 <= k < |es| ==> OneLine(es[k].node)
    ensures Lines(Layout(es, indentation)) == LinesOf(es, indentation)
  {
    if es != [] {
      var line, rest := IndentedLine(es[0], indentation), Layout(es[1..], indentation);
      assert Layout(es, indentation) == line + NewLine + rest;
      IndentedLineOneLine(es[0], indentation);
      LinesStep(line, rest);
      forall k | 0 <= k < |es[1..]| ensures OneLine(es[1..][k].node) {
        assert es[1..][k] == es[k + 1];
      }
      LayoutLines(es[1..], indentation);
      LinesOfStep(es, indentation);
    }
  }

  lemma LinesOfStep(es: seq<Entry>, indentation: string)
    requires es != []
    ensures LinesOf(es, indentation) == [IndentedLine(es[0], indentation)] + LinesOf(es[1..], indentation)
  {
  }

  lemma {:induction false} LayoutCount(es: seq<Entry>, indentation: string)
    requires NoLineBreak(indentation)
    requires forall k :: 0 <= k < |es| ==> OneLine(es[k].node)
    ensures CountChar(Layout(es, indentation), '\n') == |es|
  {
    if es != [] {
      var line := IndentedLine(es[0], indentation);
      IndentedLineOneLine(es[0], indentation);
      CountCharAbsent(line, '\n');
      forall k | 0 <= k < |es[1..]| ensures OneLine(es[1..][k].node) {
        assert es[1..][k] == es[k + 1];
      }
      LayoutCount(es[1..], indentation);
      CountCharAppend(line, NewLine, '\n');
      CountCharAppend(line + NewLine, Layout(es[1..], indentation), '\n');
    }
  }

  /** Printing a forest of single-line nodes with a single-line indentation gives
      one line per node, in pre-order, each indented by its depth: read back
      line by line, it is exactly the outline's lines, one per node. */
  lemma OneLinePerNode(roots: seq<Tree>, indentation: string)
    requires NoLineBreak(indentation)
    requires forall i :: 0 <= i < |roots| ==> Flat(roots[i])
    ensures Lines(Render(roots, 0, indentation)) == LinesOf(Outline(roots, 0), indentation)
    ensures |Lines(Render(roots, 0, indentation))| == SizeAll(roots)
    ensures CountChar(Render(roots, 0, indentation), '\n') == SizeAll(roots)
  {
    RenderIsLayout(roots, 0, indentation);
    OutlineOneLine(roots, 0);
    LayoutLines(Outline(roots, 0), indentation);
    LayoutCount(Outline(roots, 0), indentation);
  }

  /** The line of a node: a keyed node starts with its key, a space and its
      operator, and only a non-empty value adds one more space; a bare value
      node is its fragments alone. */
  lemma LineShape(t: Tree)
    ensures t.key.None? ==> LineText(t) == Shown(t.value)
    ensures t.key.Some? && t.value == [] ==> LineText(t) == Show(t.key.value) + " " + ShowOrEmpty(t.op)
    ensures t.key.Some? && t.value != [] ==>
      LineText(t) == Show(t.key.value) + " " + ShowOrEmpty(t.op) + " " + Shown(t.value)
  {
  }

  /** The root element `A`, which the converter's grammar reads as the key `A`
      with the default operator `:`, prints as `A :` and a line terminator. */
  lemma RootElementPrints()
    ensures Render([Tree(Some(Unquoted("A")), Some(Unquoted(":")), [], [])], 0, DefaultIndentation) == "A :\n"
  {
    var t := Tree(Some(Unquoted("A")), Some(Unquoted(":")), [], []);
    assert LineText(t) == "A :";
  }

  /** A keyed element with no value and one bare child: the key, a space and
      the operator with no trailing space, then the child one indentation
      deeper. */
  lemma KeyedElementPrints()
    ensures Render([Tree(Some(Unquoted("A")), Some(Unquoted(":")), [], [Tree(None, None, [Unquoted("B")], [])])],
                   0, DefaultIndentation) == "A :\n    B\n"
  {
    var b := Tree(None, None, [Unquoted("B")], []);
    var a := Tree(Some(Unquoted("A")), Some(Unquoted(":")), [], [b]);
    assert Shown(b.value) == Shown([]) + "B";
    assert LineText(b) == "B";
    assert LineText(a) == "A :";
    assert Render([b], 1, DefaultIndentation) == "    " + "B" + "\n" + Render([], 2, DefaultIndentation) + Render([], 1, DefaultIndentation);
  }

  // ---------------------------------------------------------------------------
  // The imperative printer

  /** The `StringBuilder` the text is appended to. */
  class Builder {
    var text: string

    constructor()
      ensures text == ""
    {
      text := "";
    }

    method Append(s: string)
      modifies this
      ensures text == old(text) + s
    {
      text := text + s;
    }
  }

  lemma {:induction false} RepeatBack(s: string, n: nat)
    ensures Repeat(s, n + 1) == Repeat(s, n) + s
  {
    if n > 0 {
      RepeatBack(s, n - 1);
    }
  }

  /** The text of the first `i + 1` nodes extends that of the first `i`. */
  lemma RenderSnoc(p: string, ts: seq<Tree>, i: nat, indent: nat, indentation: string)
    requires i < |ts|
    ensures p + Render(ts[..i + 1], indent, indentation) ==
      p + Render(ts[..i], indent, indentation) + Repeat(indentation, indent) + LineText(ts[i]) + NewLine +
      Render(ts[i].children, indent + 1, indentation)
  {
    var a := Render(ts[..i], indent, indentation);
    var r, l := Repeat(indentation, indent), LineText(ts[i]);
    var c := Render(ts[i].children, indent + 1, indentation);
    assert Render([ts[i]], indent, indentation) == r + l + NewLine + c + Render([], indent, indentation);
    assert ts[..i + 1] == ts[..i] + [ts[i]];
    RenderAppend(ts[..i], [ts[i]], indent, indentation);
    Concat6(p, a, r, l, NewLine, c);
  }

  lemma Concat6(p: string, a: string, b: string, c: string, d: string, e: string)
    ensures p + (a + (b + c + d + e + "")) == p + a + b + c + d + e
  {
  }

  /** `AppendIndent`: `indent` copies of the indentation. */
  method AppendIndent(sb: Builder, indent: nat, indentation: string)
    modifies sb
    ensures sb.text == old(sb.text) + Repeat(indentation, indent)
  {
    for i := 0 to indent
      invariant sb.text == old(sb.text) + Repeat(indentation, i)
    {
      sb.Append(indentation);
      RepeatBack(indentation, i);
    }
  }

  lemma ShownSnoc(p: string, vs: seq<QuotedString>, i: nat)
    requires i < |vs|
    ensures p + Shown(vs[..i + 1]) == p + Shown(vs[..i]) + Show(vs[i])
  {
    assert vs[..i + 1][..i] == vs[..i];
  }

  /** `Append(sb, node)`: the node's line and its terminator. */
  method AppendNode(sb: Builder, node: Tree)
    modifies sb
    ensures sb.text == old(sb.text) + LineText(node) + NewLine
  {
    var prependSpace := false;
    var head := "";
    if node.key.Some? {
      sb.Append(Show(node.key.value));
      sb.Append(" ");
      sb.Append(ShowOrEmpty(node.op));
      head := Show(node.key.value) + " " + ShowOrEmpty(node.op);
      prependSpace := true;
    }
    var start := sb.text;
    for i := 0 to |node.value|
      invariant prependSpace <==> node.key.Some? && i == 0
      invariant start == old(sb.text) + head
      invariant node.key.None? ==> head == ""
      invariant sb.text == start + (if node.key.Some? && i > 0 then " " else "") + Shown(node.value[..i])
    {
      if prependSpace {
        sb.Append(" ");
        prependSpace := false;
      }
      sb.Append(Show(node.value[i]));
      ShownSnoc(start + (if node.key.Some? then " " else ""), node.value, i);
    }
    assert node.value[..|node.value|] == node.value;
    sb.Append(NewLine);
  }

  /** `Append(sb, nodes, indent, indentation)`: every node's indented line,
      each followed by its children one level deeper. */
  method AppendNodes(sb: Builder, nodes: seq<Tree>, indent: nat, indentation: string)
    modifies sb
    ensures sb.text == old(sb.text) + Render(nodes, indent, indentation)
    decreases nodes
  {
    for i := 0 to |nodes|
      invariant sb.text == old(sb.text) + Render(nodes[..i], indent, indentation)
    {
      AppendIndent(sb, indent, indentation);
      AppendNode(sb, nodes[i]);
      AppendNodes(sb, nodes[i].children, indent + 1, indentation);
      RenderSnoc(old(sb.text), nodes, i, indent, indentation);
    }
    assert nodes[..|nodes|] == nodes;
  }

  /** `StringConverter.ToString(roots, indentation)`. */
  method ToStringIndented(roots: seq<Tree>, indentation: string) returns (s: string)
    ensures s == Render(roots, 0, indentation)
  {
    var sb := new Builder();
    AppendNodes(sb, roots, 0, indentation);
    s := sb.text;
  }

  /** `StringConverter.ToString(roots)`: four spaces per level. */
  method ToString(roots: seq<Tree>) returns (s: string)
    ensures s == Render(roots, 0, DefaultIndentation)
  {
    s := ToStringIndented(roots, DefaultIndentation);
  }
}
