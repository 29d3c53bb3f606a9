/** The translator's entry point (LessML.Xaml.LessXamlParser.Translate):

      parse with the XAML grammar plus the template quotation
      run the template macro over the whole tree (from the pseudo-root)
      pick the one keyed top-level node: the root
      run the XAML macro over the root
      add `xmlns = <presentation>` to the root unless it has an `xmlns =` child
      add `xmlns:x = <xaml>` likewise
      convert the top-level nodes to an XML document

    The macro engine's recursion is bounded by `fuel` (see `Macros.Run`). */
module Pipeline {
  import opened Results
  import opened Strings
  import opened Nodes
  import opened Rules
  import TreeBuilder
  import Macros
  import MacroProperties
  import Xml
  import XmlConvert

  const XamlNs: string := "http://schemas.microsoft.com/winfx/2006/xaml"
  const XamlPresentationNs: string := "http://schemas.microsoft.com/winfx/2006/xaml/presentation"

  const DefaultDeclaration: string := "xmlns"
  const XDeclaration: string := "xmlns:x"

  // ---------------------------------------------------------------------------
  // The root: `ast.Children.Single(n => n.Key != null)`

  predicate AllIn(nodes: seq<Node>, ids: seq<NodeId>) {
    forall k :: 0 <= k < |ids| ==> ids[k] < |nodes|
  }

  /** The keyed nodes among `ids`, in order. */
  function Keyed(nodes: seq<Node>, ids: seq<NodeId>): (r: seq<NodeId>)
    requires AllIn(nodes, ids)
    ensures forall k :: 0 <= k < |r| ==> r[k] in ids && nodes[r[k]].key.Some?
    ensures forall k :: 0 <= k < |ids| && nodes[ids[k]].key.Some? ==> ids[k] in r
  {
    if ids == [] then []
    else
      var rest := Keyed(nodes, ids[1..]);
      assert forall k :: 1 <= k < |ids| ==> ids[k] == ids[1..][k - 1];
      if nodes[ids[0]].key.Some? then [ids[0]] + rest else rest
  }

  /** `Single`: the only keyed node; none or several throw. */
  function SingleKeyed(nodes: seq<Node>, ids: seq<NodeId>): (r: Result<NodeId>)
    requires AllIn(nodes, ids)
    ensures r.Ok? <==> |Keyed(nodes, ids)| == 1
    ensures r.Err? ==> r.error == NotSingle
  {
    var ks := Keyed(nodes, ids);
    if |ks| == 1 then Ok(ks[0]) else Err(NotSingle)
  }

  /** The root `Single` picks is a keyed node among `ids`, and every keyed node
      among `ids` is that one. */
  lemma SingleKeyedIsOnly(nodes: seq<Node>, ids: seq<NodeId>)
    requires AllIn(nodes, ids) && SingleKeyed(nodes, ids).Ok?
    ensures SingleKeyed(nodes, ids).value in ids && nodes[SingleKeyed(nodes, ids).value].key.Some?
    ensures forall k :: 0 <= k < |ids| && nodes[ids[k]].key.Some? ==> ids[k] == SingleKeyed(nodes, ids).value
  {
    var ks := Keyed(nodes, ids);
    forall k | 0 <= k < |ids| && nodes[ids[k]].key.Some? ensures ids[k] == ks[0] {
      assert ids[k] in ks;
    }
  }

  /** With no keyed node among `ids`, `Single` throws. */
  lemma NoKeyedFails(nodes: seq<Node>, ids: seq<NodeId>)
    requires AllIn(nodes, ids)
    requires forall k :: 0 <= k < |ids| ==> nodes[ids[k]].key.None?
    ensures SingleKeyed(nodes, ids) == Err(NotSingle)
  {
  }

  /** With two distinct keyed nodes among `ids`, `Single` throws. */
  lemma TwoKeyedFail(nodes: seq<Node>, ids: seq<NodeId>, i: nat, j: nat)
    requires AllIn(nodes, ids) && i < |ids| && j < |ids| && ids[i] != ids[j]
    requires nodes[ids[i]].key.Some? && nodes[ids[j]].key.Some?
    ensures SingleKeyed(nodes, ids) == Err(NotSingle)
  {
    var ks := Keyed(nodes, ids);
    assert ids[i] in ks && ids[j] in ks;
  }

  // ---------------------------------------------------------------------------
  // The declaration checks: `root.Children.FirstOrDefault(c => c.Key.Snippet == key
  // && c.Operator.Snippet == "=")`

  /** A child the test picks: key `key` and operator `=`. */
  predicate Declares(n: Node, key: string) {
    n.key.Some? && n.key.value.snippet == key && n.op.Some? && n.op.value.snippet == "="
  }

  /** A child the test reads without a null dereference. */
  predicate Readable(n: Node, key: string) {
    n.key.Some? && (n.key.value.snippet == key ==> n.op.Some?)
  }

  /** The children before position `i` are all readable and none declares `key`. */
  predicate ClearBefore(nodes: seq<Node>, ids: seq<NodeId>, key: string, i: nat)
    requires AllIn(nodes, ids) && i <= |ids|
  {
    forall k :: 0 <= k < i ==> Readable(nodes[ids[k]], key) && !Declares(nodes[ids[k]], key)
  }

  /** The scan: `Ok(true)` at the first child that declares `key`, `Ok(false)`
      past the end; a child without a key, or one keyed `key` without an
      operator, reached first throws. */
  function FindDeclaration(nodes: seq<Node>, ids: seq<NodeId>, key: string): (r: Result<bool>)
    requires AllIn(nodes, ids)
    ensures r.Err? ==> r.error == NullReference
  {
    if ids == [] then Ok(false)
    else
      var n := nodes[ids[0]];
      if n.key.None? then Err(NullReference)
      else if n.key.value.snippet == key && n.op.None? then Err(NullReference)
      else if Declares(n, key) then Ok(true)
      else FindDeclaration(nodes, ids[1..], key)
  }

  lemma ClearShift(nodes: seq<Node>, ids: seq<NodeId>, key: string, i: nat)
    requires AllIn(nodes, ids) && i < |ids|
    ensures ClearBefore(nodes, ids, key, i + 1) <==>
      Readable(nodes[ids[0]], key) && !Declares(nodes[ids[0]], key) && ClearBefore(nodes, ids[1..], key, i)
  {
    var tail := ids[1..];
    assert forall k :: 0 <= k < i ==> tail[k] == ids[k + 1];
    if Readable(nodes[ids[0]], key) && !Declares(nodes[ids[0]], key) && ClearBefore(nodes, tail, key, i) {
      forall k | 0 <= k < i + 1 ensures Readable(nodes[ids[k]], key) && !Declares(nodes[ids[k]], key) {
        if k > 0 {
          assert ids[k] == tail[k - 1];
        }
      }
    }
  }

  /** The scan answers `Ok(false)` exactly when every child is readable and
      none declares `key`. */
  lemma {:induction false} FindDeclarationNone(nodes: seq<Node>, ids: seq<NodeId>, key: string)
    requires AllIn(nodes, ids)
    ensures FindDeclaration(nodes, ids, key) == Ok(false) <==> ClearBefore(nodes, ids, key, |ids|)
  {
    if ids != [] {
      FindDeclarationNone(nodes, ids[1..], key);
      ClearShift(nodes, ids, key, |ids| - 1);
    }
  }

  /** The scan answers `Ok(true)` exactly when some child declares `key` and
      every child before that one is readable. */
  lemma {:induction false} FindDeclarationFound(nodes: seq<Node>, ids: seq<NodeId>, key: string)
    requires AllIn(nodes, ids)
    ensures FindDeclaration(nodes, ids, key) == Ok(true) <==>
      exists i :: 0 <= i < |ids| && Declares(nodes[ids[i]], key) && ClearBefore(nodes, ids, key, i)
  {
    if ids != [] {
      var n, tail := nodes[ids[0]], ids[1..];
      FindDeclarationFound(nodes, tail, key);
      if Readable(n, key) && !Declares(n, key) {
        if FindDeclaration(nodes, tail, key) == Ok(true) {
          var i :| 0 <= i < |tail| && Declares(nodes[tail[i]], key) && ClearBefore(nodes, tail, key, i);
          ClearShift(nodes, ids, key, i);
          assert ids[i + 1] == tail[i];
        }
        if exists i :: 0 <= i < |ids| && Declares(nodes[ids[i]], key) && ClearBefore(nodes, ids, key, i) {
          var i :| 0 <= i < |ids| && Declares(nodes[ids[i]], key) && ClearBefore(nodes, ids, key, i);
          assert i > 0;
          ClearShift(nodes, ids, key, i - 1);
          assert tail[i - 1] == ids[i];
        }
      } else if Declares(n, key) {
        assert ClearBefore(nodes, ids, key, 0);
      } else {
        forall i | 0 <= i < |ids| && Declares(nodes[ids[i]], key) ensures !ClearBefore(nodes, ids, key, i) {
          assert i > 0;
        }
      }
    }
  }

  lemma FindDeclarationMeans(nodes: seq<Node>, ids: seq<NodeId>, key: string)
    requires AllIn(nodes, ids)
    ensures FindDeclaration(nodes, ids, key) == Ok(false) <==> ClearBefore(nodes, ids, key, |ids|)
    ensures FindDeclaration(nodes, ids, key) == Ok(true) <==>
      exists i :: 0 <= i < |ids| && Declares(nodes[ids[i]], key) && ClearBefore(nodes, ids, key, i)
  {
    FindDeclarationNone(nodes, ids, key);
    FindDeclarationFound(nodes, ids, key);
  }

  /** `MakeXmlnsDeclaration(key, ns)`: a fresh `key = ns` node. */
  function Declaration(key: string, ns: string): (n: Node)
    ensures Declares(n, key) && n.parent.None? && n.children == []
    ensures Nodes.JoinValue(n.value) == ns
  {
    Fresh(Some(Unquoted(key)), Some(Unquoted("=")), ValueOf(ns))
  }

  /** One check: the root as it is when it declares `key`, otherwise with a
      fresh `key = ns` child appended. */
  function EnsureDeclaration(nodes: seq<Node>, root: NodeId, key: string, ns: string): (r: Result<seq<Node>>)
    requires Wellformed(nodes) && root < |nodes|
    ensures r.Ok? ==> Wellformed(r.value) && |r.value| >= |nodes|
  {
    assert Linked(nodes[root], |nodes|);
    var found := FindDeclaration(nodes, nodes[root].children, key);
    if found.Err? then Err(found.error)
    else if found.value then Ok(nodes)
    else
      var grown := nodes + [Declaration(key, ns)];
      AppendWellformed(nodes, Declaration(key, ns));
      assert Linked(grown[root], |grown|);
      Ok(Attach(grown, root, |nodes|))
  }

  /** After the check the root declares `key`; the declaration is added only when
      there was none, as the last child and with the value `ns`, and no other
      node changes. */
  lemma EnsureDeclarationDeclares(nodes: seq<Node>, root: NodeId, key: string, ns: string)
    requires Wellformed(nodes) && root < |nodes|
    requires EnsureDeclaration(nodes, root, key, ns).Ok?
    ensures var r := EnsureDeclaration(nodes, root, key, ns).value;
      AllIn(r, r[root].children) && FindDeclaration(r, r[root].children, key) == Ok(true)
    ensures var r := EnsureDeclaration(nodes, root, key, ns).value;
      assert Linked(nodes[root], |nodes|);
      FindDeclaration(nodes, nodes[root].children, key) == Ok(true) ==> r == nodes
    ensures var r := EnsureDeclaration(nodes, root, key, ns).value;
      assert Linked(nodes[root], |nodes|);
      FindDeclaration(nodes, nodes[root].children, key) == Ok(false) ==>
        |r| == |nodes| + 1 && r[|nodes|] == Declaration(key, ns).(parent := Some(root)) &&
        r[root].children == nodes[root].children + [|nodes|] &&
        forall x :: 0 <= x < |nodes| && x != root ==> r[x] == nodes[x]
  {
    var r := EnsureDeclaration(nodes, root, key, ns).value;
    assert Linked(nodes[root], |nodes|);
    assert Linked(r[root], |r|);
    var ids := nodes[root].children;
    if FindDeclaration(nodes, ids, key) == Ok(false) {
      var grown := ids + [|nodes|];
      FindDeclarationMeans(nodes, ids, key);
      FindDeclarationMeans(r, grown, key);
      assert r[root].children == grown;
      assert Declares(r[grown[|ids|]], key);
      forall k | 0 <= k < |ids| ensures Readable(r[grown[k]], key) && !Declares(r[grown[k]], key) {
        assert grown[k] == ids[k];
        assert r[ids[k]].key == nodes[ids[k]].key && r[ids[k]].op == nodes[ids[k]].op;
      }
      assert ClearBefore(r, grown, key, |ids|);
    }
  }

  /** The second check leaves the first one's answer alone: a root that declares
      `xmlns` still does after `xmlns:x` is ensured. */
  lemma SecondCheckKeepsFirst(nodes: seq<Node>, root: NodeId, ns: string)
    requires Wellformed(nodes) && root < |nodes|
    requires AllIn(nodes, nodes[root].children)
    requires FindDeclaration(nodes, nodes[root].children, DefaultDeclaration) == Ok(true)
    requires EnsureDeclaration(nodes, root, XDeclaration, ns).Ok?
    ensures var r := EnsureDeclaration(nodes, root, XDeclaration, ns).value;
      AllIn(r, r[root].children) && FindDeclaration(r, r[root].children, DefaultDeclaration) == Ok(true)
  {
    var r := EnsureDeclaration(nodes, root, XDeclaration, ns).value;
    EnsureDeclarationDeclares(nodes, root, XDeclaration, ns);
    var ids := nodes[root].children;
    if r != nodes {
      assert |r| == |nodes| + 1;
      assert forall k :: 0 <= k < |ids| ==> ids[k] != root ==> r[ids[k]] == nodes[ids[k]];
      forall k | 0 <= k < |ids| ensures r[ids[k]].key == nodes[ids[k]].key && r[ids[k]].op == nodes[ids[k]].op {
        if ids[k] == root {
          assert r[root].key == nodes[root].key && r[root].op == nodes[root].op;
        }
      }
      ScanKeysOnly(nodes, r, ids, [|nodes|], DefaultDeclaration);
    }
  }

  /** The scan reads only the keys and operators of the nodes it visits, and
      stops at the first declaration: appending children does not change a
      found declaration. */
  lemma ScanKeysOnly(a: seq<Node>, b: seq<Node>, ids: seq<NodeId>, more: seq<NodeId>, key: string)
    requires AllIn(a, ids) && AllIn(b, ids) && AllIn(b, ids + more)
    requires forall k :: 0 <= k < |ids| ==> b[ids[k]].key == a[ids[k]].key && b[ids[k]].op == a[ids[k]].op
    requires FindDeclaration(a, ids, key) == Ok(true)
    ensures FindDeclaration(b, ids + more, key) == Ok(true)
  {
    FindDeclarationMeans(a, ids, key);
    FindDeclarationMeans(b, ids + more, key);
    var i :| 0 <= i < |ids| && Declares(a[ids[i]], key) && ClearBefore(a, ids, key, i);
    assert (ids + more)[i] == ids[i];
    assert Declares(b[(ids + more)[i]], key);
    forall k | 0 <= k < i ensures Readable(b[(ids + more)[k]], key) && !Declares(b[(ids + more)[k]], key) {
      assert (ids + more)[k] == ids[k];
    }
    assert ClearBefore(b, ids + more, key, i);
  }

  // ---------------------------------------------------------------------------
  // The whole translation, as functions

  /** The tree after the macro passes: the arena, its pseudo-root and the root. */
  datatype Expanded = Expanded(nodes: seq<Node>, pseudo: NodeId, root: NodeId)

  predicate ExpandedOk(e: Expanded) {
    Wellformed(e.nodes) && e.pseudo < |e.nodes| && e.root < |e.nodes|
  }

  /** Parsing and the two macro passes. */
  function Expand(program: string, fuel: nat): (r: Result<Expanded>)
    ensures r.Ok? ==> ExpandedOk(r.value)
  {
    BuiltInRulesOk();
    var parsed := TreeBuilder.ParseProgram(PipelineRules(), program);
    if parsed.Err? then Err(parsed.error)
    else
      var p := parsed.value;
      if !(Wellformed(p.nodes) && p.root < |p.nodes|) then Err(NullReference)
      else
        var templated := Macros.Run(Macros.Templates, Macros.World(p.nodes, map[]), p.root, fuel);
        if templated.Err? then Err(templated.error)
        else
          var nodes := templated.value.nodes;
          assert Linked(nodes[p.root], |nodes|);
          var root := SingleKeyed(nodes, nodes[p.root].children);
          if root.Err? then Err(root.error)
          else
            SingleKeyedIsOnly(nodes, nodes[p.root].children);
            var xaml := Macros.Run(Macros.XamlRules, Macros.World(nodes, map[]), root.value, fuel);
            if xaml.Err? then Err(xaml.error)
            else Ok(Expanded(xaml.value.nodes, p.root, root.value))
  }

  /** The two declaration checks on the root. */
  function Declare(e: Expanded): (r: Result<seq<Node>>)
    requires ExpandedOk(e)
    ensures r.Ok? ==> Wellformed(r.value) && |r.value| >= |e.nodes|
  {
    var first := EnsureDeclaration(e.nodes, e.root, DefaultDeclaration, XamlPresentationNs);
    if first.Err? then Err(first.error)
    else EnsureDeclaration(first.value, e.root, XDeclaration, XamlNs)
  }

  /** `Translate(program)`. */
  function Translation(program: string, fuel: nat): (r: Result<Xml.XDocument>)
  {
    var e := Expand(program, fuel);
    if e.Err? then Err(e.error)
    else
      var declared := Declare(e.value);
      if declared.Err? then Err(declared.error)
      else
        var nodes := declared.value;
        assert Linked(nodes[e.value.pseudo], |nodes|);
        var trees := SnapAll(nodes, nodes[e.value.pseudo].children, |nodes|);
        if trees.None? then Err(ExpansionBudget)
        else XmlConvert.ToXmlOf(trees.value)
  }

  /** Whenever the declaration checks pass, the root ends with both an `xmlns =`
      and an `xmlns:x =` child; a program that declared them keeps its own. */
  lemma RootDeclaresBoth(e: Expanded)
    requires ExpandedOk(e) && Declare(e).Ok?
    ensures var r := Declare(e).value;
      AllIn(r, r[e.root].children) &&
      FindDeclaration(r, r[e.root].children, DefaultDeclaration) == Ok(true) &&
      FindDeclaration(r, r[e.root].children, XDeclaration) == Ok(true)
    ensures assert Linked(e.nodes[e.root], |e.nodes|);
      FindDeclaration(e.nodes, e.nodes[e.root].children, DefaultDeclaration) == Ok(true) &&
      FindDeclaration(e.nodes, e.nodes[e.root].children, XDeclaration) == Ok(true) ==>
      Declare(e).value == e.nodes
  {
    var first := EnsureDeclaration(e.nodes, e.root, DefaultDeclaration, XamlPresentationNs).value;
    EnsureDeclarationDeclares(e.nodes, e.root, DefaultDeclaration, XamlPresentationNs);
    EnsureDeclarationDeclares(first, e.root, XDeclaration, XamlNs);
    SecondCheckKeepsFirst(first, e.root, XamlNs);
  }

  /** The fuel bound only ever cuts the macro passes short: an expansion that did
      not run out of fuel gives the same tree with any larger bound. */
  lemma ExpandFuelMonotone(program: string, fuel: nat, more: nat)
    requires fuel <= more && Expand(program, fuel) != Err(ExpansionBudget)
    ensures Expand(program, more) == Expand(program, fuel)
  {
    BuiltInRulesOk();
    var parsed := TreeBuilder.ParseProgram(PipelineRules(), program);
    if parsed.Ok? && Wellformed(parsed.value.nodes) && parsed.value.root < |parsed.value.nodes| {
      var p := parsed.value;
      var w := Macros.World(p.nodes, map[]);
      var templated := Macros.Run(Macros.Templates, w, p.root, fuel);
      if templated != Err(ExpansionBudget) {
        MacroProperties.RunFuelMonotone(Macros.Templates, w, p.root, fuel, more);
      }
      if templated.Ok? {
        var nodes := templated.value.nodes;
        var root := SingleKeyed(nodes, nodes[p.root].children);
        if root.Ok? {
          SingleKeyedIsOnly(nodes, nodes[p.root].children);
          var xw := Macros.World(nodes, map[]);
          if Macros.Run(Macros.XamlRules, xw, root.value, fuel) != Err(ExpansionBudget) {
            MacroProperties.RunFuelMonotone(Macros.XamlRules, xw, root.value, fuel, more);
          }
        }
      }
    }
  }

  /** So does the whole translation: a translation that did not run out of fuel
      gives the same document, or the same error, with any larger bound. */
  lemma TranslationFuelMonotone(program: string, fuel: nat, more: nat)
    requires fuel <= more && Translation(program, fuel) != Err(ExpansionBudget)
    ensures Translation(program, more) == Translation(program, fuel)
  {
    ExpandFuelMonotone(program, fuel, more);
  }

  // ---------------------------------------------------------------------------
  // The method

  /** `MakeXmlnsDeclaration(key, ns)`, created in the arena. */
  method MakeXmlnsDeclaration(f: Forest, key: string, ns: string) returns (id: NodeId)
    requires f.Valid()
    modifies f
    ensures f.Valid() && id == |old(f.nodes)| && f.nodes == old(f.nodes) + [Declaration(key, ns)]
  {
    id := f.NewNode(Some(Unquoted(key)), Some(Unquoted("=")), []);
    f.SetValue(id, ns);
  }

  /** One declaration check and the `AddChild` it may make. */
  method AddDeclarationIfMissing(f: Forest, root: NodeId, key: string, ns: string) returns (r: Result<()>)
    requires f.Valid() && root < |f.nodes|
    modifies f
    ensures var s := EnsureDeclaration(old(f.nodes), root, key, ns);
      (r.Ok? <==> s.Ok?) && (s.Ok? ==> f.nodes == s.value && f.Valid()) && (s.Err? ==> r.error == s.error)
  {
    assert Linked(f.nodes[root], |f.nodes|);
    var found := FindDeclaration(f.nodes, f.nodes[root].children, key);
    if found.Err? {
      return Err(found.error);
    }
    if !found.value {
      var d := MakeXmlnsDeclaration(f, key, ns);
      var added := f.AddChild(root, d);
      assert added.Ok?;
    }
    return Ok(());
  }

  /** `LessXamlParser.Translate(program)`. */
  method Translate(program: string, fuel: nat) returns (r: Result<Xml.XDocument>)
    ensures r == Translation(program, fuel)
  {
    BuiltInRulesOk();
    var parsed := TreeBuilder.Parse(program, PipelineRules());
    if parsed.Err? {
      return Err(parsed.error);
    }
    var f, pseudo := parsed.value.0, parsed.value.1;
    if pseudo >= |f.nodes| {
      return Err(NullReference);
    }
    var templates := new Macros.TemplateTransformer();
    var templated := Macros.RunMacro(f, templates, Macros.Templates, pseudo, fuel);
    if templated.Err? {
      return Err(templated.error);
    }
    assert Linked(f.nodes[pseudo], |f.nodes|);
    var root := SingleKeyed(f.nodes, f.nodes[pseudo].children);
    if root.Err? {
      return Err(root.error);
    }
    SingleKeyedIsOnly(f.nodes, f.nodes[pseudo].children);
    // The XAML macro ignores the template registry; the engine still takes one.
    var engine := new Macros.TemplateTransformer();
    var expanded := Macros.RunMacro(f, engine, Macros.XamlRules, root.value, fuel);
    if expanded.Err? {
      return Err(expanded.error);
    }
    ghost var e := Expanded(f.nodes, pseudo, root.value);
    assert Expand(program, fuel) == Ok(e);
    var first := AddDeclarationIfMissing(f, root.value, DefaultDeclaration, XamlPresentationNs);
    if first.Err? {
      return Err(first.error);
    }
    var second := AddDeclarationIfMissing(f, root.value, XDeclaration, XamlNs);
    if second.Err? {
      return Err(second.error);
    }
    assert Declare(e) == Ok(f.nodes);
    assert Linked(f.nodes[pseudo], |f.nodes|);
    var trees := SnapAll(f.nodes, f.nodes[pseudo].children, |f.nodes|);
    if trees.None? {
      return Err(ExpansionBudget);
    }
    r := XmlConvert.ToXml(trees.value);
  }
}
