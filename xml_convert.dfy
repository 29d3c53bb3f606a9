/** `XmlConverter`: a node tree to XML (`ToXml`, `Transform`) and back
    (`FromXml`). Each conversion is specified by a function over value trees and
    frame stacks; the methods work like the source, through a mutable resolver
    and containers that they add to. */
module XmlConvert {
  import opened Results
  import opened Text
  import opened Strings
  import opened Nodes
  import opened Xml

  const AttributeOp: string := "="
  const ElementOp: string := ":"

  /** The quotation start that marks a bare fragment as an XML comment. */
  const CommentStart: string := "%C("

  // ---------------------------------------------------------------------------
  // Specification of ToXml

  /** What a conversion added to its parent: attributes and child nodes, in order. */
  datatype Content = Content(attributes: seq<XAttribute>, nodes: seq<XNode>)

  /** The resolver's frames after a conversion, and what it added. */
  datatype Converted = Converted(frames: seq<Frame>, out: Content)

  function Joined(a: Content, b: Content): (c: Content)
    ensures c.attributes == a.attributes + b.attributes && c.nodes == a.nodes + b.nodes
  {
    Content(a.attributes + b.attributes, a.nodes + b.nodes)
  }

  /** A later conversion's result, behind what was added before it. */
  function Prefixed(c: Content, r: Result<Converted>): (s: Result<Converted>)
    ensures s.Err? <==> r.Err?
    ensures r.Err? ==> s == r
    ensures r.Ok? ==> s == Ok(Converted(r.value.frames, Joined(c, r.value.out)))
  {
    if r.Err? then r else Ok(Converted(r.value.frames, Joined(c, r.value.out)))
  }

  /** Which children one pass over an element's children converts. */
  datatype Pass = All | Declarations | Others

  /** `isXmlnsDecl`: an `=` child keyed `xmlns` or `xmlns:...`; the key of an `=`
      child is read without a null check. */
  function IsXmlnsDecl(c: Tree): (r: Result<bool>)
    ensures r.Err? <==> c.op.Some? && c.op.value.snippet == AttributeOp && c.key.None?
    ensures r.Err? ==> r.error == NullReference
    ensures r == Ok(true) <==>
      c.op.Some? && c.op.value.snippet == AttributeOp && c.key.Some? &&
      (c.key.value.snippet == "xmlns" || StartsWith(c.key.value.snippet, "xmlns:"))
  {
    if c.op.None? || c.op.value.snippet != AttributeOp then Ok(false)
    else if c.key.None? then Err(NullReference)
    else Ok(c.key.value.snippet == "xmlns" || StartsWith(c.key.value.snippet, "xmlns:"))
  }

  function Selects(p: Pass, c: Tree): (r: Result<bool>)
    ensures p == All ==> r == Ok(true)
    ensures p != All ==> (r.Err? <==> IsXmlnsDecl(c).Err?)
    ensures p == Declarations && r.Ok? ==> r.value == IsXmlnsDecl(c).value
    ensures p == Others && r.Ok? ==> r.value == !IsXmlnsDecl(c).value
  {
    match p
    case All => Ok(true)
    case Declarations => IsXmlnsDecl(c)
    case Others =>
      var d :- IsXmlnsDecl(c);
      Ok(!d)
  }

  /** A bare value's fragments in order: a comment for the `%C(` quotation, text
      for any other; an unquoted fragment has no quotation to look at and throws. */
  function Fragments(value: seq<QuotedString>): (r: Result<seq<XNode>>)
    ensures r.Err? <==> exists i :: 0 <= i < |value| && value[i].quotation.None?
    ensures r.Err? ==> r.error == NullReference
    ensures r.Ok? ==> |r.value| == |value| && forall i :: 0 <= i < |value| ==>
      r.value[i] == (if value[i].quotation.value.start == CommentStart then XComment(value[i].snippet)
                     else XText(value[i].snippet))
  {
    if value == [] then Ok([])
    else if value[0].quotation.None? then Err(NullReference)
    else
      var rest :- Fragments(value[1..]);
      assert forall i :: 1 <= i < |value| ==> value[i] == value[1..][i - 1];
      var first := if value[0].quotation.value.start == CommentStart then XComment(value[0].snippet)
                   else XText(value[0].snippet);
      Ok([first] + rest)
  }

  /** `Transform(node, parent, resolver)`: what the node adds to its parent and how
      it leaves the resolver's frames. A keyed node with an operator other than
      `=` and `:` adds nothing. */
  function Convert(t: Tree, frames: seq<Frame>): (r: Result<Converted>)
    ensures r.Ok? ==> |r.value.frames| == |frames|
    decreases t, 1
  {
    if t.key.None? then ConvertValue(t, frames)
    else if t.op.None? then Err(NullReference)
    else if t.op.value.snippet == AttributeOp then ConvertAttribute(t, frames)
    else if t.op.value.snippet == ElementOp then ConvertElement(t, frames)
    else Ok(Converted(frames, Content([], [])))
  }

  /** A bare value: its fragments as text and comment nodes; it may not have
      children. */
  function ConvertValue(t: Tree, frames: seq<Frame>): (r: Result<Converted>)
    ensures r.Ok? ==> r.value.frames == frames && r.value.out.attributes == []
  {
    var nodes :- Fragments(t.value);
    if t.children != [] then Err(ChildrenUnderElementValue)
    else Ok(Converted(frames, Content([], nodes)))
  }

  /** `key = value`: a namespace declaration registered in the innermost frame, or
      an attribute whose name is resolved against the frames. */
  function ConvertAttribute(t: Tree, frames: seq<Frame>): (r: Result<Converted>)
    requires t.key.Some?
    ensures r.Ok? ==> |r.value.frames| == |frames| && |r.value.out.attributes| == 1 && r.value.out.nodes == []
  {
    var key := t.key.value.snippet;
    var value := JoinValue(t.value);
    var reg :- Register(frames, key, value);
    if reg.Declared? then
      Ok(Converted(reg.frames, Content([reg.declaration], [])))
    else
      var name :- NameOf(frames, key);
      Ok(Converted(frames, Content([XAttribute(name, value)], [])))
  }

  /** `key : value`: an element, converted inside a frame of its own, whose
      attributes and content come from two passes over the children (namespace
      declarations first), and whose name is resolved before the frame is
      dropped. A non-empty value becomes a leading text node. */
  function ConvertElement(t: Tree, frames: seq<Frame>): (r: Result<Converted>)
    requires t.key.Some?
    ensures r.Ok? ==> |r.value.frames| == |frames| && r.value.out.attributes == [] && |r.value.out.nodes| == 1
    decreases t, 0
  {
    var value := JoinValue(t.value);
    var content :- Passes(t.children, frames + [map[]]);
    var name :- NameOf(content.frames, t.key.value.snippet);
    var text := if value == "" then [] else [XText(value)];
    var element := XElement(name, content.out.attributes, text + content.out.nodes);
    Ok(Converted(content.frames[..|frames|], Content([], [element])))
  }

  /** An element's children: the namespace declarations among them, then the
      rest, each pass with the frames the one before left. */
  function Passes(ts: seq<Tree>, frames: seq<Frame>): (r: Result<Converted>)
    ensures r.Ok? ==> |r.value.frames| == |frames|
    decreases ts, 1
  {
    var decls :- ConvertSeq(ts, frames, Declarations);
    var others :- ConvertSeq(ts, decls.frames, Others);
    Ok(Converted(others.frames, Joined(decls.out, others.out)))
  }

  /** What a pass does with one child: converts it if the pass selects it. */
  function PassStep(pass: Pass, t: Tree, frames: seq<Frame>): (r: Result<Converted>)
    ensures r.Ok? ==> |r.value.frames| == |frames|
    decreases t, 2
  {
    var chosen :- Selects(pass, t);
    if chosen then Convert(t, frames) else Ok(Converted(frames, Content([], [])))
  }

  /** The children a pass selects, converted in order, each with the frames the
      one before left. */
  function ConvertSeq(ts: seq<Tree>, frames: seq<Frame>, pass: Pass): (r: Result<Converted>)
    ensures r.Ok? ==> |r.value.frames| == |frames|
    decreases ts, 0
  {
    if ts == [] then Ok(Converted(frames, Content([], [])))
    else
      var first :- PassStep(pass, ts[0], frames);
      Prefixed(first.out, ConvertSeq(ts[1..], first.frames, pass))
  }

  /** `ToXml` over the pseudo-root's children: each converted in turn with an
      empty resolver into a stub element, whose child nodes become the document
      (attributes added at the top level are dropped). */
  function ToXmlOf(roots: seq<Tree>): (r: Result<XDocument>)
    ensures r.Ok? <==> ConvertSeq(roots, [], All).Ok?
    ensures r.Ok? ==> r.value.nodes == ConvertSeq(roots, [], All).value.out.nodes
  {
    var c :- ConvertSeq(roots, [], All);
    Ok(XDocument(c.out.nodes))
  }

  // ---------------------------------------------------------------------------
  // Specification of FromXml

  /** A text node comes back as a bare value holding one unquoted fragment. */
  function FromText(s: string): (t: Tree)
    ensures t.key.None? && t.op.None? && t.value == [Unquoted(s)] && t.children == []
  {
    Tree(None, None, [Unquoted(s)], [])
  }

  /** An attribute comes back as `name = value`. */
  function FromAttribute(a: XAttribute, frames: seq<ReverseFrame>): (t: Tree)
    ensures t.key == Some(Unquoted(NameString(frames, a.name, true)))
    ensures t.op == Some(Unquoted(AttributeOp)) && t.value == [Unquoted(a.value)] && t.children == []
  {
    Tree(Some(Unquoted(NameString(frames, a.name, true))), Some(Unquoted(AttributeOp)), [Unquoted(a.value)], [])
  }

  function FromAttributes(attributes: seq<XAttribute>, frames: seq<ReverseFrame>): (ts: seq<Tree>)
    ensures |ts| == |attributes|
    ensures forall i :: 0 <= i < |ts| ==> ts[i] == FromAttribute(attributes[i], frames)
  {
    seq(|attributes|, i requires 0 <= i < |attributes| => FromAttribute(attributes[i], frames))
  }

  /** `FromXml` on one node: text and elements convert, anything else (a comment)
      is not supported. An element pushes a frame with the namespaces its
      attributes declare, and comes back as `name :` with an empty value, its
      attributes first and then its content. */
  function FromNode(n: XNode, frames: seq<ReverseFrame>): (r: Result<seq<Tree>>)
    ensures n.XComment? ==> r == Err(NotSupported)
    ensures n.XText? ==> r == Ok([FromText(n.text)])
    decreases n, 1
  {
    match n
    case XText(s) => Ok([FromText(s)])
    case XComment(_) => Err(NotSupported)
    case XElement(name, attributes, nodes) =>
      var frame :- Aliases(attributes);
      var inner := frames + [frame];
      var content :- FromNodes(nodes, inner);
      Ok([Tree(Some(Unquoted(NameString(inner, name, false))), Some(Unquoted(ElementOp)), [],
               FromAttributes(attributes, inner) + content)])
  }

  /** `SelectMany` over a node list: the results one after the other. */
  function FromNodes(ns: seq<XNode>, frames: seq<ReverseFrame>): (r: Result<seq<Tree>>)
    decreases ns, 0
  {
    if ns == [] then Ok([])
    else
      var first :- FromNode(ns[0], frames);
      var rest :- FromNodes(ns[1..], frames);
      Ok(first + rest)
  }

  /** `FromXml` on a document: its nodes, with an empty reverse resolver. */
  function FromDocument(d: XDocument): (r: Result<seq<Tree>>)
    ensures r == FromNodes(d.nodes, [])
  {
    FromNodes(d.nodes, [])
  }

  // ---------------------------------------------------------------------------
  // The methods

  /** One step of a pass, unfolded at position `k`. */
  lemma ConvertSeqAt(ts: seq<Tree>, k: nat, frames: seq<Frame>, pass: Pass)
    requires k < |ts|
    ensures ConvertSeq(ts[k..], frames, pass) ==
      (var s := PassStep(pass, ts[k], frames);
       if s.Err? then Err(s.error) else Prefixed(s.value.out, ConvertSeq(ts[k + 1..], s.value.frames, pass)))
  {
    assert ts[k..][0] == ts[k] && ts[k..][1..] == ts[k + 1..];
  }

  /** A pass over one child is that child's step. */
  lemma SinglePass(t: Tree, frames: seq<Frame>, pass: Pass)
    ensures ConvertSeq([t], frames, pass) == PassStep(pass, t, frames)
  {
    var s := PassStep(pass, t, frames);
    assert [t][0] == t && [t][1..] == [];
    if s.Ok? {
      assert Joined(s.value.out, Content([], [])) == s.value.out;
    }
  }

  /** A pass after `k` children: what is already added, then the rest. */
  lemma PassAdvances(ts: seq<Tree>, k: nat, pass: Pass, frames: seq<Frame>, acc: Content, whole: Result<Converted>, c: Converted)
    requires k < |ts| && whole == Prefixed(acc, ConvertSeq(ts[k..], frames, pass))
    requires ConvertSeq([ts[k]], frames, pass) == Ok(c)
    ensures whole == Prefixed(Joined(acc, c.out), ConvertSeq(ts[k + 1..], c.frames, pass))
  {
    SinglePass(ts[k], frames, pass);
    ConvertSeqAt(ts, k, frames, pass);
    PrefixedTwice(acc, c.out, ConvertSeq(ts[k + 1..], c.frames, pass));
  }

  lemma PassStops(ts: seq<Tree>, k: nat, pass: Pass, frames: seq<Frame>, acc: Content, whole: Result<Converted>)
    requires k < |ts| && whole == Prefixed(acc, ConvertSeq(ts[k..], frames, pass))
    requires ConvertSeq([ts[k]], frames, pass).Err?
    ensures whole == Err(ConvertSeq([ts[k]], frames, pass).error)
  {
    SinglePass(ts[k], frames, pass);
    ConvertSeqAt(ts, k, frames, pass);
  }

  lemma PassEnds(ts: seq<Tree>, pass: Pass, frames: seq<Frame>, acc: Content, whole: Result<Converted>)
    requires whole == Prefixed(acc, ConvertSeq(ts[|ts|..], frames, pass))
    ensures whole == Ok(Converted(frames, acc))
  {
    assert ts[|ts|..] == [];
    assert acc.attributes + [] == acc.attributes && acc.nodes + [] == acc.nodes;
  }

  lemma PrefixedNothing(r: Result<Converted>)
    ensures Prefixed(Content([], []), r) == r
  {
    if r.Ok? {
      assert Joined(Content([], []), r.value.out) == r.value.out;
    }
  }

  lemma PrefixedTwice(a: Content, b: Content, r: Result<Converted>)
    ensures Prefixed(a, Prefixed(b, r)) == Prefixed(Joined(a, b), r)
  {
    if r.Ok? {
      assert Joined(a, Joined(b, r.value.out)) == Joined(Joined(a, b), r.value.out);
    }
  }

  lemma FragmentsAppend(value: seq<QuotedString>, q: QuotedString)
    requires Fragments(value).Ok? && q.quotation.Some?
    ensures Fragments(value + [q]).Ok?
    ensures Fragments(value + [q]).value == Fragments(value).value +
      [if q.quotation.value.start == CommentStart then XComment(q.snippet) else XText(q.snippet)]
  {
    var v := value + [q];
    assert forall i :: 0 <= i < |value| ==> v[i] == value[i];
  }

  /** A method's outcome and the state it leaves, against its specification: the
      same error, or the resolver's new frames and exactly the specified
      attributes and nodes appended. */
  ghost predicate Reflects(r: Result<()>, spec: Result<Converted>, frames: seq<Frame>,
                           attributes0: seq<XAttribute>, attributes: seq<XAttribute>,
                           nodes0: seq<XNode>, nodes: seq<XNode>)
  {
    match spec
    case Err(e) => r == Err(e)
    case Ok(c) =>
      r.Ok? && frames == c.frames &&
      attributes == attributes0 + c.out.attributes && nodes == nodes0 + c.out.nodes
  }

  /** Adds to `parent` what `t` converts to, updating the resolver on the way. */
  method Transform(t: Tree, parent: Container, resolver: NamespaceResolver) returns (r: Result<()>)
    modifies parent, resolver
    ensures Reflects(r, Convert(t, old(resolver.stack)), resolver.stack,
                     old(parent.attributes), parent.attributes, old(parent.nodes), parent.nodes)
    decreases t, 2
  {
    if t.key.None? {
      r := TransformValue(t, parent);
      assert old(parent.attributes) + [] == old(parent.attributes);
    } else if t.op.None? {
      r := Err(NullReference);
    } else if t.op.value.snippet == AttributeOp {
      r := TransformAttribute(t, parent, resolver);
    } else if t.op.value.snippet == ElementOp {
      r := TransformElement(t, parent, resolver);
    } else {
      assert parent.attributes + [] == parent.attributes && parent.nodes + [] == parent.nodes;
      r := Ok(());
    }
  }

  /** A bare value: one text or comment node per fragment. */
  method TransformValue(t: Tree, parent: Container) returns (r: Result<()>)
    requires t.key.None?
    modifies parent
    ensures r.Err? <==> Fragments(t.value).Err? || t.children != []
    ensures r.Err? ==> r.error == if Fragments(t.value).Err? then NullReference else ChildrenUnderElementValue
    ensures r.Ok? ==>
      parent.attributes == old(parent.attributes) &&
      parent.nodes == old(parent.nodes) + Fragments(t.value).value
  {
    for i := 0 to |t.value|
      invariant Fragments(t.value[..i]).Ok? && parent.nodes == old(parent.nodes) + Fragments(t.value[..i]).value
      invariant parent.attributes == old(parent.attributes)
    {
      var v := t.value[i];
      if v.quotation.None? {
        assert Fragments(t.value).Err?;
        return Err(NullReference);
      }
      assert t.value[..i + 1] == t.value[..i] + [v];
      FragmentsAppend(t.value[..i], v);
      if v.quotation.value.start == CommentStart {
        parent.AddNode(XComment(v.snippet));
      } else {
        parent.AddNode(XText(v.snippet));
      }
    }
    assert t.value[..|t.value|] == t.value;
    if t.children != [] {
      return Err(ChildrenUnderElementValue);
    }
    return Ok(());
  }

  /** `key = value`: a namespace declaration, or an attribute whose name is
      resolved against the current frames. */
  method TransformAttribute(t: Tree, parent: Container, resolver: NamespaceResolver) returns (r: Result<()>)
    requires t.key.Some?
    modifies parent, resolver
    ensures Reflects(r, ConvertAttribute(t, old(resolver.stack)), resolver.stack,
                     old(parent.attributes), parent.attributes, old(parent.nodes), parent.nodes)
  {
    var key := t.key.value.snippet;
    var value := JoinValue(t.value);
    var registered := resolver.RegisterIfAlias(key, value, parent);
    if registered.Err? {
      return Err(registered.error);
    }
    if !registered.value {
      var name := resolver.ResolveName(key);
      if name.Err? {
        return Err(name.error);
      }
      parent.AddAttribute(XAttribute(name.value, value));
    }
    return Ok(());
  }

  /** `key :`: an element whose children are converted into a stub inside a
      frame of their own; its name is resolved before the frame is dropped. */
  method TransformElement(t: Tree, parent: Container, resolver: NamespaceResolver) returns (r: Result<()>)
    requires t.key.Some?
    modifies parent, resolver
    ensures Reflects(r, ConvertElement(t, old(resolver.stack)), resolver.stack,
                     old(parent.attributes), parent.attributes, old(parent.nodes), parent.nodes)
    decreases t, 1
  {
    ghost var frames := resolver.stack;
    var key := t.key.value.snippet;
    var value := JoinValue(t.value);
    resolver.PushLevel();
    var stub := new Container();
    if value != "" {
      stub.AddNode(XText(value));
    }
    ghost var text := stub.nodes;
    var passed := TransformChildren(t.children, stub, resolver);
    if passed.Err? {
      return passed;
    }
    var name := resolver.ResolveName(key);
    if name.Err? {
      return Err(name.error);
    }
    ghost var content := Passes(t.children, frames + [map[]]).value;
    assert stub.attributes == content.out.attributes;
    assert text == if value == "" then [] else [XText(value)];
    resolver.PopLevel();
    assert parent.attributes + [] == parent.attributes;
    parent.AddNode(XElement(name.value, stub.attributes, stub.nodes));
    return Ok(());
  }

  /** The two passes over an element's children, into its stub. */
  method TransformChildren(ts: seq<Tree>, stub: Container, resolver: NamespaceResolver) returns (r: Result<()>)
    modifies stub, resolver
    ensures Reflects(r, Passes(ts, old(resolver.stack)), resolver.stack,
                     old(stub.attributes), stub.attributes, old(stub.nodes), stub.nodes)
    decreases ts, 2
  {
    var first := TransformPass(ts, Declarations, stub, resolver);
    if first.Err? {
      return first;
    }
    r := TransformPass(ts, Others, stub, resolver);
  }

  /** Converts, in order, the children that `pass` selects into `container`. */
  method TransformPass(ts: seq<Tree>, pass: Pass, container: Container, resolver: NamespaceResolver) returns (r: Result<()>)
    modifies container, resolver
    ensures Reflects(r, ConvertSeq(ts, old(resolver.stack), pass), resolver.stack,
                     old(container.attributes), container.attributes, old(container.nodes), container.nodes)
    decreases ts, 0
  {
    ghost var whole := ConvertSeq(ts, resolver.stack, pass);
    ghost var a0 := container.attributes;
    ghost var n0 := container.nodes;
    ghost var acc := Content([], []);
    assert ts[0..] == ts;
    assert a0 + [] == a0 && n0 + [] == n0;
    PrefixedNothing(whole);
    for k := 0 to |ts|
      invariant container.attributes == a0 + acc.attributes && container.nodes == n0 + acc.nodes
      invariant whole == Prefixed(acc, ConvertSeq(ts[k..], resolver.stack, pass))
    {
      ghost var frames := resolver.stack;
      var done := TransformStep(ts[k], pass, container, resolver);
      if done.Err? {
        PassStops(ts, k, pass, frames, acc, whole);
        return done;
      }
      ghost var c := ConvertSeq([ts[k]], frames, pass).value;
      PassAdvances(ts, k, pass, frames, acc, whole, c);
      acc := Joined(acc, c.out);
    }
    PassEnds(ts, pass, resolver.stack, acc, whole);
    return Ok(());
  }

  /** One child of a pass: converted into `container` if the pass selects it. */
  method TransformStep(t: Tree, pass: Pass, container: Container, resolver: NamespaceResolver) returns (r: Result<()>)
    modifies container, resolver
    ensures Reflects(r, ConvertSeq([t], old(resolver.stack), pass), resolver.stack,
                     old(container.attributes), container.attributes, old(container.nodes), container.nodes)
    decreases t, 3
  {
    SinglePass(t, resolver.stack, pass);
    var chosen := Selects(pass, t);
    if chosen.Err? {
      return Err(chosen.error);
    }
    if !chosen.value {
      assert container.attributes + [] == container.attributes && container.nodes + [] == container.nodes;
      return Ok(());
    }
    r := Transform(t, container, resolver);
  }

  /** `XmlConverter.ToXml`. */
  method ToXml(roots: seq<Tree>) returns (r: Result<XDocument>)
    ensures r == ToXmlOf(roots)
  {
    var stub := new Container();
    var resolver := new NamespaceResolver();
    var done := TransformPass(roots, All, stub, resolver);
    if done.Err? {
      return Err(done.error);
    }
    assert stub.nodes == ConvertSeq(roots, [], All).value.out.nodes;
    return Ok(XDocument(stub.nodes));
  }

  /** The trees an element comes back as, from its pieces. */
  lemma FromElement(n: XNode, frames: seq<ReverseFrame>, frame: ReverseFrame)
    requires n.XElement? && Aliases(n.attributes) == Ok(frame)
    ensures FromNode(n, frames) ==
      (var inner := frames + [frame];
       var content := FromNodes(n.nodes, inner);
       if content.Err? then Err(content.error)
       else Ok([Tree(Some(Unquoted(NameString(inner, n.name, false))), Some(Unquoted(ElementOp)), [],
                     FromAttributes(n.attributes, inner) + content.value)]))
  {
  }

  /** `FromXml(node, resolver)`: the trees the node comes back as. */
  method FromXml(n: XNode, resolver: ReverseNamespaceResolver) returns (r: Result<seq<Tree>>)
    modifies resolver
    ensures r == FromNode(n, old(resolver.stack))
    ensures r.Ok? ==> resolver.stack == old(resolver.stack)
    decreases n, 1
  {
    match n
    case XText(s) =>
      return Ok([FromText(s)]);
    case XComment(_) =>
      return Err(NotSupported);
    case XElement(name, attributes, nodes) =>
      ghost var frames := resolver.stack;
      var pushed := resolver.PushLevelAndRegisterAliases(attributes);
      if pushed.Err? {
        return Err(pushed.error);
      }
      FromElement(n, frames, Aliases(attributes).value);
      var key := resolver.StringFromXName(name, false);
      var children := FromXmlAttributes(attributes, resolver);
      var content := FromXmlAll(nodes, resolver);
      if content.Err? {
        return Err(content.error);
      }
      resolver.PopLevel();
      return Ok([Tree(Some(Unquoted(key)), Some(Unquoted(ElementOp)), [], children + content.value)]);
  }

  /** An element's attributes, converted one by one. */
  method FromXmlAttributes(attributes: seq<XAttribute>, resolver: ReverseNamespaceResolver) returns (ts: seq<Tree>)
    ensures ts == FromAttributes(attributes, resolver.stack)
  {
    ts := [];
    for i := 0 to |attributes|
      invariant |ts| == i && forall j :: 0 <= j < i ==> ts[j] == FromAttribute(attributes[j], resolver.stack)
    {
      var k := resolver.StringFromXName(attributes[i].name, true);
      ts := ts + [Tree(Some(Unquoted(k)), Some(Unquoted(AttributeOp)), [Unquoted(attributes[i].value)], [])];
    }
  }

  /** The nodes of a list, converted one after the other. */
  method FromXmlAll(ns: seq<XNode>, resolver: ReverseNamespaceResolver) returns (r: Result<seq<Tree>>)
    modifies resolver
    ensures r == FromNodes(ns, old(resolver.stack))
    ensures r.Ok? ==> resolver.stack == old(resolver.stack)
    decreases ns, 0
  {
    var out: seq<Tree> := [];
    assert ns[0..] == ns;
    if FromNodes(ns, resolver.stack).Ok? {
      assert out + FromNodes(ns, resolver.stack).value == FromNodes(ns, resolver.stack).value;
    }
    for i := 0 to |ns|
      invariant resolver.stack == old(resolver.stack)
      invariant FromNodes(ns, resolver.stack) ==
        (var rest := FromNodes(ns[i..], resolver.stack); if rest.Err? then rest else Ok(out + rest.value))
    {
      assert ns[i..][0] == ns[i] && ns[i..][1..] == ns[i + 1..];
      var one := FromXml(ns[i], resolver);
      if one.Err? {
        return one;
      }
      if FromNodes(ns[i + 1..], resolver.stack).Ok? {
        assert out + (one.value + FromNodes(ns[i + 1..], resolver.stack).value) ==
               (out + one.value) + FromNodes(ns[i + 1..], resolver.stack).value;
      }
      out := out + one.value;
    }
    assert ns[|ns|..] == [];
    assert out + [] == out;
    return Ok(out);
  }

  /** `FromXml(document)`. */
  method FromXmlDocument(d: XDocument) returns (r: Result<seq<Tree>>)
    ensures r == FromDocument(d)
  {
    var resolver := new ReverseNamespaceResolver();
    r := FromXmlAll(d.nodes, resolver);
  }
}
