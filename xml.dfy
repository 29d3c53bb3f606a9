/** The XML side of `XmlConverter`: a small abstract XML tree, the namespace
    resolver `ToXml` uses (alias to namespace, innermost frame first), the
    reverse resolver `FromXml` uses (namespace to alias), and the mutable
    container an element is assembled in. */
module Xml {
  import opened Results
  import opened Text

  /** `XNamespace.Xmlns`: the namespace of prefixed namespace declarations. */
  const XmlnsNamespace: string := "http://www.w3.org/2000/xmlns/"

  /** An `XName`: the namespace (`""` is `XNamespace.None`) and the local name. */
  datatype XName = XName(namespace: string, local: string)

  datatype XAttribute = XAttribute(name: XName, value: string)

  /** The XML nodes the converter produces and reads. */
  datatype XNode =
    | XText(text: string)
    | XComment(text: string)
    | XElement(name: XName, attributes: seq<XAttribute>, nodes: seq<XNode>)

  /** An `XDocument`, as the list of its top-level nodes. */
  datatype XDocument = XDocument(nodes: seq<XNode>)

  /** The attribute `new XAttribute("xmlns", ns)` builds. */
  function DefaultDeclaration(ns: string): (a: XAttribute)
    ensures a.name.namespace == "" && a.name.local == "xmlns" && a.value == ns
  {
    XAttribute(XName("", "xmlns"), ns)
  }

  /** The attribute `new XAttribute(XNamespace.Xmlns + alias, ns)` builds. */
  function PrefixDeclaration(alias: string, ns: string): (a: XAttribute)
    ensures a.name.namespace == XmlnsNamespace && a.name.local == alias && a.value == ns
  {
    XAttribute(XName(XmlnsNamespace, alias), ns)
  }

  /** `XAttribute.IsNamespaceDeclaration`. */
  predicate IsNamespaceDeclaration(a: XAttribute) {
    if a.name.namespace == "" then a.name.local == "xmlns" else a.name.namespace == XmlnsNamespace
  }

  // ---------------------------------------------------------------------------
  // Forward resolution (NamespaceResolver)

  /** One frame of the resolver: alias to namespace. */
  type Frame = map<string, string>

  /** What `ResolveNamespace` answers: the innermost frame that maps `alias`
      decides; an unmapped empty alias is no namespace, any other unmapped alias
      throws. */
  function NamespaceOf(frames: seq<Frame>, alias: string): (r: Result<string>)
    ensures r.Err? ==> r.error == UnmappedAlias && alias != ""
    decreases |frames|
  {
    if frames == [] then (if alias == "" then Ok("") else Err(UnmappedAlias))
    else if alias in frames[|frames| - 1] then Ok(frames[|frames| - 1][alias])
    else NamespaceOf(frames[..|frames| - 1], alias)
  }

  /** The innermost frame holding the alias wins over every outer one. */
  lemma {:induction false} InnermostWins(frames: seq<Frame>, alias: string, j: nat)
    requires j < |frames| && alias in frames[j]
    requires forall k :: j < k < |frames| ==> alias !in frames[k]
    ensures NamespaceOf(frames, alias) == Ok(frames[j][alias])
    decreases |frames|
  {
    if j < |frames| - 1 {
      var inner := frames[..|frames| - 1];
      assert forall k :: j < k < |inner| ==> inner[k] == frames[k];
      InnermostWins(inner, alias, j);
    }
  }

  /** An alias no frame holds: no namespace for the empty alias, an error otherwise. */
  lemma {:induction false} UnmappedAliases(frames: seq<Frame>, alias: string)
    requires forall k :: 0 <= k < |frames| ==> alias !in frames[k]
    ensures alias == "" ==> NamespaceOf(frames, alias) == Ok("")
    ensures alias != "" ==> NamespaceOf(frames, alias) == Err(UnmappedAlias)
    decreases |frames|
  {
    if frames != [] {
      var inner := frames[..|frames| - 1];
      assert forall k :: 0 <= k < |inner| ==> inner[k] == frames[k];
      UnmappedAliases(inner, alias);
    }
  }

  /** The alias and the local part of a name, split at the first `:` (no alias
      when there is none). */
  function SplitName(name: string): (r: (string, string))
    ensures Find(name, ":", 0).None? ==> r == ("", name)
    ensures Find(name, ":", 0).Some? ==> name == r.0 + ":" + r.1 && !Contains(r.0, ":")
  {
    match Find(name, ":", 0)
    case None => ("", name)
    case Some(d) =>
      assert name == name[..d] + ":" + name[d + 1..];
      assert !Contains(name[..d], ":") by {
        forall i | 0 <= i <= d ensures !OccursAt(name[..d], ":", i) {
          if i < d {
            FindFirst(name, ":", 0, i);
            assert name[..d][i..i + 1] == name[i..i + 1];
          }
        }
      }
      (name[..d], name[d + 1..])
  }

  /** What `ResolveName` answers. */
  function NameOf(frames: seq<Frame>, name: string): (r: Result<XName>)
    ensures r.Ok? <==> NamespaceOf(frames, SplitName(name).0).Ok?
    ensures r.Ok? ==> r.value == XName(NamespaceOf(frames, SplitName(name).0).value, SplitName(name).1)
  {
    var parts := SplitName(name);
    var ns :- NamespaceOf(frames, parts.0);
    Ok(XName(ns, parts.1))
  }

  /** What `RegisterIfAlias` does: not a declaration, or the frames with the alias
      added to the innermost one and the declaration attribute to emit. */
  datatype Registration = NotAlias | Declared(frames: seq<Frame>, declaration: XAttribute)

  function Register(frames: seq<Frame>, attrName: string, value: string): (r: Result<Registration>)
    ensures (attrName != "xmlns" && !StartsWith(attrName, "xmlns:")) <==> r == Ok(NotAlias)
    ensures r.Ok? && r.value.Declared? ==>
      |frames| > 0 && |r.value.frames| == |frames| && r.value.frames[..|frames| - 1] == frames[..|frames| - 1] &&
      IsNamespaceDeclaration(r.value.declaration) && r.value.declaration.value == value
  {
    if attrName == "xmlns" then Declare(frames, "", DefaultDeclaration(value))
    else if StartsWith(attrName, "xmlns:") then
      Declare(frames, attrName[|"xmlns:"|..], PrefixDeclaration(attrName[|"xmlns:"|..], value))
    else Ok(NotAlias)
  }

  /** `stack.Last().Add(alias, value)`: an empty stack has no last frame, and an
      alias already in the innermost frame throws. */
  function Declare(frames: seq<Frame>, alias: string, declaration: XAttribute): (r: Result<Registration>)
    ensures frames == [] ==> r == Err(EmptyStack)
    ensures frames != [] && alias in frames[|frames| - 1] ==> r == Err(DuplicateKey)
    ensures frames != [] && alias !in frames[|frames| - 1] ==>
      r == Ok(Declared(frames[..|frames| - 1] + [frames[|frames| - 1][alias := declaration.value]], declaration))
  {
    if frames == [] then Err(EmptyStack)
    else if alias in frames[|frames| - 1] then Err(DuplicateKey)
    else Ok(Declared(frames[..|frames| - 1] + [frames[|frames| - 1][alias := declaration.value]], declaration))
  }

  // ---------------------------------------------------------------------------
  // Reverse resolution (ReverseNamespaceResolver)

  /** One frame of the reverse resolver: namespace to alias. */
  type ReverseFrame = map<string, string>

  /** `PushLevelAndRegisterAliases`'s new frame: every namespace declaration among
      the attributes maps its namespace to its alias (`""` for `xmlns`); a
      namespace declared twice on one element throws. */
  function Aliases(attributes: seq<XAttribute>): (r: Result<ReverseFrame>)
    decreases |attributes|
  {
    if attributes == [] then Ok(map[])
    else
      var m :- Aliases(attributes[..|attributes| - 1]);
      var a := attributes[|attributes| - 1];
      if a.name == XName("", "xmlns") then AddAlias(m, a.value, "")
      else if IsNamespaceDeclaration(a) then AddAlias(m, a.value, a.name.local)
      else Ok(m)
  }

  function AddAlias(m: ReverseFrame, ns: string, alias: string): (r: Result<ReverseFrame>)
    ensures ns in m ==> r == Err(DuplicateKey)
    ensures ns !in m ==> r == Ok(m[ns := alias])
  {
    if ns in m then Err(DuplicateKey) else Ok(m[ns := alias])
  }

  /** Attributes that declare nothing leave the reverse frame empty. */
  lemma {:induction false} AliasesOfPlain(attributes: seq<XAttribute>)
    requires forall i :: 0 <= i < |attributes| ==> !IsNamespaceDeclaration(attributes[i])
    ensures Aliases(attributes) == Ok(map[])
    decreases |attributes|
  {
    if attributes != [] {
      AliasesOfPlain(attributes[..|attributes| - 1]);
    }
  }

  /** The alias `StringFromXName` finds: the innermost frame that maps `ns`, or
      none (null) when no frame does. */
  function AliasOf(frames: seq<ReverseFrame>, ns: string): (r: string)
    decreases |frames|
  {
    if frames == [] then ""
    else if ns in frames[|frames| - 1] then frames[|frames| - 1][ns]
    else AliasOf(frames[..|frames| - 1], ns)
  }

  /** `StringFromXName`: declarations keep their `xmlns` spelling; any other name
      is its local part behind the alias of its namespace, if that alias is not empty. */
  function NameString(frames: seq<ReverseFrame>, name: XName, isAttribute: bool): (r: string)
    ensures isAttribute && name.namespace == XmlnsNamespace ==> r == "xmlns:" + name.local
    ensures isAttribute && name == XName("", "xmlns") ==> r == "xmlns"
    ensures !(isAttribute && IsNamespaceDeclaration(XAttribute(name, ""))) ==>
      r == (if AliasOf(frames, name.namespace) == "" then name.local
            else AliasOf(frames, name.namespace) + ":" + name.local)
  {
    if isAttribute && name.namespace == XmlnsNamespace then "xmlns:" + name.local
    else if isAttribute && name.namespace == "" && name.local == "xmlns" then "xmlns"
    else
      var alias := AliasOf(frames, name.namespace);
      (if alias == "" then "" else alias + ":") + name.local
  }

  // ---------------------------------------------------------------------------
  // The mutable pieces

  /** An element under construction (the converter's stub elements and the
      parents it adds to): its attributes and its child nodes, in order. */
  class Container {
    var attributes: seq<XAttribute>
    var nodes: seq<XNode>

    constructor ()
      ensures attributes == [] && nodes == []
    {
      attributes := [];
      nodes := [];
    }

    method AddAttribute(a: XAttribute)
      modifies this
      ensures attributes == old(attributes) + [a] && nodes == old(nodes)
    {
      attributes := attributes + [a];
    }

    method AddNode(n: XNode)
      modifies this
      ensures nodes == old(nodes) + [n] && attributes == old(attributes)
    {
      nodes := nodes + [n];
    }
  }

  /** `XmlConverter.NamespaceResolver`: a stack of alias frames, innermost last. */
  class NamespaceResolver {
    var stack: seq<Frame>

    constructor ()
      ensures stack == []
    {
      stack := [];
    }

    method PushLevel()
      modifies this
      ensures stack == old(stack) + [map[]]
    {
      stack := stack + [map[]];
    }

    method PopLevel()
      requires stack != []
      modifies this
      ensures stack == old(stack)[..|old(stack)| - 1]
    {
      stack := stack[..|stack| - 1];
    }

    /** Registers an `xmlns` or `xmlns:p` attribute in the innermost frame and adds
        its declaration to `container`; any other name is left to the caller. */
    method RegisterIfAlias(attrName: string, value: string, container: Container) returns (r: Result<bool>)
      modifies this, container
      ensures Register(old(stack), attrName, value).Err? ==>
        r == Err(Register(old(stack), attrName, value).error) &&
        stack == old(stack) && container.attributes == old(container.attributes)
      ensures Register(old(stack), attrName, value) == Ok(NotAlias) ==>
        r == Ok(false) && stack == old(stack) && container.attributes == old(container.attributes)
      ensures Register(old(stack), attrName, value).Ok? && Register(old(stack), attrName, value).value.Declared? ==>
        r == Ok(true) && stack == Register(old(stack), attrName, value).value.frames &&
        container.attributes == old(container.attributes) + [Register(old(stack), attrName, value).value.declaration]
      ensures container.nodes == old(container.nodes)
    {
      var reg := Register(stack, attrName, value);
      if reg.Err? {
        return Err(reg.error);
      }
      if reg.value.NotAlias? {
        return Ok(false);
      }
      stack := reg.value.frames;
      container.AddAttribute(reg.value.declaration);
      return Ok(true);
    }

    /** Looks the alias up from the innermost frame outward. */
    method ResolveNamespace(alias: string) returns (r: Result<string>)
      ensures r == NamespaceOf(stack, alias)
    {
      var i := |stack|;
      assert stack[..i] == stack;
      while i > 0
        invariant 0 <= i <= |stack|
        invariant NamespaceOf(stack, alias) == NamespaceOf(stack[..i], alias)
      {
        assert stack[..i][..i - 1] == stack[..i - 1];
        if alias in stack[i - 1] {
          return Ok(stack[i - 1][alias]);
        }
        i := i - 1;
      }
      if alias == "" {
        return Ok("");
      }
      return Err(UnmappedAlias);
    }

    method ResolveName(name: string) returns (r: Result<XName>)
      ensures r == NameOf(stack, name)
    {
      var parts := SplitName(name);
      var ns := ResolveNamespace(parts.0);
      if ns.Err? {
        return Err(ns.error);
      }
      return Ok(XName(ns.value, parts.1));
    }
  }

  /** `XmlConverter.ReverseNamespaceResolver`: a stack of namespace-to-alias frames. */
  class ReverseNamespaceResolver {
    var stack: seq<ReverseFrame>

    constructor ()
      ensures stack == []
    {
      stack := [];
    }

    /** Pushes a frame holding the namespaces the element's attributes declare. */
    method PushLevelAndRegisterAliases(attributes: seq<XAttribute>) returns (r: Result<()>)
      modifies this
      ensures Aliases(attributes).Err? ==> r == Err(Aliases(attributes).error)
      ensures Aliases(attributes).Ok? ==> r == Ok(()) && stack == old(stack) + [Aliases(attributes).value]
    {
      var last: ReverseFrame := map[];
      for i := 0 to |attributes|
        invariant Aliases(attributes[..i]) == Ok(last)
      {
        assert attributes[..i + 1][..i] == attributes[..i];
        var a := attributes[i];
        if a.name == XName("", "xmlns") || IsNamespaceDeclaration(a) {
          var alias := if a.name == XName("", "xmlns") then "" else a.name.local;
          if a.value in last {
            AliasesFail(attributes, i + 1);
            return Err(DuplicateKey);
          }
          last := last[a.value := alias];
        }
      }
      assert attributes[..|attributes|] == attributes;
      stack := stack + [last];
      return Ok(());
    }

    method PopLevel()
      requires stack != []
      modifies this
      ensures stack == old(stack)[..|old(stack)| - 1]
    {
      stack := stack[..|stack| - 1];
    }

    method StringFromXName(name: XName, isAttribute: bool) returns (r: string)
      ensures r == NameString(stack, name, isAttribute)
    {
      if isAttribute && name.namespace == XmlnsNamespace {
        return "xmlns:" + name.local;
      }
      if isAttribute && name.namespace == "" && name.local == "xmlns" {
        return "xmlns";
      }
      var alias := "";
      var i := |stack|;
      assert stack[..i] == stack;
      while i > 0
        invariant 0 <= i <= |stack|
        invariant AliasOf(stack, name.namespace) == AliasOf(stack[..i], name.namespace)
      {
        assert stack[..i][..i - 1] == stack[..i - 1];
        if name.namespace in stack[i - 1] {
          alias := stack[i - 1][name.namespace];
          break;
        }
        i := i - 1;
      }
      return (if alias == "" then "" else alias + ":") + name.local;
    }
  }

  /** A failure on a prefix of the attributes is the failure of them all. */
  lemma {:induction false} AliasesFail(attributes: seq<XAttribute>, n: nat)
    requires n <= |attributes| && Aliases(attributes[..n]).Err?
    ensures Aliases(attributes) == Err(Aliases(attributes[..n]).error)
    decreases |attributes| - n
  {
    if n < |attributes| {
      assert attributes[..n + 1][..n] == attributes[..n];
      AliasesFail(attributes, n + 1);
    } else {
      assert attributes[..n] == attributes;
    }
  }
}
