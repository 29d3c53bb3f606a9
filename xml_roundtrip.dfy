/** `FromXml` undoes `ToXml`: on trees in the form `FromXml` itself produces
    (declarations, then attributes, then content under each element), where no
    element declares one namespace under two aliases and no element inside it
    declares that namespace under another alias, converting to XML and back
    gives equivalent trees, root by root. An alias may be declared again, for
    another namespace, by an inner element. */
module XmlRoundTrip {
  import opened Results
  import opened Text
  import opened Strings
  import opened Nodes
  import opened Xml
  import opened XmlConvert
  import opened XmlProperties

  // ---------------------------------------------------------------------------
  // Namespaces: forward and reverse frames that say the same thing

  /** A namespace an alias can stand for and come back from: not "no
      namespace", and not the `xmlns` namespace itself. */
  predicate Proper(ns: string) {
    ns != "" && ns != XmlnsNamespace
  }

  /** No two aliases of the frame stand for one namespace. */
  predicate Injective(m: Frame) {
    forall a, b :: a in m && b in m && m[a] == m[b] ==> a == b
  }

  /** A resolver frame and the reverse frame of the same declarations: each is
      the other turned round. */
  predicate Mirror(m: Frame, rev: ReverseFrame) {
    (forall a :: a in m ==> Proper(m[a]) && m[a] in rev && rev[m[a]] == a) &&
    (forall u :: u in rev ==> rev[u] in m && m[rev[u]] == u)
  }

  /** A frame pushed inside `F` never declares a namespace of `F` under another alias. */
  predicate Fits(F: seq<Frame>, m: Frame) {
    forall j, a, b :: 0 <= j < |F| && a in F[j] && b in m && F[j][a] == m[b] ==> a == b
  }

  /** Every frame fits the frames outside it. */
  predicate Nested(F: seq<Frame>) {
    forall j, k, a, b :: 0 <= j < k < |F| && a in F[j] && b in F[k] && F[j][a] == F[k][b] ==> a == b
  }

  /** The two resolvers' stacks, level by level. */
  predicate Tracks(F: seq<Frame>, R: seq<ReverseFrame>) {
    |F| == |R| && Nested(F) && forall i :: 0 <= i < |F| ==> Mirror(F[i], R[i])
  }

  lemma TracksPush(F: seq<Frame>, R: seq<ReverseFrame>, m: Frame, rev: ReverseFrame)
    requires Tracks(F, R) && Mirror(m, rev) && Fits(F, m)
    ensures Tracks(F + [m], R + [rev])
  {
    var F', R' := F + [m], R + [rev];
    assert forall i :: 0 <= i < |F| ==> F'[i] == F[i] && R'[i] == R[i];
    forall j, k, a, b | 0 <= j < k < |F'| && a in F'[j] && b in F'[k] && F'[j][a] == F'[k][b]
      ensures a == b
    {
      if k == |F| {
        assert F'[j] == F[j] && F'[k] == m;
      } else {
        assert F'[j] == F[j] && F'[k] == F[k];
      }
    }
  }

  lemma TracksOuter(F: seq<Frame>, R: seq<ReverseFrame>, j: nat)
    requires Tracks(F, R) && j <= |F|
    ensures Tracks(F[..j], R[..j])
  {
    assert forall i :: 0 <= i < j ==> F[..j][i] == F[i] && R[..j][i] == R[i];
  }

  /** Where a resolved alias came from: the frame that maps it (`i >= 0`), or
      none, for the empty alias that resolves to no namespace. */
  lemma {:induction false} ResolvedAt(F: seq<Frame>, alias: string) returns (i: int)
    requires NamespaceOf(F, alias).Ok?
    ensures i < |F|
    ensures i < 0 ==> alias == "" && NamespaceOf(F, alias).value == ""
    ensures i >= 0 ==> alias in F[i] && NamespaceOf(F, alias).value == F[i][alias]
    decreases |F|
  {
    if F == [] {
      i := -1;
    } else if alias in F[|F| - 1] {
      i := |F| - 1;
    } else {
      var outer := F[..|F| - 1];
      i := ResolvedAt(outer, alias);
      if i >= 0 {
        assert outer[i] == F[i];
      }
    }
  }

  /** A namespace an outer frame gives an alias that an inner frame does not
      hold is not among the inner frame's namespaces. */
  lemma NotRedeclared(F: seq<Frame>, R: seq<ReverseFrame>, i: nat, j: nat, alias: string)
    requires Tracks(F, R) && i < j < |F| && alias in F[i] && alias !in F[j]
    ensures F[i][alias] !in R[j]
  {
    assert Mirror(F[j], R[j]);
  }

  /** Looking an alias up and its namespace back up gives the alias again; the
      namespace is no namespace only for the unmapped empty alias, and never the
      `xmlns` namespace. */
  lemma {:induction false} AliasBack(F: seq<Frame>, R: seq<ReverseFrame>, alias: string)
    requires Tracks(F, R) && NamespaceOf(F, alias).Ok?
    ensures NamespaceOf(F, alias).value == "" ==> alias == ""
    ensures NamespaceOf(F, alias).value != XmlnsNamespace
    ensures AliasOf(R, NamespaceOf(F, alias).value) == alias
    decreases |F|
  {
    if F != [] {
      var j := |F| - 1;
      if alias in F[j] {
        AliasHere(F, R, alias);
      } else {
        TracksOuter(F, R, j);
        AliasBack(F[..j], R[..j], alias);
        AliasPastInner(F, R, alias);
      }
    }
  }

  /** An alias of the innermost frame comes back from its mirror. */
  lemma AliasHere(F: seq<Frame>, R: seq<ReverseFrame>, alias: string)
    requires Tracks(F, R) && F != [] && alias in F[|F| - 1]
    ensures NamespaceOf(F, alias) == Ok(F[|F| - 1][alias]) && Proper(F[|F| - 1][alias])
    ensures AliasOf(R, F[|F| - 1][alias]) == alias
  {
    assert Mirror(F[|F| - 1], R[|R| - 1]);
  }

  /** An alias the innermost frame does not hold resolves as in the outer frames,
      and its namespace is not one the innermost reverse frame holds. */
  lemma AliasPastInner(F: seq<Frame>, R: seq<ReverseFrame>, alias: string)
    requires Tracks(F, R) && F != [] && alias !in F[|F| - 1]
    requires NamespaceOf(F[..|F| - 1], alias).Ok?
    ensures NamespaceOf(F, alias) == NamespaceOf(F[..|F| - 1], alias)
    ensures AliasOf(R, NamespaceOf(F, alias).value) == AliasOf(R[..|R| - 1], NamespaceOf(F, alias).value)
  {
    var j := |F| - 1;
    var outer := F[..j];
    var k := ResolvedAt(outer, alias);
    if k >= 0 {
      assert outer[k] == F[k];
      NotRedeclared(F, R, k, j, alias);
    } else {
      assert Mirror(F[j], R[j]);
    }
  }

  /** A name resolved and written back is the name, unless it starts with `:`
      (the empty alias is dropped) or is an attribute called `xmlns`. */
  lemma NameBack(F: seq<Frame>, R: seq<ReverseFrame>, name: string, isAttribute: bool)
    requires Tracks(F, R) && NameOf(F, name).Ok?
    requires !StartsWith(name, ":")
    requires isAttribute ==> name != "xmlns"
    ensures NameString(R, NameOf(F, name).value, isAttribute) == name
    ensures isAttribute ==> !IsNamespaceDeclaration(XAttribute(NameOf(F, name).value, ""))
  {
    var parts := SplitName(name);
    AliasBack(F, R, parts.0);
    if Find(name, ":", 0).Some? {
      assert name[..|parts.0| + 1] == parts.0 + ":";
    }
  }

  // ---------------------------------------------------------------------------
  // The trees that come back

  /** `xmlns` or `xmlns:p`: the keys the declarations pass picks out. */
  predicate IsDeclarationKey(key: string) {
    key == "xmlns" || StartsWith(key, "xmlns:")
  }

  /** The alias a declaration key declares (empty for `xmlns`). */
  function DeclaredAlias(key: string): (alias: string)
    requires IsDeclarationKey(key)
    ensures key == "xmlns" ==> alias == ""
    ensures key != "xmlns" ==> key == "xmlns:" + alias
  {
    if key == "xmlns" then "" else key[|"xmlns:"|..]
  }

  /** `key = value` with one fragment and no children, and no comment anywhere. */
  predicate IsAttributeShape(t: Tree) {
    t.key.Some? && !IsComment(t.key.value) && t.op.Some? && !IsComment(t.op.value) &&
    t.op.value.snippet == AttributeOp && |t.value| == 1 && !IsComment(t.value[0]) && t.children == []
  }

  /** A namespace declaration of a proper namespace. */
  predicate IsDeclaration(t: Tree) {
    IsAttributeShape(t) && IsDeclarationKey(t.key.value.snippet) && Proper(t.value[0].snippet)
  }

  /** Any other attribute; a name starting with `:` would lose its empty alias. */
  predicate IsAttribute(t: Tree) {
    IsAttributeShape(t) && !IsDeclarationKey(t.key.value.snippet) && !StartsWith(t.key.value.snippet, ":")
  }

  /** A bare value of one quoted fragment that does not become an XML comment. */
  predicate IsText(t: Tree) {
    t.key.None? && t.op.None? && |t.value| == 1 && t.value[0].quotation.Some? &&
    t.value[0].quotation.value.start != CommentStart && !IsComment(t.value[0]) && t.children == []
  }

  /** `key :` with an empty value (a value would come back as a text child). */
  predicate IsElementShape(t: Tree) {
    t.key.Some? && !IsComment(t.key.value) && t.op.Some? && !IsComment(t.op.value) &&
    t.op.value.snippet == ElementOp && t.value == [] && !StartsWith(t.key.value.snippet, ":")
  }

  /** Where the run of declarations that starts at `from` ends. */
  function DeclarationsEnd(cs: seq<Tree>, from: nat): (n: nat)
    requires from <= |cs|
    ensures from <= n <= |cs| && forall i :: from <= i < n ==> IsDeclaration(cs[i])
    decreases |cs| - from
  {
    if from < |cs| && IsDeclaration(cs[from]) then DeclarationsEnd(cs, from + 1) else from
  }

  /** Where the run of attributes that starts at `from` ends. */
  function AttributesEnd(cs: seq<Tree>, from: nat): (n: nat)
    requires from <= |cs|
    ensures from <= n <= |cs| && forall i :: from <= i < n ==> IsAttribute(cs[i])
    decreases |cs| - from
  {
    if from < |cs| && IsAttribute(cs[from]) then AttributesEnd(cs, from + 1) else from
  }

  /** The frame a run of declarations builds: each alias with its namespace. */
  function DeclaredFrame(ds: seq<Tree>): Frame
    decreases |ds|
  {
    if ds == [] then map[]
    else
      var m := DeclaredFrame(ds[..|ds| - 1]);
      var d := ds[|ds| - 1];
      if IsDeclaration(d) then m[DeclaredAlias(d.key.value.snippet) := JoinValue(d.value)] else m
  }

  /** A text node, or an element whose children are its declarations, then its
      attributes, then content of the same form, inside the frames `F` of the
      elements around it. */
  predicate Reversible(t: Tree, F: seq<Frame>)
    decreases t, 1
  {
    IsText(t) || (IsElementShape(t) && ChildrenReversible(t.children, F))
  }

  /** The element's own declarations give distinct namespaces, none of which an
      element around it declares under another alias. */
  predicate ChildrenReversible(cs: seq<Tree>, F: seq<Frame>)
    decreases cs, 0
  {
    var d := DeclarationsEnd(cs, 0);
    var m := DeclaredFrame(cs[..d]);
    Injective(m) && Fits(F, m) &&
    forall i :: AttributesEnd(cs, d) <= i < |cs| ==> Reversible(cs[i], F + [m])
  }

  // ---------------------------------------------------------------------------
  // The pieces of an element

  /** The declaration attribute `Transform` emits for a declaration child. */
  function DeclarationOf(t: Tree): XAttribute
    requires t.key.Some? && IsDeclarationKey(t.key.value.snippet)
  {
    var key := t.key.value.snippet;
    if key == "xmlns" then DefaultDeclaration(JoinValue(t.value))
    else PrefixDeclaration(DeclaredAlias(key), JoinValue(t.value))
  }

  /** The declarations come back as they were written. */
  lemma DeclarationBack(t: Tree, R: seq<ReverseFrame>)
    requires IsAttributeShape(t) && IsDeclarationKey(t.key.value.snippet)
    ensures TreeEquivalent(FromAttribute(DeclarationOf(t), R), t)
  {
    assert JoinValue(t.value) == t.value[0].snippet + JoinValue([]);
  }

  /** `t` is a plain attribute whose name resolves against `F`, and `p` the
      attribute it is converted to. */
  predicate Emits(t: Tree, F: seq<Frame>, p: XAttribute) {
    IsAttribute(t) && NameOf(F, t.key.value.snippet).Ok? &&
    p == XAttribute(NameOf(F, t.key.value.snippet).value, JoinValue(t.value))
  }

  /** So does any other attribute. */
  lemma AttributeBack(t: Tree, F: seq<Frame>, R: seq<ReverseFrame>)
    requires Tracks(F, R) && IsAttribute(t)
    requires NameOf(F, t.key.value.snippet).Ok?
    ensures TreeEquivalent(FromAttribute(XAttribute(NameOf(F, t.key.value.snippet).value, JoinValue(t.value)), R), t)
    ensures !IsNamespaceDeclaration(XAttribute(NameOf(F, t.key.value.snippet).value, JoinValue(t.value)))
  {
    NameBack(F, R, t.key.value.snippet, true);
    assert JoinValue(t.value) == t.value[0].snippet + JoinValue([]);
  }

  /** Declarations first: the two passes see the children in their written order. */
  lemma DeclarationsLead(cs: seq<Tree>, d: nat)
    requires d <= |cs|
    requires forall i :: 0 <= i < d ==> IsXmlnsDecl(cs[i]) == Ok(true)
    requires forall i :: d <= i < |cs| ==> IsXmlnsDecl(cs[i]) == Ok(false)
    ensures DeclarationChildren(cs) == cs[..d] && OtherChildren(cs) == cs[d..]
  {
    DeclarationsPicked(cs, d);
    OthersPicked(cs, d);
  }

  lemma {:induction false} DeclarationsPicked(cs: seq<Tree>, d: nat)
    requires d <= |cs|
    requires forall i :: 0 <= i < d ==> IsXmlnsDecl(cs[i]) == Ok(true)
    requires forall i :: d <= i < |cs| ==> IsXmlnsDecl(cs[i]) == Ok(false)
    ensures DeclarationChildren(cs) == cs[..d]
    decreases cs
  {
    if cs != [] {
      var tail := cs[1..];
      assert forall i :: 0 <= i < |tail| ==> tail[i] == cs[i + 1];
      if d > 0 {
        assert IsXmlnsDecl(cs[0]) == Ok(true);
        DeclarationsPicked(tail, d - 1);
        assert cs[..d] == [cs[0]] + tail[..d - 1];
      } else {
        assert IsXmlnsDecl(cs[0]) == Ok(false);
        DeclarationsPicked(tail, 0);
        assert DeclarationChildren(cs) == [] + DeclarationChildren(tail);
      }
    }
  }

  lemma {:induction false} OthersPicked(cs: seq<Tree>, d: nat)
    requires d <= |cs|
    requires forall i :: 0 <= i < d ==> IsXmlnsDecl(cs[i]) == Ok(true)
    requires forall i :: d <= i < |cs| ==> IsXmlnsDecl(cs[i]) == Ok(false)
    ensures OtherChildren(cs) == cs[d..]
    decreases cs
  {
    if cs != [] {
      var tail := cs[1..];
      assert forall i :: 0 <= i < |tail| ==> tail[i] == cs[i + 1];
      if d > 0 {
        assert IsXmlnsDecl(cs[0]) == Ok(true);
        OthersPicked(tail, d - 1);
        assert OtherChildren(cs) == [] + OtherChildren(tail);
        assert cs[d..] == tail[d - 1..];
      } else {
        assert IsXmlnsDecl(cs[0]) == Ok(false);
        OthersPicked(tail, 0);
        assert cs == [cs[0]] + tail;
      }
    }
  }

  /** Attributes that declare nothing do not change the reverse frame. */
  lemma {:induction false} AliasesIgnore(a: seq<XAttribute>, p: seq<XAttribute>)
    requires forall i :: 0 <= i < |p| ==> !IsNamespaceDeclaration(p[i])
    ensures Aliases(a + p) == Aliases(a)
    decreases |p|
  {
    if p == [] {
      assert a + p == a;
    } else {
      var n := |p| - 1;
      assert (a + p)[..|a + p| - 1] == a + p[..n] && (a + p)[|a + p| - 1] == p[n];
      AliasesIgnore(a, p[..n]);
    }
  }

  /** One declaration in a frame that does not hold its alias yet: the alias is
      added with the declared namespace, and the declaration is emitted. */
  lemma DeclareStep(d: Tree, F: seq<Frame>, m: Frame)
    requires IsDeclaration(d) && Convert(d, F + [m]).Ok?
    ensures DeclaredAlias(d.key.value.snippet) !in m
    ensures JoinValue(d.value) == d.value[0].snippet
    ensures Convert(d, F + [m]) ==
      Ok(Converted(F + [m[DeclaredAlias(d.key.value.snippet) := JoinValue(d.value)]],
                   Content([DeclarationOf(d)], [])))
  {
    var key, value := d.key.value.snippet, JoinValue(d.value);
    assert d.value[1..] == [];
    assert value == d.value[0].snippet + JoinValue([]);
    var f := F + [m];
    assert f[..|f| - 1] == F && f[|f| - 1] == m;
    assert Convert(d, f) == ConvertAttribute(d, f);
    if key == "xmlns" {
      assert Register(f, key, value) == Declare(f, "", DefaultDeclaration(value));
    } else {
      assert Register(f, key, value) == Declare(f, DeclaredAlias(key), PrefixDeclaration(DeclaredAlias(key), value));
    }
  }

  /** A new alias whose namespace no alias of the frame has yet, added on both
      sides, keeps the frames mirrored. */
  lemma MirrorAdd(m: Frame, rev: ReverseFrame, alias: string, ns: string)
    requires Mirror(m, rev) && alias !in m && Proper(ns)
    requires forall b :: b in m ==> m[b] != ns
    ensures ns !in rev
    ensures Mirror(m[alias := ns], rev[ns := alias])
  {
  }

  /** A frame without two aliases for one namespace had none before its last alias. */
  lemma InjectiveShrink(m: Frame, alias: string, ns: string)
    requires alias !in m && Injective(m[alias := ns])
    ensures Injective(m) && forall b :: b in m ==> m[b] != ns
  {
    var m' := m[alias := ns];
    forall b | b in m ensures m[b] != ns {
      assert m'[b] == m[b] && m'[alias] == ns;
    }
    forall a, b | a in m && b in m && m[a] == m[b] ensures a == b {
      assert m'[a] == m[a] && m'[b] == m[b];
    }
  }

  /** The reverse frame after one more declaration attribute. */
  lemma AliasesStep(attrs: seq<XAttribute>, d: Tree, rev: ReverseFrame)
    requires IsAttributeShape(d) && IsDeclarationKey(d.key.value.snippet) && Aliases(attrs) == Ok(rev)
    ensures Aliases(attrs + [DeclarationOf(d)]) ==
      AddAlias(rev, JoinValue(d.value), DeclaredAlias(d.key.value.snippet))
  {
    var all := attrs + [DeclarationOf(d)];
    assert all[..|all| - 1] == attrs && all[|all| - 1] == DeclarationOf(d);
  }

  lemma LastSplit(ds: seq<Tree>, n: nat)
    requires n + 1 == |ds|
    ensures ds == ds[..n] + [ds[n]]
    ensures forall i :: 0 <= i < n ==> ds[..n][i] == ds[i]
  {
  }

  /** One more declaration at the end of the declarations pass. */
  lemma DeclarationsStep(init: seq<Tree>, d: Tree, F: seq<Frame>, m1: Frame, attrs1: seq<XAttribute>)
    returns (m: Frame, attrs: seq<XAttribute>)
    requires IsDeclaration(d)
    requires ConvertSeq(init, F + [map[]], All) == Ok(Converted(F + [m1], Content(attrs1, [])))
    requires ConvertSeq(init + [d], F + [map[]], All).Ok?
    ensures ConvertSeq(init + [d], F + [map[]], All) == Ok(Converted(F + [m], Content(attrs, [])))
    ensures attrs == attrs1 + [DeclarationOf(d)]
    ensures DeclaredAlias(d.key.value.snippet) !in m1 && Proper(JoinValue(d.value))
    ensures m == m1[DeclaredAlias(d.key.value.snippet) := JoinValue(d.value)]
  {
    var alias := DeclaredAlias(d.key.value.snippet);
    attrs := attrs1 + [DeclarationOf(d)];
    assert Content(attrs1 + [DeclarationOf(d)], [] + []) == Content(attrs, []);
    ConvertSeqAppend(init, [d], F + [map[]], All);
    SinglePass(d, F + [m1], All);
    DeclareStep(d, F, m1);
    m := m1[alias := JoinValue(d.value)];
  }

  /** The reverse frame of the declarations so far, one more of them added. */
  lemma MirrorStep(attrs1: seq<XAttribute>, d: Tree, m1: Frame)
    requires IsDeclaration(d) && DeclaredAlias(d.key.value.snippet) !in m1 && Proper(JoinValue(d.value))
    requires Injective(m1[DeclaredAlias(d.key.value.snippet) := JoinValue(d.value)])
    requires Injective(m1) ==> Aliases(attrs1).Ok? && Mirror(m1, Aliases(attrs1).value)
    ensures Aliases(attrs1 + [DeclarationOf(d)]).Ok?
    ensures Mirror(m1[DeclaredAlias(d.key.value.snippet) := JoinValue(d.value)], Aliases(attrs1 + [DeclarationOf(d)]).value)
  {
    var alias, ns := DeclaredAlias(d.key.value.snippet), JoinValue(d.value);
    InjectiveShrink(m1, alias, ns);
    var rev1 := Aliases(attrs1).value;
    MirrorAdd(m1, rev1, alias, ns);
    AliasesStep(attrs1, d, rev1);
  }

  lemma DeclarationsExtend(ds: seq<Tree>, n: nat, attrs1: seq<XAttribute>)
    requires n + 1 == |ds| && |attrs1| == n && IsDeclaration(ds[n])
    requires forall i :: 0 <= i < n ==> IsDeclaration(ds[..n][i]) && attrs1[i] == DeclarationOf(ds[..n][i])
    ensures forall i :: 0 <= i < |ds| ==>
      IsDeclaration(ds[i]) && (attrs1 + [DeclarationOf(ds[n])])[i] == DeclarationOf(ds[i])
  {
    forall i | 0 <= i < |ds|
      ensures IsDeclaration(ds[i]) && (attrs1 + [DeclarationOf(ds[n])])[i] == DeclarationOf(ds[i])
    {
      if i < n {
        assert ds[..n][i] == ds[i];
      }
    }
  }

  /** The declarations pass over declarations: each one registers its alias in
      the element's frame and emits its declaration attribute, so the frame is
      the declared one; when no two of them give one namespace, the reverse
      frame those attributes give mirrors it. */
  lemma {:induction false} DeclarationsConvert(ds: seq<Tree>, F: seq<Frame>)
    returns (m: Frame, attrs: seq<XAttribute>)
    requires forall i :: 0 <= i < |ds| ==> IsDeclaration(ds[i])
    requires ConvertSeq(ds, F + [map[]], All).Ok?
    ensures ConvertSeq(ds, F + [map[]], All) == Ok(Converted(F + [m], Content(attrs, [])))
    ensures m == DeclaredFrame(ds)
    ensures |attrs| == |ds|
    ensures forall i :: 0 <= i < |ds| ==> IsDeclaration(ds[i]) && attrs[i] == DeclarationOf(ds[i])
    ensures Injective(m) ==> Aliases(attrs).Ok? && Mirror(m, Aliases(attrs).value)
    decreases |ds|
  {
    if ds == [] {
      m, attrs := map[], [];
    } else {
      var n := |ds| - 1;
      var init, d := ds[..n], ds[n];
      LastSplit(ds, n);
      forall i | 0 <= i < n ensures IsDeclaration(init[i]) {
        var x := ds[i];
      }
      assert IsDeclaration(d);
      assert ConvertSeq(init + [d], F + [map[]], All).Ok?;
      ConvertSeqAppend(init, [d], F + [map[]], All);
      var m1, attrs1 := DeclarationsConvert(init, F);
      m, attrs := DeclarationsStep(init, d, F, m1, attrs1);
      DeclarationsExtend(ds, n, attrs1);
      if Injective(m) {
        MirrorStep(attrs1, d, m1);
      }
    }
  }

  /** The second pass over plain attributes: each emits an attribute with its
      name resolved, and the frames stay as they are. */
  lemma {:induction false} AttributesConvert(ps: seq<Tree>, F: seq<Frame>) returns (attrs: seq<XAttribute>)
    requires forall i :: 0 <= i < |ps| ==> IsAttribute(ps[i])
    requires ConvertSeq(ps, F, All).Ok?
    ensures ConvertSeq(ps, F, All) == Ok(Converted(F, Content(attrs, [])))
    ensures |attrs| == |ps|
    ensures forall i :: 0 <= i < |ps| ==> Emits(ps[i], F, attrs[i])
    decreases |ps|
  {
    if ps == [] {
      attrs := [];
    } else {
      var p := ps[0];
      assert IsAttribute(p);
      var key := p.key.value.snippet;
      assert Register(F, key, JoinValue(p.value)) == Ok(NotAlias);
      assert PassStep(All, p, F) == ConvertAttribute(p, F);
      assert PassStep(All, p, F).Ok?;
      var name := NameOf(F, key);
      assert PassStep(All, p, F) == Ok(Converted(F, Content([XAttribute(name.value, JoinValue(p.value))], [])));
      var rest := AttributesConvert(ps[1..], F);
      attrs := [XAttribute(name.value, JoinValue(p.value))] + rest;
      assert Content([XAttribute(name.value, JoinValue(p.value))] + rest, [] + []) == Content(attrs, []);
      forall i | 0 < i < |ps| ensures Emits(ps[i], F, attrs[i]) {
        assert ps[i] == ps[1..][i - 1] && attrs[i] == rest[i - 1];
      }
    }
  }

  // ---------------------------------------------------------------------------
  // The round trip

  /** The two passes over an element's children: the declarations register
      their aliases in the element's frame and emit their declarations, the
      attributes come next with their names resolved in that frame, and the
      content after them is converted in that frame too. */
  lemma PassesSplit(cs: seq<Tree>, F: seq<Frame>, d: nat, a: nat)
    returns (m: Frame, rev: ReverseFrame, dattrs: seq<XAttribute>, pattrs: seq<XAttribute>)
    requires ChildrenReversible(cs, F)
    requires d == DeclarationsEnd(cs, 0) && a == AttributesEnd(cs, d)
    requires Passes(cs, F + [map[]]).Ok?
    ensures ConvertSeq(cs[a..], F + [m], All).Ok?
    ensures Passes(cs, F + [map[]]) == Prefixed(Content(dattrs + pattrs, []), ConvertSeq(cs[a..], F + [m], All))
    ensures m == DeclaredFrame(cs[..d]) && Fits(F, m)
    ensures Aliases(dattrs) == Ok(rev) && Mirror(m, rev)
    ensures |dattrs| == d && DeclarationsEmitted(cs, dattrs)
    ensures |pattrs| == a - d
    ensures AttributesEmitted(cs, d, F + [m], pattrs)
  {
    var f0 := F + [map[]];
    Slices(cs, d, a);
    SelectionSplit(cs, F, d, a);
    DeclarationsLead(cs, d);
    DeclarationsFirst(cs, f0);
    ConvertSeqAppend(cs[..d], cs[d..], f0, All);
    m, dattrs := DeclarationRun(cs, F, d);
    rev := Aliases(dattrs).value;
    var f1 := F + [m];
    ConvertSeqAppend(cs[d..a], cs[a..], f1, All);
    pattrs := AttributeRun(cs, f1, d, a);
    PrefixedTwice(Content(dattrs, []), Content(pattrs, []), ConvertSeq(cs[a..], f1, All));
    AttributesJoined(dattrs, pattrs);
  }

  /** The declarations at the head of an element's children, converted together. */
  lemma DeclarationRun(cs: seq<Tree>, F: seq<Frame>, d: nat)
    returns (m: Frame, dattrs: seq<XAttribute>)
    requires d <= |cs|
    requires forall i :: 0 <= i < d ==> IsDeclaration(cs[i])
    requires ConvertSeq(cs[..d], F + [map[]], All).Ok?
    ensures ConvertSeq(cs[..d], F + [map[]], All) == Ok(Converted(F + [m], Content(dattrs, [])))
    ensures m == DeclaredFrame(cs[..d])
    ensures Injective(m) ==> Aliases(dattrs).Ok? && Mirror(m, Aliases(dattrs).value)
    ensures |dattrs| == d && DeclarationsEmitted(cs, dattrs)
  {
    var ds := cs[..d];
    forall i | 0 <= i < d ensures IsDeclaration(ds[i]) {
      var x := cs[i];
    }
    m, dattrs := DeclarationsConvert(ds, F);
    forall i | 0 <= i < d ensures IsDeclaration(cs[i]) && dattrs[i] == DeclarationOf(cs[i]) {
      var x := ds[i];
    }
  }

  /** The plain attributes after the declarations, converted together. */
  lemma AttributeRun(cs: seq<Tree>, f: seq<Frame>, d: nat, a: nat) returns (pattrs: seq<XAttribute>)
    requires d <= a <= |cs|
    requires forall i :: d <= i < a ==> IsAttribute(cs[i])
    requires ConvertSeq(cs[d..a], f, All).Ok?
    ensures ConvertSeq(cs[d..a], f, All) == Ok(Converted(f, Content(pattrs, [])))
    ensures |pattrs| == a - d && AttributesEmitted(cs, d, f, pattrs)
  {
    var ps := cs[d..a];
    forall k | 0 <= k < a - d ensures IsAttribute(ps[k]) {
      assert ps[k] == cs[d + k];
    }
    pattrs := AttributesConvert(ps, f);
    forall k | 0 <= k < a - d ensures Emits(cs[d + k], f, pattrs[k]) {
      assert ps[k] == cs[d + k];
    }
  }

  lemma Slices(cs: seq<Tree>, d: nat, a: nat)
    requires d <= a <= |cs|
    ensures cs == cs[..d] + cs[d..] && cs[d..] == cs[d..a] + cs[a..]
    ensures forall i :: 0 <= i < d ==> cs[..d][i] == cs[i]
    ensures forall k :: 0 <= k < a - d ==> cs[d..a][k] == cs[d + k]
  {
  }

  /** How each run of children fares with the declarations test. */
  lemma SelectionSplit(cs: seq<Tree>, F: seq<Frame>, d: nat, a: nat)
    requires ChildrenReversible(cs, F)
    requires d == DeclarationsEnd(cs, 0) && a == AttributesEnd(cs, d)
    ensures forall i :: 0 <= i < d ==> IsXmlnsDecl(cs[i]) == Ok(true)
    ensures forall i :: d <= i < |cs| ==> IsXmlnsDecl(cs[i]) == Ok(false)
  {
    assert forall i :: a <= i < |cs| ==> Reversible(cs[i], F + [DeclaredFrame(cs[..d])]);
  }

  lemma AttributesJoined(x: seq<XAttribute>, y: seq<XAttribute>)
    ensures Joined(Content(x, []), Content(y, [])) == Content(x + y, [])
  {
    var none: seq<XNode> := [];
    assert none + none == none;
  }

  /** The first children are declarations, and `dattrs` their declaration attributes. */
  predicate DeclarationsEmitted(cs: seq<Tree>, dattrs: seq<XAttribute>) {
    |dattrs| <= |cs| &&
    forall i :: 0 <= i < |dattrs| ==> IsDeclaration(cs[i]) && dattrs[i] == DeclarationOf(cs[i])
  }

  /** The children from `d` on are attributes, and `pattrs` the attributes they
      emit with their names resolved against `f`. */
  predicate AttributesEmitted(cs: seq<Tree>, d: nat, f: seq<Frame>, pattrs: seq<XAttribute>) {
    d + |pattrs| <= |cs| &&
    forall k :: 0 <= k < |pattrs| ==> Emits(cs[d + k], f, pattrs[k])
  }

  /** The declarations among an element's children come back one by one. */
  lemma DeclarationsBack(cs: seq<Tree>, R: seq<ReverseFrame>, dattrs: seq<XAttribute>)
    requires DeclarationsEmitted(cs, dattrs)
    ensures forall i :: 0 <= i < |dattrs| ==> TreeEquivalent(FromAttribute(dattrs[i], R), cs[i])
  {
    forall i | 0 <= i < |dattrs| ensures TreeEquivalent(FromAttribute(dattrs[i], R), cs[i]) {
      DeclarationBack(cs[i], R);
    }
  }

  /** So do the attributes after them, none of which declares a namespace. */
  lemma AttributesBack(cs: seq<Tree>, f: seq<Frame>, R: seq<ReverseFrame>, d: nat, pattrs: seq<XAttribute>)
    requires Tracks(f, R)
    requires AttributesEmitted(cs, d, f, pattrs)
    ensures forall i :: 0 <= i < |pattrs| ==> !IsNamespaceDeclaration(pattrs[i])
    ensures forall i :: 0 <= i < |pattrs| ==> TreeEquivalent(FromAttribute(pattrs[i], R), cs[d + i])
  {
    forall i | 0 <= i < |pattrs|
      ensures !IsNamespaceDeclaration(pattrs[i])
      ensures TreeEquivalent(FromAttribute(pattrs[i], R), cs[d + i])
    {
      var p, c := pattrs[i], cs[d + i];
      AttributeBack(c, f, R);
    }
  }

  /** Three runs of children, each equivalent piece by piece, are equivalent as a whole. */
  lemma KidsBack(cs: seq<Tree>, R: seq<ReverseFrame>, d: nat, a: nat,
                 dattrs: seq<XAttribute>, pattrs: seq<XAttribute>, ts: seq<Tree>)
    requires d == |dattrs| && a == d + |pattrs| && EquivalentFrom(ts, cs, a)
    requires forall i :: 0 <= i < |dattrs| ==> TreeEquivalent(FromAttribute(dattrs[i], R), cs[i])
    requires forall k :: 0 <= k < |pattrs| ==> TreeEquivalent(FromAttribute(pattrs[k], R), cs[d + k])
    ensures |FromAttributes(dattrs + pattrs, R) + ts| == |cs|
    ensures forall i :: 0 <= i < |cs| ==> TreeEquivalent((FromAttributes(dattrs + pattrs, R) + ts)[i], cs[i])
  {
    var attrs := dattrs + pattrs;
    var fa := FromAttributes(attrs, R);
    var kids := fa + ts;
    forall i | 0 <= i < |cs| ensures TreeEquivalent(kids[i], cs[i]) {
      if i < d {
        assert kids[i] == fa[i] == FromAttribute(attrs[i], R);
        assert attrs[i] == dattrs[i];
      } else if i < a {
        var k := i - d;
        assert kids[i] == fa[i] == FromAttribute(attrs[i], R);
        assert attrs[i] == pattrs[k];
      } else {
        var k := i - a;
        assert kids[i] == ts[k];
      }
    }
  }

  /** An element's children: converted in the element's frame, they come back,
      attributes first, as trees equivalent to them one by one. */
  lemma {:induction false} ChildrenBack(cs: seq<Tree>, F: seq<Frame>, R: seq<ReverseFrame>)
    returns (m: Frame, rev: ReverseFrame, attrs: seq<XAttribute>, nodes: seq<XNode>, kids: seq<Tree>)
    requires Tracks(F, R) && ChildrenReversible(cs, F)
    requires Passes(cs, F + [map[]]).Ok?
    ensures Passes(cs, F + [map[]]) == Ok(Converted(F + [m], Content(attrs, nodes)))
    ensures Aliases(attrs) == Ok(rev) && Tracks(F + [m], R + [rev])
    ensures FromNodes(nodes, R + [rev]).Ok?
    ensures kids == FromAttributes(attrs, R + [rev]) + FromNodes(nodes, R + [rev]).value
    ensures |kids| == |cs| && forall i :: 0 <= i < |cs| ==> TreeEquivalent(kids[i], cs[i])
    decreases cs, 2, 0
  {
    var d := DeclarationsEnd(cs, 0);
    var a := AttributesEnd(cs, d);
    var dattrs, pattrs;
    m, rev, dattrs, pattrs := PassesSplit(cs, F, d, a);
    TracksPush(F, R, m, rev);
    var ts;
    nodes, ts := ContentBack(cs, a, F + [m], R + [rev]);
    attrs := dattrs + pattrs;
    assert Content(attrs + [], [] + nodes) == Content(attrs, nodes);
    DeclarationsBack(cs, R + [rev], dattrs);
    AttributesBack(cs, F + [m], R + [rev], d, pattrs);
    AliasesIgnore(dattrs, pattrs);
    KidsBack(cs, R + [rev], d, a, dattrs, pattrs, ts);
    kids := FromAttributes(attrs, R + [rev]) + ts;
  }

  /** One element: it becomes one XML element and comes back as an equivalent tree. */
  lemma {:induction false} ElementBack(t: Tree, F: seq<Frame>, R: seq<ReverseFrame>)
    returns (n: XNode, tr: Tree)
    requires Tracks(F, R) && IsElementShape(t) && ChildrenReversible(t.children, F)
    requires Convert(t, F).Ok?
    ensures Convert(t, F) == Ok(Converted(F, Content([], [n])))
    ensures FromNode(n, R) == Ok([tr]) && TreeEquivalent(tr, t)
    decreases t, 0, 0
  {
    var m, rev, attrs, nodes, kids := ChildrenBack(t.children, F, R);
    var key := t.key.value.snippet;
    var f1 := F + [m];
    var name := NameOf(f1, key);
    NameBack(f1, R + [rev], key, false);
    n := XElement(name.value, attrs, nodes);
    tr := Tree(Some(Unquoted(NameString(R + [rev], name.value, false))), Some(Unquoted(ElementOp)), [], kids);
    ElementForth(t, F, m, attrs, nodes, name.value);
    ElementFromNode(name.value, attrs, nodes, R, rev, kids);
  }

  /** The element a `key :` node with an empty value becomes, once its children
      and its name have converted. */
  lemma ElementForth(t: Tree, F: seq<Frame>, m: Frame, attrs: seq<XAttribute>, nodes: seq<XNode>, name: XName)
    requires IsElementShape(t)
    requires Passes(t.children, F + [map[]]) == Ok(Converted(F + [m], Content(attrs, nodes)))
    requires NameOf(F + [m], t.key.value.snippet) == Ok(name)
    ensures Convert(t, F) == Ok(Converted(F, Content([], [XElement(name, attrs, nodes)])))
  {
    assert JoinValue(t.value) == "";
    assert (F + [m])[..|F|] == F && [] + nodes == nodes;
    assert ConvertElement(t, F) == Ok(Converted(F, Content([], [XElement(name, attrs, nodes)])));
  }

  /** The tree an element comes back as, once its attributes and content have. */
  lemma ElementFromNode(name: XName, attrs: seq<XAttribute>, nodes: seq<XNode>, R: seq<ReverseFrame>,
                        rev: ReverseFrame, kids: seq<Tree>)
    requires Aliases(attrs) == Ok(rev) && FromNodes(nodes, R + [rev]).Ok?
    requires kids == FromAttributes(attrs, R + [rev]) + FromNodes(nodes, R + [rev]).value
    ensures FromNode(XElement(name, attrs, nodes), R) ==
      Ok([Tree(Some(Unquoted(NameString(R + [rev], name, false))), Some(Unquoted(ElementOp)), [], kids)])
  {
  }

  /** One content child: a text node or an element. */
  lemma {:induction false} NodeBack(t: Tree, F: seq<Frame>, R: seq<ReverseFrame>)
    returns (n: XNode, tr: Tree)
    requires Tracks(F, R) && Reversible(t, F)
    requires Convert(t, F).Ok?
    ensures Convert(t, F) == Ok(Converted(F, Content([], [n])))
    ensures FromNode(n, R) == Ok([tr]) && TreeEquivalent(tr, t)
    decreases t, 1, 0
  {
    if IsText(t) {
      n := XText(t.value[0].snippet);
      tr := FromText(t.value[0].snippet);
      assert t.value[1..] == [] && [n] + [] == [n];
      assert Fragments(t.value) == Ok([n]);
      assert Convert(t, F) == ConvertValue(t, F);
      assert FromNode(n, R) == Ok([tr]);
      assert ValuesEquivalent(tr.value, t.value);
    } else {
      n, tr := ElementBack(t, F, R);
    }
  }

  /** A run of content children, from position `j` on. */
  lemma {:induction false} ContentBack(cs: seq<Tree>, j: nat, F: seq<Frame>, R: seq<ReverseFrame>)
    returns (nodes: seq<XNode>, ts: seq<Tree>)
    requires j <= |cs| && Tracks(F, R)
    requires forall i :: j <= i < |cs| ==> Reversible(cs[i], F)
    requires ConvertSeq(cs[j..], F, All).Ok?
    ensures ConvertSeq(cs[j..], F, All) == Ok(Converted(F, Content([], nodes)))
    ensures FromNodes(nodes, R) == Ok(ts)
    ensures EquivalentFrom(ts, cs, j)
    decreases cs, 1, |cs| - j
  {
    if j == |cs| {
      assert cs[j..] == [];
      nodes, ts := [], [];
    } else {
      SeqHead(cs, j, F);
      var n, tr := NodeBack(cs[j], F, R);
      SeqRest(cs, j, F, n);
      var rest, restTrees := ContentBack(cs, j + 1, F, R);
      nodes := [n] + rest;
      ts := [tr] + restTrees;
      EquivalentCons(cs, j, tr, restTrees);
      SeqForth(cs, j, F, n, rest);
      NodesCons(n, rest, R, tr, restTrees);
    }
  }

  /** A pass over every child that succeeds converts the first one. */
  lemma SeqHead(cs: seq<Tree>, j: nat, F: seq<Frame>)
    requires j < |cs| && ConvertSeq(cs[j..], F, All).Ok?
    ensures Convert(cs[j], F).Ok?
  {
    ConvertSeqAt(cs, j, F, All);
    assert PassStep(All, cs[j], F) == Convert(cs[j], F);
  }

  /** ... and goes on over the rest in the same frames, when the first one
      leaves them alone. */
  lemma SeqRest(cs: seq<Tree>, j: nat, F: seq<Frame>, n: XNode)
    requires j < |cs| && ConvertSeq(cs[j..], F, All).Ok?
    requires Convert(cs[j], F) == Ok(Converted(F, Content([], [n])))
    ensures ConvertSeq(cs[j + 1..], F, All).Ok?
  {
    ConvertSeqAt(cs, j, F, All);
    assert PassStep(All, cs[j], F) == Convert(cs[j], F);
  }

  lemma SeqForth(cs: seq<Tree>, j: nat, F: seq<Frame>, n: XNode, rest: seq<XNode>)
    requires j < |cs| && Convert(cs[j], F) == Ok(Converted(F, Content([], [n])))
    requires ConvertSeq(cs[j + 1..], F, All) == Ok(Converted(F, Content([], rest)))
    ensures ConvertSeq(cs[j..], F, All) == Ok(Converted(F, Content([], [n] + rest)))
  {
    ConvertSeqAt(cs, j, F, All);
    assert PassStep(All, cs[j], F) == Convert(cs[j], F);
    assert Joined(Content([], [n]), Content([], rest)) == Content([] + [], [n] + rest);
  }

  lemma NodesCons(n: XNode, rest: seq<XNode>, R: seq<ReverseFrame>, tr: Tree, restTrees: seq<Tree>)
    requires FromNode(n, R) == Ok([tr]) && FromNodes(rest, R) == Ok(restTrees)
    ensures FromNodes([n] + rest, R) == Ok([tr] + restTrees)
  {
    var ns := [n] + rest;
    assert ns[0] == n && ns[1..] == rest;
  }

  /** `ts` are the children of `cs` from `j` on, each up to equivalence. */
  predicate EquivalentFrom(ts: seq<Tree>, cs: seq<Tree>, j: nat) {
    j + |ts| == |cs| && forall k :: 0 <= k < |ts| ==> TreeEquivalent(ts[k], cs[j + k])
  }

  lemma EquivalentCons(cs: seq<Tree>, j: nat, tr: Tree, restTrees: seq<Tree>)
    requires j < |cs| && TreeEquivalent(tr, cs[j]) && EquivalentFrom(restTrees, cs, j + 1)
    ensures EquivalentFrom([tr] + restTrees, cs, j)
  {
    var ts := [tr] + restTrees;
    forall k | 0 <= k < |ts| ensures TreeEquivalent(ts[k], cs[j + k]) {
      if k > 0 {
        var k' := k - 1;
        assert ts[k] == restTrees[k'] && cs[j + k] == cs[j + 1 + k'];
      }
    }
  }

  /** `FromXml(ToXml(roots))` gives back the roots: whenever the conversion to
      XML succeeds on trees of the reversible form, converting back succeeds and
      each tree is semantically equivalent to its root. */
  lemma RoundTrip(roots: seq<Tree>)
    requires forall i :: 0 <= i < |roots| ==> Reversible(roots[i], [])
    requires ToXmlOf(roots).Ok?
    ensures FromDocument(ToXmlOf(roots).value).Ok?
    ensures |FromDocument(ToXmlOf(roots).value).value| == |roots|
    ensures forall i :: 0 <= i < |roots| ==> TreeEquivalent(FromDocument(ToXmlOf(roots).value).value[i], roots[i])
  {
    assert roots[0..] == roots;
    var nodes, ts := ContentBack(roots, 0, [], []);
    assert forall k :: 0 <= k < |ts| ==> roots[0 + k] == roots[k];
  }

  // ---------------------------------------------------------------------------
  // Aliases declared again in an inner scope

  lemma DeclaredOne(d: Tree)
    requires IsDeclaration(d)
    ensures DeclaredFrame([d]) == map[DeclaredAlias(d.key.value.snippet) := JoinValue(d.value)]
  {
    assert [d][..0] == [];
  }

  /** `key = value`. */
  function Attribute(key: string, value: string): Tree {
    Tree(Some(Unquoted(key)), Some(Unquoted(AttributeOp)), [Unquoted(value)], [])
  }

  /** `key :` over its children. */
  function Element(key: string, children: seq<Tree>): Tree {
    Tree(Some(Unquoted(key)), Some(Unquoted(ElementOp)), [], children)
  }

  /** `n:A` declaring `n` as `N1`, around `n:B` declaring `n` again as `N2`
      (LessXaml.Tests/XmlConverterTests.cs:112-120): reversible, so `RoundTrip`
      covers it. */
  lemma AliasDeclaredAgain()
    ensures Reversible(Element("n:A", [Attribute("xmlns:n", "N1"), Element("n:B", [Attribute("xmlns:n", "N2")])]), [])
  {
    var inner := Element("n:B", [Attribute("xmlns:n", "N2")]);
    var outer := Element("n:A", [Attribute("xmlns:n", "N1"), inner]);
    assert "xmlns:n"[..6] == "xmlns:";
    assert "n:A"[..1] == "n" && "n:B"[..1] == "n";
    assert DeclaredAlias("xmlns:n") == "n";
    assert JoinValue([Unquoted("N1")]) == "N1" + JoinValue([]);
    assert JoinValue([Unquoted("N2")]) == "N2" + JoinValue([]);
    var cs := outer.children;
    assert DeclarationsEnd(cs, 0) == 1;
    assert cs[..1] == [Attribute("xmlns:n", "N1")];
    DeclaredOne(cs[0]);
    assert cs[..1] == [cs[0]] && cs[0].key.value.snippet == "xmlns:n" && JoinValue(cs[0].value) == "N1";
    assert DeclaredFrame(cs[..1]) == map["n" := "N1"];
    assert AttributesEnd(cs, 1) == 1;
    var ks := inner.children;
    assert DeclarationsEnd(ks, 0) == 1 && ks[..1] == ks;
    DeclaredOne(ks[0]);
    assert ks == [ks[0]] && ks[0].key.value.snippet == "xmlns:n" && JoinValue(ks[0].value) == "N2";
    assert DeclaredFrame(ks) == map["n" := "N2"];
    assert AttributesEnd(ks, 1) == 1;
    assert Reversible(inner, [map["n" := "N1"]]);
  }

  /** `A` declaring the default namespace `N1`, around `B` declaring it again as
      `N2` (LessXaml.Tests/XmlConverterTests.cs:101-109): reversible too. */
  lemma DefaultDeclaredAgain()
    ensures Reversible(Element("A", [Attribute("xmlns", "N1"), Element("B", [Attribute("xmlns", "N2")])]), [])
  {
    var inner := Element("B", [Attribute("xmlns", "N2")]);
    var outer := Element("A", [Attribute("xmlns", "N1"), inner]);
    assert "A"[..1] == "A" && "B"[..1] == "B";
    assert JoinValue([Unquoted("N1")]) == "N1" + JoinValue([]);
    assert JoinValue([Unquoted("N2")]) == "N2" + JoinValue([]);
    var cs := outer.children;
    assert DeclarationsEnd(cs, 0) == 1;
    assert cs[..1] == [Attribute("xmlns", "N1")];
    DeclaredOne(cs[0]);
    assert cs[..1] == [cs[0]] && cs[0].key.value.snippet == "xmlns" && JoinValue(cs[0].value) == "N1";
    assert DeclaredFrame(cs[..1]) == map["" := "N1"];
    assert AttributesEnd(cs, 1) == 1;
    var ks := inner.children;
    assert DeclarationsEnd(ks, 0) == 1 && ks[..1] == ks;
    DeclaredOne(ks[0]);
    assert ks == [ks[0]] && ks[0].key.value.snippet == "xmlns" && JoinValue(ks[0].value) == "N2";
    assert DeclaredFrame(ks) == map["" := "N2"];
    assert AttributesEnd(ks, 1) == 1;
    assert Reversible(inner, [map["" := "N1"]]);
  }
}
