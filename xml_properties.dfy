/** Properties of the XML conversion: how the passes over an element's children
    compose, that namespace aliases never leak out of the element that declares
    them, and that `FromXml` reads back what `ToXml` writes. */
module XmlProperties {
  import opened Results
  import opened Text
  import opened Strings
  import opened Nodes
  import opened Xml
  import opened XmlConvert

  // ---------------------------------------------------------------------------
  // Passes

  /** Converting a list in two pieces: the second piece starts from the frames
      the first one left. */
  lemma {:induction false} ConvertSeqAppend(a: seq<Tree>, b: seq<Tree>, frames: seq<Frame>, pass: Pass)
    ensures ConvertSeq(a + b, frames, pass) ==
      (var r := ConvertSeq(a, frames, pass);
       if r.Err? then r else Prefixed(r.value.out, ConvertSeq(b, r.value.frames, pass)))
    decreases a
  {
    if a == [] {
      assert a + b == b;
      PrefixedNothing(ConvertSeq(b, frames, pass));
    } else {
      assert (a + b)[0] == a[0] && (a + b)[1..] == a[1..] + b;
      var s := PassStep(pass, a[0], frames);
      if s.Ok? {
        ConvertSeqAppend(a[1..], b, s.value.frames, pass);
        var r := ConvertSeq(a[1..], s.value.frames, pass);
        if r.Ok? {
          PrefixedTwice(s.value.out, r.value.out, ConvertSeq(b, r.value.frames, pass));
        }
      }
    }
  }

  /** The children a declarations pass selects, in order. */
  function DeclarationChildren(cs: seq<Tree>): (ds: seq<Tree>)
    ensures forall i :: 0 <= i < |ds| ==> IsXmlnsDecl(ds[i]) == Ok(true)
    ensures |ds| <= |cs|
  {
    if cs == [] then []
    else (if IsXmlnsDecl(cs[0]) == Ok(true) then [cs[0]] else []) + DeclarationChildren(cs[1..])
  }

  /** The children the second pass selects, in order. */
  function OtherChildren(cs: seq<Tree>): (os: seq<Tree>)
    ensures forall i :: 0 <= i < |os| ==> IsXmlnsDecl(os[i]) != Ok(true)
    ensures |os| <= |cs|
  {
    if cs == [] then []
    else (if IsXmlnsDecl(cs[0]) == Ok(true) then [] else [cs[0]]) + OtherChildren(cs[1..])
  }

  /** When no child is keyless with an `=` operator (the one case the selection
      itself throws on), the declarations pass converts exactly the declarations,
      as one plain list... */
  lemma {:induction false} DeclarationsSelected(cs: seq<Tree>, frames: seq<Frame>)
    requires forall i :: 0 <= i < |cs| ==> IsXmlnsDecl(cs[i]).Ok?
    ensures ConvertSeq(cs, frames, Declarations) == ConvertSeq(DeclarationChildren(cs), frames, All)
    decreases cs
  {
    if cs != [] {
      var c := cs[0];
      if IsXmlnsDecl(c) == Ok(true) {
        assert DeclarationChildren(cs) == [c] + DeclarationChildren(cs[1..]);
        ConvertSeqAppend([c], DeclarationChildren(cs[1..]), frames, All);
        SinglePass(c, frames, All);
        var r := Convert(c, frames);
        if r.Ok? {
          DeclarationsSelected(cs[1..], r.value.frames);
        }
      } else {
        DeclarationsSelected(cs[1..], frames);
        PrefixedNothing(ConvertSeq(cs[1..], frames, Declarations));
        assert DeclarationChildren(cs) == [] + DeclarationChildren(cs[1..]) == DeclarationChildren(cs[1..]);
        assert ConvertSeq(cs, frames, Declarations) == ConvertSeq(cs[1..], frames, Declarations);
      }
    }
  }

  /** ... and the second pass exactly the other children. */
  lemma {:induction false} OthersSelected(cs: seq<Tree>, frames: seq<Frame>)
    requires forall i :: 0 <= i < |cs| ==> IsXmlnsDecl(cs[i]).Ok?
    ensures ConvertSeq(cs, frames, Others) == ConvertSeq(OtherChildren(cs), frames, All)
    decreases cs
  {
    if cs != [] {
      var c := cs[0];
      if IsXmlnsDecl(c) == Ok(true) {
        OthersSelected(cs[1..], frames);
        PrefixedNothing(ConvertSeq(cs[1..], frames, Others));
        assert OtherChildren(cs) == [] + OtherChildren(cs[1..]) == OtherChildren(cs[1..]);
        assert ConvertSeq(cs, frames, Others) == ConvertSeq(cs[1..], frames, Others);
      } else {
        assert OtherChildren(cs) == [c] + OtherChildren(cs[1..]);
        ConvertSeqAppend([c], OtherChildren(cs[1..]), frames, All);
        SinglePass(c, frames, All);
        var r := Convert(c, frames);
        if r.Ok? {
          OthersSelected(cs[1..], r.value.frames);
        }
      }
    }
  }

  /** An element's children are converted as if reordered with the namespace
      declarations first, keeping the relative order within each group. */
  lemma DeclarationsFirst(cs: seq<Tree>, frames: seq<Frame>)
    requires forall i :: 0 <= i < |cs| ==> IsXmlnsDecl(cs[i]).Ok?
    ensures Passes(cs, frames) == ConvertSeq(DeclarationChildren(cs) + OtherChildren(cs), frames, All)
  {
    DeclarationsSelected(cs, frames);
    ConvertSeqAppend(DeclarationChildren(cs), OtherChildren(cs), frames, All);
    var d := ConvertSeq(cs, frames, Declarations);
    if d.Ok? {
      OthersSelected(cs, d.value.frames);
    }
  }

  /** A keyless `=` child makes the selection throw: the key is read without a
      null check. */
  lemma KeylessAttributeThrows(cs: seq<Tree>, frames: seq<Frame>, i: nat)
    requires i < |cs| && cs[i].key.None? && cs[i].op.Some? && cs[i].op.value.snippet == AttributeOp
    requires forall j :: 0 <= j < i ==> IsXmlnsDecl(cs[j]) == Ok(false)
    ensures ConvertSeq(cs, frames, Declarations) == Err(NullReference)
  {
    assert cs == cs[..i] + cs[i..];
    ConvertSeqAppend(cs[..i], cs[i..], frames, Declarations);
    SkipsAll(cs[..i], frames, Declarations);
    assert cs[i..][0] == cs[i];
  }

  /** Children a pass does not select add nothing. */
  lemma {:induction false} SkipsAll(cs: seq<Tree>, frames: seq<Frame>, pass: Pass)
    requires forall j :: 0 <= j < |cs| ==> Selects(pass, cs[j]) == Ok(false)
    ensures ConvertSeq(cs, frames, pass) == Ok(Converted(frames, Content([], [])))
    decreases cs
  {
    if cs != [] {
      SkipsAll(cs[1..], frames, pass);
      PrefixedNothing(ConvertSeq(cs[1..], frames, pass));
    }
  }

  /** Keyed nodes whose operator is neither `=` nor `:` produce no output and
      leave the frames alone. */
  lemma OtherOperatorsSilent(t: Tree, frames: seq<Frame>)
    requires t.key.Some? && t.op.Some? && t.op.value.snippet != AttributeOp && t.op.value.snippet != ElementOp
    ensures Convert(t, frames) == Ok(Converted(frames, Content([], [])))
  {
  }

  // ---------------------------------------------------------------------------
  // Scoping

  /** Everything but the innermost frame is the same. */
  predicate SameOuter(a: seq<Frame>, b: seq<Frame>) {
    |a| == |b| && (|a| == 0 || a[..|a| - 1] == b[..|b| - 1])
  }

  /** Only the innermost frame can change while a node is converted, and an
      element leaves the frames exactly as it found them: aliases declared by an
      element's children never reach its siblings. */
  lemma {:induction false} ConvertScoped(t: Tree, frames: seq<Frame>)
    ensures Convert(t, frames).Ok? ==> SameOuter(frames, Convert(t, frames).value.frames)
    ensures t.key.Some? && t.op.Some? && t.op.value.snippet == ElementOp && Convert(t, frames).Ok? ==>
      Convert(t, frames).value.frames == frames
    decreases t, 1
  {
    if t.key.Some? && t.op.Some? && t.op.value.snippet == ElementOp {
      ElementScoped(t, frames);
    }
  }

  lemma {:induction false} ElementScoped(t: Tree, frames: seq<Frame>)
    requires t.key.Some?
    ensures ConvertElement(t, frames).Ok? ==> ConvertElement(t, frames).value.frames == frames
    decreases t, 0
  {
    var inner := frames + [map[]];
    var content := Passes(t.children, inner);
    if content.Ok? {
      PassesScoped(t.children, inner);
      assert content.value.frames[..|frames|] == inner[..|frames|] == frames;
    }
  }

  lemma {:induction false} PassesScoped(ts: seq<Tree>, frames: seq<Frame>)
    ensures Passes(ts, frames).Ok? ==> SameOuter(frames, Passes(ts, frames).value.frames)
    decreases ts, 1
  {
    var d := ConvertSeq(ts, frames, Declarations);
    SeqScoped(ts, frames, Declarations);
    if d.Ok? {
      SeqScoped(ts, d.value.frames, Others);
    }
  }

  lemma {:induction false} SeqScoped(ts: seq<Tree>, frames: seq<Frame>, pass: Pass)
    ensures ConvertSeq(ts, frames, pass).Ok? ==> SameOuter(frames, ConvertSeq(ts, frames, pass).value.frames)
    decreases ts, 0
  {
    if ts != [] {
      var s := PassStep(pass, ts[0], frames);
      if s.Ok? {
        if Selects(pass, ts[0]) == Ok(true) {
          ConvertScoped(ts[0], frames);
        }
        SeqScoped(ts[1..], s.value.frames, pass);
      }
    }
  }

  /** The declaration an `xmlns` child registers goes to the innermost frame, and
      the matching declaration attribute is emitted; a second declaration of the
      same alias in one element throws. */
  lemma DeclarationRegisters(t: Tree, frames: seq<Frame>, alias: string)
    requires t.key.Some? && t.op.Some? && t.op.value.snippet == AttributeOp && frames != []
    requires t.key.value.snippet == "xmlns" + (if alias == "" then "" else ":" + alias)
    ensures alias in frames[|frames| - 1] ==> Convert(t, frames) == Err(DuplicateKey)
    ensures alias !in frames[|frames| - 1] ==> (Convert(t, frames) ==
      Ok(Converted(frames[..|frames| - 1] + [frames[|frames| - 1][alias := JoinValue(t.value)]],
                   Content([if alias == "" then DefaultDeclaration(JoinValue(t.value))
                            else PrefixDeclaration(alias, JoinValue(t.value))], []))))
  {
    var key := t.key.value.snippet;
    if alias != "" {
      assert StartsWith(key, "xmlns:") by {
        assert key[..|"xmlns:"|] == "xmlns:";
      }
      assert key[|"xmlns:"|..] == alias;
    }
  }

  // ---------------------------------------------------------------------------
  // FromXml

  /** `FromXml` on a list of nodes is the concatenation of its pieces. */
  lemma {:induction false} FromNodesAppend(a: seq<XNode>, b: seq<XNode>, frames: seq<ReverseFrame>)
    ensures FromNodes(a + b, frames) ==
      (var x := FromNodes(a, frames);
       if x.Err? then x else
         var y := FromNodes(b, frames);
         if y.Err? then y else Ok(x.value + y.value))
    decreases a
  {
    if a == [] {
      assert a + b == b;
      if FromNodes(b, frames).Ok? {
        assert [] + FromNodes(b, frames).value == FromNodes(b, frames).value;
      }
    } else {
      var ab := a + b;
      assert ab[0] == a[0] && ab[1..] == a[1..] + b;
      FromNodesAppend(a[1..], b, frames);
      var first := FromNode(a[0], frames);
      if first.Ok? {
        var x := FromNodes(a[1..], frames);
        var y := FromNodes(b, frames);
        if x.Ok? && y.Ok? {
          assert first.value + (x.value + y.value) == (first.value + x.value) + y.value;
        }
      }
    }
  }

  /** A comment anywhere in the list makes `FromXml` throw, unless an earlier
      node already did. */
  lemma FromNodesComment(ns: seq<XNode>, frames: seq<ReverseFrame>, i: nat)
    requires i < |ns| && ns[i].XComment?
    requires forall j :: 0 <= j < i ==> FromNode(ns[j], frames).Ok?
    ensures FromNodes(ns, frames) == Err(NotSupported)
  {
    assert ns == ns[..i] + ns[i..];
    FromNodesAppend(ns[..i], ns[i..], frames);
    FromNodesOk(ns[..i], frames);
    assert ns[i..][0] == ns[i];
  }

  lemma {:induction false} FromNodesOk(ns: seq<XNode>, frames: seq<ReverseFrame>)
    requires forall j :: 0 <= j < |ns| ==> FromNode(ns[j], frames).Ok?
    ensures FromNodes(ns, frames).Ok?
    decreases ns
  {
    if ns != [] {
      FromNodesOk(ns[1..], frames);
    }
  }
}
