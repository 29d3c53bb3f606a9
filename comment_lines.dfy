/** Lines that yield no tokens, and the levels of the lines after them.

    `Tokenize` (Vamp/Vamp.cs) unindents every non-blank line before it knows
    whether the line holds anything but comments, and a comment-only line keeps
    the frame its whitespace pushed. The next line as deep as the comment is
    then two levels below the line before it, and `Parse`, which only pops its
    stack down to a line's level, hangs that line's later siblings below it.
    Here are the as-written behaviour on such levels, and the corrected loop in
    which a line without tokens leaves the indenter alone, under which
    `ParseOutline` describes every tree that builds. */
module CommentLines {
  import opened Results
  import opened Text
  import opened Strings
  import opened Rules
  import opened Indentation
  import opened Quoter
  import opened Tokenizer
  import opened TreeBuilder

  // ---------------------------------------------------------------------------
  // As written

  /** A line `key :` at `level`. */
  function Line(key: string, level: nat): Entry {
    Entry(level, Some(Unquoted(key)), Some(Unquoted(":")), [])
  }

  /** `A`, a comment-only line indented by two, then `B` and `C` indented by four
      lex as levels 0, 2, 2. Building succeeds although the levels jump by two,
      and `C`, a sibling of `B`, becomes `B`'s child. */
  lemma SiblingNestedAfterComment()
    ensures var es := [Line("A", 0), Line("B", 2), Line("C", 2)];
      !Steps(es) && ParseEntries(Start, es).Ok? &&
      var nodes := ParseEntries(Start, es).value.nodes;
      |nodes| == 3 && nodes[1].parent == Some(0) && nodes[2].parent == Some(1) &&
      nodes[0].children == [1] && nodes[1].children == [2]
  {
    var es := [Line("A", 0), Line("B", 2), Line("C", 2)];
    var b1 := AddEntry(Start, es[0]).value;
    assert b1.stack == [0] && b1.nodes[0].children == [];
    var b2 := AddEntry(b1, es[1]).value;
    assert b2.stack == [0, 1];
    var b3 := AddEntry(b2, es[2]).value;
    assert b3.stack == [0, 1, 2];
    assert es[1..][1..] == es[2..] && es[2..][1..] == [];
    assert ParseEntries(b2, es[2..]) == Ok(b3);
    assert ParseEntries(b1, es[1..]) == Ok(b3);
  }

  // ---------------------------------------------------------------------------
  // Corrected

  /** One corrected pass of the `Tokenize` loop: a line that yields no tokens
      (blank, or comments only) leaves the indenter as it found it. */
  function KeptStep(rules: VampRules, lines: seq<string>, ind: IndentState, acc: seq<Token>): (r: LineStep)
    requires QuotationsOk(rules.quotations) && StackOk(ind.stack, ind.uniform)
    ensures r.Continue? ==> |r.lines| < |lines| && StackOk(r.indent.stack, r.indent.uniform)
    ensures r.Continue? && r.tokens == acc ==> r.indent == ind
  {
    var r := TokenizeStep(rules, lines, ind, acc);
    if r.Continue? && r.tokens == acc then Continue(r.lines, ind, acc) else r
  }

  function KeptLines(rules: VampRules, lines: seq<string>, ind: IndentState, acc: seq<Token>): Lexed
    requires QuotationsOk(rules.quotations) && StackOk(ind.stack, ind.uniform)
    decreases |lines|
  {
    var step := KeptStep(rules, lines, ind, acc);
    if step.Finished? then step.lexed else KeptLines(rules, step.lines, step.indent, step.tokens)
  }

  /** `Tokenize(program, rules)` with the correction. */
  function KeptTokens(rules: VampRules, program: string): Lexed
    requires QuotationsOk(rules.quotations)
  {
    KeptLines(rules, Lines(program), IndentState([""], None), [])
  }

  /** Levels that never go more than one deeper than the line before, the first
      line at most one level in. */
  predicate Rising(es: seq<Entry>) {
    (es != [] ==> es[0].level <= 1) &&
    forall i :: 0 < i < |es| ==> es[i].level <= es[i - 1].level + 1
  }

  /** The tokens so far are line groups rising as the indenter allows: the last
      line's level is the indenter's depth, and no line yet means no frame. */
  predicate Tracks(acc: seq<Token>, ind: IndentState) {
    Grouped(acc) && Rising(Entries(acc)) &&
    (Entries(acc) == [] ==> |ind.stack| == 1) &&
    (Entries(acc) != [] ==> Entries(acc)[|Entries(acc)| - 1].level == |ind.stack| - 1)
  }

  lemma {:induction false} EntriesAppend(a: seq<Token>, b: seq<Token>)
    requires Grouped(a) && Grouped(b)
    ensures Grouped(a + b) && Entries(a + b) == Entries(a) + Entries(b)
    decreases |a|, 1
  {
    if a == [] {
      assert a + b == b;
    } else if a[1].ElementValue? {
      ElementAppend(a, b);
    } else {
      KeyAppend(a, b);
    }
  }

  lemma {:induction false} ElementAppend(a: seq<Token>, b: seq<Token>)
    requires Grouped(a) && Grouped(b) && a != [] && a[1].ElementValue?
    ensures Grouped(a + b) && Entries(a + b) == Entries(a) + Entries(b)
    decreases |a|, 0
  {
    ElementEntries(a);
    var h, rest := a[..2], a[2..];
    assert a == h + rest && a + b == h + (rest + b);
    EntriesAppend(rest, b);
    ElementHead(h, rest + b);
    var e := Entry(a[0].level, None, None, [a[1].value]);
    assert [e] + (Entries(rest) + Entries(b)) == ([e] + Entries(rest)) + Entries(b);
  }

  lemma {:induction false} KeyAppend(a: seq<Token>, b: seq<Token>)
    requires Grouped(a) && Grouped(b) && a != [] && !a[1].ElementValue?
    ensures Grouped(a + b) && Entries(a + b) == Entries(a) + Entries(b)
    decreases |a|, 0
  {
    KeyEntries(a);
    var h, rest := a[..4], a[4..];
    assert a == h + rest && a + b == h + (rest + b);
    EntriesAppend(rest, b);
    KeyHead(h, rest + b);
    var e := Entry(a[0].level, Some(a[1].key), Some(a[2].op), a[3].values);
    assert [e] + (Entries(rest) + Entries(b)) == ([e] + Entries(rest)) + Entries(b);
  }

  lemma ElementEntries(ts: seq<Token>)
    requires Grouped(ts) && ts != [] && ts[1].ElementValue?
    ensures |ts| >= 2 && ts[0].Indentation? && Grouped(ts[2..])
    ensures Entries(ts) == [Entry(ts[0].level, None, None, [ts[1].value])] + Entries(ts[2..])
  {
  }

  lemma KeyEntries(ts: seq<Token>)
    requires Grouped(ts) && ts != [] && !ts[1].ElementValue?
    ensures |ts| >= 4 && ts[0].Indentation? && ts[1].Key? && ts[2].Operator? && ts[3].Value? && Grouped(ts[4..])
    ensures Entries(ts) == [Entry(ts[0].level, Some(ts[1].key), Some(ts[2].op), ts[3].values)] + Entries(ts[4..])
  {
  }

  /** An element line's two tokens in front of grouped tokens. */
  lemma ElementHead(h: seq<Token>, t: seq<Token>)
    requires |h| == 2 && h[0].Indentation? && h[1].ElementValue? && Grouped(t)
    ensures Grouped(h + t) && Entries(h + t) == [Entry(h[0].level, None, None, [h[1].value])] + Entries(t)
  {
    var s := h + t;
    assert s[0] == h[0] && s[1] == h[1] && s[2..] == t;
  }

  /** A keyed line's four tokens in front of grouped tokens. */
  lemma KeyHead(h: seq<Token>, t: seq<Token>)
    requires |h| == 4 && h[0].Indentation? && h[1].Key? && h[2].Operator? && h[3].Value? && Grouped(t)
    ensures Grouped(h + t) && Entries(h + t) == [Entry(h[0].level, Some(h[1].key), Some(h[2].op), h[3].values)] + Entries(t)
  {
    var s := h + t;
    assert s[0] == h[0] && s[1] == h[1] && s[2] == h[2] && s[3] == h[3] && s[4..] == t;
  }

  /** The tokens of one line are one entry at that line's level. */
  lemma LineEntry(rules: VampRules, level: nat, frags: seq<QuotedString>)
    requires frags != []
    ensures Grouped(LineTokens(rules, level, frags))
    ensures |Entries(LineTokens(rules, level, frags))| == 1
    ensures Entries(LineTokens(rules, level, frags))[0].level == level
  {
    var ts := LineTokens(rules, level, frags);
    LineTokensGrouped(rules, level, frags);
    if |ts| == 2 {
      assert ts[2..] == [];
    } else {
      assert ts[4..] == [];
    }
  }

  /** One more line, at most one level below the indenter's depth before it and
      at the depth after it, keeps the tokens tracking the indenter. */
  lemma TracksSnoc(acc: seq<Token>, ind: IndentState, ts: seq<Token>, ind': IndentState)
    requires Tracks(acc, ind) && Grouped(ts) && |Entries(ts)| == 1
    requires Entries(ts)[0].level == |ind'.stack| - 1 <= |ind.stack|
    ensures Tracks(acc + ts, ind')
  {
    EntriesAppend(acc, ts);
    var es := Entries(acc);
    var es' := Entries(acc + ts);
    assert es' == es + Entries(ts);
    assert es'[|es|] == Entries(ts)[0];
    forall i | 0 < i < |es'|
      ensures es'[i].level <= es'[i - 1].level + 1
    {
      if i < |es| {
        assert es'[i] == es[i] && es'[i - 1] == es[i - 1];
      } else {
        assert es'[i - 1] == es[|es| - 1];
      }
    }
  }

  /** A line that yields tokens adds one entry at most one level below the last. */
  lemma {:induction false} KeptStepTracks(rules: VampRules, lines: seq<string>, ind: IndentState, acc: seq<Token>)
    requires QuotationsOk(rules.quotations) && StackOk(ind.stack, ind.uniform)
    requires Tracks(acc, ind)
    ensures var step := KeptStep(rules, lines, ind, acc);
      (step.Continue? ==> Tracks(step.tokens, step.indent)) &&
      (step.Finished? ==> step.lexed.tokens == acc)
  {
    var step := KeptStep(rules, lines, ind, acc);
    if step.Continue? && step.tokens != acc {
      var line := lines[0];
      var u := UnindentSpec(ind, line);
      var level := u.result.value.1;
      var s := Scan(rules.quotations, u.result.value.0, lines[1..], []);
      var frags := NonComments(s.value.fragments);
      var ts := LineTokens(rules, level, frags);
      assert step.tokens == acc + ts && step.indent == u.state;
      UnindentLevel(ind, line);
      LineEntry(rules, level, frags);
      TracksSnoc(acc, ind, ts, u.state);
    }
  }

  lemma {:induction false} KeptLinesTrack(rules: VampRules, lines: seq<string>, ind: IndentState, acc: seq<Token>)
    requires QuotationsOk(rules.quotations) && StackOk(ind.stack, ind.uniform)
    requires Tracks(acc, ind)
    ensures Grouped(KeptLines(rules, lines, ind, acc).tokens)
    ensures Rising(Entries(KeptLines(rules, lines, ind, acc).tokens))
    decreases |lines|
  {
    KeptStepTracks(rules, lines, ind, acc);
    var step := KeptStep(rules, lines, ind, acc);
    if step.Continue? {
      KeptLinesTrack(rules, step.lines, step.indent, step.tokens);
    }
  }

  /** With the correction, the levels of a program's lines hold to `Steps`
      exactly when its first line is not indented, so every tree that builds
      is the one `ParseOutline` describes; the as-written levels of
      `SiblingNestedAfterComment` build without holding to it. */
  lemma KeptProgramSteps(rules: VampRules, program: string)
    requires QuotationsOk(rules.quotations)
    ensures Grouped(KeptTokens(rules, program).tokens)
    ensures var es := Entries(KeptTokens(rules, program).tokens);
      (Steps(es) <==> es == [] || es[0].level == 0) &&
      (ParseEntries(Start, es).Ok? ==> Steps(es))
  {
    assert Entries([]) == [];
    KeptLinesTrack(rules, Lines(program), IndentState([""], None), []);
    var es := Entries(KeptTokens(rules, program).tokens);
    ParseFailsIffFirstIndented(es);
  }
}
