/** The token stream of the lexer (`VampParser.Token`, `StringSplitter` and
    `Tokenize` in Vamp/Vamp.cs). Every non-blank line that has fragments left
    once comments are dropped yields an `Indentation` token followed either by
    one `ElementValue` or by a `Key`, an `Operator` and a `Value`. */
module Tokenizer {
  import opened Results
  import opened Text
  import opened Strings
  import opened Rules
  import opened Indentation
  import opened Quoter

  datatype Token =
    | Indentation(level: nat)
    | Key(key: QuotedString)
    | Operator(op: QuotedString)
    | Value(values: seq<QuotedString>)
    | ElementValue(value: QuotedString)

  // ---------------------------------------------------------------------------
  // StringSplitter

  /** The characters `GetNextString` splits at (`VampParser.Whitespace`). */
  const Separators: set<char> := {' ', '\t'}

  /** The splitter's fields. `toSplit` is the unquoted text being cut into words;
      the source's null and "" behave the same everywhere, so both are "". */
  datatype SplitState = SplitState(strings: seq<QuotedString>, index: nat, toSplit: string)

  datatype Next = Next(state: SplitState, piece: Option<QuotedString>)

  /** A word: no space or tab in it. */
  predicate IsWord(w: string) {
    forall j :: 0 <= j < |w| ==> w[j] !in Separators
  }

  /** Cut the first word off `s`: up to the first space or tab, the rest trimmed. */
  function SplitOff(st: SplitState, s: string): (n: Next)
    ensures n.state.strings == st.strings && n.state.index == st.index && n.piece.Some?
    ensures n.piece.value.quotation.None? && IsWord(n.piece.value.snippet)
  {
    match FindAny(s, Separators)
    case None => Next(st.(toSplit := ""), Some(Unquoted(s)))
    case Some(i) => Next(st.(toSplit := Trim(s[i + 1..])), Some(Unquoted(s[..i])))
  }

  /** `GetNextString`: the next word of the unquoted text being split, else the
      next fragment (a quoted one whole), else None. */
  function NextString(st: SplitState): (n: Next)
    ensures n.state.strings == st.strings
    ensures st.toSplit == [] && st.index < |st.strings| ==> n.piece.Some? && n.state.index == st.index + 1
    ensures st.toSplit != [] ==> n.piece.Some? && n.state.index == st.index
    ensures st.toSplit == [] && st.index >= |st.strings| ==> n == Next(st, None)
  {
    if st.toSplit == [] then
      if st.index >= |st.strings| then Next(st, None)
      else
        var q := st.strings[st.index];
        var st1 := st.(index := st.index + 1);
        if q.quotation.Some? then Next(st1, Some(q)) else SplitOff(st1, q.snippet)
    else SplitOff(st, st.toSplit)
  }

  /** `JoinRest`: what is left of the text being split, then the fragments not
      handed out yet. */
  function JoinRest(st: SplitState): seq<QuotedString> {
    Word(Trim(st.toSplit)) + (if st.index <= |st.strings| then st.strings[st.index..] else [])
  }

  /** What is left after a cut at separator `i` of a trimmed text: a non-empty
      tail of it, with only white space between the cut and the tail. */
  /** Text that ends in a non-blank character trims at the front only. */
  lemma TrimNonBlankEnd(t: string)
    requires t != [] && !IsWhiteSpace(t[|t| - 1])
    ensures LeadingWhiteSpace(t) < |t| && Trim(t) == t[LeadingWhiteSpace(t)..]
  {
    assert TrailingWhiteSpace(t) == 0;
  }

  lemma CutAt(s: string, i: nat)
    requires IsTrimmed(s) && i < |s| && s[i] in Separators
    ensures var rest := Trim(s[i + 1..]);
      rest != [] && i + 1 + |rest| <= |s| && s[|s| - |rest|..] == rest &&
      forall j :: i <= j < |s| - |rest| ==> IsWhiteSpace(s[j])
  {
    assert IsWhiteSpace(s[i]);
    assert i + 1 < |s|;
    var t := s[i + 1..];
    assert t[|t| - 1] == s[|s| - 1];
    TrimNonBlankEnd(t);
    var lead := LeadingWhiteSpace(t);
    assert Trim(t) == s[i + 1 + lead..];
    forall j | i < j < i + 1 + lead
      ensures IsWhiteSpace(s[j])
    {
      assert s[j] == t[j - i - 1];
    }
  }

  /** Cutting a word off a trimmed text loses only the white space after the
      word: the text is the word, a run of white space, and what is left. */
  lemma {:induction false} SplitOffLosesOnlySeparators(st: SplitState, s: string)
    requires IsTrimmed(s)
    ensures var n := SplitOff(st, s);
      var w := n.piece.value.snippet;
      var rest := n.state.toSplit;
      |w| + |rest| <= |s| && s[..|w|] == w && s[|s| - |rest|..] == rest &&
      (forall j :: |w| <= j < |s| - |rest| ==> IsWhiteSpace(s[j])) &&
      (rest == [] ==> w == s)
  {
    var f := FindAny(s, Separators);
    if f.Some? {
      CutAt(s, f.value);
    }
  }

  /** A quoted fragment is handed out whole and in order. */
  lemma QuotedHandedOutWhole(st: SplitState)
    requires st.toSplit == [] && st.index < |st.strings| && st.strings[st.index].quotation.Some?
    ensures NextString(st) == Next(st.(index := st.index + 1), Some(st.strings[st.index]))
    ensures JoinRest(st) == [st.strings[st.index]] + JoinRest(NextString(st).state)
  {
    assert Trim([]) == [];
    assert st.strings[st.index..] == [st.strings[st.index]] + st.strings[st.index + 1..];
  }

  class StringSplitter {
    var strings: seq<QuotedString>
    var index: nat
    var toSplit: string

    function State(): SplitState
      reads this
    {
      SplitState(strings, index, toSplit)
    }

    constructor (strings: seq<QuotedString>)
      ensures State() == SplitState(strings, 0, "")
    {
      this.strings := strings;
      index := 0;
      toSplit := "";
    }

    /** The word-cutting half of `GetNextString`. */
    method CutWord(s: string) returns (r: Option<QuotedString>)
      modifies this
      ensures Next(State(), r) == SplitOff(old(State()), s)
    {
      var tokenEnd := FindAny(s, Separators);
      if tokenEnd.None? {
        toSplit := "";
        r := Some(Unquoted(s));
      } else {
        toSplit := Trim(s[tokenEnd.value + 1..]);
        r := Some(Unquoted(s[..tokenEnd.value]));
      }
    }

    method GetNextString() returns (r: Option<QuotedString>)
      modifies this
      ensures Next(State(), r) == NextString(old(State()))
    {
      if toSplit == "" {
        if index >= |strings| {
          return None;
        }
        var q := strings[index];
        index := index + 1;
        if q.quotation.Some? {
          return Some(q);
        }
        r := CutWord(q.snippet);
      } else {
        r := CutWord(toSplit);
      }
    }

    method JoinRestMethod() returns (r: seq<QuotedString>)
      ensures r == JoinRest(State())
    {
      r := [];
      var remaining := Trim(toSplit);
      if remaining != "" {
        r := r + [Unquoted(remaining)];
      }
      if index <= |strings| {
        r := r + strings[index..];
      }
    }
  }

  // ---------------------------------------------------------------------------
  // One line

  /** `rules.Operators.FirstOrDefault(o => key.EndsWith(o))`: the first operator,
      in list order, that the key ends with. */
  function FirstSuffix(ops: seq<string>, key: string): (r: Option<nat>)
    ensures r.Some? ==> r.value < |ops| && EndsWith(key, ops[r.value])
    ensures r.Some? ==> forall j :: 0 <= j < r.value ==> !EndsWith(key, ops[j])
    ensures r.None? ==> forall j :: 0 <= j < |ops| ==> !EndsWith(key, ops[j])
  {
    if ops == [] then None
    else if EndsWith(key, ops[0]) then Some(0)
    else
      var r := FirstSuffix(ops[1..], key);
      if r.None? then None else Some(r.value + 1)
  }

  /** The key of a line and the operator glued to its end, if any. A quoted key is
      never split. */
  datatype KeyOp = KeyOp(key: QuotedString, op: Option<QuotedString>)

  function SplitKey(ops: seq<string>, k: QuotedString): (r: KeyOp)
    ensures r.op.Some? ==> k.quotation.None? && r.key.quotation.None? && r.op.value.quotation.None?
    ensures r.op.Some? ==> k.snippet == r.key.snippet + r.op.value.snippet
    ensures r.op.None? ==> r.key == k
  {
    if k.quotation.Some? then KeyOp(k, None)
    else
      var i := FirstSuffix(ops, k.snippet);
      if i.None? then KeyOp(k, None)
      else
        var key := k.snippet[..|k.snippet| - |ops[i.value]|];
        assert k.snippet == key + ops[i.value];
        KeyOp(Unquoted(key), Some(Unquoted(ops[i.value])))
  }

  /** The tokens of one line whose non-comment fragments are `frags` (case 1:
      a single quoted fragment; case 2: key, operator, value). */
  function LineTokens(rules: VampRules, level: nat, frags: seq<QuotedString>): (ts: seq<Token>)
    requires frags != []
    ensures |ts| == 2 || |ts| == 4
    ensures ts[0] == Indentation(level)
  {
    if |frags| == 1 && frags[0].quotation.Some? then [Indentation(level), ElementValue(frags[0])]
    else
      var first := NextString(SplitState(frags, 0, ""));
      var ko := SplitKey(rules.operators, first.piece.value);
      var second := if ko.op.Some? then Next(first.state, ko.op) else NextString(first.state);
      var op := if second.piece.Some? then second.piece.value else Unquoted(rules.defaultOp);
      [Indentation(level), Key(ko.key), Operator(op), Value(JoinRest(second.state))]
  }

  /** Case 2 of `Tokenize` for one line, with the splitter. */
  method SplitLine(rules: VampRules, level: nat, frags: seq<QuotedString>) returns (ts: seq<Token>)
    requires frags != [] && !(|frags| == 1 && frags[0].quotation.Some?)
    ensures ts == LineTokens(rules, level, frags)
  {
    var splitter := new StringSplitter(frags);
    ghost var first := NextString(SplitState(frags, 0, ""));
    var qOp: Option<QuotedString> := None;
    var qKey := splitter.GetNextString();
    assert qKey == first.piece && splitter.State() == first.state;
    ghost var ko := SplitKey(rules.operators, first.piece.value);
    var key := qKey.value;
    if key.quotation.None? {
      var i := FirstSuffix(rules.operators, key.snippet);
      if i.Some? {
        var op := rules.operators[i.value];
        key := Unquoted(key.snippet[..|key.snippet| - |op|]);
        qOp := Some(Unquoted(op));
      }
    }
    assert key == ko.key && qOp == ko.op;
    ghost var second := if ko.op.Some? then Next(first.state, ko.op) else NextString(first.state);
    if qOp.None? {
      qOp := splitter.GetNextString();
    }
    assert qOp == second.piece && splitter.State() == second.state;
    var op := if qOp.Some? then qOp.value else Unquoted(rules.defaultOp);
    var values := splitter.JoinRestMethod();
    ts := [Indentation(level), Key(key), Operator(op), Value(values)];
  }

  // ---------------------------------------------------------------------------
  // What a line's tokens promise

  /** Case 1 exactly when the line is one quoted fragment. */
  lemma ElementValueExactly(rules: VampRules, level: nat, frags: seq<QuotedString>)
    requires frags != []
    ensures LineTokens(rules, level, frags)[1].ElementValue? <==> |frags| == 1 && frags[0].quotation.Some?
    ensures LineTokens(rules, level, frags)[1].ElementValue? ==> LineTokens(rules, level, frags)[1].value == frags[0]
  {
  }

  /** A quoted first fragment is the key, unsplit; the next fragment or word is
      the operator and the rest is the value. */
  lemma QuotedKey(rules: VampRules, level: nat, frags: seq<QuotedString>)
    requires |frags| >= 2 && frags[0].quotation.Some?
    ensures var st := SplitState(frags, 1, "");
      var second := NextString(st);
      LineTokens(rules, level, frags) ==
        [Indentation(level), Key(frags[0]), Operator(second.piece.value), Value(JoinRest(second.state))]
  {
    assert NextString(SplitState(frags, 0, "")) == Next(SplitState(frags, 1, ""), Some(frags[0]));
  }

  /** An unquoted first word ending in an operator is split into key and
      operator, the first operator in list order that fits winning; the value
      is everything after the word. */
  lemma GluedOperator(rules: VampRules, level: nat, w: string, i: nat, rest: seq<QuotedString>)
    requires IsWord(w)
    requires i < |rules.operators| && EndsWith(w, rules.operators[i])
    requires forall j :: 0 <= j < i ==> !EndsWith(w, rules.operators[j])
    ensures var op := rules.operators[i];
      LineTokens(rules, level, [Unquoted(w)] + rest) ==
        [Indentation(level), Key(Unquoted(w[..|w| - |op|])), Operator(Unquoted(op)), Value(rest)]
  {
    var frags := [Unquoted(w)] + rest;
    var st1 := SplitState(frags, 1, "");
    assert FindAny(w, Separators).None?;
    assert NextString(SplitState(frags, 0, "")) == Next(st1, Some(Unquoted(w)));
    var op := rules.operators[i];
    assert FirstSuffix(rules.operators, w) == Some(i);
    assert SplitKey(rules.operators, Unquoted(w)) == KeyOp(Unquoted(w[..|w| - |op|]), Some(Unquoted(op)));
    assert Trim([]) == [];
    assert frags[1..] == rest;
    assert JoinRest(st1) == rest;
  }

  /** An unquoted line that is a single word with no operator at its end gets
      the default operator and an empty value. */
  lemma LoneWordDefaultOp(rules: VampRules, level: nat, w: string)
    requires IsWord(w)
    requires forall j :: 0 <= j < |rules.operators| ==> !EndsWith(w, rules.operators[j])
    ensures LineTokens(rules, level, [Unquoted(w)]) ==
      [Indentation(level), Key(Unquoted(w)), Operator(Unquoted(rules.defaultOp)), Value([])]
  {
    var st1 := SplitState([Unquoted(w)], 1, "");
    assert FindAny(w, Separators).None?;
    assert NextString(SplitState([Unquoted(w)], 0, "")) == Next(st1, Some(Unquoted(w)));
    assert FirstSuffix(rules.operators, w).None?;
    assert NextString(st1) == Next(st1, None);
    assert Trim([]) == [];
    assert JoinRest(st1) == [];
  }

  /** Under the XAML operators `A:=` ends with `=` before `:=` is tried, so it is
      read as key `A:` with operator `=`. */
  lemma ColonEqualsSplitsAtEquals(level: nat, rest: seq<QuotedString>)
    ensures LineTokens(XamlRules(), level, [Unquoted("A:=")] + rest) ==
      [Indentation(level), Key(Unquoted("A:")), Operator(Unquoted("=")), Value(rest)]
  {
    var ops := XamlRules().operators;
    assert EndsWith("A:=", ops[0]);
    assert "A:="[..2] == "A:";
    GluedOperator(XamlRules(), level, "A:=", 0, rest);
  }

  // ---------------------------------------------------------------------------
  // The whole program

  /** The fragments that are not comments (the `Where` after `GetStrings`). */
  function NonComments(frags: seq<QuotedString>): (r: seq<QuotedString>)
    ensures forall i :: 0 <= i < |r| ==> !IsComment(r[i])
    ensures |r| <= |frags|
  {
    if frags == [] then []
    else (if IsComment(frags[0]) then [] else [frags[0]]) + NonComments(frags[1..])
  }

  /** The token stream, possibly cut short by an error; the source yields tokens
      lazily and throws at the first bad line. */
  datatype Lexed = Lexed(tokens: seq<Token>, error: Option<Error>)

  /** One iteration of the `Tokenize` loop: finished, or the lines, indenter
      state and tokens after one more physical line (and any it pulled in). */
  datatype LineStep = Finished(lexed: Lexed) | Continue(lines: seq<string>, indent: IndentState, tokens: seq<Token>)

  function TokenizeStep(rules: VampRules, lines: seq<string>, ind: IndentState, acc: seq<Token>): (r: LineStep)
    requires QuotationsOk(rules.quotations) && StackOk(ind.stack, ind.uniform)
    ensures r.Continue? ==> |r.lines| < |lines| && StackOk(r.indent.stack, r.indent.uniform)
    ensures r.Continue? ==> |acc| <= |r.tokens| && r.tokens[..|acc|] == acc
    ensures r.Finished? ==> |acc| <= |r.lexed.tokens| && r.lexed.tokens[..|acc|] == acc
  {
    if lines == [] then Finished(Lexed(acc, None))
    else
      var line := lines[0];
      if Trim(line) == "" then Continue(lines[1..], ind, acc)
      else
        var u := UnindentSpec(ind, line);
        if u.result.Err? then Finished(Lexed(acc, Some(u.result.error)))
        else
          UnindentKeepsStackOk(ind, line);
          var text := u.result.value.0;
          var level := u.result.value.1;
          ScanExtends(rules.quotations, text, lines[1..], []);
          var s := Scan(rules.quotations, text, lines[1..], []);
          if s.Err? then Finished(Lexed(acc, Some(s.error)))
          else
            var frags := NonComments(s.value.fragments);
            if frags == [] then Continue(s.value.more, u.state, acc)
            else
              var ts := acc + LineTokens(rules, level, frags);
              assert ts[..|acc|] == acc;
              Continue(s.value.more, u.state, ts)
  }

  function TokenizeLines(rules: VampRules, lines: seq<string>, ind: IndentState, acc: seq<Token>): Lexed
    requires QuotationsOk(rules.quotations) && StackOk(ind.stack, ind.uniform)
    decreases |lines|
  {
    var step := TokenizeStep(rules, lines, ind, acc);
    if step.Finished? then step.lexed else TokenizeLines(rules, step.lines, step.indent, step.tokens)
  }

  /** `Tokenize(program, rules)`. */
  function TokenizeSpec(rules: VampRules, program: string): Lexed
    requires QuotationsOk(rules.quotations)
  {
    TokenizeLines(rules, Lines(program), IndentState([""], None), [])
  }

  /** The stream is a sequence of line groups: `Indentation` then either one
      `ElementValue` or `Key`, `Operator`, `Value`. */
  predicate Grouped(ts: seq<Token>)
    decreases |ts|
  {
    ts == [] ||
    (|ts| >= 2 && ts[0].Indentation? && ts[1].ElementValue? && Grouped(ts[2..])) ||
    (|ts| >= 4 && ts[0].Indentation? && ts[1].Key? && ts[2].Operator? && ts[3].Value? && Grouped(ts[4..]))
  }

  lemma {:induction false} GroupedAppend(a: seq<Token>, b: seq<Token>)
    requires Grouped(a) && Grouped(b)
    ensures Grouped(a + b)
    decreases |a|
  {
    if a != [] {
      if |a| >= 2 && a[0].Indentation? && a[1].ElementValue? && Grouped(a[2..]) {
        GroupedAppend(a[2..], b);
        assert (a + b)[2..] == a[2..] + b;
      } else {
        GroupedAppend(a[4..], b);
        assert (a + b)[4..] == a[4..] + b;
      }
    } else {
      assert a + b == b;
    }
  }

  lemma LineTokensGrouped(rules: VampRules, level: nat, frags: seq<QuotedString>)
    requires frags != []
    ensures Grouped(LineTokens(rules, level, frags))
  {
    var ts := LineTokens(rules, level, frags);
    if |ts| == 2 {
      assert ts[2..] == [];
    } else {
      assert ts[4..] == [];
    }
  }

  /** Every token stream `Tokenize` produces, complete or cut short, is grouped. */
  lemma {:induction false} TokenizeGrouped(rules: VampRules, lines: seq<string>, ind: IndentState, acc: seq<Token>)
    requires QuotationsOk(rules.quotations) && StackOk(ind.stack, ind.uniform)
    requires Grouped(acc)
    ensures Grouped(TokenizeLines(rules, lines, ind, acc).tokens)
    decreases |lines|
  {
    var step := TokenizeStep(rules, lines, ind, acc);
    if step.Continue? {
      if step.tokens != acc {
        var line := lines[0];
        var u := UnindentSpec(ind, line);
        var s := Scan(rules.quotations, u.result.value.0, lines[1..], []);
        var frags := NonComments(s.value.fragments);
        LineTokensGrouped(rules, u.result.value.1, frags);
        GroupedAppend(acc, LineTokens(rules, u.result.value.1, frags));
      }
      TokenizeGrouped(rules, step.lines, step.indent, step.tokens);
    }
  }

  /** Blank lines yield nothing and do not touch the indenter;
      an error ends the stream with the tokens of the lines before it. */
  lemma BlankLineSkipped(rules: VampRules, line: string, lines: seq<string>, ind: IndentState, acc: seq<Token>)
    requires QuotationsOk(rules.quotations) && StackOk(ind.stack, ind.uniform)
    requires Trim(line) == ""
    ensures TokenizeLines(rules, [line] + lines, ind, acc) == TokenizeLines(rules, lines, ind, acc)
  {
    assert ([line] + lines)[1..] == lines;
  }

  // ---------------------------------------------------------------------------
  // The method

  /** One pass of the `Tokenize` loop. */
  method TokenizeLine(rules: VampRules, reader: LineReader, indenter: Indenter, acc: seq<Token>) returns (step: LineStep)
    requires QuotationsOk(rules.quotations) && reader.Valid() && indenter.Valid()
    modifies reader, indenter
    ensures step == TokenizeStep(rules, old(reader.Rest()), old(indenter.State()), acc)
    ensures reader.Valid() && reader.lines == old(reader.lines)
    ensures step.Continue? ==> reader.Rest() == step.lines && indenter.State() == step.indent && indenter.Valid()
  {
    var next := reader.ReadLine();
    if next.None? {
      return Finished(Lexed(acc, None));
    }
    var line := next.value;
    if Trim(line) == "" {
      return Continue(reader.Rest(), indenter.State(), acc);
    }
    UnindentKeepsStackOk(old(indenter.State()), line);
    var u := indenter.Unindent(line);
    if u.Err? {
      return Finished(Lexed(acc, Some(u.error)));
    }
    var text := u.value.0;
    var level := u.value.1;
    var s := GetStrings(rules.quotations, text, reader);
    if s.Err? {
      return Finished(Lexed(acc, Some(s.error)));
    }
    var frags := NonComments(s.value);
    if frags == [] {
      return Continue(reader.Rest(), indenter.State(), acc);
    }
    var ts: seq<Token>;
    if |frags| == 1 && frags[0].quotation.Some? {
      ts := [Indentation(level), ElementValue(frags[0])];
    } else {
      ts := SplitLine(rules, level, frags);
    }
    return Continue(reader.Rest(), indenter.State(), acc + ts);
  }

  /** `Tokenize`, run to the end of the program or to its first error. */
  method Tokenize(program: string, rules: VampRules) returns (lexed: Lexed)
    requires QuotationsOk(rules.quotations)
    ensures lexed == TokenizeSpec(rules, program)
  {
    var reader := new LineReader(program);
    var indenter := new Indenter();
    var tokens: seq<Token> := [];
    while true
      invariant reader.Valid() && indenter.Valid()
      invariant TokenizeLines(rules, reader.Rest(), indenter.State(), tokens) == TokenizeSpec(rules, program)
      decreases |reader.Rest()|
    {
      var step := TokenizeLine(rules, reader, indenter, tokens);
      if step.Finished? {
        return step.lexed;
      }
      tokens := step.tokens;
    }
  }
}
