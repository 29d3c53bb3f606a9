/** Reading a program line by line, and the indentation tracker of the lexer
    (`VampParser.Indenter`, present with the same body in both lexer files). */
module Indentation {
  import opened Results
  import opened Text

  /** A `StringReader` over the program, seen through `ReadLine` only. */
  class LineReader {
    var lines: seq<string>
    var next: nat

    ghost predicate Valid()
      reads this
    {
      next <= |lines|
    }

    /** The lines not read yet. */
    function Rest(): seq<string>
      reads this
      requires Valid()
    {
      lines[next..]
    }

    constructor (program: string)
      ensures Valid() && lines == Lines(program) && next == 0
      ensures Rest() == Lines(program)
    {
      lines := Lines(program);
      next := 0;
    }

    /** `ReadLine`: the next line, or None (the source's null) once all are read. */
    method ReadLine() returns (line: Option<string>)
      requires Valid()
      modifies this
      ensures Valid() && lines == old(lines)
      ensures old(Rest()) == [] ==> line.None? && Rest() == []
      ensures old(Rest()) != [] ==> line == Some(old(Rest())[0]) && Rest() == old(Rest())[1..]
    {
      if next == |lines| {
        return None;
      }
      line := Some(lines[next]);
      next := next + 1;
    }
  }

  /** Every character of `ws` is `c`. */
  predicate AllChar(ws: string, c: char) {
    forall i :: 0 <= i < |ws| ==> ws[i] == c
  }

  /** The whitespace character fixed for the document after a prefix `ws` was
      scanned: the first one ever seen. */
  function UniformAfter(u: Option<char>, ws: string): (r: Option<char>)
    ensures u.Some? ==> r == u
    ensures ws != [] ==> r.Some?
  {
    if u.None? && ws != [] then Some(ws[0]) else u
  }

  /** `ws` uses only the document's whitespace character. */
  predicate Uniform(u: Option<char>, ws: string) {
    ws == [] || AllChar(ws, UniformAfter(u, ws).value)
  }

  /** The indentation prefixes on the stack: the empty one at the bottom, then
      strictly longer ones, all made of the document's whitespace character. */
  predicate StackOk(stack: seq<string>, u: Option<char>) {
    |stack| >= 1 && stack[0] == "" &&
    (forall i, j :: 0 <= i < j < |stack| ==> |stack[i]| < |stack[j]|) &&
    (u.None? ==> |stack| == 1) &&
    (u.Some? ==> forall i :: 0 <= i < |stack| ==> AllChar(stack[i], u.value))
  }

  /** The un-indent loop: frames longer than `n` are popped. The bottom frame has
      length 0, so it is never popped. */
  function PopLonger(stack: seq<string>, n: nat): (r: seq<string>)
    requires |stack| >= 1 && |stack[0]| == 0
    ensures 1 <= |r| <= |stack| && r == stack[..|r|]
    ensures |r[|r| - 1]| <= n
    ensures forall i :: |r| <= i < |stack| ==> |stack[i]| > n
    decreases |stack|
  {
    if |stack[|stack| - 1]| > n then PopLonger(stack[..|stack| - 1], n) else stack
  }

  /** The indenter's state, and what one call to `Unindent` does to it. */
  datatype IndentState = IndentState(stack: seq<string>, uniform: Option<char>)

  datatype Unindented = Unindented(state: IndentState, result: Result<(string, nat)>)

  /** `Unindent(line)`: the text after the whitespace prefix and the indentation
      level, with the new stack; the whitespace character is fixed first, then the
      stack is pushed or popped. */
  function UnindentSpec(st: IndentState, line: string): Unindented
    requires |st.stack| >= 1 && |st.stack[0]| == 0
  {
    var n := LeadingWhiteSpace(line);
    var ws := line[..n];
    var u := UniformAfter(st.uniform, ws);
    if !Uniform(st.uniform, ws) then Unindented(IndentState(st.stack, u), Err(MixedTabsAndSpaces))
    else if |st.stack[|st.stack| - 1]| < n then
      var stack := st.stack + [ws];
      Unindented(IndentState(stack, u), Ok((line[n..], |stack| - 1)))
    else
      var stack := PopLonger(st.stack, n);
      if |stack[|stack| - 1]| != n then Unindented(IndentState(stack, u), Err(WrongIndentation))
      else Unindented(IndentState(stack, u), Ok((line[n..], |stack| - 1)))
  }

  /** Only the leading-whitespace count can satisfy its own characterisation. */
  lemma LeadingWhiteSpaceIs(s: string, i: nat)
    requires i <= |s| && forall j :: 0 <= j < i ==> IsWhiteSpace(s[j])
    requires i == |s| || !IsWhiteSpace(s[i])
    ensures LeadingWhiteSpace(s) == i
  {
  }

  class Indenter {
    var stack: seq<string>
    var uniform: Option<char>

    ghost predicate Valid()
      reads this
    {
      StackOk(stack, uniform)
    }

    function State(): IndentState
      reads this
    {
      IndentState(stack, uniform)
    }

    constructor ()
      ensures Valid() && stack == [""] && uniform.None?
    {
      stack := [""];
      uniform := None;
    }

    /** The first half of `Unindent`: the whitespace prefix is measured and the
        document's whitespace character fixed; `mixed` reports a character other
        than that one. */
    method ScanPrefix(line: string) returns (n: nat, mixed: bool)
      modifies this
      ensures stack == old(stack)
      ensures uniform == UniformAfter(old(uniform), line[..LeadingWhiteSpace(line)])
      ensures mixed <==> !Uniform(old(uniform), line[..LeadingWhiteSpace(line)])
      ensures n == LeadingWhiteSpace(line)
    {
      n := 0;
      while n < |line| && IsWhiteSpace(line[n])
        invariant n <= |line| && forall j :: 0 <= j < n ==> IsWhiteSpace(line[j])
        invariant uniform == UniformAfter(old(uniform), line[..n]) && Uniform(old(uniform), line[..n])
        invariant stack == old(stack)
      {
        if uniform.None? {
          uniform := Some(line[n]);
        } else if uniform.value != line[n] {
          LeadingWhiteSpaceMixed(line, n, old(uniform));
          n := LeadingWhiteSpace(line);
          return n, true;
        }
        assert line[..n + 1] == line[..n] + [line[n]];
        n := n + 1;
      }
      LeadingWhiteSpaceIs(line, n);
      mixed := false;
    }

    /** The second half of `Unindent` on a prefix no deeper than the top frame:
        every frame longer than `n` is popped. */
    method PopTo(n: nat)
      requires |stack| >= 1 && |stack[0]| == 0
      modifies this
      ensures stack == PopLonger(old(stack), n) && uniform == old(uniform)
    {
      while |stack[|stack| - 1]| > n
        invariant uniform == old(uniform)
        invariant |stack| >= 1 && |stack[0]| == 0
        invariant PopLonger(stack, n) == PopLonger(old(stack), n)
        decreases |stack|
      {
        stack := stack[..|stack| - 1];
      }
    }

    method Unindent(line: string) returns (r: Result<(string, nat)>)
      requires Valid()
      modifies this
      ensures var out := UnindentSpec(old(State()), line);
        stack == out.state.stack && uniform == out.state.uniform && r == out.result
      ensures r.Ok? ==> Valid()
    {
      ghost var st := State();
      var n, mixed := ScanPrefix(line);
      if mixed {
        UnindentSpecMixed(st, line);
        return Err(MixedTabsAndSpaces);
      }
      if |stack[|stack| - 1]| < n {
        UnindentSpecPush(st, line);
        UnindentKeepsStackOk(st, line);
        stack := stack + [line[..n]];
        return Ok((line[n..], |stack| - 1));
      }
      UnindentSpecPop(st, line);
      PopTo(n);
      if |stack[|stack| - 1]| != n {
        return Err(WrongIndentation);
      }
      UnindentKeepsStackOk(st, line);
      r := Ok((line[n..], |stack| - 1));
    }
  }

  /** The three ways `Unindent` can end. */
  lemma UnindentSpecMixed(st: IndentState, line: string)
    requires |st.stack| >= 1 && |st.stack[0]| == 0
    requires !Uniform(st.uniform, line[..LeadingWhiteSpace(line)])
    ensures UnindentSpec(st, line) ==
      Unindented(IndentState(st.stack, UniformAfter(st.uniform, line[..LeadingWhiteSpace(line)])), Err(MixedTabsAndSpaces))
  {
  }

  lemma UnindentSpecPush(st: IndentState, line: string)
    requires |st.stack| >= 1 && |st.stack[0]| == 0
    requires Uniform(st.uniform, line[..LeadingWhiteSpace(line)])
    requires |st.stack[|st.stack| - 1]| < LeadingWhiteSpace(line)
    ensures var n := LeadingWhiteSpace(line);
      UnindentSpec(st, line) ==
      Unindented(IndentState(st.stack + [line[..n]], UniformAfter(st.uniform, line[..n])), Ok((line[n..], |st.stack|)))
  {
  }

  lemma UnindentSpecPop(st: IndentState, line: string)
    requires |st.stack| >= 1 && |st.stack[0]| == 0
    requires Uniform(st.uniform, line[..LeadingWhiteSpace(line)])
    requires LeadingWhiteSpace(line) <= |st.stack[|st.stack| - 1]|
    ensures var n := LeadingWhiteSpace(line);
      var popped := PopLonger(st.stack, n);
      UnindentSpec(st, line) ==
      Unindented(IndentState(popped, UniformAfter(st.uniform, line[..n])),
        if |popped[|popped| - 1]| != n then Err(WrongIndentation) else Ok((line[n..], |popped| - 1)))
  {
  }

  /** A mismatching character inside the prefix makes the whole prefix mixed. */
  lemma LeadingWhiteSpaceMixed(line: string, i: nat, u: Option<char>)
    requires i < |line| && forall j :: 0 <= j <= i ==> IsWhiteSpace(line[j])
    requires UniformAfter(u, line[..i]).Some? && UniformAfter(u, line[..i]).value != line[i]
    ensures !Uniform(u, line[..LeadingWhiteSpace(line)])
  {
    var n := LeadingWhiteSpace(line);
    assert i < n;
    var ws := line[..n];
    assert ws[i] == line[i];
    if i > 0 {
      assert ws[0] == line[..i][0];
    }
  }

  /** A successful `Unindent` keeps the stack well formed. */
  lemma UnindentKeepsStackOk(st: IndentState, line: string)
    requires StackOk(st.stack, st.uniform)
    ensures UnindentSpec(st, line).result.Ok? ==> StackOk(UnindentSpec(st, line).state.stack, UnindentSpec(st, line).state.uniform)
  {
    var n := LeadingWhiteSpace(line);
    var ws := line[..n];
    var u := UniformAfter(st.uniform, ws);
    var out := UnindentSpec(st, line);
    if out.result.Ok? {
      if |st.stack[|st.stack| - 1]| < n {
        assert u.Some?;
        forall i | 0 <= i < |out.state.stack| ensures AllChar(out.state.stack[i], u.value) {
          if i < |st.stack| && i > 0 {
            assert st.uniform.Some?;
          }
        }
      }
    }
  }

  // ---------------------------------------------------------------------------
  // What one un-indent promises

  /** The returned text is the line without exactly its whitespace prefix, and
      the prefix is all the leading whitespace there is. */
  lemma {:induction false} UnindentText(st: IndentState, line: string)
    requires StackOk(st.stack, st.uniform)
    requires UnindentSpec(st, line).result.Ok?
    ensures var text := UnindentSpec(st, line).result.value.0;
      exists ws :: (line == ws + text && (forall i :: 0 <= i < |ws| ==> IsWhiteSpace(ws[i])) &&
        (text == [] || !IsWhiteSpace(text[0])))
  {
    var n := LeadingWhiteSpace(line);
    assert line == line[..n] + line[n..];
  }

  /** The level is the number of frames above the bottom one, and it rises by at
      most one per line; the top frame is then exactly the line's prefix. */
  lemma {:induction false} UnindentLevel(st: IndentState, line: string)
    requires StackOk(st.stack, st.uniform)
    requires UnindentSpec(st, line).result.Ok?
    ensures var out := UnindentSpec(st, line);
      out.result.value.1 == |out.state.stack| - 1 &&
      out.result.value.1 <= |st.stack| &&
      out.state.stack[|out.state.stack| - 1] == line[..LeadingWhiteSpace(line)]
  {
    var n := LeadingWhiteSpace(line);
    var ws := line[..n];
    var out := UnindentSpec(st, line);
    UnindentKeepsStackOk(st, line);
    var top := out.state.stack[|out.state.stack| - 1];
    if |top| == n && n > 0 {
      var u := out.state.uniform.value;
      assert AllChar(top, u);
      assert AllChar(ws, u);
      assert top == ws;
    }
  }

  /** A deeper prefix pushes one frame. */
  lemma {:induction false} UnindentPush(st: IndentState, line: string)
    requires StackOk(st.stack, st.uniform)
    requires Uniform(st.uniform, line[..LeadingWhiteSpace(line)])
    requires |st.stack[|st.stack| - 1]| < LeadingWhiteSpace(line)
    ensures UnindentSpec(st, line).result.Ok?
    ensures UnindentSpec(st, line).state.stack == st.stack + [line[..LeadingWhiteSpace(line)]]
    ensures UnindentSpec(st, line).result.value.1 == |st.stack|
  {
  }

  /** A prefix no longer than the top pops every longer frame, and fails unless a
      frame of exactly that length is then on top. */
  lemma {:induction false} UnindentPop(st: IndentState, line: string)
    requires StackOk(st.stack, st.uniform)
    requires Uniform(st.uniform, line[..LeadingWhiteSpace(line)])
    requires LeadingWhiteSpace(line) <= |st.stack[|st.stack| - 1]|
    ensures var n := LeadingWhiteSpace(line);
      var out := UnindentSpec(st, line);
      out.state.stack == PopLonger(st.stack, n) &&
      (out.result.Ok? <==> |PopLonger(st.stack, n)[|PopLonger(st.stack, n)| - 1]| == n) &&
      (out.result.Err? ==> out.result.error == WrongIndentation)
  {
  }

  /** Mixed whitespace is reported exactly when the prefix contains a character
      other than the one the document started with; once fixed, that character
      never changes. */
  lemma {:induction false} UnindentMixed(st: IndentState, line: string)
    requires StackOk(st.stack, st.uniform)
    ensures var ws := line[..LeadingWhiteSpace(line)];
      var out := UnindentSpec(st, line);
      (out.result == Err(MixedTabsAndSpaces) <==> !Uniform(st.uniform, ws)) &&
      (st.uniform.Some? ==> out.state.uniform == st.uniform) &&
      (st.uniform.Some? && out.result.Ok? ==> AllChar(ws, st.uniform.value))
  {
  }
}
