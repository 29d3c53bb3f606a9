/** The text-level pieces of the template macro (LessML.Macros.TemplateTransformer):
    the `Name(p1, p2, ...)` header of a template call or definition, the
    case-insensitive `Template ` prefix that marks a definition, the map from
    formal to actual parameters, and the literal substitution that
    `TemplateParameterExpander` applies to every snippet. */
module Templates {
  import opened Results
  import opened Text

  // ---------------------------------------------------------------------------
  // Headers

  /** The last position of `c` in `s`. */
  function LastIndexOf(s: string, c: char): (r: Option<nat>)
    ensures r.Some? ==> r.value < |s| && s[r.value] == c
    ensures r.Some? ==> forall j :: r.value < j < |s| ==> s[j] != c
    ensures r.None? ==> forall j :: 0 <= j < |s| ==> s[j] != c
  {
    if s == [] then None
    else if s[|s| - 1] == c then Some(|s| - 1)
    else LastIndexOf(s[..|s| - 1], c)
  }

  /** A parsed header: the name and the raw (untrimmed) argument texts. */
  datatype Header = Header(name: string, arguments: seq<string>)

  /** The argument list as written between the parentheses. */
  function ArgumentText(args: seq<string>): string {
    if args == [] then "" else Join(args, ',')
  }

  /** No two commas stand next to each other. */
  predicate NoDoubleComma(c: string) {
    forall i :: 0 < i < |c| ==> !(c[i - 1] == ',' && c[i] == ',')
  }

  /** What the repeated group `([^,]+,?)*` can cover: nothing, or text that
      neither starts with a comma nor holds two commas in a row. */
  predicate ListShaped(c: string) {
    c == [] || (c[0] != ',' && NoDoubleComma(c))
  }

  /** The first `j >= i` where `s[j - 1]` and `s[j]` are both commas, or the end. */
  function DoubleCommaFrom(s: string, i: nat): (e: nat)
    requires 0 < i <= |s|
    ensures i <= e <= |s|
    ensures forall j :: i <= j < e ==> !(s[j - 1] == ',' && s[j] == ',')
    ensures e < |s| ==> s[e - 1] == ',' && s[e] == ','
    decreases |s| - i
  {
    if i == |s| then i
    else if s[i - 1] == ',' && s[i] == ',' then i
    else DoubleCommaFrom(s, i + 1)
  }

  /** How far the argument list after a `(` at `p` can reach: not past a leading
      comma, and otherwise up to the second comma of the first `,,`. */
  function ListEnd(s: string, p: nat): (e: nat)
    requires p < |s|
    ensures p < e <= |s|
    ensures e < |s| ==> s[e] == ','
  {
    if p + 1 < |s| && s[p + 1] == ',' then p + 1 else DoubleCommaFrom(s, p + 1)
  }

  /** The list after `p` can cover up to `q` exactly when `q` is within its reach. */
  lemma ShapedUpTo(s: string, p: nat, q: nat)
    requires p < q <= |s|
    ensures ListShaped(s[p + 1..q]) <==> q <= ListEnd(s, p)
  {
    var c := s[p + 1..q];
    var e := ListEnd(s, p);
    if q <= e && c != [] {
      assert c[0] == s[p + 1];
      forall i | 0 < i < |c| ensures !(c[i - 1] == ',' && c[i] == ',') {
        assert c[i - 1] == s[p + i] && c[i] == s[p + 1 + i];
      }
    }
    if e < q {
      if p + 1 < |s| && s[p + 1] == ',' {
        assert c[0] == ',';
      } else {
        var i := e - (p + 1);
        assert c[i - 1] == ',' && c[i] == ',' by {
          assert c[i - 1] == s[e - 1] && c[i] == s[e];
        }
      }
    }
  }

  /** The `)` that closes the list opened at `p`: the last one within its reach. */
  function CloseOf(s: string, p: nat): (r: Option<nat>)
    requires p < |s|
    ensures r.Some? ==> p < r.value < ListEnd(s, p) && s[r.value] == ')'
    ensures r.Some? ==> forall q :: r.value < q < ListEnd(s, p) ==> s[q] != ')'
    ensures r.None? ==> forall q :: p < q < ListEnd(s, p) ==> s[q] != ')'
  {
    var e := ListEnd(s, p);
    var t := s[p + 1..e];
    var l := LastIndexOf(t, ')');
    assert forall q :: p < q < e ==> s[q] == t[q - p - 1];
    if l.None? then None else Some(p + 1 + l.value)
  }

  /** With no two commas in a row only the first and the last piece can be
      empty, and the first is not when the text does not start with a comma. */
  lemma {:induction false} SplitInner(c: string)
    requires NoDoubleComma(c)
    ensures forall k :: 0 < k < |Split(c, ',')| - 1 ==> Split(c, ',')[k] != []
    ensures c != [] && c[0] != ',' ==> Split(c, ',')[0] != []
    decreases |c|
  {
    if c != [] {
      var rest := Split(c[1..], ',');
      assert NoDoubleComma(c[1..]) by {
        forall i | 0 < i < |c[1..]| ensures !(c[1..][i - 1] == ',' && c[1..][i] == ',') {
          assert c[1..][i - 1] == c[i] && c[1..][i] == c[i + 1];
        }
      }
      SplitInner(c[1..]);
      if c[0] == ',' {
        assert Split(c, ',') == [""] + rest;
        if |rest| > 1 {
          assert c[1..] != [];
          assert c[1] != ',' by {
            assert !(c[0] == ',' && c[1] == ',');
          }
        }
      } else {
        assert Split(c, ',') == [[c[0]] + rest[0]] + rest[1..];
      }
    }
  }

  /** The captures of `([^,]+,?)*` over list-shaped text, with their commas
      removed: the comma-separated pieces, less the empty one a final comma
      leaves. */
  function Arguments(c: string): (r: seq<string>)
    requires ListShaped(c)
    ensures forall k :: 0 <= k < |r| ==> r[k] != [] && ',' !in r[k]
  {
    if c == [] then []
    else
      var pieces := Split(c, ',');
      SplitInner(c);
      if pieces[|pieces| - 1] == [] then pieces[..|pieces| - 1] else pieces
  }

  lemma {:induction false} JoinLast(pieces: seq<string>, c: char)
    requires |pieces| >= 2
    ensures Join(pieces, c) == Join(pieces[..|pieces| - 1], c) + [c] + pieces[|pieces| - 1]
    decreases |pieces|
  {
    if |pieces| > 2 {
      JoinLast(pieces[1..], c);
      assert pieces[1..][..|pieces| - 2] == pieces[..|pieces| - 1][1..];
    }
  }

  /** `Split` undoes `Join` when no piece holds the separator. */
  lemma {:induction false} SplitJoin(pieces: seq<string>, c: char)
    requires |pieces| >= 1 && forall k :: 0 <= k < |pieces| ==> c !in pieces[k]
    ensures Split(Join(pieces, c), c) == pieces
    decreases |pieces|
  {
    if |pieces| == 1 {
      SplitWithout(pieces[0], c);
    } else {
      SplitJoin(pieces[1..], c);
      SplitAfter(pieces[0], Join(pieces[1..], c), c);
      assert pieces == [pieces[0]] + pieces[1..];
    }
  }

  lemma {:induction false} SplitWithout(s: string, c: char)
    requires c !in s
    ensures Split(s, c) == [s]
    decreases |s|
  {
    if s != [] {
      SplitWithout(s[1..], c);
      assert [s[0]] + s[1..] == s;
    }
  }

  lemma {:induction false} SplitAfter(a: string, b: string, c: char)
    requires c !in a
    ensures Split(a + [c] + b, c) == [a] + Split(b, c)
    decreases |a|
  {
    if a == [] {
      assert a + [c] + b == [c] + b;
      assert ([c] + b)[1..] == b;
    } else {
      var s := a + [c] + b;
      assert s[1..] == a[1..] + [c] + b;
      SplitAfter(a[1..], b, c);
      assert [a[0]] + a[1..] == a;
    }
  }

  /** The argument text reads back as the list-shaped text it came from, less a
      final comma. */
  lemma ArgumentsText(c: string)
    requires ListShaped(c)
    ensures c != [] && c[|c| - 1] == ',' ==> c == ArgumentText(Arguments(c)) + ","
    ensures !(c != [] && c[|c| - 1] == ',') ==> c == ArgumentText(Arguments(c))
  {
    if c != [] {
      var pieces := Split(c, ',');
      var n := |pieces|;
      JoinSplit(c, ',');
      SplitInner(c);
      if n >= 2 {
        JoinLast(pieces, ',');
      }
      if pieces[n - 1] == [] {
        assert c == Join(pieces[..n - 1], ',') + ",";
      } else {
        assert c[|c| - 1] == pieces[n - 1][|pieces[n - 1]| - 1];
      }
    }
  }

  /** Whether the `(` at `p` has a list that reaches a `)`: the lazy name can stop here. */
  predicate Closes(s: string, p: nat)
    requires p < |s|
  {
    s[p] == '(' && CloseOf(s, p).Some?
  }

  /** The match whose name ends at `p` or later: `(?<Name>.+?)` stops at the
      first `(` that closes, and the list runs to the last `)` it can reach. */
  function HeaderFrom(s: string, p: nat): (r: Result<Header>)
    requires 1 <= p <= |s|
    ensures r.Err? ==> r.error == MalformedTemplateHeader
    ensures r.Ok? ==> p <= |r.value.name| < |s| && s[..|r.value.name|] == r.value.name
    ensures r.Ok? ==> s[|r.value.name|] == '('
    ensures r.Ok? ==> forall k :: 0 <= k < |r.value.arguments| ==>
      r.value.arguments[k] != [] && ',' !in r.value.arguments[k]
    decreases |s| - p
  {
    if p == |s| then Err(MalformedTemplateHeader)
    else if Closes(s, p) then
      var q := CloseOf(s, p).value;
      ShapedUpTo(s, p, q);
      Ok(Header(s[..p], Arguments(s[p + 1..q])))
    else HeaderFrom(s, p + 1)
  }

  /** `ParseFunctionHeader`: the first match of `(?<Name>.+?)\((?<Param>[^,]+,?)*\)`,
      with the commas removed from the captured parameters. Text after the
      closing `)` is ignored; no match is the "Looks wrong" failure. */
  function ParseFunctionHeader(s: string): (r: Result<Header>)
    ensures r.Err? ==> r.error == MalformedTemplateHeader
    ensures r.Ok? ==> r.value.name != [] && StartsWith(s, r.value.name + "(")
    ensures r.Ok? ==> forall k :: 0 <= k < |r.value.arguments| ==>
      r.value.arguments[k] != [] && ',' !in r.value.arguments[k]
  {
    if s == [] then Err(MalformedTemplateHeader)
    else
      var r := HeaderFrom(s, 1);
      if r.Err? then r
      else
        assert s[..|r.value.name| + 1] == r.value.name + "(";
        r
  }

  /** A `(` at `p` and a `)` at `q` that can bound the parameter list of a
      match: the name before `p` is not empty and the group covers what lies
      between them. */
  predicate Opens(s: string, p: int, q: int) {
    1 <= p < q < |s| && s[p] == '(' && s[q] == ')' && ListShaped(s[p + 1..q])
  }

  lemma {:induction false} HeaderFromStops(s: string, p: nat)
    requires 1 <= p <= |s| && HeaderFrom(s, p).Ok?
    ensures var n := |HeaderFrom(s, p).value.name|;
      Closes(s, n) && HeaderFrom(s, p) == HeaderFrom(s, n) && forall j :: p <= j < n ==> !Closes(s, j)
    decreases |s| - p
  {
    var r := HeaderFrom(s, p);
    if Closes(s, p) {
      assert r.value.name == s[..p];
    } else {
      assert r == HeaderFrom(s, p + 1);
      HeaderFromStops(s, p + 1);
    }
  }

  lemma {:induction false} HeaderFromFinds(s: string, p0: nat, p: nat)
    requires 1 <= p0 <= p < |s| && Closes(s, p)
    ensures HeaderFrom(s, p0).Ok?
    decreases p - p0
  {
    if p0 < p && !Closes(s, p0) {
      HeaderFromFinds(s, p0 + 1, p);
    }
  }

  /** A `(`-`)` pair bounds a match exactly when the `)` is within the list's reach. */
  lemma OpensWithin(s: string, p: nat, q: nat)
    requires 1 <= p < q < |s|
    ensures Opens(s, p, q) <==> s[p] == '(' && s[q] == ')' && q < ListEnd(s, p)
  {
    ShapedUpTo(s, p, q);
  }

  /** The header read is the regular expression's match: its name is the
      shortest prefix before a `(` that opens some match, and its parameters
      are the captures up to the last `)` that `(` can reach. */
  lemma HeaderChoice(s: string)
    requires ParseFunctionHeader(s).Ok?
    ensures var h := ParseFunctionHeader(s).value; var p := |h.name|;
      exists q :: Opens(s, p, q) && h.arguments == Arguments(s[p + 1..q]) &&
        forall q' :: q < q' < |s| ==> !Opens(s, p, q')
    ensures forall p', q' :: 0 <= p' < |ParseFunctionHeader(s).value.name| ==> !Opens(s, p', q')
  {
    var h := ParseFunctionHeader(s).value;
    var p := |h.name|;
    HeaderFromStops(s, 1);
    var q := CloseOf(s, p).value;
    OpensWithin(s, p, q);
    forall q' | q < q' < |s| ensures !Opens(s, p, q') {
      OpensWithin(s, p, q');
    }
    forall p', q' | 0 <= p' < p ensures !Opens(s, p', q') {
      if 1 <= p' < q' < |s| {
        OpensWithin(s, p', q');
        assert !Closes(s, p');
        if s[p'] == '(' {
          assert CloseOf(s, p').None?;
        }
      }
    }
  }

  /** A header is accepted exactly when some `(` after a non-empty name has a
      list that reaches a `)`. */
  lemma HeaderAccepted(s: string)
    ensures ParseFunctionHeader(s).Ok? <==> exists p, q :: Opens(s, p, q)
  {
    if ParseFunctionHeader(s).Ok? {
      HeaderChoice(s);
    }
    if exists p, q :: Opens(s, p, q) {
      var p, q :| Opens(s, p, q);
      OpensWithin(s, p, q);
      assert Closes(s, p);
      HeaderFromFinds(s, 1, p);
    }
  }

  lemma CutTwice(s: string, p: nat, q: nat)
    requires p < q < |s|
    ensures s == s[..p] + [s[p]] + s[p + 1..q] + [s[q]] + s[q + 1..]
  {
  }

  lemma Regroup(name: string, a: string, t: string, tail: string)
    ensures name + "(" + (a + t) + ")" + tail == name + "(" + a + t + ")" + tail
  {
  }

  /** An accepted header is put back together by its name, its argument text
      (followed by the comma a final capture dropped, if any), and an ignored tail. */
  lemma HeaderParts(s: string)
    requires ParseFunctionHeader(s).Ok?
    ensures var h := ParseFunctionHeader(s).value;
      exists trailing, tail :: (trailing == "" || trailing == ",") &&
        s == h.name + "(" + ArgumentText(h.arguments) + trailing + ")" + tail
  {
    var h := ParseFunctionHeader(s).value;
    var p := |h.name|;
    HeaderFromStops(s, 1);
    var q := CloseOf(s, p).value;
    ShapedUpTo(s, p, q);
    var c := s[p + 1..q];
    assert h == Header(s[..p], Arguments(c));
    ArgumentsText(c);
    var a := ArgumentText(h.arguments);
    var trailing := if c != [] && c[|c| - 1] == ',' then "," else "";
    var tail := s[q + 1..];
    assert c == a + trailing;
    CutTwice(s, p, q);
    assert s == h.name + "(" + (a + trailing) + ")" + tail;
    Regroup(h.name, a, trailing, tail);
    assert (trailing == "" || trailing == ",") &&
      s == h.name + "(" + ArgumentText(h.arguments) + trailing + ")" + tail;
  }

  /** Joining non-empty pieces without commas gives list-shaped text that
      starts with the first piece and ends with the last. */
  lemma {:induction false} JoinShaped(args: seq<string>)
    requires |args| >= 1 && forall k :: 0 <= k < |args| ==> args[k] != [] && ',' !in args[k]
    ensures ListShaped(Join(args, ',')) && Join(args, ',') != []
    ensures Join(args, ',')[0] == args[0][0]
    ensures Join(args, ',')[|Join(args, ',')| - 1] == args[|args| - 1][|args[|args| - 1]| - 1]
    decreases |args|
  {
    var j := Join(args, ',');
    if |args| == 1 {
      assert args[0][0] in args[0];
      forall i | 0 < i < |j| ensures !(j[i - 1] == ',' && j[i] == ',') {
        assert j[i] in args[0];
      }
    } else {
      var a := args[0];
      var rest := Join(args[1..], ',');
      JoinShaped(args[1..]);
      assert j == a + [','] + rest;
      assert a[0] in a && a[|a| - 1] in a;
      forall i | 0 < i < |j| ensures !(j[i - 1] == ',' && j[i] == ',') {
        if i < |a| {
          assert j[i] == a[i] && j[i] in a;
        } else if i == |a| {
          assert j[i - 1] == a[|a| - 1];
        } else if i == |a| + 1 {
          assert j[i] == rest[0];
        } else {
          assert j[i - 1] == rest[i - 1 - |a| - 1] && j[i] == rest[i - |a| - 1];
        }
      }
    }
  }

  /** Appending text without `,,` keeps list-shaped text list-shaped when it
      does not end with a comma. */
  lemma ShapedAppend(c: string, d: string)
    requires ListShaped(c) && NoDoubleComma(d)
    requires c == [] ==> ListShaped(d)
    requires c != [] ==> c[|c| - 1] != ','
    ensures ListShaped(c + d)
  {
    var cd := c + d;
    if c != [] {
      forall i | 0 < i < |cd| ensures !(cd[i - 1] == ',' && cd[i] == ',') {
        if i < |c| {
          assert cd[i - 1] == c[i - 1] && cd[i] == c[i];
        } else if i == |c| {
          assert cd[i - 1] == c[|c| - 1];
        } else {
          assert cd[i - 1] == d[i - 1 - |c|] && cd[i] == d[i - |c|];
        }
      }
    } else {
      assert cd == d;
    }
  }

  lemma {:induction false} HeaderFromSkip(s: string, p: nat, n: nat)
    requires 1 <= p <= n < |s|
    requires forall j :: p <= j < n ==> s[j] != '('
    ensures HeaderFrom(s, p) == HeaderFrom(s, n)
    decreases n - p
  {
    if p < n {
      HeaderFromSkip(s, p + 1, n);
    }
  }

  /** A name without `(` followed by a list that covers everything up to the
      final `)` reads as that name and the list's captures. */
  lemma HeaderClosed(name: string, c: string)
    requires name != [] && '(' !in name
    requires ListShaped(c) && ListShaped(c + ")")
    ensures ParseFunctionHeader(name + "(" + c + ")") == Ok(Header(name, Arguments(c)))
  {
    var s := name + "(" + c + ")";
    var n := |name|;
    ClosedAtEnd(name, c);
    assert s[n + 1..|s| - 1] == c && s[..n] == name;
    assert HeaderFrom(s, n) == Ok(Header(name, Arguments(c)));
    assert forall j :: 1 <= j < n ==> s[j] == name[j];
    HeaderFromSkip(s, 1, n);
  }

  /** The `(` after the name closes at the last character. */
  lemma ClosedAtEnd(name: string, c: string)
    requires ListShaped(c + ")")
    ensures var s := name + "(" + c + ")";
      |name| < |s| && s[|name|] == '(' && CloseOf(s, |name|) == Some(|s| - 1)
  {
    var s := name + "(" + c + ")";
    var n := |name|;
    assert s[n + 1..|s|] == c + ")";
    ShapedUpTo(s, n, |s|);
  }

  /** The captures of a written argument list, with or without a comma after
      the last argument, are the arguments. */
  lemma ArgumentsWritten(args: seq<string>, trailing: string)
    requires forall k :: 0 <= k < |args| ==> args[k] != [] && ',' !in args[k]
    requires trailing == "" || (trailing == "," && args != [])
    ensures ListShaped(ArgumentText(args) + trailing)
    ensures ListShaped(ArgumentText(args) + trailing + ")")
    ensures Arguments(ArgumentText(args) + trailing) == args
  {
    var text := ArgumentText(args);
    var c := text + trailing;
    if args != [] {
      JoinShaped(args);
      SplitJoin(args, ',');
    }
    ShapedAppend(text, trailing);
    ShapedAppend(text, trailing + ")");
    assert text + (trailing + ")") == c + ")";
    if args == [] {
      assert c == [];
    } else if trailing == "," {
      var pieces := args + [""];
      JoinLast(pieces, ',');
      assert pieces[..|pieces| - 1] == args;
      assert c == Join(pieces, ',');
      SplitJoin(pieces, ',');
      assert c != [] && Split(c, ',') == pieces;
    } else {
      assert c == Join(args, ',') && c != [];
      assert args[|args| - 1] != [];
    }
  }

  /** A header written from a name without `(` and an argument list, with or
      without a comma after the last argument, reads back as that name and list. */
  lemma HeaderWritten(name: string, args: seq<string>, trailing: string)
    requires name != [] && '(' !in name
    requires forall k :: 0 <= k < |args| ==> args[k] != [] && ',' !in args[k]
    requires trailing == "" || (trailing == "," && args != [])
    ensures ParseFunctionHeader(name + "(" + ArgumentText(args) + trailing + ")") == Ok(Header(name, args))
  {
    var c := ArgumentText(args) + trailing;
    ArgumentsWritten(args, trailing);
    HeaderClosed(name, c);
    assert name + "(" + c + ")" == name + "(" + ArgumentText(args) + trailing + ")";
  }

  /** Round trip: a header written from a name without `(` and non-empty
      arguments without commas reads back as exactly that name and list. */
  lemma HeaderRoundTrip(name: string, args: seq<string>)
    requires name != [] && '(' !in name
    requires forall k :: 0 <= k < |args| ==> args[k] != [] && ',' !in args[k]
    ensures ParseFunctionHeader(name + "(" + ArgumentText(args) + ")") == Ok(Header(name, args))
  {
    HeaderWritten(name, args, "");
    assert name + "(" + ArgumentText(args) + "" + ")" == name + "(" + ArgumentText(args) + ")";
  }

  /** A comma after the last argument is dropped with the capture's commas. */
  lemma HeaderTrailingComma(name: string, args: seq<string>)
    requires name != [] && '(' !in name && args != []
    requires forall k :: 0 <= k < |args| ==> args[k] != [] && ',' !in args[k]
    ensures ParseFunctionHeader(name + "(" + ArgumentText(args) + ",)") == Ok(Header(name, args))
  {
    HeaderWritten(name, args, ",");
    assert name + "(" + ArgumentText(args) + "," + ")" == name + "(" + ArgumentText(args) + ",)";
  }

  /** A call with a space after its comma reads as name `F` and the raw
      arguments `a` and ` b` (the leading space is kept here and trimmed later). */
  lemma HeaderExample()
    ensures ParseFunctionHeader("F(a, b)") == Ok(Header("F", ["a", " b"]))
  {
    assert Join(["a", " b"], ',') == "a, b" by {
      assert ["a", " b"][1..] == [" b"];
    }
    HeaderRoundTrip("F", ["a", " b"]);
    assert "F" + "(" + "a, b" + ")" == "F(a, b)";
  }

  /** An empty argument before or between others matches nothing. */
  lemma HeaderEmptyArgument()
    ensures ParseFunctionHeader("F(,a)") == Err(MalformedTemplateHeader)
    ensures ParseFunctionHeader("F(a,,b)") == Err(MalformedTemplateHeader)
  {
    HeaderAccepted("F(,a)");
    HeaderAccepted("F(a,,b)");
  }

  // ---------------------------------------------------------------------------
  // Definitions

  /** Case folding of the invariant culture, restricted to ASCII letters. */
  function Lower(c: char): (r: char)
    ensures 'A' <= c <= 'Z' ==> r as int == c as int + 32
    ensures !('A' <= c <= 'Z') ==> r == c
  {
    if 'A' <= c <= 'Z' then (c as int + 32) as char else c
  }

  predicate EqualsIgnoreCase(a: string, b: string) {
    |a| == |b| && forall i :: 0 <= i < |a| ==> Lower(a[i]) == Lower(b[i])
  }

  const TemplatePrefix: string := "Template "

  /** `name.StartsWith("Template ", InvariantCultureIgnoreCase)`. */
  predicate IsDefinitionName(name: string) {
    |TemplatePrefix| <= |name| && EqualsIgnoreCase(name[..|TemplatePrefix|], TemplatePrefix)
  }

  /** The registered name: what follows the prefix. */
  function DefinedName(name: string): (r: string)
    requires IsDefinitionName(name)
    ensures name == name[..|TemplatePrefix|] + r
  {
    name[|TemplatePrefix|..]
  }

  /** The prefix is recognised whatever the case of its letters, and only the prefix. */
  lemma DefinitionPrefix(name: string, rest: string)
    ensures IsDefinitionName(TemplatePrefix + rest)
    ensures IsDefinitionName("TEMPLATE " + rest) && IsDefinitionName("template " + rest)
    ensures IsDefinitionName(TemplatePrefix + rest) ==> DefinedName(TemplatePrefix + rest) == rest
    ensures |name| < |TemplatePrefix| ==> !IsDefinitionName(name)
    ensures |name| >= |TemplatePrefix| && name[0] != 'T' && name[0] != 't' ==> !IsDefinitionName(name)
  {
    assert (TemplatePrefix + rest)[..|TemplatePrefix|] == TemplatePrefix;
    assert ("TEMPLATE " + rest)[..|TemplatePrefix|] == "TEMPLATE ";
    assert ("template " + rest)[..|TemplatePrefix|] == "template ";
    if |name| >= |TemplatePrefix| && name[0] != 'T' && name[0] != 't' {
      assert name[..|TemplatePrefix|][0] == name[0];
    }
  }

  // ---------------------------------------------------------------------------
  // Parameters

  predicate Distinct(names: seq<string>) {
    forall i, j :: 0 <= i < j < |names| ==> names[i] != names[j]
  }

  /** The formal parameters of a definition: the raw arguments, each trimmed. */
  function TrimAll(args: seq<string>): (r: seq<string>)
    ensures |r| == |args|
    ensures forall k :: 0 <= k < |args| ==> r[k] == Trim(args[k])
  {
    seq(|args|, k requires 0 <= k < |args| => Trim(args[k]))
  }

  /** The substitution list of an invocation, in `Dictionary` insertion order:
      formal `i` paired with argument `i` trimmed. Adding a formal twice is the
      `Dictionary.Add` failure. */
  function KeyValues(formals: seq<string>, args: seq<string>): (r: Result<seq<(string, string)>>)
    requires |formals| == |args|
    ensures r.Ok? <==> Distinct(formals)
    ensures r.Err? ==> r.error == DuplicateKey
    ensures r.Ok? ==> |r.value| == |formals|
    ensures r.Ok? ==> forall k :: 0 <= k < |formals| ==> r.value[k] == (formals[k], Trim(args[k]))
  {
    if Distinct(formals) then Ok(seq(|formals|, k requires 0 <= k < |formals| => (formals[k], Trim(args[k]))))
    else Err(DuplicateKey)
  }

  // ---------------------------------------------------------------------------
  // Substitution

  /** `TemplateParameterExpander.Expand` on one snippet: `Replace` with each pair in
      turn; an empty formal is the `String.Replace` argument failure. */
  function Substitute(s: string, kvs: seq<(string, string)>): (r: Result<string>)
    ensures r.Err? <==> exists k :: 0 <= k < |kvs| && kvs[k].0 == ""
    ensures r.Err? ==> r.error == EmptyReplacePattern
    decreases |kvs|
  {
    if kvs == [] then Ok(s)
    else if kvs[0].0 == "" then Err(EmptyReplacePattern)
    else
      var r := Substitute(Replace(s, kvs[0].0, kvs[0].1), kvs[1..]);
      assert forall k :: 1 <= k < |kvs| ==> kvs[k] == kvs[1..][k - 1];
      r
  }

  /** No character of `a` occurs in `b`. */
  predicate Disjoint(a: string, b: string) {
    forall i, j :: 0 <= i < |a| && 0 <= j < |b| ==> a[i] != b[j]
  }

  /** Text with no occurrence of the formal is left alone. */
  lemma {:induction false} ReplaceAbsent(s: string, k: string, v: string)
    requires k != [] && !Contains(s, k)
    ensures Replace(s, k, v) == s
    decreases |s|
  {
    if |s| >= |k| {
      assert !OccursAt(s, k, 0);
      assert !Contains(s[1..], k) by {
        forall i | 0 <= i <= |s[1..]| ensures !OccursAt(s[1..], k, i) {
          assert !OccursAt(s, k, i + 1);
          if i + |k| <= |s[1..]| {
            assert s[1..][i..i + |k|] == s[i + 1..i + 1 + |k|];
          }
        }
      }
      ReplaceAbsent(s[1..], k, v);
      assert [s[0]] + s[1..] == s;
    }
  }

  /** A prefix of the replaced text that has no character of `v` was already a
      prefix of the original text. */
  lemma {:induction false} PrefixKept(t: string, k: string, v: string, p: string)
    requires k != [] && v != [] && Disjoint(p, v)
    requires StartsWith(Replace(t, k, v), p)
    ensures StartsWith(t, p)
    decreases |t|
  {
    if p != [] && |t| >= |k| {
      var r := Replace(t, k, v);
      if t[..|k|] == k {
        assert r == v + Replace(t[|k|..], k, v);
        ActualNotPrefix(v, Replace(t[|k|..], k, v), p);
      } else {
        var r1 := Replace(t[1..], k, v);
        assert r == [t[0]] + r1;
        assert r[..|p|] == p;
        assert r1[..|p| - 1] == r[1..|p|];
        assert p[1..] == r[..|p|][1..];
        assert StartsWith(r1, p[1..]);
        assert Disjoint(p[1..], v) by {
          forall i, j | 0 <= i < |p[1..]| && 0 <= j < |v| ensures p[1..][i] != v[j] {
            assert p[1..][i] == p[i + 1];
          }
        }
        PrefixKept(t[1..], k, v, p[1..]);
        assert p[0] == r[0] == t[0];
        forall i | 0 <= i < |p| ensures t[i] == p[i] {
          if i > 0 {
            assert t[1..][..|p| - 1][i - 1] == p[1..][i - 1];
          }
        }
        assert t[..|p|] == p;
      }
    }
  }

  /** A text that shares no character with `v` cannot start where `v` is. */
  lemma ActualNotPrefix(v: string, rest: string, p: string)
    requires v != [] && p != [] && Disjoint(p, v)
    ensures !StartsWith(v + rest, p)
  {
    assert p[0] != v[0];
    if |p| <= |v + rest| {
      assert (v + rest)[..|p|][0] == v[0];
    }
  }

  lemma ActualNotInside(v: string, rest: string, x: string, q: int)
    requires 0 <= q < |v| && x != [] && Disjoint(x, v)
    ensures !OccursAt(v + rest, x, q)
  {
    assert x[0] != v[q];
    if q + |x| <= |v + rest| {
      assert (v + rest)[q..q + |x|][0] == v[q];
    }
  }

  /** Any text `x` sharing no character with `v` that occurs after the replacement
      already occurred before it, and it cannot be the formal itself. */
  lemma {:induction false} OccurrenceFromSource(s: string, k: string, v: string, x: string, q: int)
    requires k != [] && v != [] && x != [] && Disjoint(x, v)
    requires OccursAt(Replace(s, k, v), x, q)
    ensures Contains(s, x) && x != k
    decreases |s|, 1
  {
    if |s| < |k| {
      assert OccursAt(s, x, q);
      assert |x| <= |s| < |k|;
    } else if s[..|k|] == k {
      OccurrenceAfterMatch(s, k, v, x, q);
    } else {
      OccurrenceAfterKept(s, k, v, x, q);
    }
  }

  /** The case where `s` starts with the formal: `v` comes first in the result. */
  lemma {:induction false} OccurrenceAfterMatch(s: string, k: string, v: string, x: string, q: int)
    requires k != [] && v != [] && x != [] && Disjoint(x, v)
    requires |s| >= |k| && s[..|k|] == k
    requires OccursAt(Replace(s, k, v), x, q)
    ensures Contains(s, x) && x != k
    decreases |s|, 0
  {
    var r := Replace(s, k, v);
    var rest := s[|k|..];
    var r1 := Replace(rest, k, v);
    assert r == v + r1;
    if q < |v| {
      ActualNotInside(v, r1, x, q);
    } else {
      assert r[q..q + |x|] == r1[q - |v|..q - |v| + |x|];
      OccurrenceFromSource(rest, k, v, x, q - |v|);
      var i :| 0 <= i <= |rest| && OccursAt(rest, x, i);
      assert rest == s[|k|..|s|];
      SliceOfSlice(s, |k|, |s|, i, i + |x|);
      assert OccursAt(s, x, |k| + i);
    }
  }

  /** The case where the first character of `s` is kept. */
  lemma {:induction false} OccurrenceAfterKept(s: string, k: string, v: string, x: string, q: int)
    requires k != [] && v != [] && x != [] && Disjoint(x, v)
    requires |s| >= |k| && s[..|k|] != k
    requires OccursAt(Replace(s, k, v), x, q)
    ensures Contains(s, x) && x != k
    decreases |s|, 0
  {
    var r := Replace(s, k, v);
    var rest := s[1..];
    var r1 := Replace(rest, k, v);
    assert r == [s[0]] + r1;
    if q == 0 {
      KeptAtStart(s, k, v, x);
    } else {
      assert r[q..q + |x|] == r1[q - 1..q - 1 + |x|];
      OccurrenceFromSource(rest, k, v, x, q - 1);
      var i :| 0 <= i <= |rest| && OccursAt(rest, x, i);
      assert rest == s[1..|s|];
      SliceOfSlice(s, 1, |s|, i, i + |x|);
      assert OccursAt(s, x, 1 + i);
    }
  }

  /** An occurrence at the very start of the result, when the first character is kept. */
  lemma KeptAtStart(s: string, k: string, v: string, x: string)
    requires k != [] && v != [] && x != [] && Disjoint(x, v)
    requires |s| >= |k| && s[..|k|] != k
    requires OccursAt(Replace(s, k, v), x, 0)
    ensures OccursAt(s, x, 0)
  {
    var r := Replace(s, k, v);
    var rest := s[1..];
    var r1 := Replace(rest, k, v);
    assert r == [s[0]] + r1;
    assert StartsWith(r1, x[1..]) by {
      assert r1[..|x| - 1] == r[1..|x|];
      assert r[..|x|] == x;
    }
    assert Disjoint(x[1..], v) by {
      forall i, j | 0 <= i < |x[1..]| && 0 <= j < |v| ensures x[1..][i] != v[j] {
        assert x[1..][i] == x[i + 1];
      }
    }
    PrefixKept(rest, k, v, x[1..]);
    assert x[0] == r[0] == s[0];
    forall i | 0 <= i < |x| ensures s[i] == x[i] {
      if i > 0 {
        assert rest[..|x| - 1][i - 1] == x[1..][i - 1];
      }
    }
    assert s[..|x|] == x;
  }

  /** Replacing a formal by an actual that shares no character with it leaves no
      occurrence of the formal. */
  lemma ReplaceRemoves(s: string, k: string, v: string)
    requires k != [] && v != [] && Disjoint(k, v)
    ensures !Contains(Replace(s, k, v), k)
  {
    if Contains(Replace(s, k, v), k) {
      var q :| 0 <= q <= |Replace(s, k, v)| && OccursAt(Replace(s, k, v), k, q);
      OccurrenceFromSource(s, k, v, k, q);
    }
  }

  /** A replacement never creates an occurrence of a text that shares no
      character with the actual. */
  lemma ReplaceKeepsAbsent(s: string, k: string, v: string, x: string)
    requires k != [] && v != [] && x != [] && Disjoint(x, v) && !Contains(s, x)
    ensures !Contains(Replace(s, k, v), x)
  {
    if Contains(Replace(s, k, v), x) {
      var q :| 0 <= q <= |Replace(s, k, v)| && OccursAt(Replace(s, k, v), x, q);
      OccurrenceFromSource(s, k, v, x, q);
    }
  }

  /** The substitution list is usable: non-empty formals and actuals, and no actual
      shares a character with any formal. */
  predicate Separated(kvs: seq<(string, string)>) {
    (forall k :: 0 <= k < |kvs| ==> kvs[k].0 != [] && kvs[k].1 != []) &&
    forall a, b :: 0 <= a < |kvs| && 0 <= b < |kvs| ==> Disjoint(kvs[a].0, kvs[b].1)
  }

  /** After substitution no formal is left in the text, when the pairs are separated. */
  lemma {:induction false} SubstituteRemoves(s: string, kvs: seq<(string, string)>, f: nat)
    requires Separated(kvs) && f < |kvs|
    ensures Substitute(s, kvs).Ok? && !Contains(Substitute(s, kvs).value, kvs[f].0)
    decreases |kvs|
  {
    var s1 := Replace(s, kvs[0].0, kvs[0].1);
    var tail := kvs[1..];
    assert Separated(tail) by {
      forall a, b | 0 <= a < |tail| && 0 <= b < |tail| ensures Disjoint(tail[a].0, tail[b].1) {
        assert tail[a] == kvs[a + 1] && tail[b] == kvs[b + 1];
      }
    }
    if f > 0 {
      assert kvs[f] == tail[f - 1];
      SubstituteRemoves(s1, tail, f - 1);
    } else {
      ReplaceRemoves(s, kvs[0].0, kvs[0].1);
      SubstituteKeepsAbsent(s1, tail, kvs[0].0);
    }
  }

  /** Later pairs of a separated list never bring a formal back. */
  lemma {:induction false} SubstituteKeepsAbsent(s: string, kvs: seq<(string, string)>, x: string)
    requires Separated(kvs) && x != [] && !Contains(s, x)
    requires forall b :: 0 <= b < |kvs| ==> Disjoint(x, kvs[b].1)
    ensures Substitute(s, kvs).Ok? && !Contains(Substitute(s, kvs).value, x)
    decreases |kvs|
  {
    if kvs != [] {
      var tail := kvs[1..];
      assert Separated(tail) by {
        forall a, b | 0 <= a < |tail| && 0 <= b < |tail| ensures Disjoint(tail[a].0, tail[b].1) {
          assert tail[a] == kvs[a + 1] && tail[b] == kvs[b + 1];
        }
      }
      assert forall b :: 0 <= b < |tail| ==> tail[b] == kvs[b + 1];
      ReplaceKeepsAbsent(s, kvs[0].0, kvs[0].1, x);
      SubstituteKeepsAbsent(Replace(s, kvs[0].0, kvs[0].1), tail, x);
    }
  }

  /** Text that holds no formal comes out of the substitution unchanged. */
  lemma {:induction false} SubstituteUntouched(s: string, kvs: seq<(string, string)>)
    requires forall k :: 0 <= k < |kvs| ==> kvs[k].0 != [] && !Contains(s, kvs[k].0)
    ensures Substitute(s, kvs) == Ok(s)
    decreases |kvs|
  {
    if kvs != [] {
      ReplaceAbsent(s, kvs[0].0, kvs[0].1);
      assert forall k :: 0 <= k < |kvs[1..]| ==> kvs[1..][k] == kvs[k + 1];
      SubstituteUntouched(s, kvs[1..]);
    }
  }
}
