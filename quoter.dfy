/** Cutting one logical line into quoted and unquoted fragments
    (`VampParser.StringQuoter.GetStrings` in Vamp/Vamp.cs). A quotation may span
    several physical lines, which are then pulled from the same reader the
    lexer reads lines from. */
module Quoter {
  import opened Results
  import opened Text
  import opened Strings
  import opened Rules
  import opened Indentation

  predicate QuotationsOk(qs: seq<StringQuotation>) {
    forall i :: 0 <= i < |qs| ==> QuotationOk(qs[i])
  }

  /** Where a quotation starts on a line: its position in the quotation list and
      its character position. */
  datatype Match = Match(index: nat, pos: nat)

  /** The LINQ query over the quotation list: the first start delimiter on the
      line, ties going to the quotation listed first (`OrderBy` is stable). This
      is the candidate among `qs[i..]`. */
  function EarliestFrom(qs: seq<StringQuotation>, line: string, i: nat): (m: Option<Match>)
    requires i <= |qs|
    ensures m.Some? ==> i <= m.value.index < |qs| && Find(line, qs[m.value.index].start, 0) == Some(m.value.pos)
    decreases |qs| - i
  {
    if i == |qs| then None
    else
      var rest := EarliestFrom(qs, line, i + 1);
      var here := Find(line, qs[i].start, 0);
      if here.Some? && (rest.None? || here.value <= rest.value.pos) then Some(Match(i, here.value)) else rest
  }

  function Earliest(qs: seq<StringQuotation>, line: string): (m: Option<Match>)
    ensures m.Some? ==> m.value.index < |qs| && Find(line, qs[m.value.index].start, 0) == Some(m.value.pos)
  {
    EarliestFrom(qs, line, 0)
  }

  /** The match is the earliest start on the line and, among starts at the same
      position, the first in list order; there is none exactly when no start
      delimiter occurs. */
  lemma {:induction false} EarliestFromIsFirst(qs: seq<StringQuotation>, line: string, i: nat)
    requires i <= |qs|
    ensures var m := EarliestFrom(qs, line, i);
      (m.None? <==> forall j :: i <= j < |qs| ==> Find(line, qs[j].start, 0).None?) &&
      (m.Some? ==> forall j :: i <= j < |qs| && Find(line, qs[j].start, 0).Some? ==>
         m.value.pos < Find(line, qs[j].start, 0).value ||
         (m.value.pos == Find(line, qs[j].start, 0).value && m.value.index <= j))
    decreases |qs| - i
  {
    if i < |qs| {
      EarliestFromIsFirst(qs, line, i + 1);
    }
  }

  lemma EarliestIsFirst(qs: seq<StringQuotation>, line: string)
    ensures var m := Earliest(qs, line);
      (m.None? <==> forall j :: 0 <= j < |qs| ==> Find(line, qs[j].start, 0).None?) &&
      (m.Some? ==> forall j :: 0 <= j < |qs| && Find(line, qs[j].start, 0).Some? ==>
         m.value.pos < Find(line, qs[j].start, 0).value ||
         (m.value.pos == Find(line, qs[j].start, 0).value && m.value.index <= j))
  {
    EarliestFromIsFirst(qs, line, 0);
  }

  /** The unquoted fragment for a trimmed piece of text, if it is not empty. */
  function Word(s: string): (r: seq<QuotedString>)
    ensures s == [] ==> r == []
    ensures s != [] ==> r == [Unquoted(s)]
  {
    if s != [] then [Unquoted(s)] else []
  }

  /** Where the inner loop of `GetStrings` leaves off: the quoted text, what is
      left of the line holding the end delimiter, and the lines not read yet. */
  datatype Closing = Closing(content: string, line: string, more: seq<string>)

  /** The inner loop: search `line` from `start` for `end`; if it is missing,
      the rest of the line and a line break join the quote and the next line is
      read. Running out of lines is an unfinished string. */
  function Close(end: string, line: string, start: nat, more: seq<string>, acc: string): (r: Result<Closing>)
    requires start <= |line|
    ensures r.Err? ==> r.error == UnfinishedString
    ensures r.Ok? ==> |r.value.more| <= |more|
    ensures r.Ok? && |r.value.more| == |more| ==> r.value.more == more && |r.value.line| <= |line| - start - |end|
    decreases |more|
  {
    var e := Find(line, end, start);
    if e.Some? then Ok(Closing(acc + line[start..e.value], line[e.value + |end|..], more))
    else if more == [] then Err(UnfinishedString)
    else Close(end, more[0], 0, more[1..], acc + line[start..] + "\n")
  }

  /** One round of the outer loop of `GetStrings`. */
  datatype Pass = Done(result: Result<Scanned>) | Again(line: string, more: seq<string>, acc: seq<QuotedString>)

  /** The fragments of a line and the physical lines left unread. */
  datatype Scanned = Scanned(fragments: seq<QuotedString>, more: seq<string>)

  /** One round of the outer loop. With `fixed` false it is the loop as written,
      where a quotation without an end delimiter leaves `line` as it was; with
      `fixed` true that quotation consumes the rest of the line (see README,
      Findings). */
  function Round(qs: seq<StringQuotation>, line: string, more: seq<string>, acc: seq<QuotedString>, fixed: bool): (r: Pass)
    requires QuotationsOk(qs)
    ensures fixed && r.Again? ==> |r.more| < |more| || (r.more == more && |r.line| < |line|)
  {
    var m := Earliest(qs, line);
    if m.None? then Done(Ok(Scanned(acc + Word(Trim(line)), more)))
    else
      var q := qs[m.value.index];
      var prefix := Word(Trim(line[..m.value.pos]));
      var start := m.value.pos + |q.start|;
      if q.end.None? then
        Again(if fixed then "" else line, more, acc + prefix + [QuotedString(Unescape(q.escaping, line[start..]), Some(q))])
      else
        var c := Close(q.end.value, line, start, more, "");
        if c.Err? then Done(Err(c.error))
        else Again(c.value.line, c.value.more, acc + prefix + [QuotedString(Unescape(q.escaping, c.value.content), Some(q))])
  }

  /** `GetStrings` (with the end-less quotation consuming the rest of the line):
      the fragments of `line` appended to `acc`, and the reader's remaining lines. */
  function Scan(qs: seq<StringQuotation>, line: string, more: seq<string>, acc: seq<QuotedString>): (r: Result<Scanned>)
    requires QuotationsOk(qs)
    decreases |more|, |line|
  {
    var p := Round(qs, line, more, acc, true);
    if p.Done? then p.result else Scan(qs, p.line, p.more, p.acc)
  }

  /** Fragments are only ever appended, and the only error is an unfinished string. */
  lemma {:induction false} ScanExtends(qs: seq<StringQuotation>, line: string, more: seq<string>, acc: seq<QuotedString>)
    requires QuotationsOk(qs)
    ensures var r := Scan(qs, line, more, acc);
      (r.Ok? ==> |acc| <= |r.value.fragments| && r.value.fragments[..|acc|] == acc && |r.value.more| <= |more|) &&
      (r.Err? ==> r.error == UnfinishedString)
    decreases |more|, |line|
  {
    var p := Round(qs, line, more, acc, true);
    if p.Again? {
      ScanExtends(qs, p.line, p.more, p.acc);
      var r := Scan(qs, p.line, p.more, p.acc);
      if r.Ok? {
        assert p.acc[..|acc|] == acc;
        assert r.value.fragments[..|acc|] == r.value.fragments[..|p.acc|][..|acc|];
      }
    }
  }

  /** A line with no start delimiter on it is one unquoted fragment, its trimmed
      text, or nothing when it is blank; no further line is read. */
  lemma PlainLine(qs: seq<StringQuotation>, line: string, more: seq<string>)
    requires QuotationsOk(qs)
    requires forall j :: 0 <= j < |qs| ==> Find(line, qs[j].start, 0).None?
    ensures Scan(qs, line, more, []) == Ok(Scanned(Word(Trim(line)), more))
  {
    EarliestIsFirst(qs, line);
    assert Earliest(qs, line).None?;
    assert [] + Word(Trim(line)) == Word(Trim(line));
    assert Round(qs, line, more, [], true) == Done(Ok(Scanned(Word(Trim(line)), more)));
  }

  /** A start delimiter whose first character is absent from `pre` occurs no
      earlier than the end of `pre`. */
  lemma FindSkipsPrefix(pre: string, rest: string, p: string)
    requires p != [] && p[0] !in pre
    ensures Find(pre + rest, p, 0).None? || Find(pre + rest, p, 0).value >= |pre|
  {
  }

  /** The quotation `k` starting right after `pre` is the match, when no start
      delimiter begins inside `pre` and none listed before `k` begins with the
      same character. */
  lemma {:induction false} EarliestAfter(qs: seq<StringQuotation>, pre: string, k: nat, rest: string)
    requires QuotationsOk(qs) && k < |qs|
    requires forall j :: 0 <= j < |qs| ==> qs[j].start[0] !in pre
    requires forall j :: 0 <= j < k ==> qs[j].start[0] != qs[k].start[0]
    ensures Earliest(qs, pre + qs[k].start + rest) == Some(Match(k, |pre|))
  {
    var q := qs[k];
    var line := pre + q.start + rest;
    assert line == pre + (q.start + rest);
    forall j | 0 <= j < |qs|
      ensures Find(line, qs[j].start, 0).Some? ==> Find(line, qs[j].start, 0).value >= |pre|
      ensures j < k ==> Find(line, qs[j].start, 0).None? || Find(line, qs[j].start, 0).value != |pre|
    {
      FindSkipsPrefix(pre, q.start + rest, qs[j].start);
    }
    assert OccursAt(line, q.start, |pre|);
    forall j | 0 <= j < |pre| ensures !OccursAt(line, q.start, j) {
      assert line[j] == pre[j];
    }
    FindIs(line, q.start, 0, |pre|);
    EarliestIsFirst(qs, line);
  }

  /** The end delimiter on the same line, with none inside the body. */
  lemma CloseOnSameLine(line: string, start: nat, body: string, end: string, post: string, more: seq<string>)
    requires start <= |line| && line[start..] == body + end + post
    requires end != [] && end[0] !in body
    ensures Close(end, line, start, more, "") == Ok(Closing(body, post, more))
  {
    var head := line[..start];
    assert line == head + body + end + post;
    FindAfter(head, body, end, post);
    var e := start + |body|;
    assert Find(line, end, start) == Some(e);
    assert line[start..e] == body;
    assert line[e + |end|..] == post;
    assert Close(end, line, start, more, "") == Ok(Closing("" + line[start..e], line[e + |end|..], more));
    assert "" + body == body;
  }

  /** A quote closed on the same line: in one round the text before it becomes
      an unquoted fragment, the quoted text one fragment tagged with its
      quotation, and the scan goes on after the end delimiter with no line read. */
  lemma {:induction false} QuoteOnOneLine(qs: seq<StringQuotation>, pre: string, k: nat, body: string, post: string, more: seq<string>, acc: seq<QuotedString>)
    requires QuotationsOk(qs) && k < |qs| && qs[k].end.Some?
    requires forall j :: 0 <= j < |qs| ==> qs[j].start[0] !in pre
    requires forall j :: 0 <= j < k ==> qs[j].start[0] != qs[k].start[0]
    requires qs[k].end.value[0] !in body
    ensures Round(qs, pre + qs[k].start + body + qs[k].end.value + post, more, acc, true) ==
      Again(post, more, acc + Word(Trim(pre)) + [QuotedString(body, Some(qs[k]))])
  {
    var line := pre + qs[k].start + body + qs[k].end.value + post;
    QuoteOnOneLineMatch(qs, pre, k, body, post);
    QuoteOnOneLineClose(pre, qs[k].start, body, qs[k].end.value, post, more);
    RoundClosed(qs, line, more, acc, Match(k, |pre|), Closing(body, post, more));
  }

  /** The quote on such a line is the match. */
  lemma QuoteOnOneLineMatch(qs: seq<StringQuotation>, pre: string, k: nat, body: string, post: string)
    requires QuotationsOk(qs) && k < |qs| && qs[k].end.Some?
    requires forall j :: 0 <= j < |qs| ==> qs[j].start[0] !in pre
    requires forall j :: 0 <= j < k ==> qs[j].start[0] != qs[k].start[0]
    ensures Earliest(qs, pre + qs[k].start + body + qs[k].end.value + post) == Some(Match(k, |pre|))
  {
    var rest := body + qs[k].end.value + post;
    assert pre + qs[k].start + body + qs[k].end.value + post == pre + qs[k].start + rest;
    EarliestAfter(qs, pre, k, rest);
  }

  /** The quote on such a line closes on it. */
  lemma QuoteOnOneLineClose(pre: string, start: string, body: string, end: string, post: string, more: seq<string>)
    requires end != [] && end[0] !in body
    ensures var line := pre + start + body + end + post;
      |pre| + |start| <= |line| && line[..|pre|] == pre &&
      Close(end, line, |pre| + |start|, more, "") == Ok(Closing(body, post, more))
  {
    var line := pre + start + body + end + post;
    assert line[|pre| + |start|..] == body + end + post;
    assert line[..|pre|] == pre;
    CloseOnSameLine(line, |pre| + |start|, body, end, post, more);
  }

  /** A round that closes its quote. */
  lemma RoundClosed(qs: seq<StringQuotation>, line: string, more: seq<string>, acc: seq<QuotedString>, m: Match, c: Closing)
    requires QuotationsOk(qs) && Earliest(qs, line) == Some(m) && qs[m.index].end.Some?
    requires m.pos + |qs[m.index].start| <= |line|
    requires Close(qs[m.index].end.value, line, m.pos + |qs[m.index].start|, more, "") == Ok(c)
    ensures Round(qs, line, more, acc, true) ==
      Again(c.line, c.more, acc + Word(Trim(line[..m.pos])) + [QuotedString(Unescape(qs[m.index].escaping, c.content), Some(qs[m.index]))])
  {
  }

  /** An unfinished quote is reported once the reader runs dry. */
  lemma {:induction false} UnfinishedQuote(qs: seq<StringQuotation>, pre: string, k: nat, body: string)
    requires QuotationsOk(qs) && k < |qs| && qs[k].end.Some?
    requires forall j :: 0 <= j < |qs| ==> qs[j].start[0] !in pre
    requires forall j :: 0 <= j < k ==> qs[j].start[0] != qs[k].start[0]
    requires qs[k].end.value[0] !in body
    ensures Scan(qs, pre + qs[k].start + body, [], []) == Err(UnfinishedString)
  {
    var q := qs[k];
    EarliestAfter(qs, pre, k, body);
    FindNoneIn(pre + q.start, body, q.end.value);
  }

  // ---------------------------------------------------------------------------
  // The loop as written

  /** `n` rounds of the outer loop as written, stopping early once it is done. */
  function RoundsAsWritten(qs: seq<StringQuotation>, line: string, more: seq<string>, acc: seq<QuotedString>, n: nat): Pass
    requires QuotationsOk(qs)
    decreases n
  {
    if n == 0 then Again(line, more, acc)
    else
      var p := Round(qs, line, more, acc, false);
      if p.Done? then p else RoundsAsWritten(qs, p.line, p.more, p.acc, n - 1)
  }

  /** As written, a line on which the earliest quotation has no end delimiter is
      never finished: every round finds the same quotation on the unchanged
      line and appends one more fragment. */
  lemma {:induction false} EndlessQuotationNeverFinishes(qs: seq<StringQuotation>, line: string, more: seq<string>, acc: seq<QuotedString>, n: nat)
    requires QuotationsOk(qs)
    requires Earliest(qs, line).Some? && qs[Earliest(qs, line).value.index].end.None?
    ensures var p := RoundsAsWritten(qs, line, more, acc, n);
      p.Again? && p.line == line && p.more == more && |p.acc| >= |acc| + n
    decreases n
  {
    if n > 0 {
      var p := Round(qs, line, more, acc, false);
      EndlessQuotationNeverFinishes(qs, line, more, p.acc, n - 1);
    }
  }

  /** The smallest such line under the default quotations: a lone `#` comment. */
  lemma HashCommentHangs(more: seq<string>, n: nat)
    ensures RoundsAsWritten(DefaultQuotations(), "#", more, [], n).Again?
  {
    var qs := DefaultQuotations();
    BuiltInRulesOk();
    HashMatch();
    EndlessQuotationNeverFinishes(qs, "#", more, [], n);
  }

  /** Under the default quotations a lone `#` starts the end-less comment. */
  lemma HashMatch()
    ensures Earliest(DefaultQuotations(), "#") == Some(Match(3, 0))
  {
    var qs := DefaultQuotations();
    assert Find("#", qs[3].start, 0) == Some(0) by {
      assert OccursAt("#", "#", 0);
    }
    EarliestIsFirst(qs, "#");
    var m := Earliest(qs, "#").value;
    assert Find("#", qs[m.index].start, 0).Some?;
    assert m.index != 0 && m.index != 1 && m.index != 2;
  }

  /** With the fix the same line is one comment fragment, read in one round. */
  lemma HashCommentScans(more: seq<string>)
    ensures Scan(DefaultQuotations(), "#", more, []) == Ok(Scanned([QuotedString("", Some(DefaultQuotations()[3]))], more))
  {
    var qs := DefaultQuotations();
    var frag := QuotedString("", Some(qs[3]));
    BuiltInRulesOk();
    HashMatch();
    RoundOfMatch(qs, "#", more, []);
    assert "#"[..0] == [] && "#"[1..] == [];
    assert Trim([]) == [];
    assert Round(qs, "#", more, [], true) == Again("", more, [frag]);
    ScanUnroll(qs, "#", more, []);
    EarliestIsFirst(qs, "");
    assert Earliest(qs, "").None?;
    assert [frag] + Word(Trim("")) == [frag];
    assert Round(qs, "", more, [frag], true) == Done(Ok(Scanned([frag], more)));
    ScanUnroll(qs, "", more, [frag]);
  }

  // ---------------------------------------------------------------------------
  // The method

  /** The inner loop of `GetStrings`: collects a quote up to its end delimiter,
      reading further lines while it is missing. */
  method CloseQuote(end: string, line0: string, start0: nat, reader: LineReader) returns (r: Result<Closing>)
    requires reader.Valid() && start0 <= |line0|
    modifies reader
    ensures reader.Valid() && reader.lines == old(reader.lines)
    ensures r == Close(end, line0, start0, old(reader.Rest()), "")
    ensures r.Ok? ==> reader.Rest() == r.value.more
    ensures r.Err? ==> reader.Rest() == []
  {
    var line := line0;
    var startIndex: nat := start0;
    var builder := "";
    while true
      invariant reader.Valid() && reader.lines == old(reader.lines)
      invariant startIndex <= |line|
      invariant Close(end, line, startIndex, reader.Rest(), builder) == Close(end, line0, start0, old(reader.Rest()), "")
      decreases |reader.Rest()|
    {
      var endIndex := Find(line, end, startIndex);
      if endIndex.None? {
        builder := builder + line[startIndex..] + "\n";
        var next := reader.ReadLine();
        if next.None? {
          return Err(UnfinishedString);
        }
        line := next.value;
        startIndex := 0;
      } else {
        builder := builder + line[startIndex..endIndex.value];
        return Ok(Closing(builder, line[endIndex.value + |end|..], reader.Rest()));
      }
    }
  }

  /** What one round of the fixed loop does when a quotation starts on the line. */
  lemma RoundOfMatch(qs: seq<StringQuotation>, line: string, more: seq<string>, acc: seq<QuotedString>)
    requires QuotationsOk(qs) && Earliest(qs, line).Some?
    ensures var m := Earliest(qs, line).value;
      var q := qs[m.index];
      var start := m.pos + |q.start|;
      var head := acc + Word(Trim(line[..m.pos]));
      var p := Round(qs, line, more, acc, true);
      start <= |line| &&
      (q.end.None? ==> p == Again("", more, head + [QuotedString(Unescape(q.escaping, line[start..]), Some(q))])) &&
      (q.end.Some? ==> var c := Close(q.end.value, line, start, more, "");
        p == if c.Err? then Done(Err(c.error))
             else Again(c.value.line, c.value.more, head + [QuotedString(Unescape(q.escaping, c.value.content), Some(q))]))
  {
  }

  /** `Scan` unrolled by one round. */
  lemma ScanUnroll(qs: seq<StringQuotation>, line: string, more: seq<string>, acc: seq<QuotedString>)
    requires QuotationsOk(qs)
    ensures var p := Round(qs, line, more, acc, true);
      (p.Done? ==> Scan(qs, line, more, acc) == p.result) &&
      (p.Again? ==> Scan(qs, line, more, acc) == Scan(qs, p.line, p.more, p.acc))
  {
  }

  /** One pass of the outer loop of `GetStrings`, as `Round` with the fix. */
  method ScanRound(qs: seq<StringQuotation>, line: string, reader: LineReader, acc: seq<QuotedString>) returns (p: Pass)
    requires QuotationsOk(qs) && reader.Valid()
    modifies reader
    ensures reader.Valid() && reader.lines == old(reader.lines)
    ensures p == Round(qs, line, old(reader.Rest()), acc, true)
    ensures p.Again? ==> reader.Rest() == p.more
    ensures p.Done? && p.result.Ok? ==> reader.Rest() == p.result.value.more
    ensures p.Done? && p.result.Err? ==> reader.Rest() == []
  {
    var result := acc;
    ghost var more := reader.Rest();
    var m := Earliest(qs, line);
    if m.None? {
      var snippet := Trim(line);
      if snippet != "" {
        result := result + [Unquoted(snippet)];
      }
      assert result == acc + Word(snippet);
      return Done(Ok(Scanned(result, reader.Rest())));
    }
    RoundOfMatch(qs, line, more, acc);
    var prefix := Trim(line[..m.value.pos]);
    if prefix != "" {
      result := result + [Unquoted(prefix)];
    }
    assert result == acc + Word(prefix);
    var q := qs[m.value.index];
    var startIndex := m.value.pos + |q.start|;
    var quoted: string;
    var rest: string;
    if q.end.None? {
      quoted := line[startIndex..];
      rest := "";
    } else {
      var c := CloseQuote(q.end.value, line, startIndex, reader);
      if c.Err? {
        return Done(Err(c.error));
      }
      quoted := c.value.content;
      rest := c.value.line;
    }
    result := result + [QuotedString(Unescape(q.escaping, quoted), Some(q))];
    return Again(rest, reader.Rest(), result);
  }

  /** `GetStrings`: reads further lines from `reader` while a quote is open. */
  method GetStrings(qs: seq<StringQuotation>, line0: string, reader: LineReader) returns (r: Result<seq<QuotedString>>)
    requires QuotationsOk(qs) && reader.Valid()
    modifies reader
    ensures reader.Valid() && reader.lines == old(reader.lines)
    ensures var s := Scan(qs, line0, old(reader.Rest()), []);
      (s.Ok? ==> r == Ok(s.value.fragments) && reader.Rest() == s.value.more) &&
      (s.Err? ==> r == Err(s.error) && reader.Rest() == [])
  {
    var result: seq<QuotedString> := [];
    var line := line0;
    while true
      invariant reader.Valid() && reader.lines == old(reader.lines)
      invariant Scan(qs, line, reader.Rest(), result) == Scan(qs, line0, old(reader.Rest()), [])
      decreases |reader.Rest()|, |line|
    {
      ScanUnroll(qs, line, reader.Rest(), result);
      var p := ScanRound(qs, line, reader, result);
      if p.Done? {
        if p.result.Err? {
          return Err(p.result.error);
        }
        return Ok(p.result.value.fragments);
      }
      line := p.line;
      result := p.acc;
    }
  }
}
