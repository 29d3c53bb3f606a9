/** The older lexer helpers of `LessXaml.VampParser`: the two-pass comment stripper
    `RemoveComments` and `StringQuoter.SplitOnWhitespace`. (Its `Indenter` is the
    same code as the current one and is modelled once, in module Indentation.) */
module OldVamp {
  import opened Results
  import opened Text
  import opened Strings

  const LineCommentSymbol := "--"
  const BlockCommentStartSymbol := "/*"
  const BlockCommentEndSymbol := "*/"

  /** `idx` places each character of `r` at a strictly later position of `s`:
      `r` is `s` with some characters deleted. */
  ghost predicate Embeds(r: string, s: string, idx: seq<int>) {
    |idx| == |r| &&
    (forall k :: 0 <= k < |idx| ==> 0 <= idx[k] < |s| && s[idx[k]] == r[k]) &&
    (forall k, l :: 0 <= k < l < |idx| ==> idx[k] < idx[l])
  }

  ghost predicate Subsequence(r: string, s: string) {
    exists idx :: Embeds(r, s, idx)
  }

  /** Keeping `s[lo..mid]` and a subsequence of `s[hi..]` gives a subsequence of `s[lo..]`. */
  lemma KeepThenSkip(s: string, lo: nat, mid: nat, hi: nat, rest: string, idx: seq<int>)
      returns (idx': seq<int>)
    requires lo <= mid <= hi <= |s|
    requires Embeds(rest, s[hi..], idx)
    ensures Embeds(s[lo..mid] + rest, s[lo..], idx')
  {
    var r := s[lo..mid] + rest;
    idx' := seq(mid - lo, k => k) + seq(|idx|, k requires 0 <= k < |idx| => idx[k] + (hi - lo));
    forall k | 0 <= k < |idx'| ensures 0 <= idx'[k] < |s[lo..]| && s[lo..][idx'[k]] == r[k] {
      if k >= mid - lo {
        var m := k - (mid - lo);
        assert idx'[k] == idx[m] + (hi - lo);
        assert s[hi..][idx[m]] == rest[m];
      }
    }
  }

  lemma EmbedsWhole(s: string) returns (idx: seq<int>)
    ensures Embeds(s, s, idx)
  {
    idx := seq(|s|, k => k);
  }

  lemma EmbedsCompose(a: string, b: string, c: string, i1: seq<int>, i2: seq<int>) returns (idx: seq<int>)
    requires Embeds(a, b, i1) && Embeds(b, c, i2)
    ensures Embeds(a, c, idx)
  {
    idx := seq(|i1|, k requires 0 <= k < |i1| => i2[i1[k]]);
  }

  /** A strictly increasing placement cannot be longer than the text it places into. */
  lemma EmbedsLength(r: string, s: string, idx: seq<int>)
    requires Embeds(r, s, idx)
    ensures |r| <= |s|
  {
    if |r| > 0 {
      AtLeastIndex(idx, |idx| - 1);
    }
  }

  lemma {:induction false} AtLeastIndex(idx: seq<int>, k: nat)
    requires k < |idx| && (forall j :: 0 <= j < |idx| ==> 0 <= idx[j])
    requires forall j, l :: 0 <= j < l < |idx| ==> idx[j] < idx[l]
    ensures idx[k] >= k
  {
    if k > 0 {
      AtLeastIndex(idx, k - 1);
    }
  }

  /** First pass of `RemoveComments`, from `pos` on: text before each `--` is
      kept, and the comment runs up to (not including) the next `\r` or `\n`, or to
      the end of the input. */
  function StripLineComments(s: string, pos: nat): string
    requires pos <= |s|
    decreases |s| - pos
  {
    match Find(s, LineCommentSymbol, pos)
    case None => s[pos..]
    case Some(h) =>
      match FindAnyFrom(s, {'\r', '\n'}, h)
      case None => s[pos..h]
      case Some(e) =>
        assert s[h] == '-';
        s[pos..h] + StripLineComments(s, e)
  }

  /** Second pass, from `pos` on, after the text `sb` already kept: text
      before each `/*` is kept, the comment runs to the first `*/` after the
      opener (comments do not nest), and an opener without a closer is an error. */
  function StripBlockComments(s: string, pos: nat, sb: string): Result<string>
    requires pos <= |s|
    decreases |s| - pos
  {
    match Find(s, BlockCommentStartSymbol, pos)
    case None => Ok(sb + s[pos..])
    case Some(b) =>
      match Find(s, BlockCommentEndSymbol, b + 2)
      case None => Err(UnfinishedBlockComment)
      case Some(e) => StripBlockComments(s, e + 2, sb + s[pos..b])
  }

  /** `RemoveComments`: line comments are removed in a full pass before block comments. */
  function RemoveCommentsSpec(s: string): Result<string> {
    StripBlockComments(StripLineComments(s, 0), 0, "")
  }

  /** `VampParser.RemoveComments`: a line-comment pass, then a block-comment pass. */
  method RemoveComments(contents: string) returns (r: Result<string>)
    ensures r == RemoveCommentsSpec(contents)
  {
    var stripped := RemoveLineComments(contents);
    r := RemoveBlockComments(stripped);
  }

  /** The first loop of `RemoveComments`, appending the kept text to a builder. */
  method RemoveLineComments(contents: string) returns (sb: string)
    ensures sb == StripLineComments(contents, 0)
  {
    sb := "";
    var pos := 0;
    while true
      invariant pos <= |contents|
      invariant sb + StripLineComments(contents, pos) == StripLineComments(contents, 0)
      decreases |contents| - pos
    {
      var hashIndex := Find(contents, LineCommentSymbol, pos);
      if hashIndex.None? {
        break;
      }
      var h := hashIndex.value;
      var eolIndex := FindAnyFrom(contents, {'\r', '\n'}, h);
      if eolIndex.None? {
        LineStepLast(contents, pos, h);
        sb := sb + contents[pos..h];
        return;
      }
      var e := eolIndex.value;
      LineStep(contents, pos, h, e);
      sb := sb + contents[pos..h];
      pos := e;
    }
    if pos < |contents| {
      sb := sb + contents[pos..];
    } else {
      assert contents[pos..] == [];
    }
  }

  /** One round of the line loop: the text before `--` is kept, the rest of the line dropped. */
  lemma LineStep(s: string, pos: nat, h: nat, e: nat)
    requires pos <= |s| && Find(s, LineCommentSymbol, pos) == Some(h)
    requires h <= |s| && FindAnyFrom(s, {'\r', '\n'}, h) == Some(e)
    ensures pos < e <= |s| && StripLineComments(s, pos) == s[pos..h] + StripLineComments(s, e)
  {
    assert s[h] == '-';
  }

  /** A `--` on the last line removes the rest of the text. */
  lemma LineStepLast(s: string, pos: nat, h: nat)
    requires pos <= |s| && Find(s, LineCommentSymbol, pos) == Some(h)
    requires h <= |s| && FindAnyFrom(s, {'\r', '\n'}, h).None?
    ensures pos <= h <= |s| && StripLineComments(s, pos) == s[pos..h]
  {
  }

  /** The second loop of `RemoveComments`. */
  method RemoveBlockComments(contents: string) returns (r: Result<string>)
    ensures r == StripBlockComments(contents, 0, "")
  {
    var sb := "";
    var pos := 0;
    ghost var whole := StripBlockComments(contents, 0, "");
    while true
      invariant pos <= |contents|
      invariant StripBlockComments(contents, pos, sb) == whole
      decreases |contents| - pos
    {
      var blockStart := Find(contents, BlockCommentStartSymbol, pos);
      if blockStart.None? {
        break;
      }
      var blockEnd := Find(contents, BlockCommentEndSymbol, blockStart.value + 2);
      if blockEnd.None? {
        return Err(UnfinishedBlockComment);
      }
      sb := sb + contents[pos..blockStart.value];
      pos := blockEnd.value + 2;
    }
    BlockLast(contents, pos, sb);
    if pos < |contents| {
      sb := sb + contents[pos..];
    }
    return Ok(sb);
  }

  /** The block loop has found no further opener. */
  lemma BlockLast(s: string, pos: nat, sb: string)
    requires pos <= |s| && Find(s, BlockCommentStartSymbol, pos).None?
    ensures StripBlockComments(s, pos, sb) == Ok(if pos < |s| then sb + s[pos..] else sb)
  {
    if pos == |s| {
      assert sb + s[pos..] == sb;
    }
  }

  /** No `--` survives the line pass: each kept piece stops before the first `--`
      and the next piece starts with a line break. */
  lemma {:induction false} NoLineCommentRemains(s: string, pos: nat)
    requires pos <= |s|
    ensures !Contains(StripLineComments(s, pos), LineCommentSymbol)
    decreases |s| - pos
  {
    match Find(s, LineCommentSymbol, pos)
    case None =>
      NoneBeforeFirst(s, LineCommentSymbol, pos, |s|);
      assert s[pos..] == s[pos..|s|];
    case Some(h) =>
      NoneBeforeFirst(s, LineCommentSymbol, pos, h);
      match FindAnyFrom(s, {'\r', '\n'}, h)
      case None =>
      case Some(e) =>
        assert s[h] == '-';
        NoLineCommentRemains(s, e);
        BreakStartsRest(s, e);
        NoPairAcross(s[pos..h], StripLineComments(s, e));
  }

  /** A slice that ends before the first occurrence of `p` does not contain `p`. */
  lemma NoneBeforeFirst(s: string, p: string, lo: nat, hi: nat)
    requires lo <= hi <= |s| && p != []
    requires Find(s, p, lo).None? || hi <= Find(s, p, lo).value
    ensures !Contains(s[lo..hi], p)
  {
    forall i | 0 <= i <= hi - lo ensures !OccursAt(s[lo..hi], p, i) {
      if i + |p| <= hi - lo {
        SliceOfSlice(s, lo, hi, i, i + |p|);
        FindFirst(s, p, lo, lo + i);
      }
    }
  }

  lemma NoPairAcross(a: string, b: string)
    requires !Contains(a, LineCommentSymbol) && !Contains(b, LineCommentSymbol)
    requires b != [] && b[0] != '-'
    ensures !Contains(a + b, LineCommentSymbol)
  {
    var r := a + b;
    forall i | 0 <= i <= |r| ensures !OccursAt(r, LineCommentSymbol, i) {
      if i + 2 <= |r| {
        if i + 2 <= |a| {
          assert r[i..i + 2] == a[i..i + 2];
          assert !OccursAt(a, LineCommentSymbol, i);
        } else if i + 1 == |a| {
          assert r[i + 1] == b[0];
        } else {
          assert r[i..i + 2] == b[i - |a|..i - |a| + 2];
          assert !OccursAt(b, LineCommentSymbol, i - |a|);
        }
      }
    }
  }

  /** The text kept from a line break on starts with that line break. */
  lemma {:induction false} BreakStartsRest(s: string, e: nat)
    requires e < |s| && (s[e] == '\r' || s[e] == '\n')
    ensures StripLineComments(s, e) != [] && StripLineComments(s, e)[0] == s[e]
  {
    assert !OccursAt(s, LineCommentSymbol, e);
    match Find(s, LineCommentSymbol, e)
    case None =>
    case Some(h) =>
      assert e < h;
      match FindAnyFrom(s, {'\r', '\n'}, h)
      case None =>
      case Some(e') =>
  }

  /** The line pass only deletes: its output is a subsequence of its input. */
  lemma {:induction false} LinePassSubsequence(s: string, pos: nat) returns (idx: seq<int>)
    requires pos <= |s|
    ensures Embeds(StripLineComments(s, pos), s[pos..], idx)
    decreases |s| - pos
  {
    match Find(s, LineCommentSymbol, pos)
    case None =>
      idx := EmbedsWhole(s[pos..]);
    case Some(h) =>
      match FindAnyFrom(s, {'\r', '\n'}, h)
      case None =>
        idx := KeepThenSkip(s, pos, h, |s|, [], []);
        assert s[pos..h] + [] == s[pos..h];
      case Some(e) =>
        assert s[h] == '-';
        var rest := LinePassSubsequence(s, e);
        idx := KeepThenSkip(s, pos, h, e, StripLineComments(s, e), rest);
  }

  /** The block pass only deletes as well: what it adds after `sb` is a
      subsequence of the text from `pos` on. */
  lemma {:induction false} BlockPassSubsequence(s: string, pos: nat, sb: string, r: string)
      returns (rest: string, idx: seq<int>)
    requires pos <= |s|
    requires StripBlockComments(s, pos, sb) == Ok(r)
    ensures r == sb + rest && Embeds(rest, s[pos..], idx)
    decreases |s| - pos
  {
    var b := Find(s, BlockCommentStartSymbol, pos);
    if b.None? {
      rest := s[pos..];
      idx := EmbedsWhole(rest);
    } else {
      var e := Find(s, BlockCommentEndSymbol, b.value + 2);
      assert e.Some?;
      var kept := s[pos..b.value];
      var tail, tailIdx := BlockPassSubsequence(s, e.value + 2, sb + kept, r);
      rest := kept + tail;
      idx := KeepThenSkip(s, pos, b.value, e.value + 2, tail, tailIdx);
    }
  }

  /** The output of `RemoveComments` consists of pieces of its input in their
      original order, so it is never longer than the input. */
  lemma RemoveCommentsOnlyDeletes(s: string)
    ensures RemoveCommentsSpec(s).Ok? ==> Subsequence(RemoveCommentsSpec(s).value, s)
    ensures RemoveCommentsSpec(s).Ok? ==> |RemoveCommentsSpec(s).value| <= |s|
  {
    var t := StripLineComments(s, 0);
    var i1 := LinePassSubsequence(s, 0);
    assert s[0..] == s && t[0..] == t;
    if RemoveCommentsSpec(s).Ok? {
      var kept, i2 := BlockPassSubsequence(t, 0, "", RemoveCommentsSpec(s).value);
      assert kept == RemoveCommentsSpec(s).value;
      var idx := EmbedsCompose(RemoveCommentsSpec(s).value, t, s, i2, i1);
      EmbedsLength(RemoveCommentsSpec(s).value, s, idx);
    }
  }

  /** A `/*` with no `*/` anywhere after the line pass is an unfinished block comment. */
  lemma UnclosedBlockComment(s: string)
    requires Contains(StripLineComments(s, 0), BlockCommentStartSymbol)
    requires !Contains(StripLineComments(s, 0), BlockCommentEndSymbol)
    ensures RemoveCommentsSpec(s) == Err(UnfinishedBlockComment)
  {
    var t := StripLineComments(s, 0);
    var i :| 0 <= i <= |t| && OccursAt(t, BlockCommentStartSymbol, i);
    assert Find(t, BlockCommentStartSymbol, 0).Some? by {
      if Find(t, BlockCommentStartSymbol, 0).None? {
        FindFirst(t, BlockCommentStartSymbol, 0, i);
      }
    }
  }

  /** Input without any line-comment or block-comment opener passes through unchanged. */
  lemma NoCommentsUnchanged(s: string)
    requires !Contains(s, LineCommentSymbol) && !Contains(s, BlockCommentStartSymbol)
    ensures RemoveCommentsSpec(s) == Ok(s)
  {
    FindNone(s, LineCommentSymbol, 0);
    assert s[0..] == s;
    FindNone(s, BlockCommentStartSymbol, 0);
    assert "" + s == s;
  }

  /** A line comment on the last line takes the rest of the text. */
  lemma LineCommentOnly()
    ensures RemoveCommentsSpec("--Foo") == Ok("")
  {
    FindIs("--Foo", LineCommentSymbol, 0, 0);
    assert FindAnyFrom("--Foo", {'\r', '\n'}, 0).None?;
    assert StripLineComments("--Foo", 0) == "";
    FindNone("", BlockCommentStartSymbol, 0);
    assert "" + ""[0..] == "";
  }

  /** The line break after a line comment is kept. */
  lemma LineCommentKeepsBreak()
    ensures RemoveCommentsSpec("--\n") == Ok("\n")
  {
    FindIs("--\n", LineCommentSymbol, 0, 0);
    assert FindAnyFrom("--\n", {'\r', '\n'}, 0) == Some(2);
    FindNone("--\n", LineCommentSymbol, 2);
    assert StripLineComments("--\n", 0) == "\n";
    FindNone("\n", BlockCommentStartSymbol, 0);
  }

  /** The closer is looked for after the opener, so `/**/` is one whole comment. */
  lemma EmptyBlockComment()
    ensures RemoveCommentsSpec("/**/") == Ok("")
  {
    var s := "/**/";
    FindNoneIn("", s, LineCommentSymbol);
    assert "" + s == s && s[0..] == s;
    assert StripLineComments(s, 0) == s;
    FindIs(s, BlockCommentStartSymbol, 0, 0);
    FindIs(s, BlockCommentEndSymbol, 2, 2);
    assert "" + s[0..0] == "";
    assert StripBlockComments(s, 0, "") == StripBlockComments(s, 4, "");
    FindNone(s, BlockCommentStartSymbol, 4);
    assert "" + s[4..] == "";
    assert StripBlockComments(s, 4, "") == Ok("");
  }

  /** `StringQuoter.SplitOnWhitespace`: quoted fragments pass whole; an unquoted one
      is split on ' ', empty pieces are dropped and the rest trimmed. */
  function SplitOnWhitespace(fragments: seq<QuotedString>): (r: seq<QuotedString>)
  {
    if fragments == [] then []
    else SplitFragment(fragments[0]) + SplitOnWhitespace(fragments[1..])
  }

  function SplitFragment(q: QuotedString): seq<QuotedString> {
    if q.quotation.Some? then [q]
    else TrimAll(NonEmpty(Split(q.snippet, ' ')))
  }

  /** `RemoveEmptyEntries`: the empty pieces go, every other piece stays. */
  function NonEmpty(pieces: seq<string>): (r: seq<string>)
    ensures forall k :: 0 <= k < |r| ==> r[k] != [] && r[k] in pieces
    ensures forall k :: 0 <= k < |pieces| && pieces[k] != [] ==> pieces[k] in r
    ensures |r| <= |pieces|
  {
    if pieces == [] then []
    else (if pieces[0] == [] then [] else [pieces[0]]) + NonEmpty(pieces[1..])
  }

  /** The kept pieces stay in their order: dropping the empty pieces of two
      runs of pieces one after the other is dropping them from each. */
  lemma {:induction false} NonEmptyAppend(a: seq<string>, b: seq<string>)
    ensures NonEmpty(a + b) == NonEmpty(a) + NonEmpty(b)
    decreases |a|
  {
    if a == [] {
      assert a + b == b;
    } else {
      assert (a + b)[0] == a[0] && (a + b)[1..] == a[1..] + b;
      NonEmptyAppend(a[1..], b);
    }
  }

  function TrimAll(pieces: seq<string>): (r: seq<QuotedString>)
    ensures |r| == |pieces|
    ensures forall k :: 0 <= k < |r| ==> r[k] == Unquoted(Trim(pieces[k]))
  {
    seq(|pieces|, k requires 0 <= k < |pieces| => Unquoted(Trim(pieces[k])))
  }

  /** The quoted fragments of the input, in order. */
  function QuotedOnly(fragments: seq<QuotedString>): seq<QuotedString> {
    if fragments == [] then []
    else (if fragments[0].quotation.Some? then [fragments[0]] else []) + QuotedOnly(fragments[1..])
  }

  /** Quoted fragments are kept whole and in order. */
  lemma {:induction false} SplitKeepsQuoted(fragments: seq<QuotedString>)
    ensures QuotedOnly(SplitOnWhitespace(fragments)) == QuotedOnly(fragments)
  {
    if fragments != [] {
      var head := SplitFragment(fragments[0]);
      SplitKeepsQuoted(fragments[1..]);
      QuotedOnlyAppend(head, SplitOnWhitespace(fragments[1..]));
      if fragments[0].quotation.None? {
        UnquotedNoQuoted(head);
      } else {
        assert head[1..] == [];
      }
    }
  }

  /** Every unquoted piece is trimmed and free of spaces. */
  lemma {:induction false} SplitPiecesClean(fragments: seq<QuotedString>)
    ensures forall k :: 0 <= k < |SplitOnWhitespace(fragments)| && SplitOnWhitespace(fragments)[k].quotation.None? ==>
      IsTrimmed(SplitOnWhitespace(fragments)[k].snippet) && ' ' !in SplitOnWhitespace(fragments)[k].snippet
  {
    if fragments != [] {
      var head: seq<QuotedString> := SplitFragment(fragments[0]);
      var tail: seq<QuotedString> := SplitOnWhitespace(fragments[1..]);
      var all: seq<QuotedString> := head + tail;
      SplitPiecesClean(fragments[1..]);
      FragmentPiecesClean(fragments[0]);
      forall k | 0 <= k < |all| && all[k].quotation.None?
        ensures IsTrimmed(all[k].snippet) && ' ' !in all[k].snippet
      {
        if k >= |head| {
          assert all[k] == tail[k - |head|];
        }
      }
    }
  }

  lemma FragmentPiecesClean(q: QuotedString)
    ensures forall k :: 0 <= k < |SplitFragment(q)| && SplitFragment(q)[k].quotation.None? ==>
      IsTrimmed(SplitFragment(q)[k].snippet) && ' ' !in SplitFragment(q)[k].snippet
  {
    if q.quotation.None? {
      var pieces := NonEmpty(Split(q.snippet, ' '));
      forall k | 0 <= k < |pieces| ensures IsTrimmed(Trim(pieces[k])) && ' ' !in Trim(pieces[k]) {
        TrimNoNewChar(pieces[k], ' ');
      }
    }
  }

  lemma {:induction false} QuotedOnlyAppend(a: seq<QuotedString>, b: seq<QuotedString>)
    ensures QuotedOnly(a + b) == QuotedOnly(a) + QuotedOnly(b)
  {
    if a == [] {
      assert a + b == b;
    } else {
      var t := a[1..];
      assert a == [a[0]] + t && a + b == [a[0]] + (t + b);
      QuotedOnlyAppend(t, b);
      QuotedOnlyCons(a[0], t);
      QuotedOnlyCons(a[0], t + b);
      var h := if a[0].quotation.Some? then [a[0]] else [];
      assert h + (QuotedOnly(t) + QuotedOnly(b)) == (h + QuotedOnly(t)) + QuotedOnly(b);
    }
  }

  lemma QuotedOnlyCons(x: QuotedString, rest: seq<QuotedString>)
    ensures QuotedOnly([x] + rest) == (if x.quotation.Some? then [x] else []) + QuotedOnly(rest)
  {
    var s := [x] + rest;
    assert s[0] == x && s[1..] == rest;
  }

  lemma {:induction false} UnquotedNoQuoted(a: seq<QuotedString>)
    requires forall k :: 0 <= k < |a| ==> a[k].quotation.None?
    ensures QuotedOnly(a) == []
  {
    if a != [] {
      UnquotedNoQuoted(a[1..]);
    }
  }

  lemma TrimNoNewChar(s: string, c: char)
    requires c !in s
    ensures c !in Trim(s) && IsTrimmed(Trim(s))
  {
  }
}
