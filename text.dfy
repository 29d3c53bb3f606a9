/** The few pieces of .NET string handling the translator relies on, written out:
    `Char.IsWhiteSpace`, `String.Trim`, ordinal `IndexOf`/`IndexOfAny`, `StartsWith`,
    `EndsWith`, `Replace`, and the line splitting of `StringReader.ReadLine`. */
module Text {
  import opened Results

  /** `Char.IsWhiteSpace`: the Unicode space separators, line and paragraph
      separators, U+0009 to U+000D, U+0085 and U+00A0. */
  predicate IsWhiteSpace(c: char) {
    c == ' ' || ('\t' <= c <= '\r') || c == '\U{0085}' || c == '\U{00A0}' || c == '\U{1680}'
    || ('\U{2000}' <= c <= '\U{200A}') || c == '\U{2028}' || c == '\U{2029}' || c == '\U{202F}'
    || c == '\U{205F}' || c == '\U{3000}'
  }

  /** Number of white-space characters at the start of `s`. */
  function LeadingWhiteSpace(s: string): (n: nat)
    ensures n <= |s|
    ensures forall i :: 0 <= i < n ==> IsWhiteSpace(s[i])
    ensures n < |s| ==> !IsWhiteSpace(s[n])
  {
    if s == [] || !IsWhiteSpace(s[0]) then 0
    else 1 + LeadingWhiteSpace(s[1..])
  }

  /** Number of white-space characters at the end of `s`. */
  function TrailingWhiteSpace(s: string): (n: nat)
    ensures n <= |s|
    ensures forall i :: |s| - n <= i < |s| ==> IsWhiteSpace(s[i])
    ensures n < |s| ==> !IsWhiteSpace(s[|s| - n - 1])
  {
    if s == [] || !IsWhiteSpace(s[|s| - 1]) then 0
    else 1 + TrailingWhiteSpace(s[..|s| - 1])
  }

  /** Where the text kept by `Trim` ends: after the last non-white-space character. */
  function TrimEnd(s: string): (j: nat)
    ensures LeadingWhiteSpace(s) <= j <= |s|
    ensures forall i :: j <= i < |s| ==> IsWhiteSpace(s[i])
    ensures LeadingWhiteSpace(s) < j ==> !IsWhiteSpace(s[j - 1])
  {
    if LeadingWhiteSpace(s) == |s| then |s|
    else |s| - TrailingWhiteSpace(s)
  }

  /** `String.Trim()`: drops white space at both ends and nothing else; the white
      space dropped is `s[..LeadingWhiteSpace(s)]` and `s[TrimEnd(s)..]`. */
  function Trim(s: string): (r: string)
    ensures IsTrimmed(r) && |r| <= |s|
  {
    s[LeadingWhiteSpace(s)..TrimEnd(s)]
  }

  predicate IsTrimmed(s: string) {
    s == [] || (!IsWhiteSpace(s[0]) && !IsWhiteSpace(s[|s| - 1]))
  }

  lemma {:induction false} TrimOfTrimmed(s: string)
    requires IsTrimmed(s)
    ensures Trim(s) == s
  {
    assert LeadingWhiteSpace(s) == 0;
    if s != [] {
      assert TrailingWhiteSpace(s) == 0;
    }
  }

  lemma SliceOfSlice(s: string, lo: nat, hi: nat, i: nat, j: nat)
    requires lo <= hi <= |s| && i <= j <= hi - lo
    ensures s[lo..hi][i..j] == s[lo + i..lo + j]
  {
    var t := s[lo..hi][i..j];
    assert forall k :: 0 <= k < |t| ==> t[k] == s[lo + i + k];
  }

  predicate StartsWith(s: string, p: string) {
    |p| <= |s| && s[..|p|] == p
  }

  predicate EndsWith(s: string, p: string) {
    |p| <= |s| && s[|s| - |p|..] == p
  }

  /** `p` occurs in `s` starting at position `i`. */
  predicate OccursAt(s: string, p: string, i: int) {
    0 <= i && i + |p| <= |s| && s[i..i + |p|] == p
  }

  predicate Contains(s: string, p: string) {
    exists i :: 0 <= i <= |s| && OccursAt(s, p, i)
  }

  /** Ordinal `s.IndexOf(p, from)`: the first occurrence of `p` at or after `from`. */
  function Find(s: string, p: string, from: nat): (r: Option<nat>)
    requires from <= |s|
    ensures r.Some? ==> from <= r.value && OccursAt(s, p, r.value)
    decreases |s| - from
  {
    if from + |p| > |s| then None
    else if OccursAt(s, p, from) then Some(from)
    else Find(s, p, from + 1)
  }

  /** `Find` returns the first occurrence: `p` does not occur at any position
      from `from` on that lies before the result, or at all when there is none. */
  lemma {:induction false} FindFirst(s: string, p: string, from: nat, j: int)
    requires from <= j && from <= |s|
    requires Find(s, p, from).None? || j < Find(s, p, from).value
    ensures !OccursAt(s, p, j)
    decreases |s| - from
  {
    if j > from && from + |p| <= |s| && !OccursAt(s, p, from) {
      FindFirst(s, p, from + 1, j);
    }
  }

  /** `Find` is pinned down by the first occurrence. */
  lemma {:induction false} FindIs(s: string, p: string, from: nat, i: nat)
    requires from <= i && OccursAt(s, p, i)
    requires forall j :: from <= j < i ==> !OccursAt(s, p, j)
    ensures from <= |s| && Find(s, p, from) == Some(i)
    decreases i - from
  {
    if from < i {
      assert !OccursAt(s, p, from);
      FindIs(s, p, from + 1, i);
    }
  }

  /** `Find` reports no occurrence when there is none from `from` on. */
  lemma {:induction false} FindNone(s: string, p: string, from: nat)
    requires from <= |s|
    requires forall j :: from <= j ==> !OccursAt(s, p, j)
    ensures Find(s, p, from).None?
    decreases |s| - from
  {
    if from + |p| <= |s| {
      assert !OccursAt(s, p, from);
      FindNone(s, p, from + 1);
    }
  }

  /** `Find` stops at the first place where `p` occurs: after a stretch that does
      not hold the first character of `p`. */
  lemma FindAfter(pre: string, a: string, p: string, b: string)
    requires p != [] && p[0] !in a
    ensures Find(pre + a + p + b, p, |pre|) == Some(|pre| + |a|)
  {
    var s := pre + a + p + b;
    assert s[|pre| + |a|..|pre| + |a| + |p|] == p;
    assert OccursAt(s, p, |pre| + |a|);
    forall j | |pre| <= j < |pre| + |a| ensures !OccursAt(s, p, j) {
      assert s[j] == a[j - |pre|];
      if j + |p| <= |s| {
        assert s[j..j + |p|][0] == s[j];
      }
    }
    FindIs(s, p, |pre|, |pre| + |a|);
  }

  lemma FindNoneIn(pre: string, a: string, p: string)
    requires p != [] && p[0] !in a
    ensures Find(pre + a, p, |pre|).None?
  {
    var s := pre + a;
    forall j | |pre| <= j ensures !OccursAt(s, p, j) {
      if j + |p| <= |s| {
        assert s[j] == a[j - |pre|];
        assert s[j..j + |p|][0] == s[j];
      }
    }
    FindNone(s, p, |pre|);
  }

  /** Ordinal `s.IndexOfAny(chars)`. */
  function FindAny(s: string, chars: set<char>): (r: Option<nat>)
    ensures r.Some? ==> r.value < |s| && s[r.value] in chars
    ensures r.Some? ==> forall j :: 0 <= j < r.value ==> s[j] !in chars
    ensures r.None? ==> forall j :: 0 <= j < |s| ==> s[j] !in chars
  {
    if s == [] then None
    else if s[0] in chars then Some(0)
    else match FindAny(s[1..], chars)
      case None => None
      case Some(j) => Some(j + 1)
  }

  /** Ordinal `s.IndexOfAny(chars, from)`. */
  function FindAnyFrom(s: string, chars: set<char>, from: nat): (r: Option<nat>)
    requires from <= |s|
    ensures r.Some? ==> from <= r.value < |s| && s[r.value] in chars
    ensures r.Some? ==> forall j :: from <= j < r.value ==> s[j] !in chars
    ensures r.None? ==> forall j :: from <= j < |s| ==> s[j] !in chars
    decreases |s| - from
  {
    if from == |s| then None
    else if s[from] in chars then Some(from)
    else FindAnyFrom(s, chars, from + 1)
  }

  /** `s.Split(c)` without options: the pieces between occurrences of `c`. */
  function Split(s: string, c: char): (r: seq<string>)
    ensures |r| >= 1
    ensures forall k :: 0 <= k < |r| ==> c !in r[k]
  {
    if s == [] then [""]
    else
      var rest := Split(s[1..], c);
      if s[0] == c then [""] + rest else [[s[0]] + rest[0]] + rest[1..]
  }

  /** `String.Join(c, pieces)`. */
  function Join(pieces: seq<string>, c: char): string
    requires |pieces| >= 1
  {
    if |pieces| == 1 then pieces[0] else pieces[0] + [c] + Join(pieces[1..], c)
  }

  /** Splitting loses nothing: joining the pieces with the separator gives `s` back. */
  lemma {:induction false} JoinSplit(s: string, c: char)
    ensures Join(Split(s, c), c) == s
  {
    if s != [] {
      var rest := Split(s[1..], c);
      JoinSplit(s[1..], c);
      if s[0] == c {
        assert Split(s, c)[1..] == rest;
      } else if |rest| == 1 {
      } else {
        assert Split(s, c)[1..] == rest[1..];
        assert Join(rest, c) == rest[0] + [c] + Join(rest[1..], c);
      }
    }
  }

  /** Ordinal `s.Replace(k, v)`: every occurrence of `k`, found left to right
      without overlap, becomes `v`. */
  function Replace(s: string, k: string, v: string): string
    requires k != []
    decreases |s|
  {
    if |s| < |k| then s
    else if s[..|k|] == k then v + Replace(s[|k|..], k, v)
    else [s[0]] + Replace(s[1..], k, v)
  }

  /** The lines `StringReader.ReadLine` returns one after the other: a line ends at
      "\r\n", "\r" or "\n", and a final terminator does not start an empty line. */
  function Lines(s: string): (r: seq<string>)
    ensures forall k :: 0 <= k < |r| ==> NoLineBreak(r[k])
    decreases |s|
  {
    if s == [] then []
    else match FindAny(s, {'\r', '\n'})
      case None => [s]
      case Some(i) =>
        var next := if s[i] == '\r' && i + 1 < |s| && s[i + 1] == '\n' then i + 2 else i + 1;
        [s[..i]] + Lines(s[next..])
  }

  predicate NoLineBreak(s: string) {
    forall i :: 0 <= i < |s| ==> s[i] != '\n' && s[i] != '\r'
  }

  /** Number of occurrences of `c` in `s`. */
  function CountChar(s: string, c: char): nat {
    if s == [] then 0 else (if s[0] == c then 1 else 0) + CountChar(s[1..], c)
  }

  lemma {:induction false} CountCharAppend(a: string, b: string, c: char)
    ensures CountChar(a + b, c) == CountChar(a, c) + CountChar(b, c)
  {
    if a == [] {
      assert a + b == b;
    } else {
      assert (a + b)[1..] == a[1..] + b;
      CountCharAppend(a[1..], b, c);
    }
  }

  lemma {:induction false} CountCharAbsent(s: string, c: char)
    requires forall i :: 0 <= i < |s| ==> s[i] != c
    ensures CountChar(s, c) == 0
  {
    if s != [] {
      CountCharAbsent(s[1..], c);
    }
  }

  /** `s` written `n` times. */
  function Repeat(s: string, n: nat): (r: string)
    ensures |r| == n * |s|
  {
    if n == 0 then [] else s + Repeat(s, n - 1)
  }
}
