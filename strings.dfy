/** Quotations and quoted fragments (LessML.Strings).

    A `StringQuotation` is a class in the source and some code compares quotations
    by reference; the `id` field stands for that object identity, so `==` on the
    datatype is `ReferenceEquals`, while `QuotationEquals` is the overridden
    field-wise `Equals`. A `QuotedString` is a snippet plus an optional quotation
    (None for an unquoted fragment, the source's null). */
module Strings {
  import opened Results

  datatype QuoteKind = String | Comment

  /** The unescapers the source defines: only `NoopEscapedString`, a singleton. */
  datatype Escaping = Noop

  function Unescape(e: Escaping, s: string): (r: string)
    ensures r == s  // the no-op unescaper returns its input unchanged
  {
    match e
    case Noop => s
  }

  datatype StringQuotation = StringQuotation(
    id: nat, start: string, end: Option<string>, kind: QuoteKind, escaping: Escaping)

  /** A quotation as built by an object initialiser that sets only `Start` and `End`:
      `Kind` defaults to `QuoteKind.String` and `Escaping` to the no-op unescaper. */
  function NewQuotation(id: nat, start: string, end: Option<string>): (q: StringQuotation)
    ensures q.kind == String && q.escaping == Noop
    ensures q.id == id && q.start == start && q.end == end
  {
    StringQuotation(id, start, end, String, Noop)
  }

  /** `StringQuotation.Equals`: field-wise, object identity ignored. */
  predicate QuotationEquals(a: StringQuotation, b: StringQuotation) {
    a.start == b.start && a.end == b.end && a.kind == b.kind && a.escaping == b.escaping
  }

  lemma QuotationEqualsIsEquivalence(a: StringQuotation, b: StringQuotation, c: StringQuotation)
    ensures QuotationEquals(a, a)
    ensures QuotationEquals(a, b) ==> QuotationEquals(b, a)
    ensures QuotationEquals(a, b) && QuotationEquals(b, c) ==> QuotationEquals(a, c)
    ensures QuotationEquals(a, b) <==> (a.start, a.end, a.kind, a.escaping) == (b.start, b.end, b.kind, b.escaping)
  {
  }

  datatype QuotedString = QuotedString(snippet: string, quotation: Option<StringQuotation>)

  /** `new QuotedString(s)`, also the implicit string-to-fragment conversion. */
  function Unquoted(s: string): (q: QuotedString)
    ensures q.quotation.None? && q.snippet == s
  {
    QuotedString(s, None)
  }

  predicate IsComment(q: QuotedString) {
    q.quotation.Some? && q.quotation.value.kind == Comment
  }

  /** `QuotedString.ToString`: delimiters around the snippet of a quoted fragment. */
  function Show(q: QuotedString): string {
    match q.quotation
    case None => q.snippet
    case Some(qt) => qt.start + q.snippet + (match qt.end case None => "" case Some(e) => e)
  }

  lemma ShowShape(q: QuotedString)
    ensures q.quotation.None? ==> Show(q) == q.snippet
    ensures q.quotation.Some? && q.quotation.value.end.None? ==> Show(q) == q.quotation.value.start + q.snippet
    ensures q.quotation.Some? && q.quotation.value.end.Some? ==>
      Show(q) == q.quotation.value.start + q.snippet + q.quotation.value.end.value
    ensures |Show(q)| >= |q.snippet|
  {
  }

  /** `QuotedString.Equals`: equal snippets and quotations equal by `Object.Equals`
      (both null, or both present and field-wise equal). */
  predicate FragmentEquals(a: QuotedString, b: QuotedString) {
    a.snippet == b.snippet &&
    match (a.quotation, b.quotation)
    case (None, None) => true
    case (Some(x), Some(y)) => QuotationEquals(x, y)
    case _ => false
  }

  lemma FragmentEqualsProperties(a: QuotedString, b: QuotedString)
    ensures FragmentEquals(a, a)
    ensures FragmentEquals(a, b) ==> FragmentEquals(b, a)
    ensures a.quotation.None? && b.quotation.None? ==> (FragmentEquals(a, b) <==> a.snippet == b.snippet)
    ensures FragmentEquals(a, b) ==> a.snippet == b.snippet && a.quotation.None? == b.quotation.None?
  {
  }

  /** `QuotedString.IsSemanticallyEquivalent` on possibly-null fragments. */
  predicate Equivalent(a: Option<QuotedString>, b: Option<QuotedString>) {
    match (a, b)
    case (None, None) => true
    case (Some(x), Some(y)) => x.snippet == y.snippet && !IsComment(x) && !IsComment(y)
    case _ => false
  }

  lemma {:induction false} EquivalentProperties(a: Option<QuotedString>, b: Option<QuotedString>)
    ensures Equivalent(a, b) <==> Equivalent(b, a)
    ensures a.None? ==> (Equivalent(a, b) <==> b.None?)
    ensures a.Some? && b.Some? ==>
      (Equivalent(a, b) <==> a.value.snippet == b.value.snippet && !IsComment(a.value) && !IsComment(b.value))
    ensures a.Some? ==> (Equivalent(a, a) <==> !IsComment(a.value))
  {
  }

  /** The delimiter style never matters: a fragment is equivalent to the unquoted
      fragment with the same snippet unless it is a comment. */
  lemma {:induction false} EquivalenceIgnoresStyle(q: QuotedString)
    ensures Equivalent(Some(q), Some(Unquoted(q.snippet))) <==> !IsComment(q)
  {
  }
}
