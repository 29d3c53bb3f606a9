/** Grammar configuration: the quotation lists, operator lists and default
    operator of the two `VampRules` classes and of the rule builders that extend
    them (LessML.VampRules, LessML.Vamp.VampRules, XmlConverter.MakeRules,
    XamlTransformer.MakeRules, TemplateTransformer.AppendRules). The source keeps
    these in mutable lists that are only filled while a rule object is built, so
    they are values here. */
module Rules {
  import opened Results
  import opened Strings

  datatype VampRules = VampRules(quotations: seq<StringQuotation>, operators: seq<string>, defaultOp: string)

  /** Object identities of the quotation instances the source creates. */
  const DoubleId: nat := 1
  const SingleId: nat := 2
  const BlockCommentId: nat := 3
  const LineCommentId: nat := 4
  const SharedSingleId: nat := 5
  const SharedDoubleId: nat := 6
  const AltBlockCommentId: nat := 7
  const AltLineCommentId: nat := 8
  const TemplateApplicationId: nat := 9

  /** The quotation list of `LessML.VampRules`: double quote, single quote,
      `/* */` comment, `#` comment without an end delimiter. */
  function DefaultQuotations(): (qs: seq<StringQuotation>)
    ensures |qs| == 4
    ensures qs[0].start == "\"" && qs[0].end == Some("\"") && qs[0].kind == String
    ensures qs[1].start == "'" && qs[1].end == Some("'") && qs[1].kind == String
    ensures qs[2].start == "/*" && qs[2].end == Some("*/") && qs[2].kind == Comment
    ensures qs[3].start == "#" && qs[3].end.None? && qs[3].kind == Comment
    ensures forall i :: 0 <= i < |qs| ==> qs[i].escaping == Noop
  {
    [ NewQuotation(DoubleId, "\"", Some("\"")),
      NewQuotation(SingleId, "'", Some("'")),
      StringQuotation(BlockCommentId, "/*", Some("*/"), Comment, Noop),
      StringQuotation(LineCommentId, "#", None, Comment, Noop) ]
  }

  /** `new LessML.VampRules()`: no operators yet; `DefaultOp` is set by every builder
      that the pipeline uses, so it is a plain string here (see README). */
  function NewRules(defaultOp: string): (r: VampRules)
    ensures r.quotations == DefaultQuotations() && r.operators == [] && r.defaultOp == defaultOp
  {
    VampRules(DefaultQuotations(), [], defaultOp)
  }

  /** `LessML.Vamp.VampRules.SingleQuotes` / `DoubleQuotes`: one shared instance each. */
  const SingleQuotes: StringQuotation := NewQuotation(SharedSingleId, "'", Some("'"))
  const DoubleQuotes: StringQuotation := NewQuotation(SharedDoubleId, "\"", Some("\""))

  /** The quotation list of `LessML.Vamp.VampRules`: the shared single and double
      quote instances first, then the two comment quotations. */
  function AlternateQuotations(): (qs: seq<StringQuotation>)
    ensures |qs| == 4 && qs[0] == SingleQuotes && qs[1] == DoubleQuotes
    ensures qs[2].start == "/*" && qs[2].end == Some("*/") && qs[2].kind == Comment
    ensures qs[3].start == "#" && qs[3].end.None? && qs[3].kind == Comment
  {
    [ SingleQuotes, DoubleQuotes,
      StringQuotation(AltBlockCommentId, "/*", Some("*/"), Comment, Noop),
      StringQuotation(AltLineCommentId, "#", None, Comment, Noop) ]
  }

  /** The two default lists hold the same delimiters with the first two swapped. */
  lemma QuotationListsSwapFirstTwo()
    ensures QuotationEquals(AlternateQuotations()[0], DefaultQuotations()[1])
    ensures QuotationEquals(AlternateQuotations()[1], DefaultQuotations()[0])
    ensures QuotationEquals(AlternateQuotations()[2], DefaultQuotations()[2])
    ensures QuotationEquals(AlternateQuotations()[3], DefaultQuotations()[3])
    ensures forall i :: 0 <= i < 4 ==> AlternateQuotations()[i] != DefaultQuotations()[i]
  {
  }

  /** `XmlConverter.MakeRules` and `VampRules.MakeXmlRules` (identical bodies). */
  function MakeXmlRules(): (r: VampRules)
    ensures r.quotations == DefaultQuotations()
    ensures r.operators == ["=", ":"] && r.defaultOp == ":"
  {
    var r := NewRules(":");
    r.(operators := r.operators + ["="] + [":"])
  }

  /** `XamlTransformer.MakeRules`: the XML rules with `->` and `:=` appended. */
  function XamlRules(): (r: VampRules)
    ensures r.quotations == DefaultQuotations()
    ensures r.operators == ["=", ":", "->", ":="] && r.defaultOp == ":"
  {
    var r := MakeXmlRules();
    r.(operators := r.operators + ["->", ":="])
  }

  /** `TemplateTransformer.TemplateApplication`: the backtick quotation whose identity
      marks template calls. */
  const TemplateApplication: StringQuotation := NewQuotation(TemplateApplicationId, "`", Some("`"))

  /** `TemplateTransformer.AppendRules`: the backtick quotation goes last. */
  function AppendTemplateRules(r: VampRules): (r': VampRules)
    ensures r'.quotations == r.quotations + [TemplateApplication]
    ensures r'.operators == r.operators && r'.defaultOp == r.defaultOp
  {
    r.(quotations := r.quotations + [TemplateApplication])
  }

  /** The grammar of the current pipeline (`Xaml/LessXamlParser.Translate`). */
  function PipelineRules(): (r: VampRules)
    ensures r.operators == ["=", ":", "->", ":="] && r.defaultOp == ":"
    ensures |r.quotations| == 5 && r.quotations[4] == TemplateApplication
    ensures r.quotations[..4] == DefaultQuotations()
  {
    AppendTemplateRules(XamlRules())
  }

  /** The operator configuration of the older `LessXamlParser.Translate`. */
  function OldTranslateRules(): (r: VampRules)
    ensures r.quotations == DefaultQuotations()
    ensures r.operators == ["=", "->", ":=", ":"] && r.defaultOp == ":"
  {
    var r := NewRules(":");
    r.(operators := ["=", "->", ":=", ":"])
  }

  /** A quotation the lexer can use: a non-empty start delimiter, and a non-empty
      end delimiter if there is one. */
  predicate QuotationOk(q: StringQuotation) {
    q.start != [] && (q.end.Some? ==> q.end.value != [])
  }

  predicate RulesOk(r: VampRules) {
    forall i :: 0 <= i < |r.quotations| ==> QuotationOk(r.quotations[i])
  }

  /** Only the backtick quotation of the pipeline grammar is the template marker. */
  lemma BuiltInRulesOk()
    ensures RulesOk(NewRules(":")) && RulesOk(MakeXmlRules()) && RulesOk(XamlRules())
    ensures RulesOk(PipelineRules()) && RulesOk(OldTranslateRules())
    ensures forall i :: 0 <= i < 4 ==> PipelineRules().quotations[i] != TemplateApplication
  {
  }
}
