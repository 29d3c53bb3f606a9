# LessML core, modelled in Dafny

LessML (LessXaml) is a small indentation-based language that translates to
XAML. A program is a list of lines. Each line is `key operator value` or a
bare quoted value, and a line nested one indentation step deeper than another
is its child. The translator works in these stages:

1. **Lexer** (`VampParser`): reads the program line by line.
   - The indenter turns leading white space into a nesting level and rejects
     mixed tabs and spaces and unmatched dedents.
   - The quoter cuts a line into quoted and unquoted fragments. A quotation can
     span several physical lines.
   - The splitter separates the key, the operator and the value, and comments
     are dropped.
2. **Tree builder** (`VampParser.Parse`): turns the token stream into a tree of
   `VampNode`s below a pseudo-root.
3. **Macro passes** (`MacroExpander`):
   - The template macro registers `Template Name(params)` definitions and
     replaces each `Name(args)` call by substituted copies of the definition.
   - The XAML macro rewrites property setters, attached properties, bindings
     and resource references.
4. **XAML declarations** (`LessXamlParser.Translate`): the root gets its
   `xmlns` and `xmlns:x` declarations when they are missing.
5. **XML conversion** (`XmlConverter`): the tree becomes an XML document.
   `FromXml` reads XML back into a tree, and `StringConverter` prints a tree back
   to source form.

The model keeps the source's shape.
- Node trees live in one arena, the class `Nodes.Forest`. A node reference is an
  index into it, so reference equality of nodes is index equality.
- The objects the source changes in place are classes whose methods are proved
  against specification functions: the indenter, the line reader, the splitter,
  the forest, the template registry, the namespace resolvers, the XML containers
  and the string builder.
- The pure parts are datatypes and functions: quotations, rules, tokens, the
  header parser, the substitution, and value snapshots of trees.
- An exception is an `Err` of `Results.Error`.

| file | module | source |
|---|---|---|
| results.dfy | Results | the exceptions the translator throws |
| text.dfy | Text | the .NET string operations the source relies on |
| strings.dfy | Strings | LessXaml/Strings/StringQuotation.cs, QuotedString.cs |
| rules.dfy | Rules | LessXaml/VampRules.cs, LessXaml/Vamp/VampRules.cs, the `MakeRules` builders |
| indenter.dfy | Indentation | `Indenter` and the line reader in LessXaml/Vamp/Vamp.cs |
| quoter.dfy | Quoter | `StringQuoter.GetStrings` in LessXaml/Vamp/Vamp.cs |
| tokenizer.dfy | Tokenizer | `StringSplitter` and `Tokenize` in LessXaml/Vamp/Vamp.cs |
| tree_builder.dfy | TreeBuilder | `VampParser.Parse` in LessXaml/Vamp/Vamp.cs |
| comment_lines.dfy | CommentLines | the levels `Tokenize` gives after a comment-only line, and `Parse` on them |
| old_vamp.dfy | OldVamp | `RemoveComments` and `SplitOnWhitespace` in LessXaml/Vamp.cs |
| nodes.dfy | Nodes | LessXaml/Vamp/VampNode.cs |
| macro_result.dfy | MacroResults | LessXaml/Macros/IMacro.cs |
| templates.dfy | Templates | header, prefix and substitution in LessXaml/Macros/TemplateTransformer.cs |
| macros.dfy | Macros | LessXaml/Macros/MacroExpander.cs, TemplateTransformer.cs |
| template_copies.dfy, macro_properties.dfy | TemplateCopies, MacroProperties | properties of the engine and the template macro |
| xaml.dfy | Xaml | LessXaml/Xaml/XamlTransformer.cs |
| xml.dfy, xml_convert.dfy | Xml, XmlConvert | LessXaml/XmlConverter.cs |
| xml_properties.dfy, xml_roundtrip.dfy | XmlProperties, XmlRoundTrip | properties of the XML conversion |
| printer.dfy | Printer | LessXaml/StringConverter.cs |
| pipeline.dfy | Pipeline | LessXaml/Xaml/LessXamlParser.cs |
| legacy_parser.dfy | LegacyParser | LessXaml/LessXamlParser.cs |

## Model

| member | source | states |
|---|---|---|
| Strings.Unescape | LessXaml/Strings/NoopEscapedString.cs:7-10 | the only unescaper the program defines hands its input back unchanged |
| Strings.NewQuotation | LessXaml/Strings/StringQuotation.cs:5-8 | a quotation built by setting only its delimiters is a string quotation with the no-op unescaper |
| Strings.QuotationEqualsIsEquivalence | LessXaml/Strings/StringQuotation.cs:10-16 | quotation equality is reflexive, symmetric and transitive, and holds exactly when start, end, kind and unescaper agree, whatever the object identity |
| Strings.Unquoted | LessXaml/Strings/QuotedString.cs:12-15 | a fragment made from plain text carries that text and no quotation |
| Strings.ShowShape | LessXaml/Strings/QuotedString.cs:28-34 | printing a fragment gives its snippet alone when unquoted, and start delimiter, snippet and end delimiter (if any) when quoted; never shorter than the snippet |
| Strings.FragmentEqualsProperties | LessXaml/Strings/QuotedString.cs:17-20 | fragment equality is reflexive and symmetric; two unquoted fragments are equal exactly when their snippets are; equal fragments share snippet and quotedness |
| Strings.EquivalentProperties | LessXaml/Strings/QuotedString.cs:36-44 | semantic equivalence is symmetric; null is equivalent only to null; two fragments are equivalent exactly when their snippets agree and neither is a comment; a comment is not even equivalent to itself |
| Strings.EquivalenceIgnoresStyle | LessXaml/Strings/QuotedString.cs:36-44 | the delimiter style never matters: a fragment is equivalent to the unquoted fragment with the same text unless it is a comment |
| Rules.DefaultQuotations | LessXaml/VampRules.cs:8-15 | the default grammar lists, in order, double quotes, single quotes, the `/* */` comment and the end-less `#` comment |
| Rules.NewRules | LessXaml/VampRules.cs:8-18 | a fresh rule set has the default quotations and no operators |
| Rules.AlternateQuotations | LessXaml/Vamp/VampRules.cs:8-17 | the other rule class lists its shared single and double quote instances first, then the two comments |
| Rules.QuotationListsSwapFirstTwo | LessXaml/Vamp/VampRules.cs:11-17 | the two rule classes hold the same delimiters with the first two swapped, but never the same quotation objects |
| Rules.MakeXmlRules | LessXaml/XmlConverter.cs:15-22 | the XML grammar has the operators `=` then `:` and `:` as default operator |
| Rules.XamlRules | LessXaml/Xaml/XamlTransformer.cs:9-14 | the XAML grammar is the XML grammar with `->` and `:=` appended |
| Rules.AppendTemplateRules | LessXaml/Macros/TemplateTransformer.cs:15-18 | the backtick quotation is appended last and nothing else changes |
| Rules.PipelineRules | LessXaml/Xaml/LessXamlParser.cs:12-13 | the translator's grammar: the XAML operators, the four default quotations, then the backtick quotation |
| Rules.OldTranslateRules | LessXaml/LessXamlParser.cs:12-15 | the older translator replaces the operators by `=`, `->`, `:=`, `:` with `:` as default |
| Rules.BuiltInRulesOk | LessXaml/VampRules.cs:8-15 | every built-in grammar has non-empty delimiters, and only the last quotation of the translator's grammar is the template marker |
| LegacyParser.FormatDynamic | LessXaml/LessXamlParser.cs:30-34 | `**x` formats to `{DynamicResource x}` for every `x` |
| LegacyParser.FormatStatic | LessXaml/LessXamlParser.cs:35-39 | `*x` formats to `{StaticResource x}` whenever `x` does not itself start with `*` |
| LegacyParser.FormatIdempotent | LessXaml/LessXamlParser.cs:28-41 | formatting twice is formatting once (with FormatDynamic and FormatStatic this gives the meaning of `FormatValue`) |
| Indentation.LineReader.constructor | LessXaml/Vamp/Vamp.cs:294 | the reader starts before the first line of the program |
| Indentation.LineReader.ReadLine | LessXaml/Vamp/Vamp.cs:298 | hands out the next unread line, or null once every line is read |
| Indentation.Indenter.constructor | LessXaml/Vamp/Vamp.cs:121-124 | the prefix stack starts with the empty prefix alone and no whitespace character is fixed |
| Indentation.Indenter.ScanPrefix | LessXaml/Vamp/Vamp.cs:128-138 | counts the leading whitespace, fixes the document's whitespace character at the first one seen, and reports mixing exactly when the prefix holds another character |
| Indentation.Indenter.PopTo | LessXaml/Vamp/Vamp.cs:146-150 | pops every prefix longer than the line's, never the empty bottom one |
| Indentation.Indenter.Unindent | LessXaml/Vamp/Vamp.cs:126-158 | the new indenter state and the result are those of the step specification, and a successful step keeps the stack well formed |
| Indentation.UnindentSpecMixed | LessXaml/Vamp/Vamp.cs:134-137 | a prefix mixing whitespace characters fails with the mixed-tabs-and-spaces error and leaves the stack alone |
| Indentation.UnindentSpecPush | LessXaml/Vamp/Vamp.cs:142-143 | a prefix longer than the top is pushed and the line's level is the new depth |
| Indentation.UnindentSpecPop | LessXaml/Vamp/Vamp.cs:144-153 | otherwise longer prefixes are popped and the line fails with the wrong-indentation error unless a prefix of exactly its length is left on top |
| Indentation.UnindentKeepsStackOk | LessXaml/Vamp/Vamp.cs:140-153 | after a successful step the prefixes still start empty, strictly lengthen upwards and consist of the document's whitespace character |
| Indentation.UnindentText | LessXaml/Vamp/Vamp.cs:154-157 | the text returned is the line minus exactly all of its leading whitespace |
| Indentation.UnindentLevel | LessXaml/Vamp/Vamp.cs:156 | the level counts the prefixes above the bottom one, rises by at most one per line, and the top prefix is the line's own |
| Indentation.UnindentPush | LessXaml/Vamp/Vamp.cs:142-143 | a deeper uniform prefix always succeeds, pushing exactly one frame |
| Indentation.UnindentPop | LessXaml/Vamp/Vamp.cs:144-153 | a prefix no deeper than the top succeeds exactly when, after popping, the top has its length; otherwise the error is wrong indentation |
| Indentation.UnindentMixed | LessXaml/Vamp/Vamp.cs:134-137 | mixing is reported exactly when the prefix contains a character other than the document's; once fixed that character never changes |
| Quoter.EarliestIsFirst | LessXaml/Vamp/Vamp.cs:175-178 | the quotation chosen starts earliest on the line, ties going to the one listed first, and none is chosen exactly when no start delimiter occurs |
| Quoter.Close | LessXaml/Vamp/Vamp.cs:205-222 | the quote closes at the end delimiter, pulling further lines while it is missing; the only failure is an unfinished string, and no line is ever given back |
| Quoter.Round | LessXaml/Vamp/Vamp.cs:173-230 | one round of the outer loop; in the corrected form every round that goes on reads a line or shortens the current one |
| Quoter.ScanExtends | LessXaml/Vamp/Vamp.cs:170-234 | fragments are only ever appended to the result, and the only error is an unfinished string |
| Quoter.PlainLine | LessXaml/Vamp/Vamp.cs:181-187 | a line with no start delimiter is its trimmed text as one unquoted fragment, or nothing when blank, and no further line is read (the meaning of `Word`) |
| Quoter.QuoteOnOneLine | LessXaml/Vamp/Vamp.cs:189-230 | a quote closed on its own line yields the trimmed text before it as an unquoted fragment, then the quoted text tagged with its quotation, and the scan resumes after the end delimiter |
| Quoter.QuoteOnOneLineMatch | LessXaml/Vamp/Vamp.cs:175-178 | the quotation that starts first on such a line is the one matched |
| Quoter.QuoteOnOneLineClose | LessXaml/Vamp/Vamp.cs:216-221 | the quote on such a line closes on that line with exactly its body |
| Quoter.UnfinishedQuote | LessXaml/Vamp/Vamp.cs:208-213 | a quote whose end delimiter never comes fails with the unfinished-string error once the program runs out of lines |
| Quoter.EndlessQuotationNeverFinishes | LessXaml/Vamp/Vamp.cs:196-200 | as written, when the earliest quotation has no end delimiter the line is left unchanged, so every round matches it again and adds one more fragment, for ever |
| Quoter.HashCommentHangs | LessXaml/Vamp/Vamp.cs:196-200 | as written, a line holding only `#` is still unfinished after any number of rounds |
| Quoter.HashCommentScans | LessXaml/Vamp/Vamp.cs:196-200 | with the end-less quotation consuming the rest of the line, `#` is one empty comment fragment and the rest of the program is untouched |
| Quoter.CloseQuote | LessXaml/Vamp/Vamp.cs:204-223 | the inner loop's result and the lines it leaves unread are those of the closing specification |
| Quoter.RoundOfMatch | LessXaml/Vamp/Vamp.cs:189-230 | what one round does once a quotation is found: the unquoted prefix, then the quoted fragment, closed on the spot when it has no end delimiter |
| Quoter.ScanRound | LessXaml/Vamp/Vamp.cs:173-230 | one pass of the outer loop computes the round of the specification and leaves the reader at its remaining lines |
| Quoter.GetStrings | LessXaml/Vamp/Vamp.cs:170-234 | the fragments of a logical line and the lines left unread are those of the scan specification; on an unfinished string the reader is exhausted |
| Tokenizer.SplitOff | LessXaml/Vamp/Vamp.cs:263-274 | the piece cut off is an unquoted word with no space or tab in it |
| Tokenizer.NextString | LessXaml/Vamp/Vamp.cs:250-275 | the next word of the text being split, else the next fragment, else null once all are handed out |
| Tokenizer.SplitOffLosesOnlySeparators | LessXaml/Vamp/Vamp.cs:263-273 | cutting a word loses only whitespace between the word and the rest, and an uncut text is the whole word |
| Tokenizer.QuotedHandedOutWhole | LessXaml/Vamp/Vamp.cs:257-259 | a quoted fragment is handed out whole, in order, and the rest joined afterwards is the same as before it |
| Tokenizer.StringSplitter.constructor | LessXaml/Vamp/Vamp.cs:245-248 | a splitter starts at the first fragment with no text being split |
| Tokenizer.StringSplitter.CutWord | LessXaml/Vamp/Vamp.cs:263-274 | the splitter's new state and the word are those of the word-cutting specification |
| Tokenizer.StringSplitter.GetNextString | LessXaml/Vamp/Vamp.cs:250-275 | the splitter's new state and the piece are those of the next-string specification |
| Tokenizer.StringSplitter.JoinRestMethod | LessXaml/Vamp/Vamp.cs:277-289 | the trimmed text still being split (if not blank), then every fragment not handed out |
| Tokenizer.FirstSuffix | LessXaml/Vamp/Vamp.cs:330 | the first operator in list order that the key ends with, and none only when no operator fits |
| Tokenizer.SplitKey | LessXaml/Vamp/Vamp.cs:326-337 | an operator is cut off an unquoted key only, and key plus operator give the original word back |
| Tokenizer.LineTokens | LessXaml/Vamp/Vamp.cs:313-348 | every line yields its indentation level first, then either one element value or key, operator and value |
| Tokenizer.SplitLine | LessXaml/Vamp/Vamp.cs:322-348 | the key, operator and value tokens are those of the line specification |
| Tokenizer.ElementValueExactly | LessXaml/Vamp/Vamp.cs:316-319 | a line becomes a single element value exactly when it is one quoted fragment, and the value is that fragment |
| Tokenizer.QuotedKey | LessXaml/Vamp/Vamp.cs:325-348 | a quoted first fragment is the key unsplit; the next piece is the operator and the rest is the value |
| Tokenizer.GluedOperator | LessXaml/Vamp/Vamp.cs:329-336 | a first word ending in an operator is split into key and operator, the first fitting operator in list order winning, and the value is everything after the word |
| Tokenizer.LoneWordDefaultOp | LessXaml/Vamp/Vamp.cs:339-348 | a lone word ending in no operator gets the default operator and an empty value |
| Tokenizer.ColonEqualsSplitsAtEquals | LessXaml/Vamp/Vamp.cs:330 | under the XAML operators `A:=` is read as key `A:` with operator `=`, because `=` is listed before `:=` |
| Tokenizer.NonComments | LessXaml/Vamp/Vamp.cs:306-308 | no comment fragment survives the filter |
| Tokenizer.TokenizeStep | LessXaml/Vamp/Vamp.cs:298-350 | each physical line consumes at least one line, keeps the indenter well formed and only appends tokens |
| Tokenizer.TokenizeGrouped | LessXaml/Vamp/Vamp.cs:313-348 | every token stream, complete or cut short by an error, is a sequence of line groups: indentation, then one element value or key, operator, value |
| Tokenizer.BlankLineSkipped | LessXaml/Vamp/Vamp.cs:300-301 | a blank line yields nothing and leaves the indenter untouched |
| Tokenizer.TokenizeLine | LessXaml/Vamp/Vamp.cs:298-350 | one pass of the loop is the step of the specification and leaves reader and indenter in the state it describes |
| Tokenizer.Tokenize | LessXaml/Vamp/Vamp.cs:292-351 | the token stream, up to the first error, is that of the tokenizer specification |
| Nodes.Fresh | LessXaml/Vamp/VampNode.cs:19-22 | a new node has no parent and no children, and holds exactly the key, operator and value it was given |
| Nodes.JoinValueAppend | LessXaml/Vamp/VampNode.cs:29-32 | joining a value is compatible with concatenating fragment lists |
| Nodes.JoinValueSingle | LessXaml/Vamp/VampNode.cs:29-32 | one fragment joins to its snippet and no fragment to the empty string, so joining is the snippets in order |
| Nodes.ValueOf | LessXaml/Vamp/VampNode.cs:34-39 | setting a value installs nothing for an empty string and one unquoted fragment otherwise, and the value joins back to the string |
| Nodes.TreeEquivalentSymmetric | LessXaml/Vamp/VampNode.cs:68-76 | semantic equivalence of trees is symmetric |
| Nodes.TreeEquivalentReflexive | LessXaml/Vamp/VampNode.cs:68-76 | a tree is equivalent to itself exactly when it holds no comment fragment anywhere |
| Nodes.TreeEquivalentTransitive | LessXaml/Vamp/VampNode.cs:68-76 | semantic equivalence of trees is transitive |
| Nodes.AttachAllAppends | LessXaml/Vamp/VampNode.cs:55-59 | a successful `AddChildren` appends exactly the given children, in order, and each points back at the parent |
| Nodes.AttachAllKeepsParents | LessXaml/Vamp/VampNode.cs:47-53 | adding children never clears a parent link already set |
| Nodes.Detach | LessXaml/Vamp/VampNode.cs:61-66 | clearing children empties the list and unlinks exactly the former children, changing nothing else |
| Nodes.IndexOf | LessXaml/Macros/TemplateTransformer.cs:53 | the first slot holding the node, and none exactly when it is absent |
| Nodes.AttachAllFrame | LessXaml/Vamp/VampNode.cs:55-59 | `AddChildren` changes only the parent's child list and the children's parent links |
| Nodes.AttachAllFrees | LessXaml/Vamp/VampNode.cs:47-53 | adding distinct parentless nodes other than the parent never fails |
| Nodes.AttachAllShape | LessXaml/Vamp/VampNode.cs:55-59 | adding distinct parentless nodes succeeds, puts them last in order, links them back, and changes no other node |
| Nodes.AttachAllWellformed | LessXaml/Vamp/VampNode.cs:55-59 | adding children keeps every reference inside the node set |
| Nodes.DetachWellformed | LessXaml/Vamp/VampNode.cs:61-66 | clearing children keeps every reference inside the node set |
| Nodes.Forest.constructor | LessXaml/Vamp/VampNode.cs:17 | no node exists yet |
| Nodes.Forest.NewNode | LessXaml/Vamp/VampNode.cs:19-22 | one fresh node is added with the given key, operator and value, and nothing else changes |
| Nodes.Forest.SetKey | LessXaml/Vamp/VampNode.cs:12 | only the node's key changes |
| Nodes.Forest.SetOperator | LessXaml/Vamp/VampNode.cs:13 | only the node's operator changes |
| Nodes.Forest.SetValues | LessXaml/Vamp/VampNode.cs:41-45 | the node's value becomes exactly the given fragments, in order, and nothing else changes |
| Nodes.Forest.SetValue | LessXaml/Vamp/VampNode.cs:34-39 | the node's value becomes the value of the string, which joins back to it, and nothing else changes |
| Nodes.Forest.AddChild | LessXaml/Vamp/VampNode.cs:47-53 | fails, changing nothing, exactly when the child already has a parent; otherwise the child goes last and points back |
| Nodes.Forest.AddChildren | LessXaml/Vamp/VampNode.cs:55-59 | adds each child in turn, stopping at the first that already has a parent |
| Nodes.Forest.ClearChildren | LessXaml/Vamp/VampNode.cs:61-66 | every former child loses its parent link and the list is emptied |
| Nodes.Forest.RemoveChildAt | LessXaml/Macros/TemplateTransformer.cs:54 | exactly one slot of the parent's list goes; the removed node keeps its parent link |
| Nodes.Forest.InsertChildrenAt | LessXaml/Macros/TemplateTransformer.cs:84 | the nodes are spliced into the parent's list at the index; no parent link changes |
| Nodes.Forest.Build | LessXaml/Macros/TemplateTransformer.cs:71 | a deep copy of the tree is appended: the existing nodes are untouched, the new root has no parent, the new nodes only point at each other, and the new root snapshots to the tree |
| Nodes.GrowFacts | LessXaml/Macros/TemplateTransformer.cs:71 | what a deep copy leaves behind, by induction over the tree: a well-formed node set, the old nodes unchanged, a closed new region and the tree as its snapshot |
| TreeBuilder.Open | LessXaml/Vamp/Vamp.cs:364-381 | a level-0 line starts a new top-level node alone on the stack; any other line pops the stack to its level and goes last below the node then on top, failing exactly when the stack is empty |
| TreeBuilder.Fill | LessXaml/Vamp/Vamp.cs:382-395 | key, operator and value tokens write into the open node and never touch its links |
| TreeBuilder.ParseToken | LessXaml/Vamp/Vamp.cs:359-396 | one token keeps every reference inside the node set, and the only failure is the empty-stack one |
| TreeBuilder.Finish | LessXaml/Vamp/Vamp.cs:404-406 | the pseudo-root is the one node added after all the lines |
| TreeBuilder.ApplyToken | LessXaml/Vamp/Vamp.cs:359-396 | applying one token to the node set and the two lists does what the token step specifies |
| TreeBuilder.Parse | LessXaml/Vamp/Vamp.cs:354-407 | the node set and pseudo-root built, or the error raised, are those of the parse specification, and the node set is new |
| TreeBuilder.GroupsAreEntries | LessXaml/Vamp/Vamp.cs:359-396 | building from a grouped token stream is building from its lines one at a time |
| TreeBuilder.OpenStackNeverEmpties | LessXaml/Vamp/Vamp.cs:375-379 | once a node is open no later line can fail |
| TreeBuilder.ParseFailsIffFirstIndented | LessXaml/Vamp/Vamp.cs:373-380 | building fails exactly when the first line is indented, with the empty-stack error |
| TreeBuilder.ParentLineMeaning | LessXaml/Vamp/Vamp.cs:375-377 | the parent of an indented line is the last earlier line exactly one level up |
| TreeBuilder.ParentLineExists | LessXaml/Vamp/Vamp.cs:375-377 | when levels go deeper by at most one per line every indented line has a parent line |
| TreeBuilder.ChildLinesMeaning | LessXaml/Vamp/Vamp.cs:378 | a node's children are exactly the lines naming it as parent, in program order |
| TreeBuilder.TopLinesMeaning | LessXaml/Vamp/Vamp.cs:369 | the top-level nodes are exactly the level-0 lines, in program order |
| TreeBuilder.StackStep | LessXaml/Vamp/Vamp.cs:375-379 | for a line at most one level deeper than the line before it (`Steps`), popping to its level leaves its parent line on top, and pushing the line keeps the last line of every level on the stack |
| TreeBuilder.BuiltAll | LessXaml/Vamp/Vamp.cs:359-402 | when levels go deeper by at most one per line, building never fails and ends with every node, child list and root as the lines describe |
| TreeBuilder.ParseOutline | LessXaml/Vamp/Vamp.cs:354-407 | for lines whose first is at top level and each of which is at most one level deeper than the line before it (`Steps`): one node per line, in order, with the line's key, operator and value; a top-level line hangs below the pseudo-root, any other below the last line one level up; every child list is in program order |
| TreeBuilder.FinishRoot | LessXaml/Vamp/Vamp.cs:404-406 | the pseudo-root adopts the top-level lines, in order |
| TreeBuilder.ParseProgramOutline | LessXaml/Vamp/Vamp.cs:354-407 | a program that lexes without error and whose levels go deeper by at most one per line always parses, with the pseudo-root after its line nodes |
| CommentLines.SiblingNestedAfterComment | LessXaml/Vamp/Vamp.cs:364-380 | lines at levels 0, 2, 2, which is how an indented comment-only line leaves `A` and the siblings `B` and `C`, build without error, and `C` becomes the child of `B` |
| CommentLines.KeptStep | LessXaml/Vamp/Vamp.cs:298-319 | one pass of the corrected `Tokenize` loop: a line that yields no tokens leaves the indenter as it found it, and fewer lines remain |
| CommentLines.EntriesAppend | LessXaml/Vamp/Vamp.cs:359-402 | the lines of two grouped token streams, one after the other, are the lines of each |
| CommentLines.LineEntry | LessXaml/Vamp/Vamp.cs:312-319 | the tokens of one line are one line entry at that line's level |
| CommentLines.KeptStepTracks | LessXaml/Vamp/Vamp.cs:298-319 | in the corrected loop, a line that yields tokens is at most one level deeper than the last one that did, and sits at the indenter's depth |
| CommentLines.KeptLinesTrack | LessXaml/Vamp/Vamp.cs:298-319 | the corrected loop's tokens are line groups, each line at most one level deeper than the line before it |
| CommentLines.KeptProgramSteps | LessXaml/Vamp/Vamp.cs:298-406 | with the correction, a program's lines keep to `Steps` exactly when the first is not indented, so every tree that builds is the one `ParseOutline` describes |
| Templates.ParseFunctionHeader | LessXaml/Macros/TemplateTransformer.cs:86-103 | an accepted header has a non-empty name that the text starts with, followed by `(`; every argument is non-empty and holds no comma; a text the pattern does not match is the "looks wrong" failure |
| Templates.ShapedUpTo | LessXaml/Macros/TemplateTransformer.cs:86 | the group `([^,]+,?)*` covers the text after a `(` up to a position exactly when no leading comma and no `,,` comes before it |
| Templates.Arguments | LessXaml/Macros/TemplateTransformer.cs:100 | the captures with their commas removed are non-empty and comma-free |
| Templates.ArgumentsText | LessXaml/Macros/TemplateTransformer.cs:100 | joining the captures with commas gives back the covered text, less a final comma |
| Templates.HeaderChoice | LessXaml/Macros/TemplateTransformer.cs:86-100 | the header read is the pattern's first match: the shortest name before a `(` that opens any match, and the parameter list up to the last `)` that `(` can reach |
| Templates.HeaderAccepted | LessXaml/Macros/TemplateTransformer.cs:86-95 | a header is accepted exactly when some `(` after a non-empty name is followed by a `)` that its comma-separated list can reach |
| Templates.HeaderParts | LessXaml/Macros/TemplateTransformer.cs:97-100 | an accepted header is its name, `(`, its arguments joined by commas, possibly a dropped final comma, `)`, and an ignored tail |
| Templates.SplitJoin | LessXaml/Macros/TemplateTransformer.cs:100 | splitting at commas undoes joining with commas when no piece holds one |
| Templates.HeaderRoundTrip | LessXaml/Macros/TemplateTransformer.cs:86-103 | a header written from a name without `(` and non-empty, comma-free arguments reads back as exactly that name and list |
| Templates.HeaderTrailingComma | LessXaml/Macros/TemplateTransformer.cs:86-103 | a comma after the last argument is dropped: `F(a,)` reads as `F` with the single argument `a` |
| Templates.HeaderExample | LessXaml/Macros/TemplateTransformer.cs:86-103 | the call `F(a, b)` reads as name `F` and raw arguments `a` and ` b` |
| Templates.HeaderEmptyArgument | LessXaml/Macros/TemplateTransformer.cs:86-95 | `F(,a)` and `F(a,,b)` match nothing and are the "looks wrong" failure |
| Templates.DefinedName | LessXaml/Macros/TemplateTransformer.cs:58 | the registered name is the header name minus its prefix |
| Templates.DefinitionPrefix | LessXaml/Macros/TemplateTransformer.cs:56-58 | `Template ` is recognised in any letter case and only as a prefix, and the name after it is what gets registered |
| Templates.TrimAll | LessXaml/Macros/TemplateTransformer.cs:59 | the formal parameters are the raw arguments, each trimmed, in order |
| Templates.Substitute | LessXaml/Macros/TemplateTransformer.cs:123-129 | substitution fails exactly when some formal is empty |
| Templates.ReplaceAbsent | LessXaml/Macros/TemplateTransformer.cs:128 | text holding no occurrence of a formal is left alone by its replacement |
| Templates.ReplaceRemoves | LessXaml/Macros/TemplateTransformer.cs:128 | replacing a formal by an actual sharing no character with it leaves no occurrence of the formal |
| Templates.ReplaceKeepsAbsent | LessXaml/Macros/TemplateTransformer.cs:128 | a replacement never creates an occurrence of a text sharing no character with the actual |
| Templates.SubstituteRemoves | LessXaml/Macros/TemplateTransformer.cs:123-129 | when no actual shares a character with any formal, no formal is left in the text after substitution |
| Templates.SubstituteKeepsAbsent | LessXaml/Macros/TemplateTransformer.cs:123-129 | later pairs never bring an already removed formal back |
| Templates.SubstituteUntouched | LessXaml/Macros/TemplateTransformer.cs:123-129 | text holding no formal comes out of the substitution unchanged |
| Xaml.SetterRule | LessXaml/Xaml/XamlTransformer.cs:18-51 | the setter rule keeps every reference inside the node set and adds exactly two nodes |
| Xaml.SetterFinish | LessXaml/Xaml/XamlTransformer.cs:45-50 | renaming the node and adding its two new children adds no node and keeps the links inside the node set |
| Xaml.AttachedRule | LessXaml/Xaml/XamlTransformer.cs:55-78 | the `->` rule keeps every reference inside the node set and adds exactly one node |
| Xaml.BindingRule | LessXaml/Xaml/XamlTransformer.cs:80-100 | the `:=` rule adds exactly one node, keeps the links inside the node set and asks for the macro to be reapplied |
| Xaml.ResourceRule | LessXaml/Xaml/XamlTransformer.cs:103-115 | the resource rule adds no node, keeps the links inside the node set and lets the engine go on to the children |
| Xaml.Step | LessXaml/Xaml/XamlTransformer.cs:16-116 | a successful call never removes a node, never answers `Break`, and keeps the links inside the node set |
| Xaml.Transform | LessXaml/Xaml/XamlTransformer.cs:16-116 | the in-place rewrite and the answer, or the exception, are those of the rule specification |
| Xaml.ApplySetter | LessXaml/Xaml/XamlTransformer.cs:28-50 | the in-place setter rewrite is the setter rule |
| Xaml.MoveChildrenBelow | LessXaml/Xaml/XamlTransformer.cs:41-43 | clearing the node's children and adding them below the holder is a detach followed by an ordered attach |
| Xaml.FinishSetter | LessXaml/Xaml/XamlTransformer.cs:45-50 | the in-place renaming and child additions are the second half of the setter rule |
| Xaml.ApplyAttached | LessXaml/Xaml/XamlTransformer.cs:64-78 | the in-place `->` rewrite is the `->` rule |
| Xaml.ApplyBinding | LessXaml/Xaml/XamlTransformer.cs:89-100 | the in-place `:=` rewrite is the `:=` rule and always answers reapply |
| Xaml.ApplyResource | LessXaml/Xaml/XamlTransformer.cs:103-115 | the in-place resource rewrite is the resource rule and always answers continue |
| Xaml.NullKeyOrOperator | LessXaml/Xaml/XamlTransformer.cs:18-53 | a node without a key, or past the setter test without an operator, fails with a null reference |
| Xaml.UnchangedExactlyWhenInert | LessXaml/Xaml/XamlTransformer.cs:16-116 | the macro leaves the nodes untouched and answers continue exactly when none of the four rules applies to the node |
| Xaml.SetterShape | LessXaml/Xaml/XamlTransformer.cs:28-50 | `.P op V` becomes `Setter :` with no value and exactly two children, `Property = P` and `Value op V`, the latter holding the former children in order; nothing else changes |
| Xaml.SetterMoveShape | LessXaml/Xaml/XamlTransformer.cs:28-43 | before the renaming, the two new nodes exist and `Value` holds the former children, which point back at it |
| Xaml.MoveBelow | LessXaml/Xaml/XamlTransformer.cs:41-43 | moving cleared children below a new holder succeeds, keeps their order, links them back, and changes nothing else |
| Xaml.SetterCleared | LessXaml/Xaml/XamlTransformer.cs:28-42 | the setter rule's node set after the two nodes are made and the children cleared |
| Xaml.AttachedShape | LessXaml/Xaml/XamlTransformer.cs:64-78 | below a keyed parent `A`, `a -> b` becomes `A.a :` with no value and the single child `b :`, which holds the former children in order; nothing else changes |
| Xaml.AttachedRuleShape | LessXaml/Xaml/XamlTransformer.cs:64-78 | the same shape for the `->` rule on its own |
| Xaml.AttachedMoveShape | LessXaml/Xaml/XamlTransformer.cs:64-72 | the node moves of the `->` rule before the renaming |
| Xaml.HolderLinked | LessXaml/Xaml/XamlTransformer.cs:69-71 | the `->` rule's node set once the new node is the only child |
| Xaml.AttachedNeedsKeyedParent | LessXaml/Xaml/XamlTransformer.cs:74 | the `->` rule on a root, or below a parent without a key, fails with a null reference |
| Xaml.BindingShape | LessXaml/Xaml/XamlTransformer.cs:89-100 | `A := B` becomes `A -> Binding` with the new last child `Path = B`; nothing else changes |
| Xaml.BindingRuleShape | LessXaml/Xaml/XamlTransformer.cs:89-100 | the same shape for the `:=` rule on its own |
| Xaml.BindingReappliesAttached | LessXaml/Xaml/XamlTransformer.cs:97-100 | reapplying the macro after the `:=` rule applies the `->` rule to the same node |
| Xaml.ResourceFormats | LessXaml/Xaml/XamlTransformer.cs:103-115 | the resource rule rewrites the joined value exactly as the older translator's value formatting does, and changes nothing else |
| Xaml.ResourceSettles | LessXaml/Xaml/XamlTransformer.cs:103-115 | after the resource rule the node is settled: applying the macro again changes nothing |
| Macros.Expanded | LessXaml/Macros/TemplateTransformer.cs:123-129 | expanding a fragment substitutes its snippet and keeps its quotation |
| Macros.RemoveAt | LessXaml/Macros/TemplateTransformer.cs:54 | removing a slot keeps the number of nodes |
| Macros.InsertAt | LessXaml/Macros/TemplateTransformer.cs:80 | inserting into a child list keeps the number of nodes |
| Macros.Copies | LessXaml/Macros/TemplateTransformer.cs:71 | copying a list of trees adds one new root per tree, each among the new nodes |
| Macros.CopiesWellformed | LessXaml/Macros/TemplateTransformer.cs:71 | copying keeps every reference inside the node set |
| Macros.Step | LessXaml/Macros/IMacro.cs:12-15 | a successful macro call never removes a node or a registered template's node |
| Macros.Run | LessXaml/Macros/MacroExpander.cs:8-29 | a successful run of the engine never removes a node |
| Macros.Reapply | LessXaml/Macros/MacroExpander.cs:10-17 | the macro is called again while it asks for it, the 1001st reapply failing; `Break` ends the run and continue goes on to the children |
| Macros.Walk | LessXaml/Macros/MacroExpander.cs:19-28 | the children list is read afresh each time and the index advances only when the slot still holds the child just run on |
| Macros.RunEach | LessXaml/Macros/TemplateTransformer.cs:77-78 | running the engine on each node in turn never removes a node |
| Macros.TemplateStep | LessXaml/Macros/TemplateTransformer.cs:39-84 | a node that is not a template call is left alone and answered with continue; a template call that succeeds answers `Break` |
| Macros.Invocation | LessXaml/Macros/TemplateTransformer.cs:62-81 | a successful invocation never removes a node and answers `Break` |
| Macros.RunMacro | LessXaml/Macros/MacroExpander.cs:8-29 | the in-place engine run leaves the nodes and registry, or raises the exception, that the engine specification gives |
| Macros.WalkChildren | LessXaml/Macros/MacroExpander.cs:19-28 | the in-place walk over a node's children leaves the nodes and registry, or raises the exception, that `Macros.Walk` gives from index 0 |
| Macros.ReapplyEnds | LessXaml/Macros/MacroExpander.cs:12-21 | an answer other than reapply ends the first loop: `Break` ends the run, continue starts the walk at index 0 |
| Macros.WalkStep | LessXaml/Macros/MacroExpander.cs:21-27 | after the run on slot `i`, reading the slot past the end fails, and the walk goes on at `i + 1` when the slot still holds the child and at `i` otherwise |
| Macros.Apply | LessXaml/Macros/IMacro.cs:14 | calling a macro in place does what its step specification says |
| Macros.ExpandParameters | LessXaml/Macros/TemplateTransformer.cs:114-129 | the in-place expansion of key, operator and each value fragment is the expander's step |
| Macros.CloneAll | LessXaml/Macros/TemplateTransformer.cs:71 | the in-place copies are those of the copy specification, with their roots in order |
| Macros.TemplateTransformer.constructor | LessXaml/Macros/TemplateTransformer.cs:32 | a new template macro has no template registered |
| Macros.TemplateTransformer.Transform | LessXaml/Macros/TemplateTransformer.cs:34-84 | the in-place call rewrites the nodes and the registry as the template step specifies |
| Macros.TemplateTransformer.Invoke | LessXaml/Macros/TemplateTransformer.cs:62-81 | the in-place invocation rewrites the nodes as the invocation specification says |
| MacroProperties.ReapplyChain | LessXaml/Macros/MacroExpander.cs:10-17 | from any reapply count on, a chain of `ReapplyTransform` answers ending in `Break` leaves the last world when there were at most 1000 reapplies and throws the infinite-recursion error otherwise |
| MacroProperties.ReapplyCeiling | LessXaml/Macros/MacroExpander.cs:10-17 | a node may be reapplied up to 1000 times in a row, after which the run ends in the macro's last world; the 1001st reapply throws |
| MacroProperties.WalkSplice | LessXaml/Macros/MacroExpander.cs:21-27 | when a child replaces itself by other nodes (or by none) the walk stays at the same index, so no sibling is skipped and spliced nodes are visited; when the last child removes itself the next read of its slot throws |
| MacroProperties.WalkAdvances | LessXaml/Macros/MacroExpander.cs:25-26 | a child that stays in its slot moves the walk on to the next slot |
| MacroProperties.BareValueIgnored | LessXaml/Macros/TemplateTransformer.cs:41-46 | a node without a key is passed over by the template macro whatever its quotation |
| MacroProperties.CallFailures | LessXaml/Macros/TemplateTransformer.cs:48-54 | a template call fails with a malformed header, then with a missing parent, then with a parent that does not list it, in that order |
| MacroProperties.DefinitionRegisters | LessXaml/Macros/TemplateTransformer.cs:53-61 | a definition leaves its parent's children, registers the name after the `Template ` prefix with its trimmed formals and its own children as body, and changes nothing else; defining a name twice throws |
| MacroProperties.InvocationFailures | LessXaml/Macros/TemplateTransformer.cs:64-74 | an invocation of an unknown template, one with the wrong number of actuals, and one of a template with a repeated formal each throw |
| MacroProperties.InvocationRemovesCall | LessXaml/Macros/TemplateTransformer.cs:53-54 | an invocation is carried out after the call node has left its slot, on a still well-formed arena |
| MacroProperties.RunFuelMonotone | LessXaml/Macros/MacroExpander.cs:8-29 | a run that finished within its recursion budget has the same outcome under any larger budget, so the budget stands in for the unbounded recursion without changing any result it reaches |
| TemplateCopies.ExpandTree | LessXaml/Macros/TemplateTransformer.cs:114-129 | the substituted tree keeps the shape of the original: the same number of children at every node |
| TemplateCopies.ExpandSize | LessXaml/Macros/TemplateTransformer.cs:114-121 | substitution leaves the number of nodes of a tree unchanged |
| TemplateCopies.FormalsGone | LessXaml/Macros/TemplateTransformer.cs:123-129 | after substitution with separated formals and actuals no formal occurs in any key, operator or value fragment of the tree |
| TemplateCopies.GrowLaid | LessXaml/Macros/TemplateTransformer.cs:71 | a deep copy appends exactly the tree's nodes, laid out in preorder, and leaves every earlier node as it was |
| TemplateCopies.CopiesPacked | LessXaml/Macros/TemplateTransformer.cs:71 | the copies of the body's children are appended one after the other, each laid out in preorder, and nothing before them changes |
| TemplateCopies.RunExpands | LessXaml/Macros/TemplateTransformer.cs:76-78 | the expander's run over a copied tree, when it succeeds, leaves that tree's substitution in place and changes nothing outside it (`ExpandStep` at each node) |
| TemplateCopies.WalkExpands | LessXaml/Macros/MacroExpander.cs:19-28 | the walk over a copy's children, when it succeeds, leaves every child subtree substituted and nothing outside the copy changed |
| TemplateCopies.RunEachExpands | LessXaml/Macros/TemplateTransformer.cs:77-78 | running the expander over each copy in turn leaves each copy substituted, the registry unchanged and every node outside the copies as it was |
| TemplateCopies.InvocationRan | LessXaml/Macros/TemplateTransformer.cs:71-80 | a successful invocation copied the body, ran the expander over every copy and then spliced the copies' roots in at the call's old index |
| TemplateCopies.Spliced | LessXaml/Macros/TemplateTransformer.cs:80 | splicing the roots into the parent puts them at the index between the old children before and after it, keeps every copy intact and changes no other old node |
| TemplateCopies.InvocationSplices | LessXaml/Macros/TemplateTransformer.cs:62-81 | a successful invocation puts one substituted copy per body child into the parent's children at the call's old slot, appended to the arena in order, with no other old node changed |
| TemplateCopies.CallReplacedByCopies | LessXaml/Macros/TemplateTransformer.cs:39-84 | a call of a known template is replaced in its parent by the substituted copies of the template body and stops the walk; with separated formals no formal is left in the copies |
| OldVamp.RemoveComments | LessXaml/Vamp.cs:362-411 | the comment stripper removes every line comment in a full first pass and then every block comment, with the result of its two loops given by `RemoveCommentsSpec` |
| OldVamp.RemoveLineComments | LessXaml/Vamp.cs:364-388 | the first loop keeps the text before each `--` and drops the rest of that line, keeping the line break |
| OldVamp.RemoveBlockComments | LessXaml/Vamp.cs:389-410 | the second loop keeps the text outside each `/*` … `*/` pair and fails when an opener has no closer |
| OldVamp.LineStep | LessXaml/Vamp.cs:370-382 | one round of the line loop keeps the text up to the `--` and resumes at the next line break |
| OldVamp.LineStepLast | LessXaml/Vamp.cs:375-379 | a `--` on the last line drops the rest of the text |
| OldVamp.BlockLast | LessXaml/Vamp.cs:396-397 | once no further `/*` is found the rest of the text is kept as it is |
| OldVamp.NoLineCommentRemains | LessXaml/Vamp.cs:366-386 | no `--` survives the line pass |
| OldVamp.LinePassSubsequence | LessXaml/Vamp.cs:366-386 | the line pass only deletes: its output is a subsequence of its input |
| OldVamp.BlockPassSubsequence | LessXaml/Vamp.cs:391-408 | the block pass only deletes: what it adds to the kept text is a subsequence of the rest of its input |
| OldVamp.RemoveCommentsOnlyDeletes | LessXaml/Vamp.cs:362-411 | a successful comment removal yields pieces of the input in their original order, never longer than the input |
| OldVamp.UnclosedBlockComment | LessXaml/Vamp.cs:399-401 | a `/*` without any `*/` after the line pass is the unfinished-block-comment error |
| OldVamp.NoCommentsUnchanged | LessXaml/Vamp.cs:362-411 | text without `--` and without `/*` passes through unchanged |
| OldVamp.LineCommentOnly | LessXaml/Vamp.cs:376-379 | `--Foo` strips to the empty text |
| OldVamp.LineCommentKeepsBreak | LessXaml/Vamp.cs:375-382 | the line break after a line comment is kept: `--` followed by a newline strips to the newline |
| OldVamp.EmptyBlockComment | LessXaml/Vamp.cs:399 | the closer is searched after the opener, so `/**/` is one whole comment and strips to nothing |
| OldVamp.TrimAll | LessXaml/Vamp.cs:213-214 | each non-empty piece becomes an unquoted fragment holding its trimmed text, in order |
| OldVamp.NonEmpty | LessXaml/Vamp.cs:213 | the split drops the empty pieces and keeps every other piece of the input, and nothing else |
| OldVamp.NonEmptyAppend | LessXaml/Vamp.cs:213 | the kept pieces stay in their order: dropping the empty pieces of two runs one after the other is dropping them from each |
| OldVamp.SplitKeepsQuoted | LessXaml/Vamp.cs:207-210 | quoted fragments pass through the splitter whole and in their order |
| OldVamp.SplitPiecesClean | LessXaml/Vamp.cs:211-215 | every unquoted piece the splitter yields is trimmed and holds no space |
| Xml.DefaultDeclaration | LessXaml/XmlConverter.cs:180 | the default declaration is the attribute `xmlns` without namespace whose value is the namespace |
| Xml.PrefixDeclaration | LessXaml/XmlConverter.cs:188 | a prefix declaration is an attribute in the `xmlns` namespace named by the alias, whose value is the namespace |
| Xml.NamespaceOf | LessXaml/XmlConverter.cs:195-208 | alias resolution fails only for a non-empty alias |
| Xml.InnermostWins | LessXaml/XmlConverter.cs:197-202 | the innermost frame that maps the alias decides its namespace, whatever the outer frames say |
| Xml.UnmappedAliases | LessXaml/XmlConverter.cs:204-207 | an alias no frame maps is no namespace when it is empty and the unmapped-alias error otherwise |
| Xml.SplitName | LessXaml/XmlConverter.cs:212-214 | a name without `:` has the empty alias and is all local part; otherwise it is the alias, the first `:`, and the local part, with no `:` in the alias |
| Xml.Register | LessXaml/XmlConverter.cs:175-193 | exactly the names other than `xmlns` and `xmlns:…` are no declaration; a declaration changes only the innermost frame and emits a namespace declaration carrying the value |
| Xml.AliasesOfPlain | LessXaml/XmlConverter.cs:228-238 | an element whose attributes declare nothing pushes an empty reverse frame |
| Xml.AliasesFail | LessXaml/XmlConverter.cs:228-238 | a namespace declared twice among the first attributes makes the whole registration fail with the same error (through `AddAlias`) |
| Xml.Container.constructor | LessXaml/XmlConverter.cs:131 | a new stub element has no attributes and no nodes |
| Xml.Container.AddAttribute | LessXaml/XmlConverter.cs:123 | adding an attribute appends it and leaves the nodes alone |
| Xml.Container.AddNode | LessXaml/XmlConverter.cs:100-104 | adding a node appends it and leaves the attributes alone |
| Xml.NamespaceResolver.constructor | LessXaml/XmlConverter.cs:163 | a new resolver has no frames |
| Xml.NamespaceResolver.PushLevel | LessXaml/XmlConverter.cs:165-168 | pushing adds one empty innermost frame |
| Xml.NamespaceResolver.PopLevel | LessXaml/XmlConverter.cs:170-173 | popping removes exactly the innermost frame |
| Xml.NamespaceResolver.RegisterIfAlias | LessXaml/XmlConverter.cs:175-193 | a declaration updates the innermost frame and adds its attribute to the container and answers true; any other name answers false and changes nothing; an empty stack or a repeated alias throws and changes nothing |
| Xml.NamespaceResolver.ResolveNamespace | LessXaml/XmlConverter.cs:195-208 | the loop from the innermost frame outward answers what `NamespaceOf` says |
| Xml.NamespaceResolver.ResolveName | LessXaml/XmlConverter.cs:210-216 | resolving a name answers what `NameOf` says |
| Xml.ReverseNamespaceResolver.constructor | LessXaml/XmlConverter.cs:221 | a new reverse resolver has no frames |
| Xml.ReverseNamespaceResolver.PushLevelAndRegisterAliases | LessXaml/XmlConverter.cs:223-239 | the new innermost frame maps each declared namespace to its alias (`""` for `xmlns`); a namespace declared twice on one element throws |
| Xml.ReverseNamespaceResolver.PopLevel | LessXaml/XmlConverter.cs:241-244 | popping removes exactly the innermost frame |
| Xml.ReverseNamespaceResolver.StringFromXName | LessXaml/XmlConverter.cs:246-265 | the loop answers what `NameString` says |
| XmlConvert.Fragments | LessXaml/XmlConverter.cs:95-106 | a bare value gives one node per fragment in order, a comment for the `%C(` quotation and text otherwise; it fails exactly when some fragment is unquoted |
| XmlConvert.Convert | LessXaml/XmlConverter.cs:91-159 | a conversion that succeeds leaves the resolver with as many frames as it found |
| XmlConvert.ConvertValue | LessXaml/XmlConverter.cs:93-112 | a bare value adds no attribute and leaves the frames alone |
| XmlConvert.ConvertAttribute | LessXaml/XmlConverter.cs:119-126 | `key = value` adds exactly one attribute and no node, keeping the number of frames |
| XmlConvert.ConvertElement | LessXaml/XmlConverter.cs:128-157 | `key : value` adds exactly one element and no attribute, and drops the frame it pushed |
| XmlConvert.Passes | LessXaml/XmlConverter.cs:139-143 | the two passes over an element's children keep the number of frames |
| XmlConvert.ConvertSeq | LessXaml/XmlConverter.cs:142-143 | converting the selected children one after the other keeps the number of frames |
| XmlConvert.FromText | LessXaml/XmlConverter.cs:47-49 | a text node comes back as a keyless node holding one unquoted fragment with its text |
| XmlConvert.FromAttribute | LessXaml/XmlConverter.cs:51-61 | an attribute comes back as its name spelled by the reverse resolver, the `=` operator and its value |
| XmlConvert.FromAttributes | LessXaml/XmlConverter.cs:81 | an element's attributes come back one node each, in order |
| XmlConvert.FromElement | LessXaml/XmlConverter.cs:69-86 | an element comes back as `name :` with an empty value, spelled in its own new frame, with its attributes first and then its content |
| XmlConvert.Transform | LessXaml/XmlConverter.cs:91-159 | the conversion of one node fails with the error `Convert` gives, or leaves the resolver's frames and the parent's attributes and nodes exactly as `Convert` specifies |
| XmlConvert.TransformValue | LessXaml/XmlConverter.cs:93-112 | a bare value appends its fragments' nodes and nothing else; it fails with a null reference on an unquoted fragment and otherwise when it has children |
| XmlConvert.TransformAttribute | LessXaml/XmlConverter.cs:119-126 | the attribute case does to the resolver and the parent exactly what `ConvertAttribute` specifies |
| XmlConvert.TransformElement | LessXaml/XmlConverter.cs:128-157 | the element case does to the resolver and the parent exactly what `ConvertElement` specifies |
| XmlConvert.TransformChildren | LessXaml/XmlConverter.cs:139-143 | the children loop does to the resolver and the stub exactly what the two passes specify |
| XmlConvert.TransformPass | LessXaml/XmlConverter.cs:142-143 | one pass does to the resolver and the container exactly what `ConvertSeq` specifies |
| XmlConvert.TransformStep | LessXaml/XmlConverter.cs:142-143 | one child of a pass is converted exactly when the pass selects it |
| XmlConvert.ToXml | LessXaml/XmlConverter.cs:24-37 | the method answers the document `ToXmlOf` specifies, or its error |
| XmlConvert.FromXml | LessXaml/XmlConverter.cs:45-89 | the method answers what `FromNode` specifies and, when it succeeds, leaves the reverse resolver as it found it |
| XmlConvert.FromXmlAttributes | LessXaml/XmlConverter.cs:81 | the attribute loop answers what `FromAttributes` specifies |
| XmlConvert.FromXmlAll | LessXaml/XmlConverter.cs:66-82 | the `SelectMany` over a node list answers what `FromNodes` specifies and leaves the resolver as it found it |
| XmlConvert.FromXmlDocument | LessXaml/XmlConverter.cs:39-67 | converting a document answers what `FromDocument` specifies |
| XmlProperties.ConvertSeqAppend | LessXaml/XmlConverter.cs:142-143 | converting a list in two pieces is converting the first piece and then the second from the frames the first left |
| XmlProperties.DeclarationChildren | LessXaml/XmlConverter.cs:139 | the first pass's children are all namespace declarations, never more than the element has |
| XmlProperties.OtherChildren | LessXaml/XmlConverter.cs:140 | the second pass's children are none of them namespace declarations |
| XmlProperties.DeclarationsSelected | LessXaml/XmlConverter.cs:139-143 | when the declaration test never throws, the first pass converts exactly the declaration children in order (`IsXmlnsDecl` and `Selects` at work) |
| XmlProperties.OthersSelected | LessXaml/XmlConverter.cs:140-143 | likewise the second pass converts exactly the other children in order |
| XmlProperties.DeclarationsFirst | LessXaml/XmlConverter.cs:139-143 | an element's children convert as if reordered with the namespace declarations first, each group keeping its written order |
| XmlProperties.KeylessAttributeThrows | LessXaml/XmlConverter.cs:135-137 | a keyless `=` child makes the declaration pass throw a null reference once the pass reaches it |
| XmlProperties.SkipsAll | LessXaml/XmlConverter.cs:142-143 | children a pass does not select add nothing and leave the frames alone |
| XmlProperties.OtherOperatorsSilent | LessXaml/XmlConverter.cs:117-158 | a keyed node whose operator is neither `=` nor `:` adds nothing and leaves the frames alone |
| XmlProperties.ConvertScoped | LessXaml/XmlConverter.cs:129-146 | converting a node changes at most the innermost frame, and an element leaves the frames exactly as it found them, so aliases declared inside it never reach its siblings |
| XmlProperties.ElementScoped | LessXaml/XmlConverter.cs:129-146 | an element pops the frame it pushed and leaves the frames as it found them |
| XmlProperties.PassesScoped | LessXaml/XmlConverter.cs:139-143 | the passes over an element's children change at most the innermost frame |
| XmlProperties.SeqScoped | LessXaml/XmlConverter.cs:142-143 | one pass changes at most the innermost frame |
| XmlProperties.DeclarationRegisters | LessXaml/XmlConverter.cs:119-190 | an `xmlns` or `xmlns:p` child registers its alias with the joined value in the innermost frame and emits the matching declaration attribute; declaring the alias a second time in one element throws |
| XmlProperties.FromNodesAppend | LessXaml/XmlConverter.cs:66-82 | converting a node list back is converting its two pieces back and concatenating them |
| XmlProperties.FromNodesComment | LessXaml/XmlConverter.cs:88 | a comment anywhere in a node list makes converting back throw, unless an earlier node already did |
| XmlProperties.FromNodesOk | LessXaml/XmlConverter.cs:66-82 | a node list converts back when each of its nodes does |
| XmlRoundTrip.TracksPush | LessXaml/XmlConverter.cs:226-238 | pushing mirrored frames that fit the frames outside them keeps the two resolver stacks in step |
| XmlRoundTrip.ResolvedAt | LessXaml/XmlConverter.cs:195-207 | a resolved alias is mapped by some frame to the namespace found, or is the unmapped empty alias resolving to no namespace |
| XmlRoundTrip.NotRedeclared | LessXaml/XmlConverter.cs:255-260 | a namespace an outer frame gives an alias that an inner frame does not declare is not among the inner frame's namespaces |
| XmlRoundTrip.AliasBack | LessXaml/XmlConverter.cs:195-262 | when the stacks are in step, resolving an alias and looking its namespace back up from the innermost frame outward gives the alias again; the namespace is never the `xmlns` one, and is no namespace only for the empty alias |
| XmlRoundTrip.NameBack | LessXaml/XmlConverter.cs:210-265 | a name resolved and spelled back is the name itself, unless it starts with `:` (`NameString` inverts `NameOf`) |
| XmlRoundTrip.DeclaredAlias | LessXaml/XmlConverter.cs:177-187 | `xmlns` declares the empty alias and `xmlns:p` declares `p` |
| XmlRoundTrip.DeclarationsEnd | LessXaml/XmlConverter.cs:139 | the run of declarations at the head of the children ends within them |
| XmlRoundTrip.AttributesEnd | LessXaml/XmlConverter.cs:140 | the run of plain attributes after the declarations ends within the children |
| XmlRoundTrip.DeclarationBack | LessXaml/XmlConverter.cs:51-190 | a namespace declaration comes back as the child that wrote it |
| XmlRoundTrip.AttributeBack | LessXaml/XmlConverter.cs:51-124 | a plain attribute comes back as the child that wrote it, and is never taken for a declaration |
| XmlRoundTrip.DeclarationsLead | LessXaml/XmlConverter.cs:139-140 | children with their declarations written first are passed over in their written order |
| XmlRoundTrip.AliasesIgnore | LessXaml/XmlConverter.cs:228-238 | attributes that declare nothing leave the reverse frame as it is |
| XmlRoundTrip.DeclareStep | LessXaml/XmlConverter.cs:175-190 | a declaration converted in a frame that does not hold its alias adds the alias with its assigned namespace and emits the declaration (what `Declare` does to the frame) |
| XmlRoundTrip.MirrorAdd | LessXaml/XmlConverter.cs:187-236 | adding a new alias for a namespace the frame does not hold yet, on the writing side, and the namespace on the reading side, keeps the two frames mirrored |
| XmlRoundTrip.InjectiveShrink | LessXaml/XmlConverter.cs:187-236 | a frame that gives no namespace two aliases gave none before its last alias, and none of its earlier aliases has the last one's namespace |
| XmlRoundTrip.MirrorStep | LessXaml/XmlConverter.cs:228-236 | one more declaration keeps the reverse frame read from the declaration attributes the mirror of the frame |
| XmlRoundTrip.AliasesStep | LessXaml/XmlConverter.cs:228-238 | one more declaration attribute adds its namespace to the reverse frame |
| XmlRoundTrip.DeclarationsStep | LessXaml/XmlConverter.cs:142-143 | one more declaration at the end of the declaration pass adds its new alias to the frame and its declaration to the emitted attributes |
| XmlRoundTrip.DeclarationsConvert | LessXaml/XmlConverter.cs:139-143 | the declaration pass over declarations emits one declaration per child, in order, and leaves the declared frame; when that frame gives no namespace two aliases, the emitted attributes read back as its mirror |
| XmlRoundTrip.AttributesConvert | LessXaml/XmlConverter.cs:119-124 | a run of plain attributes emits one attribute per child with its name resolved, and leaves the frames alone |
| XmlRoundTrip.PassesSplit | LessXaml/XmlConverter.cs:139-143 | the two passes over reversible children emit the declarations, then the attributes, then convert the content in the element's completed frame |
| XmlRoundTrip.DeclarationRun | LessXaml/XmlConverter.cs:139-143 | the declarations at the head of the children convert together into the declared frame and their declaration attributes, which read back as its mirror when it gives no namespace two aliases |
| XmlRoundTrip.AttributeRun | LessXaml/XmlConverter.cs:140-143 | the attributes after the declarations convert together into their resolved attributes |
| XmlRoundTrip.SelectionSplit | LessXaml/XmlConverter.cs:135-137 | in reversible children exactly the head run passes the declaration test |
| XmlRoundTrip.DeclarationsBack | LessXaml/XmlConverter.cs:51-61 | the declarations among an element's children come back one by one |
| XmlRoundTrip.AttributesBack | LessXaml/XmlConverter.cs:51-61 | the plain attributes come back one by one, none of them read as a declaration |
| XmlRoundTrip.KidsBack | LessXaml/XmlConverter.cs:81-82 | declarations, attributes and content that each come back equivalent come back equivalent as one child list |
| XmlRoundTrip.ChildrenBack | LessXaml/XmlConverter.cs:72-156 | an element's children convert in its frame and come back, attributes first, as trees equivalent to them one by one |
| XmlRoundTrip.ElementBack | LessXaml/XmlConverter.cs:69-157 | an element becomes one XML element and comes back as an equivalent tree |
| XmlRoundTrip.NodeBack | LessXaml/XmlConverter.cs:45-159 | a text or element child becomes one XML node and comes back as an equivalent tree |
| XmlRoundTrip.ContentBack | LessXaml/XmlConverter.cs:142-143 | a run of content children converts to XML nodes that come back as trees equivalent to them, in order |
| XmlRoundTrip.RoundTrip | LessXaml.Tests/XmlConverterTests.cs:13-29 | converting reversible roots to XML and back succeeds and gives as many trees, each semantically equivalent to its root; this is the meaning of `ToXmlOf` followed by `FromDocument` |
| XmlRoundTrip.DeclaredOne | LessXaml/XmlConverter.cs:119-126 | one declaration declares its alias with its namespace |
| XmlRoundTrip.AliasDeclaredAgain | LessXaml.Tests/XmlConverterTests.cs:112-120 | `n:A` declaring `n`, around `n:B` declaring `n` again for another namespace, is reversible, so the round trip covers it |
| XmlRoundTrip.DefaultDeclaredAgain | LessXaml.Tests/XmlConverterTests.cs:101-109 | `A` declaring the default namespace, around `B` declaring it again for another one, is reversible |
| Printer.Outline | LessXaml/StringConverter.cs:21-29 | the printing order lists every node of the forest exactly once, in pre-order, the first root first and no node above the starting depth |
| Printer.LinesOf | LessXaml/StringConverter.cs:25-26 | one printed line per listed node |
| Printer.LayoutAppend | LessXaml/StringConverter.cs:23-28 | the layout of two node lists is the layout of the first followed by that of the second |
| Printer.RenderIsLayout | LessXaml/StringConverter.cs:21-29 | the recursive printer writes exactly the pre-order layout: each node's line at its depth's indentation, followed by its descendants |
| Printer.RenderAppend | LessXaml/StringConverter.cs:23-28 | printing two forests one after the other is printing the first and then the second |
| Printer.OutlineAppend | LessXaml/StringConverter.cs:23-28 | the pre-order of two forests is the pre-order of the first followed by that of the second |
| Printer.IndentedLineOneLine | LessXaml/StringConverter.cs:25-60 | a node without line breaks, indented by an indentation without line breaks, prints on a single line |
| Printer.OutlineOneLine | LessXaml/StringConverter.cs:21-29 | every node listed for a forest without line breaks is itself without line breaks |
| Printer.LayoutLines | LessXaml/StringConverter.cs:31-54 | split at its line terminators, the layout of single-line nodes is exactly their lines |
| Printer.LayoutCount | LessXaml/StringConverter.cs:53 | the layout of single-line nodes holds one line terminator per node |
| Printer.OneLinePerNode | LessXaml/StringConverter.cs:9-29 | a forest without line breaks in its fragments prints as exactly one line per node, in pre-order, with as many line terminators as nodes |
| Printer.LineShape | LessXaml/StringConverter.cs:31-54 | a keyed node's line is its key, a space and its operator, then a space before the first fragment if there is one; a bare value's line is its fragments alone |
| Printer.RootElementPrints | LessXaml/StringConverter.cs:31-54 | the element `A` with operator `:` prints as `A :` and a line terminator |
| Printer.KeyedElementPrints | LessXaml/StringConverter.cs:21-54 | an element with one bare child prints its own line without a trailing space and the child one indentation deeper |
| Printer.Builder.constructor | LessXaml/StringConverter.cs:16 | a new builder holds the empty text |
| Printer.Builder.Append | LessXaml/StringConverter.cs:37-50 | appending adds exactly the given text at the end |
| Printer.AppendIndent | LessXaml/StringConverter.cs:56-60 | the loop appends `indent` copies of the indentation |
| Printer.AppendNode | LessXaml/StringConverter.cs:31-54 | the loop appends the node's line and a line terminator |
| Printer.AppendNodes | LessXaml/StringConverter.cs:21-29 | printing a node list appends exactly its rendering: each node's indented line followed by its children one level deeper |
| Printer.ToStringIndented | LessXaml/StringConverter.cs:14-19 | the text is the rendering of the roots from depth 0 |
| Printer.ToString | LessXaml/StringConverter.cs:9-12 | the text is the rendering of the roots with four spaces per level |
| Pipeline.Keyed | LessXaml/Xaml/LessXamlParser.cs:17 | the keyed nodes picked out are exactly the pseudo-root's children that have a key |
| Pipeline.SingleKeyedIsOnly | LessXaml/Xaml/LessXamlParser.cs:17 | the root picked is a keyed child, and every keyed child is that one (what `SingleKeyed` returns) |
| Pipeline.NoKeyedFails | LessXaml/Xaml/LessXamlParser.cs:17 | a program without any keyed top-level node throws at `Single` |
| Pipeline.TwoKeyedFail | LessXaml/Xaml/LessXamlParser.cs:17 | a program with two keyed top-level nodes throws at `Single` |
| Pipeline.FindDeclaration | LessXaml/Xaml/LessXamlParser.cs:20-23 | the search for an existing declaration fails only with a null reference |
| Pipeline.FindDeclarationNone | LessXaml/Xaml/LessXamlParser.cs:20-23 | the search finds nothing exactly when every child has a key and an operator and none is `key =` |
| Pipeline.FindDeclarationFound | LessXaml/Xaml/LessXamlParser.cs:20-23 | the search finds a declaration exactly when some child is `key =` and every child before it has a key and an operator |
| Pipeline.FindDeclarationMeans | LessXaml/Xaml/LessXamlParser.cs:20-23 | both directions of what the search's two answers mean |
| Pipeline.Declaration | LessXaml/Xaml/LessXamlParser.cs:29-38 | the new declaration node is `key =` with the namespace as its value, without parent or children |
| Pipeline.EnsureDeclaration | LessXaml/Xaml/LessXamlParser.cs:20-24 | a declaration check keeps the arena well formed and never loses a node |
| Pipeline.EnsureDeclarationDeclares | LessXaml/Xaml/LessXamlParser.cs:20-24 | after a check the root declares the key; a root that already did is untouched, otherwise the declaration is appended as its last child with the given namespace and no other node changes |
| Pipeline.SecondCheckKeepsFirst | LessXaml/Xaml/LessXamlParser.cs:20-24 | a root that declares `xmlns` still does after `xmlns:x` is ensured |
| Pipeline.ScanKeysOnly | LessXaml/Xaml/LessXamlParser.cs:20-23 | a found declaration stays found when keys and operators are kept and more children are appended |
| Pipeline.Expand | LessXaml/Xaml/LessXamlParser.cs:12-18 | parsing and both macro passes, when they succeed, leave a well-formed arena holding the pseudo-root and the root |
| Pipeline.ExpandFuelMonotone | LessXaml/Xaml/LessXamlParser.cs:15-18 | parsing and both macro passes give the same outcome under any larger recursion budget once they finished within a smaller one |
| Pipeline.Declare | LessXaml/Xaml/LessXamlParser.cs:20-24 | the two declaration checks keep the arena well formed and never lose a node |
| Pipeline.RootDeclaresBoth | LessXaml/Xaml/LessXamlParser.cs:20-24 | after both checks the root declares both `xmlns` and `xmlns:x`, and a program that declared both is left unchanged |
| Pipeline.MakeXmlnsDeclaration | LessXaml/Xaml/LessXamlParser.cs:29-38 | the method creates exactly one new node, the declaration, and changes no other |
| Pipeline.AddDeclarationIfMissing | LessXaml/Xaml/LessXamlParser.cs:20-24 | one check with its `AddChild` does to the arena exactly what `EnsureDeclaration` specifies, or fails with its error |
| Pipeline.Translate | LessXaml/Xaml/LessXamlParser.cs:10-27 | the translation answers the document `Translation` specifies: parse, template pass, single root, XAML pass, declaration checks, conversion to XML |
| Pipeline.TranslationFuelMonotone | LessXaml/Xaml/LessXamlParser.cs:10-27 | a translation that finished within its recursion budget gives the same document or error under any larger budget |
| Text.Trim | LessXaml/Vamp/Vamp.cs:183 | `String.Trim` gives text without white space at either end, never longer than the input |
| Text.Lines | LessXaml/Vamp/Vamp.cs:298 | the lines `ReadLine` hands out hold no line break |
| Text.Find | LessXaml/Vamp/Vamp.cs:207 | ordinal `IndexOf` from a position finds an occurrence at or after that position |
| Text.FindAny | LessXaml/Vamp/Vamp.cs:263 | `IndexOfAny` finds the first position holding one of the characters, and none exactly when no position does |
| Text.Split | LessXaml/Vamp.cs:213 | `Split` gives at least one piece and no piece holds the separator |
| Quoter.Earliest | LessXaml/Vamp/Vamp.cs:175-178 | the quotation picked is one of the list and its start delimiter occurs first at the position reported |
| Quoter.HashMatch | LessXaml/Vamp/Vamp.cs:175-178 | under the default quotations a line holding only `#` matches the end-less comment quotation at position 0 |
| Indentation.UniformAfter | LessXaml/Vamp/Vamp.cs:129-137 | the whitespace character fixed for the document is the first one ever seen, and once fixed it never changes |
| Indentation.PopLonger | LessXaml/Vamp/Vamp.cs:146-150 | popping keeps a prefix of the stack, at least its bottom, whose top is no longer than the line's prefix, and removes exactly the longer frames above it |
| Macros.ExpandedNode | LessXaml/Macros/TemplateTransformer.cs:114-120 | the expander substitutes in the key, the operator and each value fragment, and leaves the parent and children links alone |
| Xaml.MoveForSetter | LessXaml/Xaml/XamlTransformer.cs:28-43 | creates `Property` and `Value` as the next two nodes and moves the node's children below `Value`, which is exactly the setter move specified on values; the only failure is a child that already has a parent |

## Left out

- Macros.Run: the source's recursion is unbounded, and a template that invokes itself overflows the stack. The model runs on a `fuel` budget instead and gives `Err(ExpansionBudget)` when the budget runs out. `MacroProperties.RunFuelMonotone` shows that a larger budget never changes a result that was already reached.
- Pipeline.Expand: the same fuel budget as `Macros.Run`. `Pipeline.ExpandFuelMonotone` carries the monotonicity over.
- Pipeline.Translation: the same fuel budget. When taking the value snapshot of the expanded tree fails, it also gives `Err(ExpansionBudget)`. That happens only if the arena is malformed, and `Pipeline.TranslationFuelMonotone` covers the budget part.
- Pipeline.Translation: LessXaml/Xaml/LessXamlParser.cs:26 passes the pseudo-root node itself to `XmlConverter.ToXml`, which takes a sequence of roots, and `VampNode` is not enumerable. The model converts the pseudo-root's children. LessXaml.Tests/XmlConverterTests.cs:16 makes the same call on a parsed tree, and lines 25-27 compare what comes back with `parsed.Children`, so the children are what is meant. The translator's own test asserts nothing.
- Templates.ParseFunctionHeader: in the header regex, `.` does not match a line break. The model leaves this out because a header always comes from a single line.
- Text.StartsWith: compares ordinally. The source's `StartsWith(string)` is culture-sensitive, and this model has no culture.
- Text.EndsWith: compares ordinally, for the same reason as `Text.StartsWith`.
- Templates.Lower: folds case for ASCII letters only. The invariant culture folds every letter.
- XmlConvert.ToXmlOf: does not check the `XDocument` rules of a single root element and no top-level text. It also keeps duplicate attribute names, where LINQ to XML throws.
- Printer.RootElementPrints: the model prints a bare root element as `A :`. LessXaml.Tests/StringConverterTests.cs:19-23 expects `A`. The model follows `StringConverter` as written.
- MacroProperties.BareValueIgnored: in the template tests, the line holding only a backtick quotation is a keyless element value. The template pass ignores such a node, and the lemma states exactly that.
- Templates.Substitute: makes no claim about the result when one formal parameter is a substring of another. The replacements then depend on their order.
- XmlRoundTrip.RoundTrip: holds for trees in the `Reversible` form. Under each element come its namespace declarations, then its other attributes, then text and element content, each value one fragment. No element declares one namespace under two aliases (`FromXml` would throw), and no element declares a namespace under another alias than an element around it does. An inner element may declare an alias again for another namespace: the documents of LessXaml.Tests/XmlConverterTests.cs:101-120 are covered (`XmlRoundTrip.AliasDeclaredAgain`, `XmlRoundTrip.DefaultDeclaredAgain`).
- XmlRoundTrip.RoundTrip: the round trip is in memory. The tests print the document and parse the text again (LessXaml.Tests/XmlConverterTests.cs:18-23), which merges adjacent text nodes; printing and re-parsing XML are not modelled.
- XmlConvert.ToXmlOf: builds an `XName` from any key. LINQ to XML rejects names that are not valid XML names, such as the local name `b:c` of the key `a:b:c`, or the empty prefix of `xmlns:` (LessXaml/XmlConverter.cs:122, 145, 180, 188); the model converts them without error (`Xml.NamespaceResolver.ResolveName` likewise).
- Quoter.Close: the line break that joins the lines of a multi-line quote is `Environment.NewLine` (LessXaml/Vamp/Vamp.cs:210); the model fixes it as `"\n"`.
- TreeBuilder.StackStep: holds only for a line at most one level deeper than the line before it. After an indented comment-only line, `Tokenize` can hand out a level two deeper; `Parse` then nests the following siblings (`CommentLines.SiblingNestedAfterComment`, see Findings).
- TreeBuilder.ParseOutline: describes the tree only for levels that keep to `Steps`, for the same reason as `TreeBuilder.StackStep`. `CommentLines.KeptProgramSteps` shows that the corrected tokenizer always keeps to it.
- CommentLines.KeptTokens: the corrected tokenizer is proved beside the source's, and the translation pipeline keeps the source's `Tokenize`, so that the model of the pipeline stays the code as written.
- Printer.Render: `Environment.NewLine` is fixed as `"\n"` (`Printer.NewLine`).
- Xml.NamespaceResolver.PopLevel: requires a non-empty stack. The source pops only after a matching push.
- Xml.ReverseNamespaceResolver.PopLevel: requires a non-empty stack, for the same reason.
- Rules.NewRules: a fresh `VampRules` in LessXaml/VampRules.cs starts with `DefaultOp` null, and the `VampRules` of LessXaml/Vamp/VampRules.cs has no `DefaultOp` at all. The model always takes the default operator as a string. This makes no difference, because every builder sets it to `:` before use.
- Tokenizer: a `null` line and `""` behave alike everywhere in the source, so both are `""`.
- Tokenizer.Tokenize: the source yields tokens lazily and throws part-way. The model returns the tokens read so far together with an optional error.
- LegacyParser: the body of `Transform` in the old translator, LessXaml/LessXamlParser.cs, is commented out. Its `stub.Elements().First()` therefore throws. Only `FormatValue` and the grammar configuration (`Rules.OldTranslateRules`) are modelled.
- Nodes.Forest.Build: `VampNode.Clone` is not part of this model. Copies are deep copies of a node and its subtree, built from a value snapshot.
- Templates.KeyValues: `Dictionary` enumeration is taken to be in insertion order. That holds while nothing is removed, which is how the source uses it.
- File reading, console output and the command-line front end are I/O and are left out.

## Findings

| source | as written | input that shows it | evidently intended | confidence | as-written member | corrected member |
|---|---|---|---|---|---|---|
| LessXaml/Vamp/Vamp.cs:196-200 | A quotation with no end delimiter (`#`) takes the rest of the line, but `line` is never shortened; only the other branch advances it (line 219). The next round finds the same quotation again, so `GetStrings` never returns. | the line `#` | the comment runs to the end of the line and the line is then finished | not executed | Quoter.HashCommentHangs (Quoter.EndlessQuotationNeverFinishes over Quoter.RoundsAsWritten) | Quoter.HashCommentScans (over Quoter.Scan) |
| LessXaml/Vamp/Vamp.cs:304-310 | A comment-only line is unindented before its comments are dropped, so the indentation frame it pushes stays. The next line at the same depth gets a level two below the line before the comment, and `Parse`, which pops only down to that level (lines 375-376), hangs that line's later siblings below it. | `A`, then `  /* note */`, then `    B` and `    C`: `C` becomes a child of `B` | a line that yields no tokens leaves the indenter alone, so `B` and `C` are siblings under `A` | not executed | CommentLines.SiblingNestedAfterComment | CommentLines.KeptProgramSteps (over CommentLines.KeptTokens) |
