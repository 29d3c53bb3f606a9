/** Failure-compatible wrappers and the error values the translator can raise.
    Every exception the C# code throws (its own VampParseException, the BCL's
    NullReferenceException, ArgumentOutOfRangeException, ...) is one case of `Error`. */
module Results {

  datatype Option<+T> = None | Some(value: T)

  /** The distinct failures of the translator, one per exception site. */
  datatype Error =
    | MixedTabsAndSpaces        // VampParseException(Exception_MixedTabsAndSpaces)
    | WrongIndentation          // VampParseException(Exception_WrongIndentation)
    | UnfinishedString          // VampParseException(Exception_UnfinishedString)
    | UnfinishedBlockComment    // VampParseException("Unfinished block comment")
    | EmptyStack                // InvalidOperationException from Stack.Peek / List.Last
    | NullReference             // a member access through a null reference
    | IndexOutOfRange           // ArgumentOutOfRangeException from a List indexer
    | InfiniteRecursion         // the macro engine's reapply ceiling
    | ExpansionBudget           // unbounded macro recursion (a stack overflow in the source)
    | MalformedTemplateHeader   // "Looks wrong: ..."
    | DuplicateKey              // Dictionary.Add with a key already present
    | UnknownTemplate           // "Unknown function specified in ..."
    | ParameterCountMismatch    // "Parameter count mismatch in ..."
    | EmptyReplacePattern       // String.Replace with an empty old value
    | UnmappedAlias             // "TODO: unmapped alias"
    | ChildrenUnderElementValue // "TODO: can't have children under element value"
    | NotSingle                 // Enumerable.Single with zero or several matches
    | NotSupported              // NotSupportedException from FromXml
    | AlreadyHasParent          // VampNode.AddChild on a node that has a parent

  datatype Result<+T> = Ok(value: T) | Err(error: Error) {
    predicate IsFailure() { Err? }

    function PropagateFailure<U>(): Result<U>
      requires Err?
    {
      Err(error)
    }

    function Extract(): T
      requires Ok?
    {
      value
    }
  }
}
