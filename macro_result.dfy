/** The contract between the macro engine and its macros (LessML.Macros.IMacro). */
module MacroResults {
  import opened Results
  import opened Nodes

  /** What a macro asks the engine to do after it has looked at a node. */
  datatype MacroResult = ContinueToChildren | ReapplyTransform | Break

  /** One call of a macro on the node arena: the arena afterwards and the macro's answer. */
  datatype Stepped = Stepped(nodes: seq<Node>, next: MacroResult)

  /** How a method that changed the arena in place reports the same thing:
      its answer, or the exception it ended with. */
  function Reported(r: Result<MacroResult>, nodes: seq<Node>): (s: Result<Stepped>)
    ensures s.Ok? <==> r.Ok?
    ensures s.Ok? ==> s.value.nodes == nodes && s.value.next == r.value
    ensures s.Err? ==> s.error == r.error
  {
    if r.Err? then Err(r.error) else Ok(Stepped(nodes, r.value))
  }
}
