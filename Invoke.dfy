/**
 * The front half of the `invoke_graphql` tool handler: reading its string arguments
 * and choosing which operation to send. Sending it is the HTTP client's job and is not
 * modelled; the handler's decision is returned as a `Dispatch` value instead.
 */
module Invoke {

  /** A decoded tool-call argument: a JSON string, or a value of any other JSON type. */
  datatype ArgValue = StringValue(s: string) | OtherValue

  type Arguments = map<string, ArgValue>

  /** What the handler does: answer with an error, or run `operation` with the variables. */
  datatype Dispatch = Reject(message: string) | Execute(operation: string, variablesJSON: string)

  const NoOperationMessage: string := "No valid query or mutation provided"

  /** The string argument `name`; an absent or non-string argument reads as the empty string. */
  function StringArg(args: Arguments, name: string): (s: string)
    ensures s != "" ==> name in args && args[name] == StringValue(s)
    ensures name in args && args[name].StringValue? ==> s == args[name].s
  {
    if name in args && args[name].StringValue? then args[name].s else ""
  }

  /**
   * Operation selection: a non-empty mutation overrides the query, and a call with
   * neither is rejected without running anything.
   */
  function SelectOperation(query: string, mutation: string, variablesJSON: string): (d: Dispatch)
    ensures d.Reject? <==> query == "" && mutation == ""
    ensures d.Reject? ==> d.message == NoOperationMessage
    ensures mutation != "" ==> d == Execute(mutation, variablesJSON)
    ensures mutation == "" && query != "" ==> d == Execute(query, variablesJSON)
  {
    var operation := if mutation != "" then mutation else query;
    if operation == "" then Reject(NoOperationMessage) else Execute(operation, variablesJSON)
  }

  /** The handler's decision for the arguments of one `invoke_graphql` call. */
  function HandleInvoke(args: Arguments): (d: Dispatch)
    ensures d.Reject? <==> StringArg(args, "query") == "" && StringArg(args, "mutation") == ""
    ensures d.Reject? ==> d.message == NoOperationMessage
    ensures "mutation" in args && args["mutation"].StringValue? && args["mutation"].s != "" ==> d == Execute(args["mutation"].s, StringArg(args, "variables"))
    ensures d.Execute? ==> d.operation != ""
    ensures d.Execute? ==> d.variablesJSON == StringArg(args, "variables")
    ensures d.Execute? ==>
              || ("mutation" in args && args["mutation"] == StringValue(d.operation))
              || ("query" in args && args["query"] == StringValue(d.operation))
  {
    SelectOperation(StringArg(args, "query"), StringArg(args, "mutation"), StringArg(args, "variables"))
  }

  /** An argument of the wrong type is treated exactly as a missing one. */
  lemma NonStringArgumentIgnored(args: Arguments, name: string)
    requires name in args && args[name] == OtherValue
    ensures HandleInvoke(args) == HandleInvoke(args - {name})
  {
    assert StringArg(args, "query") == StringArg(args - {name}, "query");
    assert StringArg(args, "mutation") == StringArg(args - {name}, "mutation");
    assert StringArg(args, "variables") == StringArg(args - {name}, "variables");
  }
}
