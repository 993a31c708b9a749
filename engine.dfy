/**
 * The rules engine facade: the registry read from the configuration, the two
 * queries callers make of it, and the installer's variable store that the
 * engine reads but never changes.
 */
module RulesEngines {
  import opened Wrappers
  import opened Conditions
  import opened ConditionFactory
  import opened ConditionRegistry
  import Expressions

  /** An engine holds the registry of one session; it does not change after it is built. */
  datatype RulesEngine = RulesEngine(conditions: Registry)
  {
    /** `getCondition`: the condition registered under `id`, or none. */
    function GetCondition(id: string): (r: Option<Condition>)
      ensures r.Some? <==> id in conditions
      ensures r.Some? ==> r.value == conditions[id]
    {
      if id in conditions then Some(conditions[id]) else None
    }

    /** `isConditionTrue`: the evaluator applied to this engine's registry. */
    function IsConditionTrue(expression: string, variables: Variables): bool
    {
      Expressions.IsConditionTrue(conditions, variables, expression)
    }
  }

  /**
   * Building an engine from the `conditions` element: its children are
   * registered in order. A node that cannot be built aborts the construction
   * with that node's error, as the source's constructor throws.
   */
  method NewRulesEngine(conditionspec: Node) returns (r: Result<RulesEngine, BuildError>)
    ensures Load(conditionspec.children).Success? ==>
              r == Success(RulesEngine(Load(conditionspec.children).value))
    ensures Load(conditionspec.children).Failure? ==>
              r == Failure(Load(conditionspec.children).error)
  {
    var built := BuildRegistry(conditionspec.children);
    match built
    case Success(conditions) => r := Success(RulesEngine(conditions));
    case Failure(e) => r := Failure(e);
  }

  /**
   * After a successful build, `getCondition` returns the condition of the last
   * registration under `id`, and none when nothing was registered under it.
   */
  lemma GetConditionAfterLoad(nodes: seq<Node>, id: string)
    requires Load(nodes).Success?
    ensures RulesEngine(Load(nodes).value).GetCondition(id) ==
              match LastIndex(AllEntries(nodes), id)
              case None => None
              case Some(k) => Some(AllEntries(nodes)[k].condition)
  {
    LoadLastWriteWins(nodes, id);
  }

  /** The installer's variable store. */
  class InstallData {
    var variables: Variables

    constructor ()
      ensures variables == map[]
    {
      variables := map[];
    }

    method SetVariable(name: string, value: string)
      modifies this
      ensures variables == old(variables)[name := value]
    {
      variables := variables[name := value];
    }

    method ClearVariables()
      modifies this
      ensures variables == map[]
    {
      variables := map[];
    }
  }
}
