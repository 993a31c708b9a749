/**
 * The condition factory: builds a condition from a generic configuration
 * node (an element with a name, attributes, text content and child
 * elements) and says which registrations building it performs.
 */
module ConditionFactory {
  import opened Wrappers
  import opened Conditions

  /** A configuration element: its name, attributes, text content and ordered children. */
  datatype Node = Node(name: string, attributes: map<string, string>, content: string, children: seq<Node>)

  /** Why a configuration node could not be turned into a condition. */
  datatype BuildError =
    | UnknownConditionType(conditionType: string)
    | MissingField(field: string)
    | MissingOperand
    | MissingReference

  /** A registration: the condition stored under a (non-empty) id. */
  datatype Entry = Entry(id: string, condition: Condition)

  function Attribute(n: Node, key: string): Option<string>
  {
    if key in n.attributes then Some(n.attributes[key]) else None
  }

  /** The position of the first child at or after `from` that is named `name`. */
  function ChildIndex(children: seq<Node>, name: string, from: nat): (r: Option<nat>)
    requires from <= |children|
    ensures r.Some? ==> from <= r.value < |children| && children[r.value].name == name
    ensures r.Some? ==> forall k :: from <= k < r.value ==> children[k].name != name
    ensures r.None? ==> forall k :: from <= k < |children| ==> children[k].name != name
    decreases |children| - from
  {
    if from == |children| then None
    else if children[from].name == name then Some(from)
    else ChildIndex(children, name, from + 1)
  }

  /**
   * The factory. The `type` attribute selects the kind: a variable condition
   * takes the text of its first `name` and first `value` children, a
   * reference takes its `refid` attribute, and a negation builds its single
   * child recursively.
   */
  function Build(n: Node): Result<Condition, BuildError>
    decreases n
  {
    var kind := Attribute(n, "type");
    if kind == Some("variable") then
      var nameAt := ChildIndex(n.children, "name", 0);
      var valueAt := ChildIndex(n.children, "value", 0);
      if nameAt.None? then Failure(MissingField("name"))
      else if valueAt.None? then Failure(MissingField("value"))
      else Success(Variable(n.children[nameAt.value].content, n.children[valueAt.value].content))
    else if kind == Some("ref") then
      match Attribute(n, "refid")
      case None => Failure(MissingReference)
      case Some(t) => Success(Ref(t))
    else if kind == Some("not") then
      if |n.children| != 1 then Failure(MissingOperand)
      else
        match Build(n.children[0])
        case Failure(e) => Failure(e)
        case Success(c) => Success(Not(c))
    else
      Failure(UnknownConditionType(if kind.Some? then kind.value else ""))
  }

  /** The id a node registers its condition under, if it has a non-empty one. */
  function RegisteredId(n: Node): Option<string>
  {
    match Attribute(n, "id")
    case Some(id) => if id != "" then Some(id) else None
    case None => None
  }

  /**
   * The registrations building `n` performs, in order: those of a nested
   * operand first, then `n`'s own if it has a non-empty id.
   */
  function Entries(n: Node): (es: seq<Entry>)
    requires Build(n).Success?
    ensures forall k :: 0 <= k < |es| ==> es[k].id != ""
    ensures RegisteredId(n).Some? ==> |es| > 0 && es[|es| - 1] == Entry(RegisteredId(n).value, Build(n).value)
    ensures RegisteredId(n).None? && Attribute(n, "type") != Some("not") ==> es == []
    decreases n
  {
    var nested := if Attribute(n, "type") == Some("not") then Entries(n.children[0]) else [];
    match RegisteredId(n)
    case Some(id) => nested + [Entry(id, Build(n).value)]
    case None => nested
  }

  /** The shapes of node the factory accepts. */
  ghost predicate WellFormed(n: Node)
    decreases n
  {
    || (&& Attribute(n, "type") == Some("variable")
        && (exists k :: 0 <= k < |n.children| && n.children[k].name == "name")
        && (exists k :: 0 <= k < |n.children| && n.children[k].name == "value"))
    || (Attribute(n, "type") == Some("ref") && "refid" in n.attributes)
    || (Attribute(n, "type") == Some("not") && |n.children| == 1 && WellFormed(n.children[0]))
  }

  /** The factory succeeds exactly on well-formed nodes. */
  lemma {:induction false} BuildSucceedsIffWellFormed(n: Node)
    ensures Build(n).Success? <==> WellFormed(n)
    decreases n
  {
    if Attribute(n, "type") == Some("not") && |n.children| == 1 {
      BuildSucceedsIffWellFormed(n.children[0]);
    }
  }

  /** Which error the factory reports for a malformed node. */
  lemma BuildErrors(n: Node)
    ensures Attribute(n, "type") !in {Some("variable"), Some("ref"), Some("not")} ==>
              Build(n).Failure? && Build(n).error.UnknownConditionType?
    ensures Attribute(n, "type") == Some("variable") && (forall k :: 0 <= k < |n.children| ==> n.children[k].name != "name") ==>
              Build(n) == Failure(MissingField("name"))
    ensures Attribute(n, "type") == Some("ref") && "refid" !in n.attributes ==>
              Build(n) == Failure(MissingReference)
    ensures Attribute(n, "type") == Some("variable") && (exists k :: 0 <= k < |n.children| && n.children[k].name == "name")
              && (forall k :: 0 <= k < |n.children| ==> n.children[k].name != "value") ==>
              Build(n) == Failure(MissingField("value"))
    ensures Attribute(n, "type") == Some("not") && |n.children| != 1 ==>
              Build(n) == Failure(MissingOperand)
    ensures Attribute(n, "type") == Some("not") && |n.children| == 1 && Build(n.children[0]).Failure? ==>
              Build(n) == Failure(Build(n.children[0]).error)
  {
    if Attribute(n, "type") == Some("variable") && exists k :: 0 <= k < |n.children| && n.children[k].name == "name" {
      var k :| 0 <= k < |n.children| && n.children[k].name == "name";
      assert ChildIndex(n.children, "name", 0).Some?;
    }
  }
}
