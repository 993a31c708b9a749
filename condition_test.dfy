/**
 * The condition test: the node shapes its helpers create, the registry its
 * `setUp` loads, and its assertions about `isConditionTrue` and
 * `getCondition`, stated as lemmas about that registry.
 */
module ConditionTest {
  import opened Wrappers
  import opened Conditions
  import opened ConditionFactory
  import opened ConditionRegistry
  import opened Expressions
  import opened RulesEngines

  /** `createVariableCondition`: a `variable` node with `name` and `value` children. */
  function VariableConditionNode(id: string, variable: string, expvalue: string): Node
  {
    Node("condition", map["type" := "variable", "id" := id], "",
         [Node("name", map[], variable, []), Node("value", map[], expvalue, [])])
  }

  /** `createRefCondition`: a `ref` node with its `refid` attribute. */
  function RefConditionNode(id: string, refid: string): Node
  {
    Node("condition", map["type" := "ref", "refid" := refid, "id" := id], "", [])
  }

  /** `createNotCondition`: a `not` node with the operand as its only child. */
  function NotConditionNode(id: string, condition: Node): Node
  {
    Node("condition", map["type" := "not", "id" := id], "", [condition])
  }

  /** The factory accepts the variable shape. */
  lemma BuildsVariableNode(id: string, variable: string, expvalue: string)
    ensures Build(VariableConditionNode(id, variable, expvalue)) == Success(Variable(variable, expvalue))
    ensures Entries(VariableConditionNode(id, variable, expvalue)) ==
              if id == "" then [] else [Entry(id, Variable(variable, expvalue))]
  {
    var n := VariableConditionNode(id, variable, expvalue);
    assert ChildIndex(n.children, "name", 0) == Some(0);
    assert ChildIndex(n.children, "value", 0) == Some(1);
  }

  /** The factory accepts the reference shape. */
  lemma BuildsRefNode(id: string, refid: string)
    ensures Build(RefConditionNode(id, refid)) == Success(Ref(refid))
    ensures Entries(RefConditionNode(id, refid)) == if id == "" then [] else [Entry(id, Ref(refid))]
  {
  }

  /** The factory accepts the negation shape around any buildable operand, registering the operand first. */
  lemma BuildsNotNode(id: string, condition: Node)
    requires Build(condition).Success?
    ensures Build(NotConditionNode(id, condition)) == Success(Not(Build(condition).value))
    ensures Entries(NotConditionNode(id, condition)) ==
              Entries(condition) + if id == "" then [] else [Entry(id, Not(Build(condition).value))]
  {
    var n := NotConditionNode(id, condition);
    assert n.children[0] == condition;
  }

  /** A node of the helpers' shapes, anonymous below the top, for any condition. */
  function ConditionNode(c: Condition, id: string): Node
  {
    match c
    case Variable(name, expected) => VariableConditionNode(id, name, expected)
    case Ref(target) => RefConditionNode(id, target)
    case Not(inner) => NotConditionNode(id, ConditionNode(inner, ""))
  }

  /** Building the node written for a condition gives back that condition, registered under `id` only. */
  lemma {:induction false} BuildInvertsConditionNode(c: Condition, id: string)
    ensures Build(ConditionNode(c, id)) == Success(c)
    ensures Entries(ConditionNode(c, id)) == if id == "" then [] else [Entry(id, c)]
  {
    match c
    case Variable(name, expected) => BuildsVariableNode(id, name, expected);
    case Ref(target) => BuildsRefNode(id, target);
    case Not(inner) =>
      BuildInvertsConditionNode(inner, "");
      BuildsNotNode(id, ConditionNode(inner, ""));
  }

  /**
   * The pattern of the four condition nodes `setUp` adds, in order: a variable
   * condition `a`, a reference `b` to it, a negation `c` of a second copy of
   * `a`, and a negation `c` again, of an anonymous reference to `a`.
   */
  predicate IsSetUpShape(nodes: seq<Node>, a: string, b: string, c: string, variable: string, expvalue: string)
  {
    && |nodes| == 4
    && nodes[0] == VariableConditionNode(a, variable, expvalue)
    && nodes[1] == RefConditionNode(b, a)
    && nodes[2] == NotConditionNode(c, VariableConditionNode(a, variable, expvalue))
    && nodes[3] == NotConditionNode(c, RefConditionNode("", a))
  }

  /** The four condition nodes `setUp` adds. */
  predicate IsSetUpNodes(nodes: seq<Node>)
  {
    IsSetUpShape(nodes, "test.true", "test.true2", "test.not.true", "TEST", "true")
  }

  /** What `setUp` registers: the second `test.not.true` has replaced the first. */
  function SetUpRegistry(): Registry
  {
    map["test.true" := Variable("TEST", "true"),
        "test.true2" := Ref("test.true"),
        "test.not.true" := Not(Ref("test.true"))]
  }

  /** A rank for each id of the set-up registry, above the ranks of the ids it refers to. */
  function SetUpRank(): map<string, nat>
  {
    map["test.true" := 0, "test.true2" := 1, "test.not.true" := 1]
  }

  /** Loading the set-up nodes gives the set-up registry. */
  lemma SetUpLoads(nodes: seq<Node>)
    requires IsSetUpNodes(nodes)
    ensures Load(nodes) == Success(SetUpRegistry())
  {
    LoadsSetUpShape(nodes, "test.true", "test.true2", "test.not.true", "TEST", "true");
  }

  /**
   * Loading nodes of the `setUp` pattern: the fourth node's negation of an
   * anonymous reference replaces the third's negation.
   */
  lemma LoadsSetUpShape(nodes: seq<Node>, a: string, b: string, c: string, variable: string, expvalue: string)
    requires IsSetUpShape(nodes, a, b, c, variable, expvalue)
    requires a != "" && b != "" && c != "" && a != b
    ensures Load(nodes) == Success(map[a := Variable(variable, expvalue), b := Ref(a), c := Not(Ref(a))])
  {
    LoadsSetUpShapeFirstThree(nodes, a, b, c, variable, expvalue);
    LoadsLastNegatedRefNode(nodes, map[a := Variable(variable, expvalue), b := Ref(a)], c, Not(Variable(variable, expvalue)), a);
  }

  /** The third node of the pattern registers its operand again, which changes nothing, and then its negation. */
  lemma LoadsSetUpShapeFirstThree(nodes: seq<Node>, a: string, b: string, c: string, variable: string, expvalue: string)
    requires IsSetUpShape(nodes, a, b, c, variable, expvalue)
    requires a != "" && b != "" && c != "" && a != b
    ensures Load(nodes[..3]) == Success(map[a := Variable(variable, expvalue), b := Ref(a), c := Not(Variable(variable, expvalue))])
  {
    LoadsSetUpShapeFirstTwo(nodes, a, b, c, variable, expvalue);
    LoadsNegatedRegisteredVariable(nodes, 2, map[a := Variable(variable, expvalue), b := Ref(a)], c, a, variable, expvalue);
  }

  lemma LoadsSetUpShapeFirstTwo(nodes: seq<Node>, a: string, b: string, c: string, variable: string, expvalue: string)
    requires IsSetUpShape(nodes, a, b, c, variable, expvalue)
    requires a != "" && b != ""
    ensures Load(nodes[..2]) == Success(map[a := Variable(variable, expvalue), b := Ref(a)])
  {
    var r0: Registry := map[];
    var empty: seq<Node> := [];
    assert nodes[..0] == empty;
    LoadsVariableNode(nodes, 0, r0, a, variable, expvalue);
    LoadsRefNode(nodes, 1, r0[a := Variable(variable, expvalue)], b, a);
  }

  /** A last negation of an anonymous reference replaces whatever its id held. */
  lemma LoadsLastNegatedRefNode(nodes: seq<Node>, reg: Registry, id: string, c: Condition, refid: string)
    requires |nodes| > 0 && nodes[|nodes| - 1] == NotConditionNode(id, RefConditionNode("", refid)) && id != ""
    requires Load(nodes[..|nodes| - 1]) == Success(reg[id := c])
    ensures Load(nodes) == Success(reg[id := Not(Ref(refid))])
  {
    LoadsNegatedRefNode(nodes, |nodes| - 1, reg[id := c], id, refid);
    UpdateTwice(reg, id, c, Not(Ref(refid)));
    assert nodes[..|nodes|] == nodes;
  }

  /** Re-registering an operand that is already registered leaves only the negation as new. */
  lemma LoadsNegatedRegisteredVariable(nodes: seq<Node>, k: nat, reg: Registry, id: string, nestedId: string, variable: string, expvalue: string)
    requires k < |nodes| && nodes[k] == NotConditionNode(id, VariableConditionNode(nestedId, variable, expvalue))
    requires id != "" && nestedId != ""
    requires Load(nodes[..k]) == Success(reg) && nestedId in reg && reg[nestedId] == Variable(variable, expvalue)
    ensures Load(nodes[..k + 1]) == Success(reg[id := Not(Variable(variable, expvalue))])
  {
    LoadsNegatedVariableNode(nodes, k, reg, id, nestedId, variable, expvalue);
    UpdateSame(reg, nestedId, Variable(variable, expvalue));
  }

  /** Loading one more variable node registers its condition under its id. */
  lemma LoadsVariableNode(nodes: seq<Node>, k: nat, reg: Registry, id: string, variable: string, expvalue: string)
    requires k < |nodes| && nodes[k] == VariableConditionNode(id, variable, expvalue) && id != ""
    requires Load(nodes[..k]) == Success(reg)
    ensures Load(nodes[..k + 1]) == Success(reg[id := Variable(variable, expvalue)])
  {
    BuildsVariableNode(id, variable, expvalue);
    LoadStep(nodes, k, reg);
    var r := EnterOne(reg, Entry(id, Variable(variable, expvalue)));
  }

  /** Loading one more reference node registers its reference under its id. */
  lemma LoadsRefNode(nodes: seq<Node>, k: nat, reg: Registry, id: string, refid: string)
    requires k < |nodes| && nodes[k] == RefConditionNode(id, refid) && id != ""
    requires Load(nodes[..k]) == Success(reg)
    ensures Load(nodes[..k + 1]) == Success(reg[id := Ref(refid)])
  {
    BuildsRefNode(id, refid);
    LoadStep(nodes, k, reg);
    var r := EnterOne(reg, Entry(id, Ref(refid)));
  }

  /** Loading one more negation of a variable node registers the operand, then the negation. */
  lemma LoadsNegatedVariableNode(nodes: seq<Node>, k: nat, reg: Registry, id: string, nestedId: string, variable: string, expvalue: string)
    requires k < |nodes| && nodes[k] == NotConditionNode(id, VariableConditionNode(nestedId, variable, expvalue))
    requires id != "" && nestedId != ""
    requires Load(nodes[..k]) == Success(reg)
    ensures Load(nodes[..k + 1]) == Success(reg[nestedId := Variable(variable, expvalue)][id := Not(Variable(variable, expvalue))])
  {
    var v := Variable(variable, expvalue);
    BuildsNegatedVariableNode(id, nestedId, variable, expvalue);
    LoadStep(nodes, k, reg);
    var r := EnterTwo(reg, Entry(nestedId, v), Entry(id, Not(v)));
  }

  lemma BuildsNegatedVariableNode(id: string, nestedId: string, variable: string, expvalue: string)
    requires id != "" && nestedId != ""
    ensures Build(NotConditionNode(id, VariableConditionNode(nestedId, variable, expvalue))) ==
              Success(Not(Variable(variable, expvalue)))
    ensures Entries(NotConditionNode(id, VariableConditionNode(nestedId, variable, expvalue))) ==
              [Entry(nestedId, Variable(variable, expvalue)), Entry(id, Not(Variable(variable, expvalue)))]
  {
    var v := Variable(variable, expvalue);
    BuildsVariableNode(nestedId, variable, expvalue);
    BuildsNotNode(id, VariableConditionNode(nestedId, variable, expvalue));
    assert [Entry(nestedId, v)] + [Entry(id, Not(v))] == [Entry(nestedId, v), Entry(id, Not(v))];
  }

  /** Loading one more negation of an anonymous reference node registers the negation only. */
  lemma LoadsNegatedRefNode(nodes: seq<Node>, k: nat, reg: Registry, id: string, refid: string)
    requires k < |nodes| && nodes[k] == NotConditionNode(id, RefConditionNode("", refid)) && id != ""
    requires Load(nodes[..k]) == Success(reg)
    ensures Load(nodes[..k + 1]) == Success(reg[id := Not(Ref(refid))])
  {
    BuildsRefNode("", refid);
    BuildsNotNode(id, RefConditionNode("", refid));
    LoadStep(nodes, k, reg);
    var r := EnterOne(reg, Entry(id, Not(Ref(refid))));
  }

  lemma UpdateSame(reg: Registry, id: string, c: Condition)
    requires id in reg && reg[id] == c
    ensures reg[id := c] == reg
  {
  }

  lemma UpdateTwice(reg: Registry, id: string, c: Condition, d: Condition)
    ensures reg[id := c][id := d] == reg[id := d]
  {
  }

  /** One more node that builds extends a successful load by its registrations. */
  lemma LoadStep(nodes: seq<Node>, k: nat, reg: Registry)
    requires k < |nodes| && Load(nodes[..k]) == Success(reg) && Build(nodes[k]).Success?
    ensures Load(nodes[..k + 1]) == Success(Enter(reg, Entries(nodes[k])))
  {
    var prefix := nodes[..k + 1];
    assert prefix[..|prefix| - 1] == nodes[..k];
    assert prefix[|prefix| - 1] == nodes[k];
  }

  lemma EnterOne(reg: Registry, e: Entry) returns (r: Registry)
    ensures r == Enter(reg, [e]) && r == reg[e.id := e.condition]
  {
    assert [e][..0] == [];
    r := reg[e.id := e.condition];
  }

  lemma EnterTwo(reg: Registry, e1: Entry, e2: Entry) returns (r: Registry)
    ensures r == Enter(reg, [e1, e2]) && r == reg[e1.id := e1.condition][e2.id := e2.condition]
  {
    assert [e1, e2][..1] == [e1];
    var r1 := EnterOne(reg, e1);
    r := r1[e2.id := e2.condition];
  }

  lemma SetUpRanked()
    ensures WellRanked(SetUpRegistry(), SetUpRank())
  {
  }

  /** The ids `setUp` registers are retrievable through `getCondition`. */
  lemma SetUpConditionsRetrievable()
    ensures RulesEngine(SetUpRegistry()).GetCondition("test.true") == Some(Variable("TEST", "true"))
    ensures RulesEngine(SetUpRegistry()).GetCondition("test.true2") == Some(Ref("test.true"))
    ensures RulesEngine(SetUpRegistry()).GetCondition("test.not.true") == Some(Not(Ref("test.true")))
  {
  }

  /** How the three registered ids evaluate, for any variable store. */
  lemma SetUpValues(vars: Variables)
    ensures IsConditionTrue(SetUpRegistry(), vars, "test.true") == ("TEST" in vars && vars["TEST"] == "true")
    ensures IsConditionTrue(SetUpRegistry(), vars, "test.true2") == ("TEST" in vars && vars["TEST"] == "true")
    ensures IsConditionTrue(SetUpRegistry(), vars, "test.not.true") == !("TEST" in vars && vars["TEST"] == "true")
  {
    var reg, rank := SetUpRegistry(), SetUpRank();
    SetUpRanked();
    RegisteredAtom(reg, rank, vars, "test.true");
    RegisteredAtom(reg, rank, vars, "test.true2");
    RegisteredAtom(reg, rank, vars, "test.not.true");
    ValueEquations(reg, rank, vars, Variable("TEST", "true"));
    ValueEquations(reg, rank, vars, Ref("test.true"));
    ValueEquations(reg, rank, vars, Not(Ref("test.true")));
  }

  /** While `TEST` is unset, the variable condition and the reference to it are false. */
  lemma VariableConditionUnset()
    ensures !IsConditionTrue(SetUpRegistry(), map[], "test.true")
    ensures !IsConditionTrue(SetUpRegistry(), map[], "test.true2")
  {
    SetUpValues(map[]);
  }

  /** Once `TEST` is `true`, both hold, and a single `!` makes either false. */
  lemma VariableConditionSet(vars: Variables)
    requires vars == map["TEST" := "true"]
    ensures IsConditionTrue(SetUpRegistry(), vars, "test.true")
    ensures IsConditionTrue(SetUpRegistry(), vars, "test.true2")
    ensures !IsConditionTrue(SetUpRegistry(), vars, "!test.true")
    ensures !IsConditionTrue(SetUpRegistry(), vars, "!test.true2")
  {
    SetUpValues(vars);
    NegatedAtom(SetUpRegistry(), vars, "test.true");
    assert ['!'] + "test.true" == "!test.true";
    NegatedAtom(SetUpRegistry(), vars, "test.true2");
    assert ['!'] + "test.true2" == "!test.true2";
  }

  /** The test's compound expressions, spelled as two atoms around an operator. */
  lemma JoinedExpressions()
    ensures "test.true" + ['+'] + "test.true2" == "test.true+test.true2"
    ensures "test.true2" + ['+'] + "test.true" == "test.true2+test.true"
    ensures "test.true2" + ['|'] + "test.true" == "test.true2|test.true"
    ensures "test.true2" + ['\\'] + "test.true" == "test.true2\\test.true"
    ensures ['!'] + "test.true2" + ['+'] + "test.true" == "!test.true2+test.true"
  {
  }

  /** With `TEST` set, the conjunction of the two holds in either order. */
  lemma ConjunctionSet(vars: Variables)
    requires vars == map["TEST" := "true"]
    ensures IsConditionTrue(SetUpRegistry(), vars, "test.true+test.true2")
    ensures IsConditionTrue(SetUpRegistry(), vars, "test.true2+test.true")
  {
    JoinedExpressions();
    ConjunctionHolds(vars, "test.true", "test.true2", "test.true+test.true2");
    ConjunctionHolds(vars, "test.true2", "test.true", "test.true2+test.true");
  }

  lemma ConjunctionHolds(vars: Variables, a: string, b: string, e: string)
    requires vars == map["TEST" := "true"]
    requires a in {"test.true", "test.true2"} && b in {"test.true", "test.true2"} && e == a + ['+'] + b
    ensures IsConditionTrue(SetUpRegistry(), vars, e)
  {
    SetUpValues(vars);
    ConjunctionOf(vars, a, b);
  }

  lemma ConjunctionOf(vars: Variables, a: string, b: string)
    requires a in {"test.true", "test.true2"} && b in {"test.true", "test.true2"}
    ensures IsConditionTrue(SetUpRegistry(), vars, a + ['+'] + b) ==
              (IsConditionTrue(SetUpRegistry(), vars, a) && IsConditionTrue(SetUpRegistry(), vars, b))
  {
    Combination(SetUpRegistry(), vars, a, '+', b);
  }

  /** With `TEST` set, `!test.true2+test.true` is false: the `!` negates the left atom only. */
  lemma NegatedConjunctionSet(vars: Variables)
    requires vars == map["TEST" := "true"]
    ensures !IsConditionTrue(SetUpRegistry(), vars, "!test.true2+test.true")
  {
    JoinedExpressions();
    SetUpValues(vars);
    NegatedConjunctionOf(vars);
  }

  lemma NegatedConjunctionOf(vars: Variables)
    ensures IsConditionTrue(SetUpRegistry(), vars, ['!'] + "test.true2" + ['+'] + "test.true") ==
              (!IsConditionTrue(SetUpRegistry(), vars, "test.true2") && IsConditionTrue(SetUpRegistry(), vars, "test.true"))
  {
    NegationBindsToLeftAtom(SetUpRegistry(), vars, "test.true2", '+', "test.true");
  }

  /** With `TEST` set, or-ing the two true conditions is true and exclusive-or-ing them false. */
  lemma DisjunctionsSet(vars: Variables)
    requires vars == map["TEST" := "true"]
    ensures IsConditionTrue(SetUpRegistry(), vars, "test.true2|test.true")
    ensures !IsConditionTrue(SetUpRegistry(), vars, "test.true2\\test.true")
  {
    OrSet(vars, "test.true2|test.true");
    XorSet(vars, "test.true2\\test.true");
  }

  lemma OrSet(vars: Variables, e: string)
    requires vars == map["TEST" := "true"] && e == "test.true2|test.true"
    ensures IsConditionTrue(SetUpRegistry(), vars, e)
  {
    JoinedExpressions();
    SetUpValues(vars);
    DisjunctionOf(vars, '|');
  }

  lemma XorSet(vars: Variables, e: string)
    requires vars == map["TEST" := "true"] && e == "test.true2\\test.true"
    ensures !IsConditionTrue(SetUpRegistry(), vars, e)
  {
    JoinedExpressions();
    SetUpValues(vars);
    DisjunctionOf(vars, '\\');
  }

  lemma DisjunctionOf(vars: Variables, op: char)
    requires op == '|' || op == '\\'
    ensures op == '|' ==>
              (IsConditionTrue(SetUpRegistry(), vars, "test.true2" + [op] + "test.true") ==
               (IsConditionTrue(SetUpRegistry(), vars, "test.true2") || IsConditionTrue(SetUpRegistry(), vars, "test.true")))
    ensures op == '\\' ==>
              (IsConditionTrue(SetUpRegistry(), vars, "test.true2" + [op] + "test.true") ==
               (IsConditionTrue(SetUpRegistry(), vars, "test.true2") != IsConditionTrue(SetUpRegistry(), vars, "test.true")))
  {
    Combination(SetUpRegistry(), vars, "test.true2", op, "test.true");
  }

  /** While `TEST` is unset the surviving negation holds, and `!` in front of it makes it false. */
  lemma NotConditionUnset()
    ensures IsConditionTrue(SetUpRegistry(), map[], "test.not.true")
    ensures !IsConditionTrue(SetUpRegistry(), map[], "!test.not.true")
  {
    SetUpValues(map[]);
    NegatedAtom(SetUpRegistry(), map[], "test.not.true");
    assert ['!'] + "test.not.true" == "!test.not.true";
  }

  /** `setUp`: the `conditions` element is assembled child by child and handed to the engine. */
  method SetUp() returns (rules: RulesEngine)
    ensures rules == RulesEngine(SetUpRegistry())
  {
    var conditionspec := Node("conditions", map[], "", []);
    conditionspec := conditionspec.(children := conditionspec.children + [VariableConditionNode("test.true", "TEST", "true")]);
    conditionspec := conditionspec.(children := conditionspec.children + [RefConditionNode("test.true2", "test.true")]);
    conditionspec := conditionspec.(children := conditionspec.children +
      [NotConditionNode("test.not.true", VariableConditionNode("test.true", "TEST", "true"))]);
    conditionspec := conditionspec.(children := conditionspec.children +
      [NotConditionNode("test.not.true", RefConditionNode("", "test.true"))]);
    SetUpLoads(conditionspec.children);
    var built := NewRulesEngine(conditionspec);
    rules := built.value;
  }

  /** `tearDown`: the variable store is emptied after each test. */
  method TearDown(idata: InstallData)
    modifies idata
    ensures idata.variables == map[]
  {
    idata.ClearVariables();
  }

  /** `testVariableCondition`, on the engine `setUp` built and an empty variable store. */
  method TestVariableCondition(rules: RulesEngine, idata: InstallData)
    requires rules == RulesEngine(SetUpRegistry()) && idata.variables == map[]
    modifies idata
    ensures idata.variables == map["TEST" := "true"]
  {
    SetUpConditionsRetrievable();
    assert rules.GetCondition("test.true").Some? && rules.GetCondition("test.true2").Some?;
    VariableConditionUnset();
    assert !rules.IsConditionTrue("test.true", idata.variables);
    assert !rules.IsConditionTrue("test.true2", idata.variables);
    idata.SetVariable("TEST", "true");
    VariableConditionSet(idata.variables);
    ConjunctionSet(idata.variables);
    NegatedConjunctionSet(idata.variables);
    DisjunctionsSet(idata.variables);
    assert rules.IsConditionTrue("test.true", idata.variables);
    assert rules.IsConditionTrue("test.true2", idata.variables);
    assert !rules.IsConditionTrue("!test.true", idata.variables);
    assert !rules.IsConditionTrue("!test.true2", idata.variables);
    assert rules.IsConditionTrue("test.true+test.true2", idata.variables);
    assert rules.IsConditionTrue("test.true2+test.true", idata.variables);
    assert !rules.IsConditionTrue("!test.true2+test.true", idata.variables);
    assert rules.IsConditionTrue("test.true2|test.true", idata.variables);
    assert !rules.IsConditionTrue("test.true2\\test.true", idata.variables);
  }

  /**
   * `testNotCondition`, on the engine `setUp` built and an empty variable
   * store: the surviving `test.not.true` is registered, holds, and `!` in
   * front of it makes it false.
   */
  method TestNotCondition(rules: RulesEngine, idata: InstallData) returns (found: bool, holds: bool, negatedHolds: bool)
    requires rules == RulesEngine(SetUpRegistry()) && idata.variables == map[]
    ensures found && holds && !negatedHolds
  {
    SetUpConditionsRetrievable();
    found := rules.GetCondition("test.not.true").Some?;
    NotConditionUnset();
    holds := rules.IsConditionTrue("test.not.true", idata.variables);
    negatedHolds := rules.IsConditionTrue("!test.not.true", idata.variables);
  }
}
