# IzPack condition engine

This project models IzPack's condition (rules) engine as `ConditionTest`
uses it. Installer configuration declares named boolean conditions, and the
installer asks the engine whether an expression over them holds for the
current installer variables. The model covers four parts:

- **Conditions** (`conditions.dfy`). There are three kinds:
  - a *variable* condition holds when a named variable has exactly the expected value;
  - a *reference* names another condition by id and is looked up when evaluated;
  - a *negation* wraps a nested condition, which may be anonymous.
- **The factory** (`factory.dfy`). It turns a configuration node (name, attributes, text, children) into a condition:
  - `variable` takes its first `name` and first `value` children;
  - `ref` takes the `refid` attribute;
  - `not` takes its single child, built recursively.

  A node, nested ones included, registers its condition when its `id` is non-empty. A malformed node gives `MissingField`, `MissingReference`, `MissingOperand` or `UnknownConditionType`.
- **The registry** (`registry.dfy`). The engine's constructor passes over the `conditions` element's children in order and builds each one. A later registration under the same id replaces the earlier one. Building stops with the error of the first node that cannot be built. `Load` is the functional definition of this pass; `BuildRegistry` is the loop that implements it.
- **The evaluator** (`expressions.dfy`) behind `isConditionTrue`:
  1. Trim the expression, as Java's `String.trim` does.
  2. Strip one leading `!`. If what remains is a registered id, evaluate that condition and negate it if a `!` was stripped.
  3. Otherwise split the trimmed expression, `!` included, at its first operator: `+` is and, `|` is or, `\` is exclusive or. Evaluate each side the same way and combine the results.
  4. Anything else, such as an unknown id, is false.

  Because the split keeps the `!`, a leading `!` binds to the left atom only.

`engine.dfy` holds the engine facade (`getCondition`, `isConditionTrue`, the constructor) and the installer's variable store, a class whose map the test mutates. `condition_test.dfy` models the test itself:

- the three node-building helpers;
- `setUp`, which assembles the `conditions` element child by child and builds the engine;
- `tearDown`, which clears the variables;
- the two test methods.

Each assertion of the test, except those at lines 115 and 119 (see "## Left out"), is a lemma about the registry that `setUp` produces.

`RulesEngineImpl` (imported at line 25 of `ConditionTest.java`) implements the evaluator and the factory; its code is not modelled. The behaviour here follows the engine's documented evaluation procedure and node shapes, and the cited test lines exercise these members and agree with them. Where a row's property goes beyond what the test checks, the row says so. In line 51, the matcher named `IS_NULL` is `notNullValue()`. So the checks at lines 116, 127 and 128 say that the condition is *present*, and `getCondition` is modelled that way.

## Model

| member | source | states |
|---|---|---|
| Conditions.ValueEquations | izpack-installer/src/test/java/com/izforge/izpack/test/ConditionTest.java:130-136 | In a registry without reference cycles: a variable condition holds iff the variable is set to exactly the expected value; a reference has its target's value, false when the target is unregistered; a negation flips its operand |
| Conditions.EvalIgnoresVisited | izpack-installer/src/test/java/com/izforge/izpack/test/ConditionTest.java:131-136 | Without cycles, the ids already visited never cut a walk short: evaluating with a visited set equals evaluating afresh |
| ConditionFactory.ChildIndex | izpack-installer/src/test/java/com/izforge/izpack/test/ConditionTest.java:91-97 | The result is the position of the first child at or after `from` with the given name; none iff no such child exists |
| ConditionFactory.Entries | izpack-installer/src/test/java/com/izforge/izpack/test/ConditionTest.java:59-62 | Every registration has a non-empty id; a node with an id registers its own condition last, after its operand's; a non-negation node without an id registers nothing |
| ConditionFactory.BuildSucceedsIffWellFormed | izpack-installer/src/test/java/com/izforge/izpack/test/ConditionTest.java:76-110 | The factory succeeds exactly on the accepted shapes: a variable node with `name` and `value` children, a ref node with `refid`, a not node with exactly one well-formed child |
| ConditionFactory.BuildErrors | izpack-installer/src/test/java/com/izforge/izpack/test/ConditionTest.java:76-110 | An unknown type gives UnknownConditionType, a variable node without `name` gives MissingField("name"), a ref node without `refid` gives MissingReference, a variable node with `name` and without `value` gives MissingField("value"), a not node without exactly one child gives MissingOperand, and a not node whose one child fails passes that child's error up (the test builds no malformed node) |
| ConditionRegistry.LastIndex | izpack-installer/src/test/java/com/izforge/izpack/test/ConditionTest.java:61-62 | The position of the last registration under the id; none iff there is none |
| ConditionRegistry.BuildRegistry | izpack-installer/src/test/java/com/izforge/izpack/test/ConditionTest.java:63 | The constructor's registration loop returns exactly `Load` of the nodes, the error of the first bad node included |
| ConditionRegistry.Register | izpack-installer/src/test/java/com/izforge/izpack/test/ConditionTest.java:61-62 | The inner loop stores a node's registrations in order, giving `Enter` of them |
| ConditionRegistry.LoadKeepsEarlyFailure | izpack-installer/src/test/java/com/izforge/izpack/test/ConditionTest.java:63 | Once a prefix fails to load, the whole list fails with the same error |
| ConditionRegistry.EnterKeepsLast | izpack-installer/src/test/java/com/izforge/izpack/test/ConditionTest.java:61-62 | After applying registrations, an id holds its last registration's condition, and ids never registered keep their old state |
| ConditionRegistry.LoadIsEnterAll | izpack-installer/src/test/java/com/izforge/izpack/test/ConditionTest.java:59-63 | A successful load is the empty registry with all registrations of all nodes applied in order |
| ConditionRegistry.LoadLastWriteWins | izpack-installer/src/test/java/com/izforge/izpack/test/ConditionTest.java:61-62 | After a load, an id is registered iff some registration used it, with the condition of the last such registration; the empty id is never registered |
| ConditionRegistry.LoadSucceedsIffAllBuild | izpack-installer/src/test/java/com/izforge/izpack/test/ConditionTest.java:63 | Loading succeeds iff every node can be built |
| ConditionRegistry.LoadFailsAtFirstBadNode | izpack-installer/src/test/java/com/izforge/izpack/test/ConditionTest.java:63 | When node k is the first that cannot be built, loading fails with node k's error |
| Expressions.Trim | izpack-installer/src/test/java/com/izforge/izpack/test/ConditionTest.java:130-148 | The result neither starts nor ends with whitespace, is no longer than the input, and an already trimmed input is unchanged (the test's expressions carry no whitespace) |
| Expressions.TrimRemovesOnlyWhitespace | izpack-installer/src/test/java/com/izforge/izpack/test/ConditionTest.java:130-148 | The input is the trimmed string with only whitespace before and after it (not exercised by the test) |
| Expressions.FindOperator | izpack-installer/src/test/java/com/izforge/izpack/test/ConditionTest.java:141-148 | The result is the first operator position at or after `from`; none iff there is no operator there |
| Expressions.RegisteredAtom | izpack-installer/src/test/java/com/izforge/izpack/test/ConditionTest.java:130-136 | Without cycles, a registered id evaluates to the value of the condition registered under it |
| Expressions.NegatedAtom | izpack-installer/src/test/java/com/izforge/izpack/test/ConditionTest.java:138-139 | `!id` for a registered id is the negation of `id` |
| Expressions.UnknownAtom | izpack-installer/src/test/java/com/izforge/izpack/test/ConditionTest.java:130-148 | An operator-free expression whose id, after trimming and stripping one `!`, is unregistered is false, not an error (not exercised by the test) |
| Expressions.BlankExpression | izpack-installer/src/test/java/com/izforge/izpack/test/ConditionTest.java:130-148 | An empty or all-whitespace expression is false (not exercised by the test) |
| Expressions.DoubleNegation | izpack-installer/src/test/java/com/izforge/izpack/test/ConditionTest.java:138-139 | Only one `!` is stripped: `!!id` is false when `!id` is not a registered id (not exercised by the test; the cited lines use a single `!`) |
| Expressions.Combination | izpack-installer/src/test/java/com/izforge/izpack/test/ConditionTest.java:141-148 | Two atoms around `+`, `\|` or `\`: the whole is the and, or, or exclusive or of the two atoms evaluated separately |
| Expressions.CombinationCommutes | izpack-installer/src/test/java/com/izforge/izpack/test/ConditionTest.java:141-142 | Swapping the two atoms around an operator does not change the result |
| Expressions.NegationBindsToLeftAtom | izpack-installer/src/test/java/com/izforge/izpack/test/ConditionTest.java:144 | `!id op right` combines the negation of `id` with `right`; the `!` does not negate the combination (line 144 agrees, but its outcome would be the same under either reading) |
| RulesEngines.RulesEngine.GetCondition | izpack-installer/src/test/java/com/izforge/izpack/test/ConditionTest.java:127-128 | A condition is returned iff the id is registered, and it is the registered one |
| RulesEngines.NewRulesEngine | izpack-installer/src/test/java/com/izforge/izpack/test/ConditionTest.java:63 | The constructor yields an engine over `Load` of the children, or the first bad node's error |
| RulesEngines.GetConditionAfterLoad | izpack-installer/src/test/java/com/izforge/izpack/test/ConditionTest.java:127-128 | After construction, `getCondition` returns the last registration under the id, and none when nothing was registered under it |
| RulesEngines.InstallData.constructor | izpack-installer/src/test/java/com/izforge/izpack/test/ConditionTest.java:46 | A new variable store is empty |
| RulesEngines.InstallData.SetVariable | izpack-installer/src/test/java/com/izforge/izpack/test/ConditionTest.java:133 | Setting a variable updates that one entry and leaves the rest |
| RulesEngines.InstallData.ClearVariables | izpack-installer/src/test/java/com/izforge/izpack/test/ConditionTest.java:71 | Clearing empties the store |
| ConditionTest.BuildsVariableNode | izpack-installer/src/test/java/com/izforge/izpack/test/ConditionTest.java:86-100 | The variable helper's node builds a variable condition on its `name`/`value` text and registers it under a non-empty id |
| ConditionTest.BuildsRefNode | izpack-installer/src/test/java/com/izforge/izpack/test/ConditionTest.java:102-110 | The ref helper's node builds a reference to its `refid` and registers it under a non-empty id |
| ConditionTest.BuildsNotNode | izpack-installer/src/test/java/com/izforge/izpack/test/ConditionTest.java:76-84 | The not helper's node builds the negation of its operand, registering the operand's entries first and then its own |
| ConditionTest.BuildInvertsConditionNode | izpack-installer/src/test/java/com/izforge/izpack/test/ConditionTest.java:76-110 | Round trip: writing any condition as helper nodes and building them gives the condition back, registered under the top-level id only |
| ConditionTest.LoadsVariableNode | izpack-installer/src/test/java/com/izforge/izpack/test/ConditionTest.java:59 | Loading one more variable node registers its condition under its id |
| ConditionTest.LoadsRefNode | izpack-installer/src/test/java/com/izforge/izpack/test/ConditionTest.java:60 | Loading one more ref node registers its reference under its id |
| ConditionTest.BuildsNegatedVariableNode | izpack-installer/src/test/java/com/izforge/izpack/test/ConditionTest.java:61 | A not node around a variable node with an id builds the negation and registers the operand, then the negation |
| ConditionTest.LoadsNegatedVariableNode | izpack-installer/src/test/java/com/izforge/izpack/test/ConditionTest.java:61 | Loading that node writes the operand's id and then the negation's id |
| ConditionTest.LoadsNegatedRegisteredVariable | izpack-installer/src/test/java/com/izforge/izpack/test/ConditionTest.java:61 | When the operand is already registered with the same condition, only the negation is new |
| ConditionTest.LoadsNegatedRefNode | izpack-installer/src/test/java/com/izforge/izpack/test/ConditionTest.java:62 | A not node around an anonymous ref registers only the negation |
| ConditionTest.LoadsLastNegatedRefNode | izpack-installer/src/test/java/com/izforge/izpack/test/ConditionTest.java:62 | A last such node replaces whatever its id held |
| ConditionTest.LoadsSetUpShape | izpack-installer/src/test/java/com/izforge/izpack/test/ConditionTest.java:59-62 | For any ids and variable, the four-node pattern of `setUp` loads to: the variable condition, the reference to it, and the second negation (the first is replaced) |
| ConditionTest.SetUpLoads | izpack-installer/src/test/java/com/izforge/izpack/test/ConditionTest.java:59-63 | The nodes of `setUp` load to `test.true` = variable TEST is "true", `test.true2` = ref to `test.true`, `test.not.true` = not of an anonymous ref to `test.true` |
| ConditionTest.SetUpRanked | izpack-installer/src/test/java/com/izforge/izpack/test/ConditionTest.java:59-62 | The registry of `setUp` has no reference cycles |
| ConditionTest.SetUpConditionsRetrievable | izpack-installer/src/test/java/com/izforge/izpack/test/ConditionTest.java:127-128 | `getCondition` finds `test.true`, `test.true2` and `test.not.true`, with the conditions registered |
| ConditionTest.SetUpValues | izpack-installer/src/test/java/com/izforge/izpack/test/ConditionTest.java:130-136 | For any variables, `test.true` and `test.true2` hold iff TEST is "true", and `test.not.true` iff it is not |
| ConditionTest.VariableConditionUnset | izpack-installer/src/test/java/com/izforge/izpack/test/ConditionTest.java:130-131 | With no variables, `test.true` and `test.true2` are false |
| ConditionTest.VariableConditionSet | izpack-installer/src/test/java/com/izforge/izpack/test/ConditionTest.java:135-139 | With TEST = "true", `test.true` and `test.true2` hold and `!test.true`, `!test.true2` are false |
| ConditionTest.ConjunctionSet | izpack-installer/src/test/java/com/izforge/izpack/test/ConditionTest.java:141-142 | With TEST = "true", `test.true+test.true2` and `test.true2+test.true` hold |
| ConditionTest.NegatedConjunctionSet | izpack-installer/src/test/java/com/izforge/izpack/test/ConditionTest.java:144 | With TEST = "true", `!test.true2+test.true` is false |
| ConditionTest.DisjunctionsSet | izpack-installer/src/test/java/com/izforge/izpack/test/ConditionTest.java:146-148 | With TEST = "true", `test.true2\|test.true` holds and `test.true2\test.true` is false |
| ConditionTest.NotConditionUnset | izpack-installer/src/test/java/com/izforge/izpack/test/ConditionTest.java:117-121 | With no variables, `test.not.true` holds and `!test.not.true` is false |
| ConditionTest.SetUp | izpack-installer/src/test/java/com/izforge/izpack/test/ConditionTest.java:53-64 | Adding the four nodes one by one and constructing the engine yields exactly the `setUp` registry |
| ConditionTest.TearDown | izpack-installer/src/test/java/com/izforge/izpack/test/ConditionTest.java:66-73 | After a test the variable store is empty |
| ConditionTest.TestVariableCondition | izpack-installer/src/test/java/com/izforge/izpack/test/ConditionTest.java:124-149 | Each check of lines 127-148 is an assertion, made on the store as it stands at that point; afterwards the store is exactly TEST = "true" |
| ConditionTest.TestNotCondition | izpack-installer/src/test/java/com/izforge/izpack/test/ConditionTest.java:112-122 | `test.not.true` is found and holds, and `!test.not.true` does not |

## Left out

- XML parsing and DOM ownership (`XMLElementImpl`, `Document`): a configuration element is the `Node` datatype, built directly.
- Java `null`: attribute values and text content are plain strings. The `type` attribute is read as absent or a string, and a missing one gives an unknown type with an empty name.
- The process-global registry behind the static `RulesEngineImpl.getCondition`: each engine holds its own registry value.
- The checks at lines 115 and 119 are left out. They expect `getCondition("test.not")` and `getCondition("!test.not.true")` to return a condition, although neither id is registered. Their results depend on the static registry and lookup rules of `RulesEngineImpl`, which are not modelled. The model's `GetCondition` only returns registered conditions.
- `GUIInstallData` and its variable substitutor: the store is only its map of variables.
- Reference cycles: the source's behaviour is undefined. The model stops a walk at an id it has already visited and gives false there; no lemma claims anything about that case, and every property about values assumes a registry without cycles.
- Chains of three or more atoms, and ids that contain operator characters. The model splits them at the first operator, as the evaluation procedure says, but states no property about them.
- Registration of nested conditions that carry an id: they are registered under that id before their parent. The test cannot observe this, because the nested `test.true` at line 61 equals the top-level one.
- A construction that fails registers nothing: the engine is not built and no partial registry is left behind. This matches a constructor that throws.
- Line 144 does not tell `(!a)+b` from `!(a+b)`: with TEST = "true" both are false. That `!` binds to the left atom comes from the evaluation procedure above, not from the test.
- The leniency on unknown ids, the trimming of whitespace, the stripping of only one `!` and the factory's error cases follow the evaluation procedure and node shapes above. The test exercises none of them.
- Conditions.ValueEquations: holds only for registries without reference cycles (a `WellRanked` rank map).
- Expressions.Combination: stated only when the left atom contains no operator character, its first character and the right side's last are not whitespace, and the joined string, less one leading `!`, is not itself a registered id.
- Expressions.NegationBindsToLeftAtom: as for Combination, with a registered left atom.
- `izpack-maven-plugin/.../IzPackNewMojoTest.java` and `GUIInstallerContainer.java` are Maven, Swing and container plumbing around the engine, and are not modelled.
