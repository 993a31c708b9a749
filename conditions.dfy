/**
 * The condition model: the three kinds of condition the engine knows, the
 * registry that maps condition ids to conditions, and the evaluation of a
 * condition against a snapshot of the installer's variables.
 */
module Conditions {

  /** A snapshot of the variable store: variable name to its current value. */
  type Variables = map<string, string>

  datatype Condition =
    /** True iff the variable `name` is set to exactly `expected`. */
    | Variable(name: string, expected: string)
    /** Delegates to the condition registered under `target`, looked up when evaluated. */
    | Ref(target: string)
    /** The negation of a nested condition, which need not be registered itself. */
    | Not(inner: Condition)

  /** The per-session registry: condition id to condition. */
  type Registry = map<string, Condition>

  /** The ids that `c` refers to directly (through any number of `Not`s). */
  function RefsOf(c: Condition): set<string>
  {
    match c
    case Variable(_, _) => {}
    case Ref(t) => {t}
    case Not(i) => RefsOf(i)
  }

  /**
   * Evaluates `c`. `visited` holds the ids already being resolved in this walk:
   * a reference back to one of them is a cycle and evaluates to false, as does
   * a reference to an id that is not registered.
   */
  function Eval(reg: Registry, vars: Variables, c: Condition, visited: set<string>): bool
    decreases reg.Keys - visited, c
  {
    match c
    case Variable(n, e) => n in vars && vars[n] == e
    case Ref(t) =>
      if t in reg && t !in visited then
        assert reg.Keys - (visited + {t}) < reg.Keys - visited;
        Eval(reg, vars, reg[t], visited + {t})
      else false
    case Not(i) => !Eval(reg, vars, i, visited)
  }

  /** The value of `c` at the top of an evaluation walk. */
  function Value(reg: Registry, vars: Variables, c: Condition): bool
  {
    Eval(reg, vars, c, {})
  }

  /**
   * The registry has no reference cycles: `rank` gives every registered id a
   * number larger than that of every registered id its condition refers to.
   */
  ghost predicate WellRanked(reg: Registry, rank: map<string, nat>)
  {
    && reg.Keys <= rank.Keys
    && forall id, t :: id in reg && t in RefsOf(reg[id]) && t in reg ==> rank[t] < rank[id]
  }

  /**
   * In a registry without cycles the visited set never cuts a walk short:
   * evaluating `c` with `visited` gives the same as evaluating it afresh,
   * provided every id in `visited` ranks at least as high as what `c` reaches.
   */
  lemma {:induction false} EvalIgnoresVisited(reg: Registry, rank: map<string, nat>, vars: Variables,
                                              c: Condition, visited: set<string>, bound: nat)
    requires WellRanked(reg, rank)
    requires forall t :: t in RefsOf(c) && t in reg ==> rank[t] < bound
    requires forall v :: v in visited && v in reg ==> rank[v] >= bound
    ensures Eval(reg, vars, c, visited) == Value(reg, vars, c)
    decreases bound, c
  {
    match c
    case Variable(_, _) =>
    case Ref(t) =>
      if t in reg {
        assert t in RefsOf(c);
        assert t !in visited;
        var b := rank[t];
        EvalIgnoresVisited(reg, rank, vars, reg[t], visited + {t}, b);
        EvalIgnoresVisited(reg, rank, vars, reg[t], {t}, b);
        assert Eval(reg, vars, c, visited) == Eval(reg, vars, reg[t], visited + {t});
        var none: set<string> := {};
        assert none + {t} == {t};
      }
    case Not(i) =>
      EvalIgnoresVisited(reg, rank, vars, i, visited, bound);
      EvalIgnoresVisited(reg, rank, vars, i, {}, bound);
  }

  /**
   * The evaluation rules of the three kinds of condition, in a registry
   * without cycles: a variable condition compares the variable's value, a
   * reference has the value of its target (false if the target is not
   * registered), and a negation flips its operand.
   */
  lemma ValueEquations(reg: Registry, rank: map<string, nat>, vars: Variables, c: Condition)
    requires WellRanked(reg, rank)
    ensures c.Variable? ==> (Value(reg, vars, c) <==> c.name in vars && vars[c.name] == c.expected)
    ensures c.Ref? ==> Value(reg, vars, c) == (c.target in reg && Value(reg, vars, reg[c.target]))
    ensures c.Not? ==> Value(reg, vars, c) == !Value(reg, vars, c.inner)
  {
    if c.Ref? && c.target in reg {
      var t := c.target;
      EvalIgnoresVisited(reg, rank, vars, reg[t], {t}, rank[t]);
      var none: set<string> := {};
        assert none + {t} == {t};
    }
  }
}
