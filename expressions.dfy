/**
 * The expression evaluator behind `isConditionTrue`: an expression is a
 * condition id with an optional leading `!`, or two such atoms joined by
 * `+` (and), `|` (or) or `\` (exclusive or). Unknown ids evaluate to false;
 * evaluation never fails.
 */
module Expressions {
  import opened Wrappers
  import opened Conditions

  /** The characters Java's `String.trim` removes: every code point up to the space. */
  predicate IsWhitespace(ch: char)
  {
    ch <= ' '
  }

  /** Neither the first nor the last character is whitespace. */
  predicate IsTrimmed(s: string)
  {
    s == [] || (!IsWhitespace(s[0]) && !IsWhitespace(s[|s| - 1]))
  }

  /** `s` without leading and trailing whitespace, as Java's `String.trim`. */
  function Trim(s: string): (r: string)
    ensures |r| <= |s| && IsTrimmed(r)
    ensures IsTrimmed(s) ==> r == s
    decreases |s|
  {
    if s != [] && IsWhitespace(s[0]) then Trim(s[1..])
    else if s != [] && IsWhitespace(s[|s| - 1]) then Trim(s[..|s| - 1])
    else s
  }

  predicate AllWhitespace(s: string)
  {
    forall k :: 0 <= k < |s| ==> IsWhitespace(s[k])
  }

  /** Trimming removes whitespace only: `s` is the trimmed string with whitespace on either side. */
  lemma TrimRemovesOnlyWhitespace(s: string)
    ensures exists lead, trail :: s == lead + Trim(s) + trail && AllWhitespace(lead) && AllWhitespace(trail)
  {
    var lead, trail := TrimSplit(s);
  }

  /** The whitespace `Trim` removes in front of and behind the result. */
  lemma {:induction false} TrimSplit(s: string) returns (lead: string, trail: string)
    ensures s == lead + Trim(s) + trail && AllWhitespace(lead) && AllWhitespace(trail)
    decreases |s|
  {
    var r := Trim(s);
    if s != [] && IsWhitespace(s[0]) {
      var l, t := TrimSplit(s[1..]);
      lead := WhitespaceBefore(s[0], s[1..], l, r, t);
      trail := t;
      assert s == [s[0]] + s[1..];
    } else if s != [] && IsWhitespace(s[|s| - 1]) {
      var l, t := TrimSplit(s[..|s| - 1]);
      lead := l;
      trail := WhitespaceAfter(s[..|s| - 1], s[|s| - 1], l, r, t);
      assert s == s[..|s| - 1] + [s[|s| - 1]];
    } else {
      lead, trail := [], [];
      assert r == s;
      assert s == lead + r + trail;
    }
  }

  lemma WhitespaceBefore(c: char, t: string, lead: string, r: string, trail: string) returns (lead': string)
    requires IsWhitespace(c) && AllWhitespace(lead)
    requires t == lead + r + trail
    ensures [c] + t == lead' + r + trail && AllWhitespace(lead')
  {
    lead' := [c] + lead;
    assert [c] + t == lead' + r + trail;
  }

  lemma WhitespaceAfter(t: string, c: char, lead: string, r: string, trail: string) returns (trail': string)
    requires IsWhitespace(c) && AllWhitespace(trail)
    requires t == lead + r + trail
    ensures t + [c] == lead + r + trail' && AllWhitespace(trail')
  {
    trail' := trail + [c];
    assert t + [c] == lead + r + trail';
  }

  /** The binary operators: `+` is and, `|` is or, `\` is exclusive or. */
  predicate IsOperator(ch: char)
  {
    ch == '+' || ch == '|' || ch == '\\'
  }

  predicate HasNoOperator(s: string)
  {
    forall k :: 0 <= k < |s| ==> !IsOperator(s[k])
  }

  /** The position of the first operator character at or after `from`. */
  function FindOperator(s: string, from: nat): (r: Option<nat>)
    requires from <= |s|
    ensures r.Some? ==> from <= r.value < |s| && IsOperator(s[r.value])
    ensures r.Some? ==> forall k :: from <= k < r.value ==> !IsOperator(s[k])
    ensures r.None? <==> forall k :: from <= k < |s| ==> !IsOperator(s[k])
    decreases |s| - from
  {
    if from == |s| then None
    else if IsOperator(s[from]) then Some(from)
    else FindOperator(s, from + 1)
  }

  /** `e` without one leading `!`, if it has one. */
  function StripNegation(e: string): string
  {
    if |e| > 0 && e[0] == '!' then e[1..] else e
  }

  /** The truth rule of a binary operator. */
  function Combine(op: char, left: bool, right: bool): bool
    requires IsOperator(op)
  {
    if op == '+' then left && right
    else if op == '|' then left || right
    else left != right
  }

  /**
   * `isConditionTrue`. After trimming, one leading `!` is stripped; if what
   * remains is a registered id, that condition is evaluated (and negated if a
   * `!` was stripped). Otherwise the trimmed expression, `!` included, is
   * split at its first operator character and both sides are evaluated the
   * same way. Anything else is false.
   */
  function IsConditionTrue(reg: Registry, vars: Variables, expression: string): bool
    decreases |expression|
  {
    var e := Trim(expression);
    var id := StripNegation(e);
    if id in reg then
      var negated := |e| > 0 && e[0] == '!';
      var holds := Value(reg, vars, Ref(id));
      if negated then !holds else holds
    else
      match FindOperator(e, 0)
      case None => false
      case Some(i) =>
        Combine(e[i], IsConditionTrue(reg, vars, e[..i]), IsConditionTrue(reg, vars, e[i + 1..]))
  }

  /** An id as written in an expression: no surrounding whitespace and no leading `!`. */
  predicate IsPlainId(id: string)
  {
    IsTrimmed(id) && (id == [] || id[0] != '!')
  }

  /** A registered id, written on its own, evaluates like an anonymous reference to it. */
  lemma AtomIsReference(reg: Registry, vars: Variables, id: string)
    requires id in reg && IsPlainId(id)
    ensures IsConditionTrue(reg, vars, id) == Value(reg, vars, Ref(id))
  {
    assert Trim(id) == id;
    assert StripNegation(id) == id;
  }

  /** In a registry without cycles, a registered id evaluates to its condition's value. */
  lemma RegisteredAtom(reg: Registry, rank: map<string, nat>, vars: Variables, id: string)
    requires WellRanked(reg, rank)
    requires id in reg && IsPlainId(id)
    ensures IsConditionTrue(reg, vars, id) == Value(reg, vars, reg[id])
  {
    AtomIsReference(reg, vars, id);
    ValueEquations(reg, rank, vars, Ref(id));
  }

  /** A single leading `!` negates a registered id. */
  lemma NegatedAtom(reg: Registry, vars: Variables, id: string)
    requires id in reg && IsPlainId(id)
    ensures IsConditionTrue(reg, vars, ['!'] + id) == !IsConditionTrue(reg, vars, id)
  {
    var e := ['!'] + id;
    assert IsTrimmed(e);
    assert StripNegation(e) == id;
  }

  /**
   * Leniency: an expression without operators whose id is not registered is
   * false, with or without a leading `!`.
   */
  lemma UnknownAtom(reg: Registry, vars: Variables, expression: string)
    requires HasNoOperator(expression)
    requires StripNegation(Trim(expression)) !in reg
    ensures !IsConditionTrue(reg, vars, expression)
  {
    TrimKeepsNoOperator(expression);
  }

  /** An empty or all-whitespace expression is false (the empty id is never registered). */
  lemma BlankExpression(reg: Registry, vars: Variables, expression: string)
    requires AllWhitespace(expression) && "" !in reg
    ensures !IsConditionTrue(reg, vars, expression)
  {
    var lead, trail := TrimSplit(expression);
    WhitespaceInside(lead, Trim(expression), trail);
  }

  lemma WhitespaceInside(lead: string, r: string, trail: string)
    requires AllWhitespace(lead + r + trail)
    ensures AllWhitespace(r)
  {
    assert forall k :: 0 <= k < |r| ==> r[k] == (lead + r + trail)[|lead| + k];
  }

  /** Only one `!` is stripped: `!!id` looks up `!id`, which is unknown, so it is false. */
  lemma DoubleNegation(reg: Registry, vars: Variables, id: string)
    requires HasNoOperator(id) && (id == [] || !IsWhitespace(id[|id| - 1]))
    requires ['!'] + id !in reg
    ensures !IsConditionTrue(reg, vars, ['!', '!'] + id)
  {
    var e := ['!', '!'] + id;
    assert IsTrimmed(e);
    assert StripNegation(e) == ['!'] + id;
    assert HasNoOperator(e) by {
      assert forall k :: 2 <= k < |e| ==> e[k] == id[k - 2];
    }
    UnknownAtom(reg, vars, e);
  }

  lemma {:induction false} TrimKeepsNoOperator(s: string)
    requires HasNoOperator(s)
    ensures HasNoOperator(Trim(s))
    decreases |s|
  {
    if s != [] && IsWhitespace(s[0]) {
      TrimKeepsNoOperator(s[1..]);
    } else if s != [] && IsWhitespace(s[|s| - 1]) {
      TrimKeepsNoOperator(s[..|s| - 1]);
    }
  }

  /**
   * Two atoms joined by an operator: the left atom holds no operator, so the
   * split is at `op`, and the whole is not itself a registered id. Each side
   * is evaluated on its own, with its own optional `!`, and the results are
   * combined by the operator's truth rule.
   */
  lemma Combination(reg: Registry, vars: Variables, left: string, op: char, right: string)
    requires IsOperator(op) && HasNoOperator(left)
    requires left == [] || !IsWhitespace(left[0])
    requires right == [] || !IsWhitespace(right[|right| - 1])
    requires StripNegation(left + [op] + right) !in reg
    ensures op == '+' ==>
              IsConditionTrue(reg, vars, left + [op] + right) == (IsConditionTrue(reg, vars, left) && IsConditionTrue(reg, vars, right))
    ensures op == '|' ==>
              IsConditionTrue(reg, vars, left + [op] + right) == (IsConditionTrue(reg, vars, left) || IsConditionTrue(reg, vars, right))
    ensures op == '\\' ==>
              IsConditionTrue(reg, vars, left + [op] + right) == (IsConditionTrue(reg, vars, left) != IsConditionTrue(reg, vars, right))
  {
    JoinedIsTrimmed(left, op, right);
    OperatorAfterPlainPrefix(left, op, right);
    JoinedPieces(left, op, right);
    SplitAtOperator(reg, vars, left + [op] + right, |left|);
  }

  lemma JoinedIsTrimmed(left: string, op: char, right: string)
    requires IsOperator(op)
    requires left == [] || !IsWhitespace(left[0])
    requires right == [] || !IsWhitespace(right[|right| - 1])
    ensures IsTrimmed(left + [op] + right)
  {
  }

  lemma JoinedPieces(left: string, op: char, right: string)
    ensures (left + [op] + right)[..|left|] == left
    ensures (left + [op] + right)[|left|] == op
    ensures (left + [op] + right)[|left| + 1..] == right
  {
    var e := left + [op] + right;
    assert e[..|left|] == left;
    assert e[|left| + 1..] == right;
  }

  /** The first operator of `left + [op] + right`, when `left` holds none, is `op`. */
  lemma OperatorAfterPlainPrefix(left: string, op: char, right: string)
    requires IsOperator(op) && HasNoOperator(left)
    ensures FindOperator(left + [op] + right, 0) == Some(|left|)
  {
    var e := left + [op] + right;
    assert e[|left|] == op;
  }

  /** How a trimmed, unregistered expression with an operator at `i` evaluates. */
  lemma SplitAtOperator(reg: Registry, vars: Variables, e: string, i: nat)
    requires IsTrimmed(e) && StripNegation(e) !in reg
    requires FindOperator(e, 0) == Some(i)
    ensures IsConditionTrue(reg, vars, e) == Combine(e[i], IsConditionTrue(reg, vars, e[..i]), IsConditionTrue(reg, vars, e[i + 1..]))
  {
    assert Trim(e) == e;
  }

  /** Joining two plain atoms, the order of the operands does not matter. */
  lemma CombinationCommutes(reg: Registry, vars: Variables, a: string, op: char, b: string)
    requires IsOperator(op) && HasNoOperator(a) && HasNoOperator(b)
    requires IsTrimmed(a) && IsTrimmed(b)
    requires StripNegation(a + [op] + b) !in reg && StripNegation(b + [op] + a) !in reg
    ensures IsConditionTrue(reg, vars, a + [op] + b) == IsConditionTrue(reg, vars, b + [op] + a)
  {
    Combination(reg, vars, a, op, b);
    Combination(reg, vars, b, op, a);
  }

  /**
   * A leading `!` binds to the left atom only, not to the combination:
   * `!id op right` combines the negation of `id` with `right`.
   */
  lemma NegationBindsToLeftAtom(reg: Registry, vars: Variables, id: string, op: char, right: string)
    requires id in reg && IsPlainId(id) && HasNoOperator(id)
    requires IsOperator(op)
    requires right == [] || !IsWhitespace(right[|right| - 1])
    requires id + [op] + right !in reg
    ensures op == '+' ==>
              IsConditionTrue(reg, vars, ['!'] + id + [op] + right) == (!IsConditionTrue(reg, vars, id) && IsConditionTrue(reg, vars, right))
    ensures op == '|' ==>
              IsConditionTrue(reg, vars, ['!'] + id + [op] + right) == (!IsConditionTrue(reg, vars, id) || IsConditionTrue(reg, vars, right))
    ensures op == '\\' ==>
              IsConditionTrue(reg, vars, ['!'] + id + [op] + right) == (!IsConditionTrue(reg, vars, id) != IsConditionTrue(reg, vars, right))
  {
    NegatedPieces(id, op, right);
    Combination(reg, vars, ['!'] + id, op, right);
    NegatedAtom(reg, vars, id);
  }

  lemma NegatedPieces(id: string, op: char, right: string)
    requires HasNoOperator(id)
    ensures HasNoOperator(['!'] + id)
    ensures StripNegation(['!'] + id + [op] + right) == id + [op] + right
  {
    var left := ['!'] + id;
    assert forall k :: 1 <= k < |left| ==> left[k] == id[k - 1];
    assert (left + [op] + right)[1..] == id + [op] + right;
  }
}
