/** Access conditions and the interpreter that decides them (casbin_service.py). */
module Conditions {
  datatype Connector = And | Or

  /** One comparison of `r.sub.<attr>` with string constants. */
  datatype Test =
    | Eq(value: string)
    | NotEq(value: string)
    | In(values: seq<string>)
    | NotIn(values: seq<string>)

  /** The parsed condition; a BoolOp of Python's `ast` has at least two operands. */
  datatype Cond =
    | BoolOp(op: Connector, values: seq<Cond>)
    | Not(operand: Cond)
    | Compare(attr: string, test: Test)

  /** A number occurs with the text that Python prints for it. */
  datatype Scalar = Str(s: string) | Number(text: string, zero: bool) | Flag(b: bool) | Nothing

  /** A user attribute; the lists arise only when an owner's attributes are extended. */
  datatype AttrValue = One(scalar: Scalar) | Many(scalars: seq<Scalar>)

  /** The evaluation context: Python's dictionary of user attributes. */
  type User = map<string, AttrValue>

  ghost predicate WellFormed(c: Cond) {
    match c
    case BoolOp(_, values) => |values| >= 2 && forall i | 0 <= i < |values| :: WellFormed(values[i])
    case Not(operand) => WellFormed(operand)
    case Compare(_, _) => true
  }

  /** `context.get(attr)`: an absent attribute reads as Python's None. */
  function Lookup(u: User, attr: string): AttrValue {
    if attr in u then u[attr] else One(Nothing)
  }

  predicate IsOneOf(v: AttrValue, values: seq<string>) {
    exists i | 0 <= i < |values| :: v == One(Str(values[i]))
  }

  predicate Passes(v: AttrValue, test: Test) {
    match test
    case Eq(x) => v == One(Str(x))
    case NotEq(x) => v != One(Str(x))
    case In(xs) => IsOneOf(v, xs)
    case NotIn(xs) => !IsOneOf(v, xs)
  }

  /** What a condition means: conjunction, disjunction and negation, with no order of evaluation. */
  predicate Eval(c: Cond, u: User) {
    match c
    case BoolOp(And, values) => forall i | 0 <= i < |values| :: Eval(values[i], u)
    case BoolOp(Or, values) => exists i | 0 <= i < |values| :: Eval(values[i], u)
    case Not(operand) => !Eval(operand, u)
    case Compare(attr, test) => Passes(Lookup(u, attr), test)
  }

  /** `ASTEvaluator.visit`: the short-circuit loops compute the meaning of the condition. */
  method Visit(c: Cond, u: User) returns (result: bool)
    ensures result == Eval(c, u)
    decreases c
  {
    match c
    case BoolOp(And, values) =>
      for k := 0 to |values|
        invariant forall i | 0 <= i < k :: Eval(values[i], u)
      {
        var value := Visit(values[k], u);
        if !value { return false; }
      }
      return true;
    case BoolOp(Or, values) =>
      for k := 0 to |values|
        invariant forall i | 0 <= i < k :: !Eval(values[i], u)
      {
        var value := Visit(values[k], u);
        if value { return true; }
      }
      return false;
    case Not(operand) =>
      var value := Visit(operand, u);
      return !value;
    case Compare(attr, test) =>
      result := VisitCompare(Lookup(u, attr), test);
  }

  /** `visit_Compare` on a single comparison; membership scans the evaluated list. */
  method VisitCompare(left: AttrValue, test: Test) returns (result: bool)
    ensures result == Passes(left, test)
  {
    match test
    case Eq(x) => return left == One(Str(x));
    case NotEq(x) => return left != One(Str(x));
    case In(xs) => result := Contains(xs, left);
    case NotIn(xs) =>
      var found := Contains(xs, left);
      return !found;
  }

  method Contains(xs: seq<string>, left: AttrValue) returns (found: bool)
    ensures found == IsOneOf(left, xs)
  {
    for k := 0 to |xs|
      invariant forall i | 0 <= i < k :: left != One(Str(xs[i]))
    {
      if left == One(Str(xs[k])) { return true; }
    }
    return false;
  }

  // ---- how the operators hang together

  function Negations(values: seq<Cond>): seq<Cond> {
    seq(|values|, i requires 0 <= i < |values| => Not(values[i]))
  }

  /** `not` exchanges conjunction and disjunction, however many operands there are. */
  lemma NotMovesInwards(values: seq<Cond>, u: User)
    ensures Eval(Not(BoolOp(And, values)), u) <==> Eval(BoolOp(Or, Negations(values)), u)
    ensures Eval(Not(BoolOp(Or, values)), u) <==> Eval(BoolOp(And, Negations(values)), u)
  {
    forall i | 0 <= i < |values| ensures Eval(Negations(values)[i], u) <==> !Eval(values[i], u) {}
  }

  /** `not` turns each comparison into the opposite one. */
  lemma NotTurnsComparisons(attr: string, x: string, xs: seq<string>, u: User)
    ensures Eval(Not(Compare(attr, Eq(x))), u) <==> Eval(Compare(attr, NotEq(x)), u)
    ensures Eval(Not(Compare(attr, NotEq(x))), u) <==> Eval(Compare(attr, Eq(x)), u)
    ensures Eval(Not(Compare(attr, In(xs))), u) <==> Eval(Compare(attr, NotIn(xs)), u)
    ensures Eval(Not(Compare(attr, NotIn(xs))), u) <==> Eval(Compare(attr, In(xs)), u)
  {}

  /** An operand in front: a conjunction needs it, a disjunction is content with it. */
  lemma OperandInFront(c: Cond, rest: seq<Cond>, u: User)
    ensures Eval(BoolOp(And, []), u) && !Eval(BoolOp(Or, []), u)
    ensures Eval(BoolOp(And, [c] + rest), u) <==> Eval(c, u) && Eval(BoolOp(And, rest), u)
    ensures Eval(BoolOp(Or, [c] + rest), u) <==> Eval(c, u) || Eval(BoolOp(Or, rest), u)
  {
    var all := [c] + rest;
    assert all[0] == c && forall i | 0 <= i < |rest| :: all[i + 1] == rest[i];
    assert forall i | 0 < i < |all| :: all[i] == rest[i - 1];
  }

  /** `==` asks for that very string, `in` for `==` with some element. Without the attribute, and for a value that is
      no string, both are false, so `!=` and `not in` are true. */
  lemma ComparesStrings(attr: string, x: string, xs: seq<string>, u: User)
    ensures Eval(Compare(attr, Eq(x)), u) <==> attr in u && u[attr] == One(Str(x))
    ensures Eval(Compare(attr, In(xs)), u) <==> exists y | y in xs :: Eval(Compare(attr, Eq(y)), u)
    ensures attr !in u || !u[attr].One? || !u[attr].scalar.Str? ==>
              Eval(Compare(attr, NotEq(x)), u) && Eval(Compare(attr, NotIn(xs)), u)
  {
    forall y ensures Eval(Compare(attr, Eq(y)), u) <==> Lookup(u, attr) == One(Str(y)) {}
    assert IsOneOf(Lookup(u, attr), xs) <==> exists y | y in xs :: Lookup(u, attr) == One(Str(y));
  }

  /** The same condition without any `not`, or, if `negated`, its opposite. */
  function Positive(c: Cond, negated: bool): Cond {
    match c
    case BoolOp(op, values) =>
      BoolOp(if negated then Dual(op) else op,
             seq(|values|, i requires 0 <= i < |values| => Positive(values[i], negated)))
    case Not(operand) => Positive(operand, !negated)
    case Compare(attr, test) => Compare(attr, if negated then Opposite(test) else test)
  }

  function Dual(op: Connector): Connector {
    if op == And then Or else And
  }

  function Opposite(test: Test): Test {
    match test
    case Eq(x) => NotEq(x)
    case NotEq(x) => Eq(x)
    case In(xs) => NotIn(xs)
    case NotIn(xs) => In(xs)
  }

  predicate NotFree(c: Cond) {
    match c
    case BoolOp(_, values) => forall i | 0 <= i < |values| :: NotFree(values[i])
    case Not(_) => false
    case Compare(_, _) => true
  }

  lemma OperandsTurned(op: Connector, values: seq<Cond>, positive: seq<Cond>, negated: bool, u: User)
    requires |positive| == |values|
    requires forall i | 0 <= i < |values| :: Eval(positive[i], u) <==> (Eval(values[i], u) != negated)
    ensures Eval(BoolOp(if negated then Dual(op) else op, positive), u) <==> (Eval(BoolOp(op, values), u) != negated)
  {
    if op == And {
      if negated {
        assert Eval(BoolOp(Or, positive), u) <==> exists i | 0 <= i < |values| :: Eval(positive[i], u);
      }
    } else if negated {
      assert Eval(BoolOp(And, positive), u) <==> forall i | 0 <= i < |values| :: Eval(positive[i], u);
    }
  }

  /** Every condition can be said without `not`. */
  lemma {:induction false} PositiveMeansSame(c: Cond, negated: bool, u: User)
    ensures NotFree(Positive(c, negated)) && (WellFormed(c) ==> WellFormed(Positive(c, negated)))
    ensures Eval(Positive(c, negated), u) <==> (Eval(c, u) != negated)
  {
    match c
    case BoolOp(op, values) =>
      var positive := Positive(c, negated).values;
      forall i | 0 <= i < |values|
        ensures NotFree(Positive(values[i], negated))
        ensures WellFormed(values[i]) ==> WellFormed(Positive(values[i], negated))
        ensures Eval(positive[i], u) <==> (Eval(values[i], u) != negated)
      {
        PositiveMeansSame(values[i], negated, u);
      }
      OperandsTurned(op, values, positive, negated, u);
    case Not(operand) => PositiveMeansSame(operand, !negated, u);
    case Compare(_, _) =>
  }
}
