/** The condition-to-policy compiler (models/policy.py). */
module PolicyCompiler {
  import opened Text
  import opened Conditions
  import opened PolicyTree

  datatype Scheme = Ac17 | Tkn20

  /** The attribute definitions that exist, each with its list of allowed values. */
  type Definitions = map<string, seq<string>>

  /** The allowed values that remain, in their listed order. */
  function Remaining(allowed: seq<string>, excluded: seq<string>): seq<string> {
    if allowed == [] then []
    else if allowed[0] in excluded then Remaining(allowed[1..], excluded)
    else [allowed[0]] + Remaining(allowed[1..], excluded)
  }

  function Excluded(test: Test): seq<string> {
    match test
    case NotEq(x) => [x]
    case NotIn(xs) => xs
    case _ => []
  }

  /** The constants a leaf turns into; none means that the compiler writes nothing. */
  function Accepted(defs: Definitions, attr: string, test: Test): seq<string> {
    match test
    case Eq(x) => [x]
    case In(xs) => xs
    case _ => if attr in defs then Remaining(defs[attr], Excluded(test)) else []
  }

  // ---- the tree a condition denotes

  /** `((a:x or a:y) or a:z)`: a left-leaning chain over the values. */
  function OrChain(attr: string, values: seq<string>): Tree {
    if values == [] then Hole
    else
      var last := Leaf(LeafText(attr, values[|values| - 1]));
      if |values| == 1 then last else Gate(Or, OrChain(attr, values[..|values| - 1]), last)
  }

  /** `((not a:x and not a:y) and not a:z)`: the same chain over native negations. */
  function NotChain(attr: string, values: seq<string>): Tree {
    if values == [] then Hole
    else
      var last := NotLeaf(LeafText(attr, values[|values| - 1]));
      if |values| == 1 then last else Gate(And, NotChain(attr, values[..|values| - 1]), last)
  }

  function CompileLeaf(attr: string, test: Test, defs: Definitions, scheme: Scheme): Tree {
    if scheme == Tkn20 && (test.NotEq? || test.NotIn?) then NotChain(attr, Excluded(test))
    else OrChain(attr, Accepted(defs, attr, test))
  }

  function Compile(c: Cond, defs: Definitions, scheme: Scheme): Tree
    decreases c, 1
  {
    match c
    case BoolOp(op, values) => CompileChain(op, values, defs, scheme)
    case Compare(attr, test) => CompileLeaf(attr, test, defs, scheme)
    case Not(_) => Hole
  }

  function CompileChain(op: Connector, values: seq<Cond>, defs: Definitions, scheme: Scheme): Tree
    decreases values, 0
  {
    if values == [] then Hole
    else
      var last := Compile(values[|values| - 1], defs, scheme);
      if |values| == 1 then last else Gate(op, CompileChain(op, values[..|values| - 1], defs, scheme), last)
  }

  // ---- the text the program writes

  /** `_build_rabe`: the text written for a condition is the print of its tree. */
  method BuildRabe(c: Cond, defs: Definitions, scheme: Scheme) returns (res: string)
    requires WellFormed(c)
    ensures res == Print(Compile(c, defs, scheme))
    decreases c, 1
  {
    match c
    case BoolOp(op, values) =>
      res := BuildChain(op, values, defs, scheme);
    case Compare(attr, test) =>
      res := BuildLeaf(attr, test, defs, scheme);
    case Not(_) =>
      res := "";
  }

  /** The first operand, and each further one in a pair of parentheses with all before it. */
  method BuildChain(op: Connector, values: seq<Cond>, defs: Definitions, scheme: Scheme) returns (res: string)
    requires values != [] && forall i | 0 <= i < |values| :: WellFormed(values[i])
    ensures res == Print(CompileChain(op, values, defs, scheme))
    decreases values, 0
  {
    var opStr := if op == And then "and" else "or";
    res := BuildRabe(values[0], defs, scheme);
    assert values[..1] == [values[0]];
    for k := 1 to |values|
      invariant res == Print(CompileChain(op, values[..k], defs, scheme))
    {
      var child := BuildRabe(values[k], defs, scheme);
      ChainNext(op, values, k, defs, scheme);
      res := "(" + res + " " + opStr + " " + child + ")";
    }
    assert values[..|values|] == values;
  }

  method BuildLeaf(attr: string, test: Test, defs: Definitions, scheme: Scheme) returns (res: string)
    ensures res == Print(CompileLeaf(attr, test, defs, scheme))
  {
    match test
    case In(values) =>
      res := BuildOr(attr, values);
    case Eq(value) =>
      res := attr + ":" + value;
    case _ =>
      if scheme == Tkn20 {
        res := BuildNot(attr, Excluded(test));
      } else if attr !in defs {
        res := "";
      } else {
        var positive := KeepAllowed(defs[attr], Excluded(test));
        res := BuildOr(attr, positive);
      }
  }

  method BuildOr(attr: string, values: seq<string>) returns (res: string)
    ensures res == Print(OrChain(attr, values))
  {
    if |values| == 0 { return ""; }
    res := attr + ":" + values[0];
    for k := 1 to |values|
      invariant res == Print(OrChain(attr, values[..k]))
    {
      OrNext(attr, values, k);
      res := "(" + res + " or " + attr + ":" + values[k] + ")";
    }
    assert values[..|values|] == values;
  }

  method BuildNot(attr: string, values: seq<string>) returns (res: string)
    ensures res == Print(NotChain(attr, values))
  {
    if |values| == 0 { return ""; }
    res := "not " + attr + ":" + values[0];
    for k := 1 to |values|
      invariant res == Print(NotChain(attr, values[..k]))
    {
      NotNext(attr, values, k);
      res := "(" + res + " and not " + attr + ":" + values[k] + ")";
    }
    assert values[..|values|] == values;
  }

  lemma ChainNext(op: Connector, values: seq<Cond>, k: nat, defs: Definitions, scheme: Scheme)
    requires 0 < k < |values|
    ensures Print(CompileChain(op, values[..k + 1], defs, scheme)) ==
            "(" + Print(CompileChain(op, values[..k], defs, scheme)) + " " + ConnectorText(op) + " " +
            Print(Compile(values[k], defs, scheme)) + ")"
  {
    assert values[..k + 1][..k] == values[..k];
  }

  lemma OrNext(attr: string, values: seq<string>, k: nat)
    requires 0 < k < |values|
    ensures Print(OrChain(attr, values[..k + 1])) ==
            "(" + Print(OrChain(attr, values[..k])) + " or " + attr + ":" + values[k] + ")"
  {
    assert values[..k + 1][..k] == values[..k];
  }

  lemma NotNext(attr: string, values: seq<string>, k: nat)
    requires 0 < k < |values|
    ensures Print(NotChain(attr, values[..k + 1])) ==
            "(" + Print(NotChain(attr, values[..k])) + " and not " + attr + ":" + values[k] + ")"
  {
    assert values[..k + 1][..k] == values[..k];
    assert " " + "and" + " " + "not " == " and not ";
  }

  /** The comprehension `[v for v in allowed if v not in excluded]`. */
  method KeepAllowed(allowed: seq<string>, excluded: seq<string>) returns (kept: seq<string>)
    ensures kept == Remaining(allowed, excluded)
  {
    kept := [];
    for k := 0 to |allowed|
      invariant kept + Remaining(allowed[k..], excluded) == Remaining(allowed, excluded)
    {
      assert allowed[k..][1..] == allowed[k + 1..];
      if allowed[k] !in excluded { kept := kept + [allowed[k]]; }
    }
  }

  /** The text of a condition: absent or empty, no expression of Python, or one. */
  datatype Subject = Empty | Unparsable | Parsed(cond: Cond)

  /** The record `AccessPolicy`, as far as compilation goes. */
  class AccessPolicy {
    var subjectCondition: Subject
    var cpabePolicy: string

    constructor (condition: Subject)
      ensures subjectCondition == condition && cpabePolicy == ""
    {
      subjectCondition, cpabePolicy := condition, "";
    }

    /** Saving a policy recompiles its condition in place: an empty one leaves the old text, one that does not
        parse erases it. */
    method Save(defs: Definitions, scheme: Scheme)
      requires subjectCondition.Parsed? ==> WellFormed(subjectCondition.cond)
      modifies this`cpabePolicy
      ensures subjectCondition.Empty? ==> cpabePolicy == old(cpabePolicy)
      ensures subjectCondition.Unparsable? ==> cpabePolicy == ""
      ensures subjectCondition.Parsed? ==> cpabePolicy == Print(Compile(subjectCondition.cond, defs, scheme))
    {
      match subjectCondition {
        case Empty =>
        case Unparsable => cpabePolicy := "";
        case Parsed(cond) => cpabePolicy := BuildRabe(cond, defs, scheme);
      }
    }
  }

  /** The texts as they are written: attribute and value around a colon, a pair of parentheses for each connective,
      grouped to the left, and nothing for an empty list. */
  lemma WrittenLists(a: string, x: string, y: string, z: string, defs: Definitions, s: Scheme)
    ensures Print(CompileLeaf(a, Eq(x), defs, s)) == a + ":" + x && Print(CompileLeaf(a, In([]), defs, s)) == ""
    ensures Print(CompileLeaf(a, In([x, y, z]), defs, s)) ==
            "(" + ("(" + (a + ":" + x) + " or " + a + ":" + y + ")") + " or " + a + ":" + z + ")"
    ensures Print(CompileLeaf(a, NotIn([x, y]), defs, Tkn20)) ==
            "(" + ("not " + (a + ":" + x)) + " and not " + a + ":" + y + ")"
  {
    WrittenOrs(a, x, y, z);
    WrittenNots(a, x, y);
  }

  lemma WrittenOrs(a: string, x: string, y: string, z: string)
    ensures Print(OrChain(a, [x, y, z])) ==
            "(" + ("(" + (a + ":" + x) + " or " + a + ":" + y + ")") + " or " + a + ":" + z + ")"
  {
    var xs := [x, y, z];
    assert xs[..1] == [x] && xs[..1 + 1] == [x, y] && xs[..2 + 1] == xs;
    OrNext(a, xs, 1);
    OrNext(a, xs, 2);
  }

  lemma WrittenNots(a: string, x: string, y: string)
    ensures Print(NotChain(a, [x, y])) == "(" + ("not " + (a + ":" + x)) + " and not " + a + ":" + y + ")"
  {
    var ys := [x, y];
    assert ys[..1] == [x] && ys[..1 + 1] == ys;
    NotNext(a, ys, 1);
  }

  lemma WrittenGates(op: Connector, c: Cond, d: Cond, e: Cond, defs: Definitions, s: Scheme)
    ensures Print(Compile(BoolOp(op, [c, d, e]), defs, s)) ==
            "(" + ("(" + Print(Compile(c, defs, s)) + " " + (if op == And then "and" else "or") + " " +
                   Print(Compile(d, defs, s)) + ")") + " " + (if op == And then "and" else "or") + " " +
            Print(Compile(e, defs, s)) + ")"
  {
    var cs := [c, d, e];
    assert cs[..1] == [c] && cs[..2] == [c, d] && cs[..3] == cs;
    ChainNext(op, cs, 1, defs, s);
    ChainNext(op, cs, 2, defs, s);
  }

  // ---- what compilation gives

  lemma {:induction false} RemainingExact(allowed: seq<string>, excluded: seq<string>, v: string)
    ensures v in Remaining(allowed, excluded) <==> v in allowed && v !in excluded
  {
    if allowed != [] {
      RemainingExact(allowed[1..], excluded, v);
      assert v in allowed <==> v == allowed[0] || v in allowed[1..];
    }
  }

  lemma {:induction false} RemainingInOrder(a: seq<string>, b: seq<string>, excluded: seq<string>)
    ensures Remaining(a + b, excluded) == Remaining(a, excluded) + Remaining(b, excluded)
  {
    if a == [] {
      assert a + b == b;
    } else {
      assert (a + b)[1..] == a[1..] + b;
      RemainingInOrder(a[1..], b, excluded);
    }
  }

  /** The conditions the compiler can express: every leaf keeps a value, and `not` is absent. */
  predicate Compilable(c: Cond, defs: Definitions, scheme: Scheme) {
    match c
    case BoolOp(_, values) => values != [] && forall i | 0 <= i < |values| :: Compilable(values[i], defs, scheme)
    case Not(_) => false
    case Compare(attr, In(xs)) => xs != []
    case Compare(_, Eq(_)) => true
    case Compare(attr, test) =>
      if scheme == Tkn20 then test.NotEq? || Excluded(test) != []
      else attr in defs && exists v | v in defs[attr] :: v !in Excluded(test)
  }

  lemma {:induction false} ChainsComplete(attr: string, values: seq<string>)
    ensures Complete(OrChain(attr, values)) == Complete(NotChain(attr, values)) == (values != [])
    ensures Monotone(OrChain(attr, values))
  {
    if |values| > 1 { ChainsComplete(attr, values[..|values| - 1]); }
  }

  /** The compiled tree has no hole exactly when the condition is expressible. */
  lemma {:induction false} CompleteIffCompilable(c: Cond, defs: Definitions, scheme: Scheme)
    ensures Complete(Compile(c, defs, scheme)) <==> Compilable(c, defs, scheme)
    decreases c, 1
  {
    match c
    case BoolOp(op, values) => ChainCompleteIff(op, values, defs, scheme);
    case Not(_) =>
    case Compare(attr, test) =>
      ChainsComplete(attr, Accepted(defs, attr, test));
      ChainsComplete(attr, Excluded(test));
      if attr in defs && (test.NotEq? || test.NotIn?) {
        var rest := Remaining(defs[attr], Excluded(test));
        forall v ensures v in rest <==> v in defs[attr] && v !in Excluded(test) {
          RemainingExact(defs[attr], Excluded(test), v);
        }
        if rest != [] { assert rest[0] in rest; }
      }
  }

  lemma {:induction false} ChainCompleteIff(op: Connector, values: seq<Cond>, defs: Definitions, scheme: Scheme)
    ensures Complete(CompileChain(op, values, defs, scheme)) <==>
            values != [] && forall i | 0 <= i < |values| :: Compilable(values[i], defs, scheme)
    decreases values, 0
  {
    if values != [] {
      var n := |values| - 1;
      CompleteIffCompilable(values[n], defs, scheme);
      if n > 0 {
        ChainCompleteIff(op, values[..n], defs, scheme);
        assert forall i | 0 <= i < n :: values[..n][i] == values[i];
        assert forall i | 0 <= i < |values| :: i < n || values[i] == values[n];
      }
    }
  }

  /** The attributes and constants of a condition are words, and so are the allowed values. */
  predicate Wordy(c: Cond) {
    match c
    case BoolOp(_, values) => forall i | 0 <= i < |values| :: Wordy(values[i])
    case Not(operand) => Wordy(operand)
    case Compare(attr, test) => IsWord(attr) && forall v | v in TestConstants(test) :: IsWord(v)
  }

  function TestConstants(test: Test): seq<string> {
    match test
    case Eq(x) => [x]
    case NotEq(x) => [x]
    case In(xs) => xs
    case NotIn(xs) => xs
  }

  predicate WordyDefinitions(defs: Definitions) {
    forall a | a in defs :: forall v | v in defs[a] :: IsWord(v)
  }

  lemma {:induction false} ChainsWordy(attr: string, values: seq<string>)
    requires IsWord(attr) && forall v | v in values :: IsWord(v)
    ensures LeafWords(OrChain(attr, values)) && LeafWords(NotChain(attr, values))
  {
    if values != [] {
      MakeLeafWord(attr, values[|values| - 1]);
      ChainsWordy(attr, values[..|values| - 1]);
    }
  }

  /** Over words, every leaf of the compiled tree is a `name:value` pair of words. */
  lemma {:induction false} CompiledWordy(c: Cond, defs: Definitions, scheme: Scheme)
    requires Wordy(c) && WordyDefinitions(defs)
    ensures LeafWords(Compile(c, defs, scheme))
    ensures scheme == Ac17 ==> Monotone(Compile(c, defs, scheme))
    decreases c, 1
  {
    match c
    case BoolOp(op, values) => ChainWordy(op, values, defs, scheme);
    case Not(_) =>
    case Compare(attr, test) =>
      var accepted := Accepted(defs, attr, test);
      forall v | v in accepted ensures IsWord(v) {
        if test.NotEq? || test.NotIn? { RemainingExact(defs[attr], Excluded(test), v); }
      }
      ChainsWordy(attr, accepted);
      ChainsComplete(attr, accepted);
      ChainsWordy(attr, Excluded(test));
  }

  lemma {:induction false} ChainWordy(op: Connector, values: seq<Cond>, defs: Definitions, scheme: Scheme)
    requires WordyDefinitions(defs) && forall i | 0 <= i < |values| :: Wordy(values[i])
    ensures LeafWords(CompileChain(op, values, defs, scheme))
    ensures scheme == Ac17 ==> Monotone(CompileChain(op, values, defs, scheme))
    decreases values, 0
  {
    if values != [] {
      CompiledWordy(values[|values| - 1], defs, scheme);
      ChainWordy(op, values[..|values| - 1], defs, scheme);
    }
  }
}
