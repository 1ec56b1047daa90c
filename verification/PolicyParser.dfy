/** Reading the lexed policy back as a tree.
    The grammar is the one the compiler and the grant merger write: `or` binds looser than `and`,
    both to the left, `not` applies to one attribute, and parentheses nest. */
module PolicyParser {
  import opened Text
  import opened Conditions
  import opened PolicyTree
  import opened PolicyLexer

  predicate IsKeyword(w: string) {
    w == "and" || w == "or" || w == "not"
  }

  predicate StartsWith(tokens: seq<Token>, w: string) {
    tokens != [] && tokens[0] == Word(w)
  }

  function ParseOr(tokens: seq<Token>): (r: Option<(Tree, seq<Token>)>)
    ensures r.Some? ==> |r.value.1| < |tokens|
    decreases |tokens|, 4
  {
    var first := ParseAnd(tokens);
    if first.None? then None else OrTail(first.value.0, first.value.1)
  }

  function OrTail(left: Tree, tokens: seq<Token>): (r: Option<(Tree, seq<Token>)>)
    ensures r.Some? ==> |r.value.1| <= |tokens|
    decreases |tokens|, 3
  {
    if !StartsWith(tokens, "or") then Some((left, tokens))
    else
      var next := ParseAnd(tokens[1..]);
      if next.None? then None else OrTail(Gate(Or, left, next.value.0), next.value.1)
  }

  function ParseAnd(tokens: seq<Token>): (r: Option<(Tree, seq<Token>)>)
    ensures r.Some? ==> |r.value.1| < |tokens|
    decreases |tokens|, 2
  {
    var first := ParseAtom(tokens);
    if first.None? then None else AndTail(first.value.0, first.value.1)
  }

  function AndTail(left: Tree, tokens: seq<Token>): (r: Option<(Tree, seq<Token>)>)
    ensures r.Some? ==> |r.value.1| <= |tokens|
    decreases |tokens|, 1
  {
    if !StartsWith(tokens, "and") then Some((left, tokens))
    else
      var next := ParseAtom(tokens[1..]);
      if next.None? then None else AndTail(Gate(And, left, next.value.0), next.value.1)
  }

  function ParseAtom(tokens: seq<Token>): (r: Option<(Tree, seq<Token>)>)
    ensures r.Some? ==> |r.value.1| < |tokens|
    decreases |tokens|, 0
  {
    if tokens == [] then None
    else match tokens[0]
      case Close => None
      case Open =>
        var inner := ParseOr(tokens[1..]);
        if inner.Some? && inner.value.1 != [] && inner.value.1[0] == Close
        then Some((inner.value.0, inner.value.1[1..])) else None
      case Word(w) =>
        if !IsKeyword(w) then Some((Leaf(w), tokens[1..]))
        else if w != "not" then None
        else
          var operand := ParseAtom(tokens[1..]);
          if operand.Some? && operand.value.0.Leaf?
          then Some((NotLeaf(operand.value.0.word), operand.value.1)) else None
  }

  function Parse(tokens: seq<Token>): Option<Tree> {
    var r := ParseOr(tokens);
    if r.Some? && r.value.1 == [] then Some(r.value.0) else None
  }

  // ---- round trip

  /** What may follow an operand inside a policy: its text ends, a parenthesis closes, or a gate continues. */
  predicate Follows(rest: seq<Token>) {
    rest == [] || rest[0] == Close || rest[0] == Word("and") || rest[0] == Word("or")
  }

  lemma LeafWordNotKeyword(w: string)
    requires IsLeafWord(w)
    ensures !IsKeyword(w)
  {
    var k :| 0 <= k < |w| && w[k] == ':';
    assert "and"[0] != ':' && "and"[1] != ':' && "and"[2] != ':';
    assert "or"[0] != ':' && "or"[1] != ':';
    assert "not"[0] != ':' && "not"[1] != ':' && "not"[2] != ':';
  }

  /** An atom is read back whole, and a tree with a hole is refused, in every context. */
  lemma {:induction false} ParseAtomTokens(t: Tree, rest: seq<Token>)
    requires LeafWords(t) && Follows(rest)
    ensures ParseAtom(Tokens(t) + rest) == if Complete(t) then Some((t, rest)) else None
  {
    match t
    case Hole =>
      assert Tokens(t) + rest == rest;
    case Leaf(w) =>
      LeafWordNotKeyword(w);
    case NotLeaf(w) =>
      LeafWordNotKeyword(w);
      assert (Tokens(t) + rest)[1..] == [Word(w)] + rest;
    case Gate(op, l, r) =>
      ParseAtomTokens(l, AfterLeftTokens(op, Tokens(r), rest));
      ParseAtomTokens(r, [Close] + rest);
      ParseGate(op, l, r, Tokens(l), Tokens(r), rest);
      GateTokens(t, rest);
      ParseParens(Tokens(l) + AfterLeftTokens(op, Tokens(r), rest));
      assert ([Close] + rest)[1..] == rest;
  }

  /** The tokens that follow the left operand of a gate. */
  function AfterLeftTokens(op: Connector, right: seq<Token>, rest: seq<Token>): seq<Token> {
    [Word(ConnectorText(op))] + (right + ([Close] + rest))
  }

  lemma GateTokens(t: Tree, rest: seq<Token>)
    requires t.Gate?
    ensures Tokens(t) + rest == [Open] + (Tokens(t.left) + AfterLeftTokens(t.op, Tokens(t.right), rest))
  {}

  lemma ParseParens(inner: seq<Token>)
    ensures var r := ParseOr(inner);
            ParseAtom([Open] + inner) ==
            if r.Some? && r.value.1 != [] && r.value.1[0] == Close then Some((r.value.0, r.value.1[1..])) else None
  {
    assert ([Open] + inner)[1..] == inner;
  }

  /** Inside the parentheses of a gate exactly one connective is met at this depth. */
  lemma ParseGate(op: Connector, l: Tree, r: Tree, left: seq<Token>, right: seq<Token>, rest: seq<Token>)
    requires ParseAtom(left + AfterLeftTokens(op, right, rest)) ==
             if Complete(l) then Some((l, AfterLeftTokens(op, right, rest))) else None
    requires ParseAtom(right + ([Close] + rest)) == if Complete(r) then Some((r, [Close] + rest)) else None
    ensures ParseOr(left + AfterLeftTokens(op, right, rest)) ==
            if Complete(l) && Complete(r) then Some((Gate(op, l, r), [Close] + rest)) else None
  {
    var close := [Close] + rest;
    var middle := AfterLeftTokens(op, right, rest);
    assert middle[1..] == right + close;
    if !Complete(l) {
      assert ParseAnd(left + middle) == None;
    } else if op == And {
      assert AndTail(l, middle) == if Complete(r) then AndTail(Gate(And, l, r), close) else None;
      assert ParseAnd(left + middle) == if Complete(r) then Some((Gate(And, l, r), close)) else None;
    } else {
      assert ParseAnd(left + middle) == Some((l, middle));
      assert ParseAnd(right + close) == if Complete(r) then AndTail(r, close) else None;
      assert OrTail(l, middle) == if Complete(r) then OrTail(Gate(Or, l, r), close) else None;
    }
  }

  /** Reading the tokens of a tree gives that tree, and fails exactly when the tree has a hole. */
  lemma ParseTokens(t: Tree)
    requires LeafWords(t)
    ensures Parse(Tokens(t)) == if Complete(t) then Some(t) else None
  {
    ParseAtomTokens(t, []);
    assert Tokens(t) + [] == Tokens(t);
    assert ParseAnd(Tokens(t)) == if Complete(t) then AndTail(t, []) else None;
    assert ParseOr(Tokens(t)) == if Complete(t) then OrTail(t, []) else None;
  }

  /** Print, lex, parse: for trees of any depth the three compose to the identity. */
  lemma PrintLexParse(t: Tree)
    requires LeafWords(t)
    ensures Lex(Print(t)) == Tokens(t)
    ensures Parse(Lex(Print(t))) == if Complete(t) then Some(t) else None
  {
    LexPrint(t);
    ParseTokens(t);
  }

  /** Distinct policies have distinct texts. */
  lemma PrintInjective(s: Tree, t: Tree)
    requires LeafWords(s) && LeafWords(t) && Complete(s) && Complete(t)
    requires Print(s) == Print(t)
    ensures s == t
  {
    PrintLexParse(s);
    PrintLexParse(t);
  }
}
