/** The visual policy builder: its rule tree, the condition it prints (policy-builder.js), and the tree
    the server reads back from the condition (views/policy.py). */
module VisualBuilder {
  import opened Text
  import opened Conditions
  import opened ConditionText

  datatype Node =
    | Group(connector: Connector, children: seq<Node>)
    | Rule(attr: string, test: Test)

  function ConnectorWord(op: Connector): string {
    if op == And then "and" else "or"
  }

  function Quote(value: string): string {
    "'" + value + "'"
  }

  function QuoteAll(values: seq<string>): seq<string> {
    seq(|values|, i requires 0 <= i < |values| => Quote(values[i]))
  }

  function TestText(test: Test): string {
    match test
    case Eq(v) => "== " + Quote(v)
    case NotEq(v) => "!= " + Quote(v)
    case In(vs) => "in [" + Join(QuoteAll(vs), ", ") + "]"
    case NotIn(vs) => "not in [" + Join(QuoteAll(vs), ", ") + "]"
  }

  /** A rule whose list has no value checked prints nothing. */
  predicate HasValue(test: Test) {
    match test
    case In(vs) => vs != []
    case NotIn(vs) => vs != []
    case _ => true
  }

  // ---- printing

  function PrintGroup(op: Connector, children: seq<Node>): string
    decreases children, 1
  {
    Join(Parts(children), " " + ConnectorWord(op) + " ")
  }

  function Parts(children: seq<Node>): seq<string>
    decreases children, 0
  {
    if children == [] then [] else Parts(children[..|children| - 1]) + Part(children[|children| - 1])
  }

  function Part(child: Node): seq<string>
    decreases child, 1
  {
    match child
    case Group(op, children) =>
      var text := PrintGroup(op, children);
      if text == "" then [] else ["(" + text + ")"]
    case Rule(attr, test) =>
      if HasValue(test) then ["r.sub." + attr + " " + TestText(test)] else []
  }

  /** `buildConditionFromGroup`: a recursion that pushes onto `parts` while it visits the children. */
  method BuildCondition(op: Connector, children: seq<Node>) returns (text: string)
    ensures text == PrintGroup(op, children)
    decreases children
  {
    var parts: seq<string> := [];
    for k := 0 to |children|
      invariant parts == Parts(children[..k])
    {
      assert children[..k + 1][..k] == children[..k];
      match children[k] {
        case Group(childOp, grandchildren) =>
          var sub := BuildCondition(childOp, grandchildren);
          if sub != "" { parts := parts + ["(" + sub + ")"]; }
        case Rule(attr, test) =>
          if HasValue(test) { parts := parts + ["r.sub." + attr + " " + TestText(test)]; }
      }
    }
    assert children[..|children|] == children;
    text := Join(parts, " " + ConnectorWord(op) + " ");
  }

  // ---- reading back

  /** `_ast_to_json`: what is neither a connective nor a comparison is left out. */
  function ToJson(c: Cond): Option<Node> {
    match c
    case BoolOp(op, values) => Some(Group(op, AllToJson(values)))
    case Compare(attr, test) => Some(Rule(attr, test))
    case Not(_) => None
  }

  function AllToJson(values: seq<Cond>): seq<Node> {
    if values == [] then []
    else
      var first := ToJson(values[0]);
      (if first.Some? then [first.value] else []) + AllToJson(values[1..])
  }

  /** A lone rule at the root is wrapped in a group. */
  function WrapRoot(n: Node): Node {
    if n.Rule? then Group(And, [n]) else n
  }

  /** `parse_ast`: from the text of a condition to the tree shown in the builder. */
  function Reload(text: string): Option<Node> {
    var c := ParseCondition(text);
    if c.None? then None
    else
      var n := ToJson(c.value);
      if n.None? then None else Some(WrapRoot(n.value))
  }

  // ---- what a tree means

  /** Something in the tree prints. */
  predicate Live(n: Node) {
    match n
    case Rule(_, test) => HasValue(test)
    case Group(_, children) => exists i | 0 <= i < |children| :: Live(children[i])
  }

  /** "Match ALL / ANY of the following": the children that print. */
  predicate Meaning(n: Node, u: User) {
    match n
    case Rule(attr, test) => Passes(Lookup(u, attr), test)
    case Group(And, children) => forall i | 0 <= i < |children| && Live(children[i]) :: Meaning(children[i], u)
    case Group(Or, children) => exists i | 0 <= i < |children| && Live(children[i]) :: Meaning(children[i], u)
  }

  /** The trees whose names and values can be written down. */
  predicate Printable(n: Node) {
    match n
    case Rule(attr, test) => IsAttribute(attr) && PrintableTest(test)
    case Group(_, children) => forall i | 0 <= i < |children| :: Printable(children[i])
  }

  predicate PrintableTest(test: Test) {
    match test
    case Eq(v) => IsValue(v)
    case NotEq(v) => IsValue(v)
    case In(vs) => forall i | 0 <= i < |vs| :: IsValue(vs[i])
    case NotIn(vs) => forall i | 0 <= i < |vs| :: IsValue(vs[i])
  }

  /** Every group has a child and every rule prints. */
  predicate Full(n: Node) {
    match n
    case Rule(_, test) => HasValue(test)
    case Group(_, children) => children != [] && forall i | 0 <= i < |children| :: Full(children[i])
  }

  /** The tree without the children that print nothing. */
  function Prune(n: Node): Node {
    match n
    case Rule(_, _) => n
    case Group(op, children) => Group(op, PruneAll(children))
  }

  function PruneAll(children: seq<Node>): seq<Node> {
    if children == [] then []
    else
      var last := children[|children| - 1];
      PruneAll(children[..|children| - 1]) + (if Live(last) then [Prune(last)] else [])
  }

  /** The condition a full tree denotes; a group of one is its only child. */
  function CondOf(n: Node): Cond
    requires Full(n)
    decreases n, 1
  {
    match n
    case Rule(attr, test) => Compare(attr, test)
    case Group(op, children) => Combine(op, CondOf(children[0]), CondsOf(children[1..]))
  }

  function CondsOf(children: seq<Node>): seq<Cond>
    requires forall i | 0 <= i < |children| :: Full(children[i])
    decreases children, 0
  {
    if children == [] then [] else [CondOf(children[0])] + CondsOf(children[1..])
  }

  // ---- pruning changes neither the text nor the meaning

  lemma {:induction false} PruneFull(n: Node)
    requires Live(n) && Printable(n)
    ensures Full(Prune(n)) && Printable(Prune(n))
    decreases n, 1
  {
    match n
    case Group(_, children) =>
      PruneAllFull(children);
    case _ =>
  }

  lemma {:induction false} PruneAllFull(children: seq<Node>)
    requires forall i | 0 <= i < |children| :: Printable(children[i])
    ensures forall i | 0 <= i < |PruneAll(children)| :: Full(PruneAll(children)[i]) && Printable(PruneAll(children)[i])
    ensures PruneAll(children) != [] <==> exists i | 0 <= i < |children| :: Live(children[i])
    decreases children, 0
  {
    if children != [] {
      var n := |children| - 1;
      PruneAllFull(children[..n]);
      assert forall i | 0 <= i < n :: children[..n][i] == children[i];
      assert forall i | 0 <= i < |children| :: i < n || children[i] == children[n];
      if Live(children[n]) { PruneFull(children[n]); }
    }
  }

  /** A part of a group's text is never empty, so the text is empty only without live children. */
  lemma {:induction false} PrunePart(child: Node)
    ensures Part(child) == if Live(child) then Part(Prune(child)) else []
    ensures Live(child) ==> |Part(child)| == 1 && Part(child)[0] != ""
    decreases child, 1
  {
    match child
    case Group(op, children) =>
      PruneParts(children);
      var sep := " " + ConnectorWord(op) + " ";
      if Parts(children) != [] { JoinNonEmpty(Parts(children), sep); }
    case _ =>
  }

  lemma {:induction false} PruneParts(children: seq<Node>)
    ensures Parts(children) == Parts(PruneAll(children))
    ensures Parts(children) != [] <==> exists i | 0 <= i < |children| :: Live(children[i])
    ensures forall i | 0 <= i < |Parts(children)| :: Parts(children)[i] != ""
    decreases children, 0
  {
    if children != [] {
      var n := |children| - 1;
      PruneParts(children[..n]);
      PrunePart(children[n]);
      LiveSplit(children);
      PrunePartsLast(children);
    }
  }

  lemma LiveSplit(children: seq<Node>)
    requires children != []
    ensures var n := |children| - 1;
            (exists i | 0 <= i < |children| :: Live(children[i])) <==>
            Live(children[n]) || exists i | 0 <= i < |children[..n]| :: Live(children[..n][i])
  {
    var n := |children| - 1;
    assert forall i | 0 <= i < n :: children[..n][i] == children[i];
    assert forall i | 0 <= i < |children| :: i < n || children[i] == children[n];
  }

  lemma PrunePartsLast(children: seq<Node>)
    requires children != []
    requires var n := |children| - 1;
             Parts(children[..n]) == Parts(PruneAll(children[..n])) &&
             Part(children[n]) == if Live(children[n]) then Part(Prune(children[n])) else []
    ensures Parts(children) == Parts(PruneAll(children))
  {
    var n := |children| - 1;
    var front := PruneAll(children[..n]);
    if Live(children[n]) {
      PartsLast(front, Prune(children[n]));
    } else {
      assert PruneAll(children) == front + [] == front;
      assert Parts(children) == Parts(children[..n]) + [] == Parts(children[..n]);
    }
  }

  lemma PartsLast(front: seq<Node>, last: Node)
    ensures Parts(front + [last]) == Parts(front) + Part(last)
  {
    assert (front + [last])[..|front|] == front;
  }

  lemma JoinNonEmpty(parts: seq<string>, sep: string)
    requires parts != [] && parts[0] != ""
    ensures Join(parts, sep) != ""
  {}

  lemma {:induction false} PruneMeaning(n: Node, u: User)
    requires Live(n)
    ensures Full(Prune(n)) ==> (Eval(CondOf(Prune(n)), u) <==> Meaning(n, u))
    decreases n, 1
  {
    match n
    case Group(op, children) =>
      if Full(Prune(n)) {
        PruneAllMeaning(children, u);
        CombineMeaning(op, PruneAll(children), u);
      }
    case _ =>
  }

  lemma {:induction false} PruneAllMeaning(children: seq<Node>, u: User)
    requires forall i | 0 <= i < |PruneAll(children)| :: Full(PruneAll(children)[i])
    ensures (forall i | 0 <= i < |PruneAll(children)| :: Eval(CondOf(PruneAll(children)[i]), u)) <==>
            forall i | 0 <= i < |children| && Live(children[i]) :: Meaning(children[i], u)
    ensures (exists i | 0 <= i < |PruneAll(children)| :: Eval(CondOf(PruneAll(children)[i]), u)) <==>
            exists i | 0 <= i < |children| && Live(children[i]) :: Meaning(children[i], u)
    decreases children, 0
  {
    if children != [] {
      var n := |children| - 1;
      var front, all := PruneAll(children[..n]), PruneAll(children);
      assert forall i | 0 <= i < |front| :: all[i] == front[i];
      PruneAllMeaning(children[..n], u);
      assert forall i | 0 <= i < n :: children[..n][i] == children[i];
      assert forall i | 0 <= i < |children| :: i < n || children[i] == children[n];
      if Live(children[n]) {
        assert all[|front|] == Prune(children[n]);
        PruneMeaning(children[n], u);
        assert forall i | 0 <= i < |all| :: i < |front| || all[i] == Prune(children[n]);
      } else {
        assert all == front;
      }
    }
  }

  lemma {:induction false} CondsOfIndex(children: seq<Node>)
    requires forall i | 0 <= i < |children| :: Full(children[i])
    ensures |CondsOf(children)| == |children|
    ensures forall i | 0 <= i < |children| :: CondsOf(children)[i] == CondOf(children[i])
  {
    if children != [] { CondsOfIndex(children[1..]); }
  }

  lemma CombineMeaning(op: Connector, children: seq<Node>, u: User)
    requires children != [] && forall i | 0 <= i < |children| :: Full(children[i])
    ensures Eval(CondOf(Group(op, children)), u) <==>
            if op == And then forall i | 0 <= i < |children| :: Eval(CondOf(children[i]), u)
            else exists i | 0 <= i < |children| :: Eval(CondOf(children[i]), u)
  {
    CondsOfIndex(children[1..]);
    var conds := [CondOf(children[0])] + CondsOf(children[1..]);
    assert forall i | 0 <= i < |children| :: conds[i] == CondOf(children[i]);
    if |children| > 1 {
      assert CondOf(Group(op, children)) == BoolOp(op, conds);
    }
  }

  // ---- the text of a full tree and its tokens

  /** The tokens of a child inside its group. */
  function AtomTokens(n: Node): seq<PyToken>
    requires Full(n)
    decreases n, 1
  {
    match n
    case Rule(attr, test) => [Name("r"), Dot, Name("sub"), Dot, Name(attr)] + TestTokens(test)
    case Group(op, children) => [LParen] + (AtomTokens(children[0]) + TailTokens(op, children[1..])) + [RParen]
  }

  function TailTokens(op: Connector, children: seq<Node>): seq<PyToken>
    requires forall i | 0 <= i < |children| :: Full(children[i])
    decreases children, 0
  {
    if children == [] then []
    else [Name(ConnectorWord(op))] + (AtomTokens(children[0]) + TailTokens(op, children[1..]))
  }

  function TestTokens(test: Test): seq<PyToken> {
    match test
    case Eq(v) => [IsEqual, Quoted(v)]
    case NotEq(v) => [IsUnequal, Quoted(v)]
    case In(vs) => [Name("in"), LBracket] + ElementTokens(vs)
    case NotIn(vs) => [Name("not"), Name("in"), LBracket] + ElementTokens(vs)
  }

  function ElementTokens(vs: seq<string>): seq<PyToken> {
    if vs == [] then [RBracket]
    else if |vs| == 1 then [Quoted(vs[0]), RBracket]
    else [Quoted(vs[0]), Comma] + ElementTokens(vs[1..])
  }

  /** What the children after the first add to the text. */
  function TailText(op: Connector, children: seq<Node>): string
    requires forall i | 0 <= i < |children| :: Full(children[i])
  {
    if children == [] then ""
    else " " + (ConnectorWord(op) + (" " + (AtomText(children[0]) + TailText(op, children[1..]))))
  }

  function AtomText(n: Node): string
    requires Full(n)
  {
    FullPart(n);
    Part(n)[0]
  }

  lemma {:induction false} FullPart(n: Node)
    requires Full(n)
    ensures |Part(n)| == 1 && Part(n)[0] != ""
  {
    FullLive(n);
    PrunePart(n);
  }

  lemma {:induction false} FullLive(n: Node)
    requires Full(n)
    ensures Live(n)
  {
    match n
    case Group(_, children) => FullLive(children[0]);
    case _ =>
  }

  /** The parts of full children are their texts, one each. */
  lemma {:induction false} FullParts(children: seq<Node>)
    requires forall i | 0 <= i < |children| :: Full(children[i])
    ensures |Parts(children)| == |children|
    ensures forall i | 0 <= i < |children| :: Parts(children)[i] == AtomText(children[i])
  {
    if children != [] {
      var n := |children| - 1;
      var front := Parts(children[..n]);
      FullParts(children[..n]);
      FullPart(children[n]);
      assert Parts(children) == front + [AtomText(children[n])];
      forall i | 0 <= i < n ensures front[i] == AtomText(children[i]) { assert children[..n][i] == children[i]; }
    }
  }

  lemma {:induction false} JoinTail(parts: seq<string>, op: Connector, children: seq<Node>)
    requires children != [] && |parts| == |children|
    requires forall i | 0 <= i < |children| :: Full(children[i]) && parts[i] == AtomText(children[i])
    ensures Join(parts, " " + ConnectorWord(op) + " ") == AtomText(children[0]) + TailText(op, children[1..])
  {
    if |children| > 1 {
      JoinTail(parts[1..], op, children[1..]);
    }
  }

  lemma FullGroupText(op: Connector, children: seq<Node>)
    requires children != [] && forall i | 0 <= i < |children| :: Full(children[i])
    ensures PrintGroup(op, children) == AtomText(children[0]) + TailText(op, children[1..])
  {
    FullParts(children);
    JoinTail(Parts(children), op, children);
  }

  // ---- lexing it

  /** The text as lexemes: tokens and the single blanks between them. */
  function AtomLexemes(n: Node): seq<Lexeme>
    requires Full(n)
    decreases n, 1
  {
    match n
    case Rule(attr, test) => RuleLexemes(attr, TestLexemes(test))
    case Group(op, children) =>
      [Tok(LParen)] + (AtomLexemes(children[0]) + TailLexemes(op, children[1..])) + [Tok(RParen)]
  }

  function TailLexemes(op: Connector, children: seq<Node>): seq<Lexeme>
    requires forall i | 0 <= i < |children| :: Full(children[i])
    decreases children, 0
  {
    if children == [] then []
    else
      [Blank] +
      ([Tok(Name(ConnectorWord(op)))] + ([Blank] + (AtomLexemes(children[0]) + TailLexemes(op, children[1..]))))
  }

  function RuleLexemes(attr: string, test: seq<Lexeme>): seq<Lexeme> {
    [Tok(Name("r"))] + ([Tok(Dot)] + ([Tok(Name("sub"))] + ([Tok(Dot)] + ([Tok(Name(attr))] + ([Blank] + test)))))
  }

  function TestLexemes(test: Test): seq<Lexeme> {
    match test
    case Eq(v) => ValueLexemes(IsEqual, v)
    case NotEq(v) => ValueLexemes(IsUnequal, v)
    case In(vs) => ListLexemes(vs)
    case NotIn(vs) => [Tok(Name("not"))] + ([Blank] + ListLexemes(vs))
  }

  function ValueLexemes(op: PyToken, v: string): seq<Lexeme> {
    [Tok(op)] + ([Blank] + ([Tok(Quoted(v))] + []))
  }

  function ListLexemes(vs: seq<string>): seq<Lexeme> {
    [Tok(Name("in"))] + ([Blank] + ([Tok(LBracket)] + ElementLexemes(vs)))
  }

  function ElementLexemes(vs: seq<string>): seq<Lexeme> {
    if vs == [] then [Tok(RBracket)]
    else if |vs| == 1 then [Tok(Quoted(vs[0]))] + [Tok(RBracket)]
    else [Tok(Quoted(vs[0]))] + ([Tok(Comma)] + ([Blank] + ElementLexemes(vs[1..])))
  }

  /** Lexemes that can be read back, spell `text`, hold `tokens`, and can be followed by anything. */
  predicate Spells(ls: seq<Lexeme>, text: string, tokens: seq<PyToken>) {
    ls != [] && Legible(ls) && EndsClosed(ls) && Spell(ls) == text && Toks(ls) == tokens
  }

  lemma SpellsStep(l: Lexeme, ls: seq<Lexeme>, text: string, tokens: seq<PyToken>)
    requires Spells(ls, text, tokens) && LegibleOne(l) && (IsName(l) ==> !IsName(ls[0]))
    ensures Spells([l] + ls, Spelling(l) + text, TokenOf(l) + tokens)
  {
    SpellStep(l, ls);
  }

  lemma SpellsConcat(a: seq<Lexeme>, s: string, ts: seq<PyToken>, b: seq<Lexeme>, t: string, us: seq<PyToken>)
    requires Spells(a, s, ts) && Spells(b, t, us)
    ensures Spells(a + b, s + t, ts + us)
  {
    LegibleConcat(a, b);
    SpellConcat(a, b);
  }

  lemma LegibleConcat(a: seq<Lexeme>, b: seq<Lexeme>)
    requires Legible(a) && Legible(b) && EndsClosed(a) && EndsClosed(b)
    ensures Legible(a + b) && EndsClosed(a + b)
  {
    var both := a + b;
    forall i | 0 <= i < |both| - 1 && IsName(both[i]) ensures !IsName(both[i + 1]) {
      if i < |a| { assert both[i] == a[i]; } else { assert both[i] == b[i - |a|] && both[i + 1] == b[i + 1 - |a|]; }
    }
  }

  lemma SpellsOne(l: Lexeme)
    requires LegibleOne(l) && !IsName(l)
    ensures Spells([l], Spelling(l), TokenOf(l))
  {
    SpellOne(l);
  }

  lemma {:induction false} ElementsSpelled(vs: seq<string>)
    requires vs != [] && forall i | 0 <= i < |vs| :: IsValue(vs[i])
    ensures Spells(ElementLexemes(vs), Join(QuoteAll(vs), ", ") + "]", ElementTokens(vs))
  {
    if |vs| == 1 {
      SpellsOne(Tok(RBracket));
      SpellsStep(Tok(Quoted(vs[0])), [Tok(RBracket)], "]", [RBracket]);
      assert Join(QuoteAll(vs), ", ") == Quote(vs[0]);
      assert ElementTokens(vs) == [Quoted(vs[0])] + [RBracket];
    } else {
      var rest, text, tokens := ElementLexemes(vs[1..]), Join(QuoteAll(vs[1..]), ", ") + "]", ElementTokens(vs[1..]);
      ElementsSpelled(vs[1..]);
      SpellsStep(Blank, rest, text, tokens);
      SpellsStep(Tok(Comma), [Blank] + rest, " " + text, [] + tokens);
      SpellsStep(Tok(Quoted(vs[0])), [Tok(Comma)] + ([Blank] + rest), "," + (" " + text), [Comma] + ([] + tokens));
      ElementsText(vs, text);
      ElementsList(vs, tokens);
    }
  }

  lemma ElementsText(vs: seq<string>, text: string)
    requires |vs| > 1 && text == Join(QuoteAll(vs[1..]), ", ") + "]"
    ensures Join(QuoteAll(vs), ", ") + "]" == Quote(vs[0]) + ("," + (" " + text))
  {
    var quoted := QuoteAll(vs);
    assert quoted[1..] == QuoteAll(vs[1..]) && quoted[0] == Quote(vs[0]);
  }

  lemma ElementsList(vs: seq<string>, tokens: seq<PyToken>)
    requires |vs| > 1 && tokens == ElementTokens(vs[1..])
    ensures ElementTokens(vs) == [Quoted(vs[0])] + ([Comma] + ([] + tokens))
  {}

  lemma ListSpelled(vs: seq<string>)
    requires vs != [] && forall i | 0 <= i < |vs| :: IsValue(vs[i])
    ensures Spells(ListLexemes(vs), "in [" + Join(QuoteAll(vs), ", ") + "]", [Name("in"), LBracket] + ElementTokens(vs))
  {
    ElementsSpelled(vs);
    BracketSpelled(ElementLexemes(vs), Join(QuoteAll(vs), ", "), ElementTokens(vs));
  }

  lemma BracketSpelled(ls: seq<Lexeme>, inner: string, tokens: seq<PyToken>)
    requires Spells(ls, inner + "]", tokens)
    ensures Spells([Tok(Name("in"))] + ([Blank] + ([Tok(LBracket)] + ls)), "in [" + inner + "]",
            [Name("in"), LBracket] + tokens)
  {
    var text := inner + "]";
    SpellsStep(Tok(LBracket), ls, text, tokens);
    SpellsStep(Blank, [Tok(LBracket)] + ls, "[" + text, [LBracket] + tokens);
    SpellsStep(Tok(Name("in")), [Blank] + ([Tok(LBracket)] + ls), " " + ("[" + text), [] + ([LBracket] + tokens));
    ListText(inner, tokens);
  }

  lemma ListText(elements: string, tokens: seq<PyToken>)
    ensures "in" + (" " + ("[" + (elements + "]"))) == "in [" + elements + "]"
    ensures [Name("in")] + ([] + ([LBracket] + tokens)) == [Name("in"), LBracket] + tokens
  {}

  lemma ValueSpelled(op: PyToken, v: string)
    requires op == IsEqual || op == IsUnequal
    requires IsValue(v)
    ensures Spells(ValueLexemes(op, v), Spelling(Tok(op)) + " " + Quote(v), [op, Quoted(v)])
  {
    var quoted := [Tok(Quoted(v))];
    SpellsOne(Tok(Quoted(v)));
    SpellsStep(Blank, quoted, Quote(v), [Quoted(v)]);
    SpellsStep(Tok(op), [Blank] + quoted, " " + Quote(v), [] + [Quoted(v)]);
    assert quoted + [] == quoted;
    assert [op] + ([] + [Quoted(v)]) == [op, Quoted(v)];
    assert Spelling(Tok(op)) + (" " + Quote(v)) == Spelling(Tok(op)) + " " + Quote(v);
  }

  lemma TestSpelled(test: Test)
    requires PrintableTest(test) && HasValue(test)
    ensures Spells(TestLexemes(test), TestText(test), TestTokens(test))
  {
    match test
    case Eq(v) =>
      ValueSpelled(IsEqual, v);
      assert "== " == "==" + " ";
    case NotEq(v) =>
      ValueSpelled(IsUnequal, v);
      assert "!= " == "!=" + " ";
    case In(vs) => ListSpelled(vs);
    case NotIn(vs) =>
      var text, tokens := "in [" + Join(QuoteAll(vs), ", ") + "]", [Name("in"), LBracket] + ElementTokens(vs);
      ListSpelled(vs);
      SpellsStep(Blank, ListLexemes(vs), text, tokens);
      SpellsStep(Tok(Name("not")), [Blank] + ListLexemes(vs), " " + text, [] + tokens);
      NotInText(vs, text, tokens);
  }

  lemma NotInText(vs: seq<string>, text: string, tokens: seq<PyToken>)
    requires text == "in [" + Join(QuoteAll(vs), ", ") + "]" && tokens == [Name("in"), LBracket] + ElementTokens(vs)
    ensures "not" + (" " + text) == TestText(NotIn(vs))
    ensures [Name("not")] + ([] + tokens) == TestTokens(NotIn(vs))
  {}

  lemma RuleSpelled(attr: string, ls: seq<Lexeme>, text: string, tokens: seq<PyToken>)
    requires IsAttribute(attr) && Spells(ls, text, tokens)
    ensures Spells(RuleLexemes(attr, ls), "r.sub." + attr + " " + text,
            [Name("r"), Dot, Name("sub"), Dot, Name(attr)] + tokens)
  {
    SpellsStep(Blank, ls, text, tokens);
    SpellsStep(Tok(Name(attr)), [Blank] + ls, " " + text, [] + tokens);
    var name := [Tok(Name(attr))] + ([Blank] + ls);
    var nameText, nameTokens := attr + (" " + text), [Name(attr)] + ([] + tokens);
    DottedSpelled("sub", name, nameText, nameTokens);
    DottedSpelled("r", [Tok(Name("sub"))] + ([Tok(Dot)] + name), "sub" + ("." + nameText),
      [Name("sub")] + ([Dot] + nameTokens));
    RuleText(attr, text, tokens);
  }

  lemma DottedSpelled(name: string, ls: seq<Lexeme>, text: string, tokens: seq<PyToken>)
    requires IsIdentifier(name) && Spells(ls, text, tokens)
    ensures Spells([Tok(Name(name))] + ([Tok(Dot)] + ls), name + ("." + text), [Name(name)] + ([Dot] + tokens))
  {
    SpellsStep(Tok(Dot), ls, text, tokens);
    SpellsStep(Tok(Name(name)), [Tok(Dot)] + ls, "." + text, [Dot] + tokens);
  }

  lemma RuleText(attr: string, text: string, tokens: seq<PyToken>)
    ensures "r" + ("." + ("sub" + ("." + (attr + (" " + text))))) == "r.sub." + attr + " " + text
    ensures [Name("r")] + ([Dot] + ([Name("sub")] + ([Dot] + ([Name(attr)] + ([] + tokens))))) ==
            [Name("r"), Dot, Name("sub"), Dot, Name(attr)] + tokens
  {}

  /** The text of a full tree is the spelling of its lexemes, and its tokens are theirs. */
  lemma {:induction false} AtomSpelled(n: Node)
    requires Full(n) && Printable(n)
    ensures Spells(AtomLexemes(n), AtomText(n), AtomTokens(n))
    decreases n, 1
  {
    match n
    case Rule(attr, test) =>
      TestSpelled(test);
      RuleSpelled(attr, TestLexemes(test), TestText(test), TestTokens(test));
    case Group(op, children) =>
      ChildrenSpelled(op, children);
      FullGroupText(op, children);
      FullPart(n);
      ParensSpelled(ChildrenLexemes(op, children), PrintGroup(op, children), ChildrenTokens(op, children));
  }

  lemma ParensSpelled(ls: seq<Lexeme>, text: string, tokens: seq<PyToken>)
    requires Spells(ls, text, tokens)
    ensures Spells([Tok(LParen)] + ls + [Tok(RParen)], "(" + text + ")", [LParen] + tokens + [RParen])
  {
    SpellsStep(Tok(LParen), ls, text, tokens);
    SpellsOne(Tok(RParen));
    SpellsConcat([Tok(LParen)] + ls, "(" + text, [LParen] + tokens, [Tok(RParen)], ")", [RParen]);
  }

  function ChildrenLexemes(op: Connector, children: seq<Node>): seq<Lexeme>
    requires children != [] && forall i | 0 <= i < |children| :: Full(children[i])
  {
    AtomLexemes(children[0]) + TailLexemes(op, children[1..])
  }

  function ChildrenTokens(op: Connector, children: seq<Node>): seq<PyToken>
    requires children != [] && forall i | 0 <= i < |children| :: Full(children[i])
  {
    AtomTokens(children[0]) + TailTokens(op, children[1..])
  }

  lemma {:induction false} ChildrenSpelled(op: Connector, children: seq<Node>)
    requires children != [] && forall i | 0 <= i < |children| :: Full(children[i]) && Printable(children[i])
    ensures Spells(ChildrenLexemes(op, children), AtomText(children[0]) + TailText(op, children[1..]),
            ChildrenTokens(op, children))
    decreases children, 0
  {
    AtomSpelled(children[0]);
    var rest := children[1..];
    if rest == [] {
      assert AtomLexemes(children[0]) + [] == AtomLexemes(children[0]);
      assert AtomTokens(children[0]) + [] == AtomTokens(children[0]);
      assert AtomText(children[0]) + "" == AtomText(children[0]);
    } else {
      ChildrenSpelled(op, rest);
      OperandSpelled(op, ChildrenLexemes(op, rest), AtomText(rest[0]) + TailText(op, rest[1..]),
        ChildrenTokens(op, rest));
      SpellsConcat(AtomLexemes(children[0]), AtomText(children[0]), AtomTokens(children[0]),
                   TailLexemes(op, rest), TailText(op, rest), TailTokens(op, rest));
    }
  }

  lemma OperandSpelled(op: Connector, ls: seq<Lexeme>, text: string, tokens: seq<PyToken>)
    requires Spells(ls, text, tokens)
    ensures Spells([Blank] + ([Tok(Name(ConnectorWord(op)))] + ([Blank] + ls)),
                   " " + (ConnectorWord(op) + (" " + text)), [Name(ConnectorWord(op))] + tokens)
  {
    var name := Tok(Name(ConnectorWord(op)));
    SpellsStep(Blank, ls, text, tokens);
    assert [] + tokens == tokens;
    SpellsStep(name, [Blank] + ls, " " + text, tokens);
    SpellsStep(Blank, [name] + ([Blank] + ls), ConnectorWord(op) + (" " + text), [Name(ConnectorWord(op))] + tokens);
    assert [] + ([Name(ConnectorWord(op))] + tokens) == [Name(ConnectorWord(op))] + tokens;
  }

  // ---- parsing it

  lemma {:induction false} ParseElements(vs: seq<string>, rest: seq<PyToken>)
    ensures Elements(ElementTokens(vs) + rest) == Some((vs, rest))
  {
    var tokens := ElementTokens(vs) + rest;
    if vs == [] {
      assert tokens[1..] == rest;
    } else if |vs| == 1 {
      assert tokens[2..] == rest && [vs[0]] == vs;
    } else {
      ParseElements(vs[1..], rest);
      assert tokens[2..] == ElementTokens(vs[1..]) + rest;
      assert [vs[0]] + vs[1..] == vs;
    }
  }

  lemma ParseTest(test: Test, rest: seq<PyToken>)
    ensures TestOf(TestTokens(test) + rest) == Some((test, rest))
  {
    match test
    case Eq(v) => assert ([IsEqual, Quoted(v)] + rest)[2..] == rest;
    case NotEq(v) => assert ([IsUnequal, Quoted(v)] + rest)[2..] == rest;
    case In(vs) =>
      ParseListTest(vs, rest);
    case NotIn(vs) =>
      ParseListTest(vs, rest);
  }

  lemma ParseListTest(vs: seq<string>, rest: seq<PyToken>)
    ensures TestOf(TestTokens(In(vs)) + rest) == Some((In(vs), rest))
    ensures TestOf(TestTokens(NotIn(vs)) + rest) == Some((NotIn(vs), rest))
  {
    ParseElements(vs, rest);
    ParseList(ElementTokens(vs) + rest);
    Regrouped([Name("in"), LBracket], ElementTokens(vs), rest);
    Regrouped([Name("not"), Name("in"), LBracket], ElementTokens(vs), rest);
  }

  lemma Regrouped(a: seq<PyToken>, b: seq<PyToken>, c: seq<PyToken>)
    ensures a + b + c == a + (b + c)
  {}

  lemma ParseList(tokens: seq<PyToken>)
    requires Elements(tokens).Some?
    ensures var r := Elements(tokens).value;
            TestOf([Name("in"), LBracket] + tokens) == Some((In(r.0), r.1)) &&
            TestOf([Name("not"), Name("in"), LBracket] + tokens) == Some((NotIn(r.0), r.1))
  {
    assert ([Name("in"), LBracket] + tokens)[2..] == tokens;
    assert ([Name("not"), Name("in"), LBracket] + tokens)[3..] == tokens;
  }

  lemma ParseRule(attr: string, test: Test, rest: seq<PyToken>)
    requires IsAttribute(attr)
    ensures Comparison([Name("r"), Dot, Name("sub"), Dot, Name(attr)] + TestTokens(test) + rest) ==
            Some((Compare(attr, test), rest))
  {
    var tokens := [Name("r"), Dot, Name("sub"), Dot, Name(attr)] + TestTokens(test) + rest;
    assert tokens[5..] == TestTokens(test) + rest;
    assert tokens[..4] == [Name("r"), Dot, Name("sub"), Dot];
    ParseTest(test, rest);
  }

  lemma {:induction false} ParseAtom(n: Node, rest: seq<PyToken>)
    requires Full(n) && Printable(n)
    ensures NotTest(AtomTokens(n) + rest) == Some((CondOf(n), rest))
    decreases n, 1
  {
    match n
    case Rule(attr, test) =>
      ParseRule(attr, test, rest);
    case Group(op, children) =>
      var close := [RParen] + rest;
      var inner := AtomTokens(children[0]) + (TailTokens(op, children[1..]) + close);
      ParseAtom(children[0], TailTokens(op, children[1..]) + close);
      ParseTail(op, children[1..], close);
      ParseChain(op, CondOf(children[0]), children[1..], inner, close);
      RegroupParens(AtomTokens(children[0]), TailTokens(op, children[1..]), rest);
      ParseParens(inner, CondOf(n), rest);
  }

  lemma RegroupParens(first: seq<PyToken>, tail: seq<PyToken>, rest: seq<PyToken>)
    ensures [LParen] + (first + tail) + [RParen] + rest == [LParen] + (first + (tail + ([RParen] + rest)))
  {}

  lemma ParseParens(inner: seq<PyToken>, c: Cond, rest: seq<PyToken>)
    requires OrTest(inner) == Some((c, [RParen] + rest))
    ensures NotTest([LParen] + inner) == Some((c, rest))
  {
    assert ([LParen] + inner)[1..] == inner;
    assert ([RParen] + rest)[1..] == rest;
  }

  /** What may follow a complete chain: the end, or a closing parenthesis. */
  predicate Stops(rest: seq<PyToken>) {
    rest == [] || rest[0] == RParen
  }

  /** The operands after the first, each behind its connective. */
  lemma {:induction false} ParseTail(op: Connector, children: seq<Node>, rest: seq<PyToken>)
    requires forall i | 0 <= i < |children| :: Full(children[i]) && Printable(children[i])
    requires Stops(rest)
    ensures op == And ==> AndRest(TailTokens(op, children) + rest) == Some((CondsOf(children), rest))
    ensures op == Or ==> OrRest(TailTokens(op, children) + rest) == Some((CondsOf(children), rest))
    decreases children, 0
  {
    if children == [] {
      assert TailTokens(op, children) + rest == rest;
    } else {
      var after := TailTokens(op, children[1..]) + rest;
      ParseAtom(children[0], after);
      ParseTail(op, children[1..], rest);
      TailStep(op, children, rest);
      if op == And {
        ParseAndOperand(AtomTokens(children[0]) + after, CondOf(children[0]), after);
      } else {
        OrFollows(children[1..], rest);
        ParseOrOperand(AtomTokens(children[0]) + after, CondOf(children[0]), after);
      }
    }
  }

  lemma TailStep(op: Connector, children: seq<Node>, rest: seq<PyToken>)
    requires children != [] && forall i | 0 <= i < |children| :: Full(children[i])
    ensures TailTokens(op, children) + rest ==
            [Name(ConnectorWord(op))] + (AtomTokens(children[0]) + (TailTokens(op, children[1..]) + rest))
  {}

  lemma ParseAndOperand(tokens: seq<PyToken>, operand: Cond, after: seq<PyToken>)
    requires NotTest(tokens) == Some((operand, after)) && AndRest(after).Some?
    ensures AndRest([Name("and")] + tokens) == Some(([operand] + AndRest(after).value.0, AndRest(after).value.1))
  {
    assert ([Name("and")] + tokens)[1..] == tokens;
  }

  lemma ParseOrOperand(tokens: seq<PyToken>, operand: Cond, after: seq<PyToken>)
    requires NotTest(tokens) == Some((operand, after)) && !IsWordToken(after, "and") && OrRest(after).Some?
    ensures OrRest([Name("or")] + tokens) == Some(([operand] + OrRest(after).value.0, OrRest(after).value.1))
  {
    assert ([Name("or")] + tokens)[1..] == tokens;
    assert AndRest(after) == Some(([], after));
    assert AndTest(tokens) == Some((operand, after));
  }

  lemma OrFollows(children: seq<Node>, rest: seq<PyToken>)
    requires (forall i | 0 <= i < |children| :: Full(children[i])) && Stops(rest)
    ensures !IsWordToken(TailTokens(Or, children) + rest, "and")
  {
    if children == [] { assert TailTokens(Or, children) + rest == rest; }
  }

  lemma ParseChain(op: Connector, first: Cond, children: seq<Node>, tokens: seq<PyToken>, rest: seq<PyToken>)
    requires (forall i | 0 <= i < |children| :: Full(children[i])) && Stops(rest)
    requires NotTest(tokens) == Some((first, TailTokens(op, children) + rest))
    requires op == And ==> AndRest(TailTokens(op, children) + rest) == Some((CondsOf(children), rest))
    requires op == Or ==> OrRest(TailTokens(op, children) + rest) == Some((CondsOf(children), rest))
    ensures OrTest(tokens) == Some((Combine(op, first, CondsOf(children)), rest))
  {
    if op == And {
      assert AndTest(tokens) == Some((Combine(And, first, CondsOf(children)), rest));
      assert OrRest(rest) == Some(([], rest));
    } else {
      OrFollows(children, rest);
      assert AndTest(tokens) == Some((first, TailTokens(op, children) + rest));
    }
  }

  // ---- the results

  /** The tree with the operator rewriting done to its values. */
  function Rewritten(n: Node): Node {
    match n
    case Rule(attr, test) => Rule(attr, RewrittenTest(test))
    case Group(op, children) => Group(op, seq(|children|, i requires 0 <= i < |children| => Rewritten(children[i])))
  }

  function RewrittenAll(children: seq<Node>): seq<Node> {
    seq(|children|, i requires 0 <= i < |children| => Rewritten(children[i]))
  }

  function RewrittenTest(test: Test): Test {
    match test
    case Eq(v) => Eq(Normalize(v))
    case NotEq(v) => NotEq(Normalize(v))
    case In(vs) => In(NormalizeAll(vs))
    case NotIn(vs) => NotIn(NormalizeAll(vs))
  }

  function NormalizeAll(vs: seq<string>): seq<string> {
    seq(|vs|, i requires 0 <= i < |vs| => Normalize(vs[i]))
  }

  /** No value is changed by the rewriting, that is, none has a doubled `&` or `|`. */
  predicate Unchanged(n: Node) {
    match n
    case Rule(_, test) => forall i | 0 <= i < |ValuesOf(test)| :: !HasDoubled(ValuesOf(test)[i])
    case Group(_, children) => forall i | 0 <= i < |children| :: Unchanged(children[i])
  }

  function ValuesOf(test: Test): seq<string> {
    match test
    case Eq(v) => [v]
    case NotEq(v) => [v]
    case In(vs) => vs
    case NotIn(vs) => vs
  }

  lemma {:induction false} UnchangedIff(n: Node)
    ensures Rewritten(n) == n <==> Unchanged(n)
  {
    match n
    case Rule(_, test) => TestUnchangedIff(test);
    case Group(_, children) =>
      forall i | 0 <= i < |children| ensures Rewritten(n).children[i] == children[i] <==> Unchanged(children[i]) {
        UnchangedIff(children[i]);
      }
      if Unchanged(n) { assert Rewritten(n).children == children; }
  }

  lemma TestUnchangedIff(test: Test)
    ensures RewrittenTest(test) == test <==> forall i | 0 <= i < |ValuesOf(test)| :: !HasDoubled(ValuesOf(test)[i])
  {
    ValuesUnchangedIff(ValuesOf(test));
    match test
    case Eq(v) => assert NormalizeAll([v])[0] == Normalize(v) && [v][0] == v;
    case NotEq(v) => assert NormalizeAll([v])[0] == Normalize(v) && [v][0] == v;
    case _ =>
  }

  lemma ValuesUnchangedIff(vs: seq<string>)
    ensures NormalizeAll(vs) == vs <==> forall i | 0 <= i < |vs| :: !HasDoubled(vs[i])
  {
    forall i | 0 <= i < |vs| ensures NormalizeAll(vs)[i] == vs[i] <==> !HasDoubled(vs[i]) {
      NormalizeIdentityIff(vs[i]);
    }
  }

  lemma {:induction false} RewrittenFull(n: Node)
    requires Full(n)
    ensures Full(Rewritten(n)) && (Printable(n) ==> Printable(Rewritten(n)))
  {
    match n
    case Rule(_, test) =>
      forall v | IsValue(v) ensures IsValue(Normalize(v)) { NormalizeQuotable(v); }
    case Group(_, children) =>
      forall i | 0 <= i < |children|
        ensures Full(Rewritten(children[i])) && (Printable(children[i]) ==> Printable(Rewritten(children[i])))
      {
        RewrittenFull(children[i]);
      }
  }

  lemma {:induction false} ElementsRewritten(vs: seq<string>)
    ensures NormalizeTokens(ElementTokens(vs)) == ElementTokens(NormalizeAll(vs))
  {
    if |vs| > 1 {
      ElementsRewritten(vs[1..]);
      assert NormalizeAll(vs)[1..] == NormalizeAll(vs[1..]);
      TokensJoined([Quoted(vs[0]), Comma], ElementTokens(vs[1..]));
    }
  }

  lemma TestRewritten(test: Test)
    ensures NormalizeTokens(TestTokens(test)) == TestTokens(RewrittenTest(test))
  {
    match test
    case In(vs) =>
      ElementsRewritten(vs);
      TokensJoined([Name("in"), LBracket], ElementTokens(vs));
    case NotIn(vs) =>
      ElementsRewritten(vs);
      TokensJoined([Name("not"), Name("in"), LBracket], ElementTokens(vs));
    case _ =>
  }

  lemma {:induction false} AtomRewritten(n: Node)
    requires Full(n)
    ensures Full(Rewritten(n)) && NormalizeTokens(AtomTokens(n)) == AtomTokens(Rewritten(n))
    decreases n, 1
  {
    match n
    case Rule(attr, test) =>
      RewrittenFull(n);
      TestRewritten(test);
      TokensJoined([Name("r"), Dot, Name("sub"), Dot, Name(attr)], TestTokens(test));
    case Group(op, children) =>
      var first, tail := AtomTokens(children[0]), TailTokens(op, children[1..]);
      RewrittenFull(n);
      AtomRewritten(children[0]);
      TailRewritten(op, children[1..]);
      RewrittenTail(children);
      TokensJoined(first, tail);
      TokensJoined([LParen], first + tail);
      TokensJoined([LParen] + (first + tail), [RParen]);
  }

  lemma RewrittenTail(children: seq<Node>)
    requires children != []
    ensures RewrittenAll(children)[1..] == RewrittenAll(children[1..])
  {}

  lemma {:induction false} TailRewritten(op: Connector, children: seq<Node>)
    requires forall i | 0 <= i < |children| :: Full(children[i])
    ensures forall i | 0 <= i < |children| :: Full(RewrittenAll(children)[i])
    ensures NormalizeTokens(TailTokens(op, children)) == TailTokens(op, RewrittenAll(children))
    decreases children, 0
  {
    forall i | 0 <= i < |children| ensures Full(RewrittenAll(children)[i]) { RewrittenFull(children[i]); }
    if children != [] {
      var first, tail := AtomTokens(children[0]), TailTokens(op, children[1..]);
      AtomRewritten(children[0]);
      TailRewritten(op, children[1..]);
      RewrittenTail(children);
      OperandRewritten(op, first, tail);
    }
  }

  lemma OperandRewritten(op: Connector, first: seq<PyToken>, tail: seq<PyToken>)
    ensures NormalizeTokens([Name(ConnectorWord(op))] + (first + tail)) ==
            [Name(ConnectorWord(op))] + (NormalizeTokens(first) + NormalizeTokens(tail))
  {
    TokensJoined(first, tail);
    TokensJoined([Name(ConnectorWord(op))], first + tail);
  }

  /** The printed text of a tree in which something prints parses, to the condition of its pruned form with the
      operator rewriting done to each value. */
  lemma PrintedParses(op: Connector, children: seq<Node>)
    requires var g := Group(op, children); Live(g) && Printable(g)
    ensures var pruned := Prune(Group(op, children));
            Full(pruned) && Full(Rewritten(pruned)) &&
            ParseCondition(PrintGroup(op, children)) == Some(CondOf(Rewritten(pruned)))
  {
    PruneAllFull(children);
    PruneParts(children);
    RewrittenFull(Prune(Group(op, children)));
    FullParses(op, PruneAll(children));
  }

  lemma FullParses(op: Connector, children: seq<Node>)
    requires children != [] && forall i | 0 <= i < |children| :: Full(children[i]) && Printable(children[i])
    ensures Full(Rewritten(Group(op, children)))
    ensures ParseCondition(PrintGroup(op, children)) == Some(CondOf(Rewritten(Group(op, children))))
  {
    FullGroupText(op, children);
    ChildrenSpelled(op, children);
    RewrittenTokens(ChildrenLexemes(op, children));
    ChildrenRewritten(op, children);
    TokensParse(op, RewrittenAll(children));
  }

  lemma ChildrenRewritten(op: Connector, children: seq<Node>)
    requires children != [] && forall i | 0 <= i < |children| :: Full(children[i]) && Printable(children[i])
    ensures forall i | 0 <= i < |children| ::
              Full(RewrittenAll(children)[i]) && Printable(RewrittenAll(children)[i])
    ensures NormalizeTokens(ChildrenTokens(op, children)) == ChildrenTokens(op, RewrittenAll(children))
  {
    forall i | 0 <= i < |children| ensures Full(Rewritten(children[i])) && Printable(Rewritten(children[i])) {
      RewrittenFull(children[i]);
    }
    AtomRewritten(children[0]);
    TailRewritten(op, children[1..]);
    RewrittenTail(children);
    TokensJoined(AtomTokens(children[0]), TailTokens(op, children[1..]));
  }

  lemma TokensParse(op: Connector, children: seq<Node>)
    requires children != [] && forall i | 0 <= i < |children| :: Full(children[i]) && Printable(children[i])
    ensures OrTest(ChildrenTokens(op, children)) == Some((CondOf(Group(op, children)), []))
  {
    var tail := TailTokens(op, children[1..]);
    assert tail + [] == tail;
    ParseAtom(children[0], tail);
    ParseTail(op, children[1..], []);
    ParseChain(op, CondOf(children[0]), children[1..], AtomTokens(children[0]) + tail, []);
  }

  /** Pruning looks at no value, and rewriting removes nothing. */
  lemma {:induction false} PruneRewritten(n: Node)
    ensures Live(Rewritten(n)) == Live(n) && Prune(Rewritten(n)) == Rewritten(Prune(n))
    decreases n, 1
  {
    match n
    case Group(_, children) =>
      PruneAllRewritten(children);
      forall i | 0 <= i < |children| ensures Live(Rewritten(n).children[i]) == Live(children[i]) {
        PruneRewritten(children[i]);
      }
      assert Rewritten(n).children == RewrittenAll(children);
    case _ =>
  }

  lemma {:induction false} PruneAllRewritten(children: seq<Node>)
    ensures PruneAll(RewrittenAll(children)) == RewrittenAll(PruneAll(children))
    decreases children, 0
  {
    if children != [] {
      var n := |children| - 1;
      PruneRewritten(children[n]);
      PruneAllRewritten(children[..n]);
      assert RewrittenAll(children)[..n] == RewrittenAll(children[..n]);
    }
  }

  /** The evaluator's answer on the printed text is the meaning of the tree on screen, its values rewritten: for values
      without doubled operators, of the tree itself. */
  lemma PrintedMeans(op: Connector, children: seq<Node>, u: User)
    requires var g := Group(op, children); Live(g) && Printable(g)
    ensures var c := ParseCondition(PrintGroup(op, children));
            c.Some? && (Eval(c.value, u) <==> Meaning(Rewritten(Group(op, children)), u))
    ensures Unchanged(Group(op, children)) ==> Rewritten(Group(op, children)) == Group(op, children)
  {
    var g := Group(op, children);
    PrintedParses(op, children);
    PruneRewritten(g);
    PruneMeaning(Rewritten(g), u);
    UnchangedIff(g);
  }

  /** One rule printed and evaluated means what it says, for all users, exactly when its value has no doubled `&` or
      `|`: 'R&D' does, "a&&b" is compared as "a and b". */
  lemma RuleMeansIff(attr: string, v: string)
    requires IsAttribute(attr) && IsValue(v)
    ensures var rule := Rule(attr, Eq(v));
            var c := ParseCondition(PrintGroup(And, [rule]));
            c.Some? && ((forall u :: Eval(c.value, u) <==> Meaning(rule, u)) <==> !HasDoubled(v))
  {
    var rule := Rule(attr, Eq(v));
    var c := ParseCondition(PrintGroup(And, [rule]));
    assert Live([rule][0]) && Printable([rule][0]);
    NormalizeIdentityIff(v);
    forall u ensures c.Some? && (Eval(c.value, u) <==> Lookup(u, attr) == One(Str(Normalize(v)))) {
      PrintedMeans(And, [rule], u);
      var g := Rewritten(Group(And, [rule]));
      assert g.children[0] == Rule(attr, Eq(Normalize(v)));
    }
    var own: User := map[attr := One(Str(v))];
    assert Meaning(rule, own) && (Eval(c.value, own) <==> v == Normalize(v));
  }

  /** A child in normal form: rules print, and groups have two children or more. */
  predicate Normal(n: Node) {
    match n
    case Rule(_, test) => HasValue(test)
    case Group(_, children) => |children| >= 2 && forall i | 0 <= i < |children| :: Normal(children[i])
  }

  /** The root may also be an ALL group with a single rule. */
  predicate NormalRoot(n: Node) {
    n.Group? && (Normal(n) || (n.connector == And && |n.children| == 1 && n.children[0].Rule? && Normal(n.children[0])))
  }

  lemma {:induction false} NormalFull(n: Node)
    requires Normal(n)
    ensures Full(n)
  {
    match n
    case Group(_, children) =>
      forall i | 0 <= i < |children| ensures Full(children[i]) { NormalFull(children[i]); }
    case _ =>
  }

  lemma {:induction false} FullPrune(n: Node)
    requires Full(n)
    ensures Prune(n) == n
    decreases n, 1
  {
    match n
    case Group(_, children) => FullPruneAll(children);
    case _ =>
  }

  lemma {:induction false} FullPruneAll(children: seq<Node>)
    requires forall i | 0 <= i < |children| :: Full(children[i])
    ensures PruneAll(children) == children
    decreases children, 0
  {
    if children != [] {
      var n := |children| - 1;
      FullPruneAll(children[..n]);
      FullLive(children[n]);
      FullPrune(children[n]);
    }
  }

  lemma {:induction false} NormalJson(n: Node)
    requires Normal(n) && Full(n)
    ensures ToJson(CondOf(n)) == Some(n)
    decreases n, 1
  {
    match n
    case Group(op, children) =>
      NormalJson(children[0]);
      NormalJsonAll(children[1..]);
      var conds := [CondOf(children[0])] + CondsOf(children[1..]);
      CondsOfIndex(children[1..]);
      assert conds[1..] == CondsOf(children[1..]);
      assert [children[0]] + children[1..] == children;
    case _ =>
  }

  lemma {:induction false} NormalJsonAll(children: seq<Node>)
    requires forall i | 0 <= i < |children| :: Normal(children[i]) && Full(children[i])
    ensures AllToJson(CondsOf(children)) == children
    decreases children, 0
  {
    if children != [] {
      NormalJson(children[0]);
      NormalJsonAll(children[1..]);
      assert CondsOf(children)[1..] == CondsOf(children[1..]);
    }
  }

  /** What comes back from the server is always in normal form. */
  lemma {:induction false} JsonNormal(n: Node)
    requires Full(n)
    ensures ToJson(CondOf(n)).Some? && Normal(ToJson(CondOf(n)).value)
    decreases n, 1
  {
    match n
    case Group(op, children) =>
      JsonNormal(children[0]);
      JsonNormalAll(children[1..]);
      var conds := [CondOf(children[0])] + CondsOf(children[1..]);
      CondsOfIndex(children[1..]);
      assert conds[1..] == CondsOf(children[1..]);
    case _ =>
  }

  lemma {:induction false} JsonNormalAll(children: seq<Node>)
    requires forall i | 0 <= i < |children| :: Full(children[i])
    ensures |AllToJson(CondsOf(children))| == |children|
    ensures forall i | 0 <= i < |children| :: Normal(AllToJson(CondsOf(children))[i])
    decreases children, 0
  {
    if children != [] {
      JsonNormal(children[0]);
      JsonNormalAll(children[1..]);
      assert CondsOf(children)[1..] == CondsOf(children[1..]);
    }
  }

  /** Printing a tree and reading it back rebuilds the same tree exactly when it is in normal form and no value has a
      doubled `&` or `|`. */
  lemma RoundTripIffNormal(op: Connector, children: seq<Node>)
    requires var g := Group(op, children); Live(g) && Printable(g)
    ensures Reload(PrintGroup(op, children)) == Some(Group(op, children)) <==>
            NormalRoot(Group(op, children)) && Unchanged(Group(op, children))
  {
    var g := Group(op, children);
    PrintedParses(op, children);
    var pruned := Rewritten(Prune(g));
    JsonNormal(pruned);
    assert Reload(PrintGroup(op, children)) == Some(WrapRoot(ToJson(CondOf(pruned)).value));
    UnchangedIff(g);
    if NormalRoot(g) {
      RootReloads(g);
      NormalRewritten(g);
      RootReloads(Rewritten(g));
    }
  }

  /** What a tree in normal form comes back as, whatever its values. */
  lemma NormalReloads(op: Connector, children: seq<Node>)
    requires var g := Group(op, children); NormalRoot(g) && Live(g) && Printable(g)
    ensures Reload(PrintGroup(op, children)) == Some(Rewritten(Group(op, children)))
  {
    var g := Group(op, children);
    PrintedParses(op, children);
    RootReloads(g);
    NormalRewritten(g);
    RootReloads(Rewritten(g));
  }

  /** A rule on "a&&b" comes back as a rule on "a and b", one on "a||b" as a rule on "a or b". */
  lemma DoubledComesBackRewritten(attr: string)
    requires IsAttribute(attr)
    ensures Reload(PrintGroup(And, [Rule(attr, Eq("a&&b"))])) == Some(Group(And, [Rule(attr, Eq("a and b"))]))
    ensures Reload(PrintGroup(And, [Rule(attr, Eq("a||b"))])) == Some(Group(And, [Rule(attr, Eq("a or b"))]))
  {
    assert Normalize("b") == "b";
    assert Normalize("&&b") == " and b" && Normalize("||b") == " or b";
    assert Normalize("a&&b") == "a and b" && Normalize("a||b") == "a or b";
    RuleReloads(attr, "a&&b");
    RuleReloads(attr, "a||b");
  }

  lemma RuleReloads(attr: string, v: string)
    requires IsAttribute(attr) && IsValue(v)
    ensures Reload(PrintGroup(And, [Rule(attr, Eq(v))])) == Some(Group(And, [Rule(attr, Eq(Normalize(v)))]))
  {
    var rule := Rule(attr, Eq(v));
    var g := Group(And, [rule]);
    assert g.children[0] == rule && Live(rule) && Printable(rule) && Normal(rule);
    NormalReloads(And, [rule]);
    assert Rewritten(g).children == [Rule(attr, Eq(Normalize(v)))];
  }

  lemma NormalRewritten(g: Node)
    requires NormalRoot(g)
    ensures NormalRoot(Rewritten(g))
  {
    NormalChildRewritten(if Normal(g) then g else g.children[0]);
  }

  lemma {:induction false} NormalChildRewritten(n: Node)
    requires Normal(n)
    ensures Normal(Rewritten(n)) && Rewritten(n).Rule? == n.Rule?
  {
    match n
    case Group(_, children) =>
      forall i | 0 <= i < |children| ensures Normal(Rewritten(children[i])) { NormalChildRewritten(children[i]); }
    case _ =>
  }

  lemma RootReloads(g: Node)
    requires NormalRoot(g)
    ensures Prune(g) == g && Full(g) && ToJson(CondOf(g)).Some? && WrapRoot(ToJson(CondOf(g)).value) == g
  {
    if Normal(g) {
      NormalFull(g);
      NormalJson(g);
    } else {
      NormalFull(g.children[0]);
      NormalJson(g.children[0]);
      assert CondOf(g) == CondOf(g.children[0]);
      assert g.children == [g.children[0]];
    }
    FullPrune(g);
  }

  // ---- what the builder shows of a condition written by hand

  /** `not` written before a printed group, in parentheses, is read as the negation of the group. */
  lemma NegatedMeans(op: Connector, children: seq<Node>, u: User)
    requires var g := Group(op, children); Live(g) && Printable(g)
    ensures var c := ParseCondition("not (" + PrintGroup(op, children) + ")");
            c.Some? && c.value.Not? && (Eval(c.value, u) <==> !Meaning(Rewritten(Group(op, children)), u))
  {
    var g := Group(op, PruneAll(children));
    PrintedMeans(op, children, u);
    PruneAllFull(children);
    PruneParts(children);
    PrintedParses(op, children);
    NegatedParses(g);
    NegatedText(g);
  }

  lemma NegatedText(g: Node)
    requires Full(g) && g.Group?
    ensures "not (" + PrintGroup(g.connector, g.children) + ")" == "not" + (" " + AtomText(g))
  {
    FullPart(g);
    assert AtomText(g) == "(" + PrintGroup(g.connector, g.children) + ")";
  }

  lemma NegatedParses(g: Node)
    requires Full(g) && Printable(g)
    ensures Full(Rewritten(g)) && ParseCondition("not" + (" " + AtomText(g))) == Some(Not(CondOf(Rewritten(g))))
  {
    AtomSpelled(g);
    NegatedSpelled(AtomLexemes(g), AtomText(g), AtomTokens(g));
    AtomRewritten(g);
    RewrittenFull(g);
    NegatedTokens(Rewritten(g));
  }

  lemma NegatedSpelled(ls: seq<Lexeme>, text: string, tokens: seq<PyToken>)
    requires Spells(ls, text, tokens)
    ensures Tokenize(Normalize("not" + (" " + text))) == Some([Name("not")] + NormalizeTokens(tokens))
  {
    SpellsStep(Blank, ls, text, tokens);
    assert [] + tokens == tokens;
    SpellsStep(Tok(Name("not")), [Blank] + ls, " " + text, tokens);
    RewrittenTokens([Tok(Name("not"))] + ([Blank] + ls));
    TokensJoined([Name("not")], tokens);
    assert NormalizeTokens([Name("not")]) == [Name("not")];
  }

  lemma NegatedTokens(g: Node)
    requires Full(g) && Printable(g)
    ensures OrTest([Name("not")] + AtomTokens(g)) == Some((Not(CondOf(g)), []))
  {
    ParseAtom(g, []);
    var tokens := [Name("not")] + AtomTokens(g);
    assert tokens[1..] == AtomTokens(g) && AtomTokens(g) + [] == AtomTokens(g);
    assert NotTest(tokens) == Some((Not(CondOf(g)), []));
    assert AndTest(tokens) == Some((Not(CondOf(g)), []));
  }

  lemma {:induction false} JsonConcat(a: seq<Cond>, b: seq<Cond>)
    ensures AllToJson(a + b) == AllToJson(a) + AllToJson(b)
  {
    if a == [] {
      assert a + b == b;
    } else {
      assert (a + b)[1..] == a[1..] + b && (a + b)[0] == a[0];
      JsonConcat(a[1..], b);
      Associative(FirstJson(a), AllToJson(a[1..]), AllToJson(b));
      assert AllToJson(a + b) == FirstJson(a) + AllToJson(a[1..] + b);
    }
  }

  function FirstJson(values: seq<Cond>): seq<Node>
    requires values != []
  {
    var first := ToJson(values[0]);
    if first.Some? then [first.value] else []
  }

  /** Operands under a `not` are left out of the tree, whatever stands beside them. */
  lemma NotIsLeftOut(op: Connector, front: seq<Cond>, c: Cond, back: seq<Cond>)
    ensures ToJson(BoolOp(op, front + [Not(c)] + back)) == ToJson(BoolOp(op, front + back)) && ToJson(Not(c)) == None
  {
    JsonConcat(front + [Not(c)], back);
    JsonConcat(front, [Not(c)]);
    JsonConcat(front, back);
    assert [Not(c)][1..] == [] && AllToJson([Not(c)]) == [];
    assert AllToJson(front) + [] == AllToJson(front);
  }

  /** So the tree can hold for users whom the condition shuts out. */
  lemma NotIsForgotten(a: string, x: string, b: string, y: string)
    requires a != b
    ensures var c := BoolOp(And, [Compare(a, Eq(x)), Not(Compare(b, Eq(y)))]);
            var u: User := map[a := One(Str(x)), b := One(Str(y))];
            ToJson(c) == Some(Group(And, [Rule(a, Eq(x))])) && Meaning(Group(And, [Rule(a, Eq(x))]), u) && !Eval(c, u)
  {
    var cs := [Compare(a, Eq(x)), Not(Compare(b, Eq(y)))];
    var u: User := map[a := One(Str(x)), b := One(Str(y))];
    assert cs[1..] == [Not(Compare(b, Eq(y)))] && cs[1..][1..] == [];
    assert AllToJson(cs[1..]) == [];
    assert AllToJson(cs) == [Rule(a, Eq(x))];
    assert !Eval(cs[1], u);
  }

  /** Each list of the condition has an element. */
  predicate ListsFilled(c: Cond) {
    match c
    case BoolOp(_, values) => forall i | 0 <= i < |values| :: ListsFilled(values[i])
    case Not(operand) => ListsFilled(operand)
    case Compare(_, test) => HasValue(test)
  }

  /** Without `not`, the tree means what the condition means, for every user. */
  lemma {:induction false} JsonMeansSame(c: Cond, u: User)
    requires WellFormed(c) && NotFree(c) && ListsFilled(c)
    ensures ToJson(c).Some? && Live(ToJson(c).value) && (Meaning(ToJson(c).value, u) <==> Eval(c, u))
  {
    match c
    case BoolOp(op, values) =>
      forall i | 0 <= i < |values|
        ensures ToJson(values[i]).Some? && Live(ToJson(values[i]).value)
        ensures Meaning(ToJson(values[i]).value, u) <==> Eval(values[i], u)
      {
        JsonMeansSame(values[i], u);
      }
      JsonEach(values);
      var nodes := AllToJson(values);
      forall i | 0 <= i < |values| ensures Live(nodes[i]) && (Meaning(nodes[i], u) <==> Eval(values[i], u)) {}
    case Compare(_, _) =>
  }

  lemma {:induction false} JsonEach(values: seq<Cond>)
    requires forall i | 0 <= i < |values| :: ToJson(values[i]).Some?
    ensures |AllToJson(values)| == |values|
    ensures forall i | 0 <= i < |values| :: AllToJson(values)[i] == ToJson(values[i]).value
  {
    if values != [] { JsonEach(values[1..]); }
  }

  /** And so does the root the page shows. */
  lemma ReloadMeansSame(text: string, u: User)
    requires var c := ParseCondition(text); c.Some? && WellFormed(c.value) && NotFree(c.value) && ListsFilled(c.value)
    ensures Reload(text).Some? && (Meaning(Reload(text).value, u) <==> Eval(ParseCondition(text).value, u))
  {
    var n := ToJson(ParseCondition(text).value).value;
    JsonMeansSame(ParseCondition(text).value, u);
    if n.Rule? { assert Group(And, [n]).children[0] == n; }
  }
}
