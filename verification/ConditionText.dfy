/** The textual form of conditions: the part of Python's expression grammar that holds comparisons of
    `r.sub.<name>` with quoted constants, `not`, `and`, `or` and parentheses
    (Python Language Reference, sections 6.10 and 6.11). */
module ConditionText {
  import opened Text
  import opened Conditions

  datatype PyToken =
    | LParen | RParen | LBracket | RBracket | Comma | Dot | IsEqual | IsUnequal
    | Name(text: string)
    | Quoted(text: string)

  const KEYWORDS: set<string> :=
    {"False", "None", "True", "and", "as", "assert", "async", "await", "break", "class", "continue", "def", "del",
     "elif", "else", "except", "finally", "for", "from", "global", "if", "import", "in", "is", "lambda", "nonlocal",
     "not", "or", "pass", "raise", "return", "try", "while", "with", "yield"}

  predicate IsNameStart(c: char) {
    'a' <= c <= 'z' || 'A' <= c <= 'Z' || c == '_'
  }

  predicate IsNameChar(c: char) {
    IsNameStart(c) || '0' <= c <= '9'
  }

  predicate IsIdentifier(s: string) {
    s != "" && IsNameStart(s[0]) && forall i | 0 <= i < |s| :: IsNameChar(s[i])
  }

  /** A name that can stand after a dot. */
  predicate IsAttribute(s: string) {
    IsIdentifier(s) && s !in KEYWORDS
  }

  /** Words can, unless they begin with a digit or are keywords. */
  lemma WordsAreAttributes(s: string)
    requires IsWord(s) && !('0' <= s[0] <= '9') && s !in KEYWORDS
    ensures IsAttribute(s)
  {
    forall i | 0 <= i < |s| ensures IsNameChar(s[i]) { assert IsWordChar(s[i]); }
    assert IsWordChar(s[0]);
  }

  /** What may stand between single quotes and mean itself. */
  predicate IsQuotable(c: char) {
    c != '\'' && c != '\\' && c != '\n' && c != '\r'
  }

  predicate IsValue(s: string) {
    forall i | 0 <= i < |s| :: IsQuotable(s[i])
  }

  /** `replace('&&', ' and ').replace('||', ' or ')` */
  function Normalize(s: string): string {
    if s == "" then ""
    else if |s| > 1 && s[0] == '&' && s[1] == '&' then " and " + Normalize(s[2..])
    else if |s| > 1 && s[0] == '|' && s[1] == '|' then " or " + Normalize(s[2..])
    else [s[0]] + Normalize(s[1..])
  }

  function Cons(t: PyToken, rest: Option<seq<PyToken>>): Option<seq<PyToken>> {
    if rest.Some? then Some([t] + rest.value) else None
  }

  function Punctuation(c: char): Option<PyToken> {
    match c
    case '(' => Some(LParen)
    case ')' => Some(RParen)
    case '[' => Some(LBracket)
    case ']' => Some(RBracket)
    case ',' => Some(Comma)
    case '.' => Some(Dot)
    case _ => None
  }

  /** The tokens of a condition; None stands for text outside the fragment. */
  function Tokenize(s: string): Option<seq<PyToken>>
    decreases |s|
  {
    if s == "" then Some([])
    else if s[0] == ' ' then Tokenize(s[1..])
    else if Punctuation(s[0]).Some? then Cons(Punctuation(s[0]).value, Tokenize(s[1..]))
    else if s[0] == '=' then if |s| > 1 && s[1] == '=' then Cons(IsEqual, Tokenize(s[2..])) else None
    else if s[0] == '!' then if |s| > 1 && s[1] == '=' then Cons(IsUnequal, Tokenize(s[2..])) else None
    else if s[0] == '\'' then
      var n := Find(s[1..], '\'');
      if n < |s[1..]| && IsValue(s[1..][..n]) then Cons(Quoted(s[1..][..n]), Tokenize(s[1..][n + 1..])) else None
    else if IsNameStart(s[0]) then
      var n := 1 + Span(s[1..], IsNameChar);
      Cons(Name(s[..n]), Tokenize(s[n..]))
    else None
  }

  // ---- grammar

  predicate IsWordToken(tokens: seq<PyToken>, w: string) {
    tokens != [] && tokens[0] == Name(w)
  }

  function Combine(op: Connector, first: Cond, more: seq<Cond>): Cond {
    if more == [] then first else BoolOp(op, [first] + more)
  }

  function OrTest(tokens: seq<PyToken>): (r: Option<(Cond, seq<PyToken>)>)
    ensures r.Some? ==> |r.value.1| < |tokens|
    decreases |tokens|, 5
  {
    var first := AndTest(tokens);
    if first.None? then None
    else
      var more := OrRest(first.value.1);
      if more.None? then None else Some((Combine(Or, first.value.0, more.value.0), more.value.1))
  }

  function OrRest(tokens: seq<PyToken>): (r: Option<(seq<Cond>, seq<PyToken>)>)
    ensures r.Some? ==> |r.value.1| <= |tokens|
    decreases |tokens|, 4
  {
    if !IsWordToken(tokens, "or") then Some(([], tokens))
    else
      var next := AndTest(tokens[1..]);
      if next.None? then None
      else
        var more := OrRest(next.value.1);
        if more.None? then None else Some(([next.value.0] + more.value.0, more.value.1))
  }

  function AndTest(tokens: seq<PyToken>): (r: Option<(Cond, seq<PyToken>)>)
    ensures r.Some? ==> |r.value.1| < |tokens|
    decreases |tokens|, 3
  {
    var first := NotTest(tokens);
    if first.None? then None
    else
      var more := AndRest(first.value.1);
      if more.None? then None else Some((Combine(And, first.value.0, more.value.0), more.value.1))
  }

  function AndRest(tokens: seq<PyToken>): (r: Option<(seq<Cond>, seq<PyToken>)>)
    ensures r.Some? ==> |r.value.1| <= |tokens|
    decreases |tokens|, 2
  {
    if !IsWordToken(tokens, "and") then Some(([], tokens))
    else
      var next := NotTest(tokens[1..]);
      if next.None? then None
      else
        var more := AndRest(next.value.1);
        if more.None? then None else Some(([next.value.0] + more.value.0, more.value.1))
  }

  function NotTest(tokens: seq<PyToken>): (r: Option<(Cond, seq<PyToken>)>)
    ensures r.Some? ==> |r.value.1| < |tokens|
    decreases |tokens|, 1
  {
    if IsWordToken(tokens, "not") then
      var operand := NotTest(tokens[1..]);
      if operand.None? then None else Some((Not(operand.value.0), operand.value.1))
    else Comparison(tokens)
  }

  function Comparison(tokens: seq<PyToken>): (r: Option<(Cond, seq<PyToken>)>)
    ensures r.Some? ==> |r.value.1| < |tokens|
    decreases |tokens|, 0
  {
    if tokens == [] then None
    else if tokens[0] == LParen then
      var inner := OrTest(tokens[1..]);
      if inner.Some? && inner.value.1 != [] && inner.value.1[0] == RParen
      then Some((inner.value.0, inner.value.1[1..])) else None
    else if |tokens| > 6 && tokens[..4] == [Name("r"), Dot, Name("sub"), Dot] &&
            tokens[4].Name? && IsAttribute(tokens[4].text) then
      var test := TestOf(tokens[5..]);
      if test.None? then None else Some((Compare(tokens[4].text, test.value.0), test.value.1))
    else None
  }

  function TestOf(tokens: seq<PyToken>): (r: Option<(Test, seq<PyToken>)>)
    ensures r.Some? ==> |r.value.1| < |tokens|
  {
    if |tokens| < 2 then None
    else if tokens[0] == IsEqual && tokens[1].Quoted? then Some((Eq(tokens[1].text), tokens[2..]))
    else if tokens[0] == IsUnequal && tokens[1].Quoted? then Some((NotEq(tokens[1].text), tokens[2..]))
    else if tokens[0] == Name("in") && tokens[1] == LBracket then
      var elements := Elements(tokens[2..]);
      if elements.None? then None else Some((In(elements.value.0), elements.value.1))
    else if tokens[0] == Name("not") && |tokens| > 2 && tokens[1] == Name("in") && tokens[2] == LBracket then
      var elements := Elements(tokens[3..]);
      if elements.None? then None else Some((NotIn(elements.value.0), elements.value.1))
    else None
  }

  /** What was read as a comparison stood there: the operator and the constant, or the words before the list. */
  lemma TestOfReads(tokens: seq<PyToken>)
    requires TestOf(tokens).Some?
    ensures match TestOf(tokens).value.0
            case Eq(x) => [IsEqual, Quoted(x)] <= tokens
            case NotEq(x) => [IsUnequal, Quoted(x)] <= tokens
            case In(_) => [Name("in"), LBracket] <= tokens
            case NotIn(_) => [Name("not"), Name("in"), LBracket] <= tokens
  {}

  /** The rest of a list after its opening bracket. */
  function Elements(tokens: seq<PyToken>): (r: Option<(seq<string>, seq<PyToken>)>)
    ensures r.Some? ==> |r.value.1| < |tokens|
  {
    if tokens == [] then None
    else if tokens[0] == RBracket then Some(([], tokens[1..]))
    else if |tokens| > 1 && tokens[0].Quoted? then
      if tokens[1] == RBracket then Some(([tokens[0].text], tokens[2..]))
      else if tokens[1] == Comma && |tokens| > 2 && tokens[2].Quoted? then
        var more := Elements(tokens[2..]);
        if more.None? then None else Some(([tokens[0].text] + more.value.0, more.value.1))
      else None
    else None
  }

  /** A keyword is no attribute, and a constant with a backslash or a line break is outside the fragment. */
  lemma OutsideFragment(k: string, rest: seq<PyToken>, v: string, more: string)
    requires '\'' !in v && ('\\' in v || '\n' in v || '\r' in v)
    ensures k in KEYWORDS ==> Comparison([Name("r"), Dot, Name("sub"), Dot, Name(k)] + rest) == None
    ensures Tokenize("'" + v + "'" + more) == None
  {
    var tokens := [Name("r"), Dot, Name("sub"), Dot, Name(k)] + rest;
    assert tokens[4] == Name(k);
    var s := "'" + v + "'" + more;
    assert s[1..] == v + ("'" + more);
    FindExact(v, "'" + more, '\'');
    assert s[1..][..|v|] == v;
  }

  /** `ast.parse(expr, mode='eval')` on the rewritten text. */
  function ParseCondition(s: string): Option<Cond> {
    var tokens := Tokenize(Normalize(s));
    if tokens.None? then None
    else
      var r := OrTest(tokens.value);
      if r.Some? && r.value.1 == [] then Some(r.value.0) else None
  }

  // ---- lexing what was printed

  predicate IsOperatorChar(c: char) {
    c == '&' || c == '|'
  }

  /** Some doubled `&` or `|` starts at `i`. */
  predicate DoubledAt(s: string, i: nat)
    requires i + 1 < |s|
  {
    IsOperatorChar(s[i]) && s[i] == s[i + 1]
  }

  predicate HasDoubled(s: string) {
    exists i | 0 <= i < |s| - 1 :: DoubledAt(s, i)
  }

  /** The operator rewriting leaves a text alone exactly when no `&` and no `|` is doubled in it. */
  lemma {:induction false} NormalizeIdentityIff(s: string)
    ensures |Normalize(s)| >= |s|
    ensures Normalize(s) == s <==> !HasDoubled(s)
  {
    if |s| > 1 && DoubledAt(s, 0) {
      NormalizeIdentityIff(s[2..]);
      assert HasDoubled(s);
    } else if s != "" {
      var rest := s[1..];
      NormalizeIdentityIff(rest);
      DoubledBehind(s);
      assert Normalize(s) == s <==> Normalize(rest) == rest by { SameBehind(s[0], Normalize(rest), rest); }
    }
  }

  lemma SameBehind(c: char, a: string, b: string)
    ensures [c] + a == [c] + b <==> a == b
  {
    assert ([c] + a)[1..] == a && ([c] + b)[1..] == b;
  }

  lemma DoubledBehind(s: string)
    requires s != "" && !(|s| > 1 && DoubledAt(s, 0))
    ensures HasDoubled(s) <==> HasDoubled(s[1..])
  {
    var rest := s[1..];
    if HasDoubled(rest) {
      var i :| 0 <= i < |rest| - 1 && DoubledAt(rest, i);
      assert DoubledAt(s, i + 1);
    }
    if HasDoubled(s) {
      var i :| 0 <= i < |s| - 1 && DoubledAt(s, i);
      assert DoubledAt(rest, i - 1);
    }
  }

  /** Behind a character that is no operator character the rewriting starts afresh. */
  lemma {:induction false} NormalizeSplit(a: string, rest: string)
    requires a == "" || !IsOperatorChar(a[|a| - 1])
    ensures Normalize(a + rest) == Normalize(a) + Normalize(rest)
    decreases |a|
  {
    var s := a + rest;
    if a == "" {
      assert s == rest;
    } else if |a| > 1 && DoubledAt(a, 0) {
      assert s[2..] == a[2..] + rest;
      NormalizeSplit(a[2..], rest);
      Associative(if a[0] == '&' then " and " else " or ", Normalize(a[2..]), Normalize(rest));
    } else {
      assert s[1..] == a[1..] + rest;
      NormalizeSplit(a[1..], rest);
      Associative([a[0]], Normalize(a[1..]), Normalize(rest));
    }
  }

  /** Inside quotes a value is rewritten like any other text. */
  lemma NormalizeQuoted(v: string)
    ensures Normalize("'" + v + "'") == "'" + Normalize(v) + "'"
  {
    assert ("'" + v + "'")[1..] == v + "'";
    NormalizeBeforeQuote(v);
  }

  lemma {:induction false} NormalizeBeforeQuote(v: string)
    ensures Normalize(v + "'") == Normalize(v) + "'"
    decreases |v|
  {
    var s := v + "'";
    if v == "" {
      assert s[1..] == "" && s == "'";
    } else if |v| > 1 && DoubledAt(v, 0) {
      assert s[2..] == v[2..] + "'";
      NormalizeBeforeQuote(v[2..]);
    } else {
      assert s[1..] == v[1..] + "'";
      NormalizeBeforeQuote(v[1..]);
    }
  }

  lemma {:induction false} NormalizeQuotable(v: string)
    requires IsValue(v)
    ensures IsValue(Normalize(v))
    decreases |v|
  {
    if |v| > 1 && DoubledAt(v, 0) {
      NormalizeQuotable(v[2..]);
    } else if v != "" {
      NormalizeQuotable(v[1..]);
    }
  }

  lemma TokenizeBlank(rest: string)
    ensures Tokenize(" " + rest) == Tokenize(rest)
  {
    assert (" " + rest)[1..] == rest;
  }

  lemma TokenizePunctuation(c: char, rest: string)
    requires Punctuation(c).Some?
    ensures Tokenize([c] + rest) == Cons(Punctuation(c).value, Tokenize(rest))
  {
    assert ([c] + rest)[1..] == rest;
  }

  lemma TokenizeEquals(c: char, rest: string)
    requires c == '=' || c == '!'
    ensures Tokenize([c, '='] + rest) == Cons(if c == '=' then IsEqual else IsUnequal, Tokenize(rest))
  {
    assert ([c, '='] + rest)[2..] == rest;
  }

  lemma TokenizeName(name: string, rest: string)
    requires IsIdentifier(name)
    requires rest == "" || !IsNameChar(rest[0])
    ensures Tokenize(name + rest) == Cons(Name(name), Tokenize(rest))
  {
    var s := name + rest;
    assert s[0] == name[0];
    assert s[1..] == name[1..] + rest;
    SpanExact(name[1..], rest, IsNameChar);
    assert s[..|name|] == name && s[|name|..] == rest;
  }

  lemma TokenizeQuoted(value: string, rest: string)
    requires IsValue(value)
    ensures Tokenize("'" + value + "'" + rest) == Cons(Quoted(value), Tokenize(rest))
  {
    var s := "'" + value + "'" + rest;
    var inner := value + (['\''] + rest);
    assert s[0] == '\'' && s[1..] == inner;
    FindExact(value, ['\''] + rest, '\'');
    assert inner[..|value|] == value && inner[|value| + 1..] == rest;
  }

  // ---- text as lexemes

  datatype Lexeme = Blank | Tok(token: PyToken)

  function Spelling(l: Lexeme): string {
    match l
    case Blank => " "
    case Tok(LParen) => "("
    case Tok(RParen) => ")"
    case Tok(LBracket) => "["
    case Tok(RBracket) => "]"
    case Tok(Comma) => ","
    case Tok(Dot) => "."
    case Tok(IsEqual) => "=="
    case Tok(IsUnequal) => "!="
    case Tok(Name(n)) => n
    case Tok(Quoted(v)) => "'" + v + "'"
  }

  function Spell(ls: seq<Lexeme>): string {
    if ls == [] then "" else Spelling(ls[0]) + Spell(ls[1..])
  }

  function Toks(ls: seq<Lexeme>): seq<PyToken> {
    if ls == [] then [] else TokenOf(ls[0]) + Toks(ls[1..])
  }

  /** A name only ever comes before a lexeme that is not one. */
  predicate IsName(l: Lexeme) {
    l.Tok? && l.token.Name?
  }

  predicate LegibleOne(l: Lexeme) {
    match l
    case Tok(Name(n)) => IsIdentifier(n)
    case Tok(Quoted(v)) => IsValue(v)
    case _ => true
  }

  /** Every lexeme can be read back, and no two names touch. */
  predicate Legible(ls: seq<Lexeme>) {
    (forall i | 0 <= i < |ls| :: LegibleOne(ls[i])) &&
    forall i | 0 <= i < |ls| - 1 :: IsName(ls[i]) ==> !IsName(ls[i + 1])
  }

  predicate EndsClosed(ls: seq<Lexeme>) {
    ls == [] || !IsName(ls[|ls| - 1])
  }

  lemma SpellConcat(a: seq<Lexeme>, b: seq<Lexeme>)
    ensures Spell(a + b) == Spell(a) + Spell(b)
    ensures Toks(a + b) == Toks(a) + Toks(b)
  {
    SpellJoined(a, b);
    ToksJoined(a, b);
  }

  lemma {:induction false} SpellJoined(a: seq<Lexeme>, b: seq<Lexeme>)
    ensures Spell(a + b) == Spell(a) + Spell(b)
  {
    if a == [] {
      assert a + b == b;
    } else {
      var first, rest := Spelling(a[0]), a[1..];
      assert (a + b)[0] == a[0] && (a + b)[1..] == rest + b;
      SpellJoined(rest, b);
      Associative(first, Spell(rest), Spell(b));
    }
  }

  lemma {:induction false} ToksJoined(a: seq<Lexeme>, b: seq<Lexeme>)
    ensures Toks(a + b) == Toks(a) + Toks(b)
  {
    if a == [] {
      assert a + b == b;
    } else {
      var first, rest := TokenOf(a[0]), a[1..];
      assert (a + b)[0] == a[0] && (a + b)[1..] == rest + b;
      ToksJoined(rest, b);
      Associative(first, Toks(rest), Toks(b));
    }
  }

  /** The token of one lexeme, if it is one. */
  function TokenOf(l: Lexeme): seq<PyToken> {
    if l.Tok? then [l.token] else []
  }

  lemma SpellOne(l: Lexeme)
    ensures Spell([l]) == Spelling(l) && Toks([l]) == TokenOf(l)
  {
    assert [l][1..] == [];
  }

  /** A lexeme put in front. */
  lemma SpellStep(l: Lexeme, ls: seq<Lexeme>)
    ensures Spell([l] + ls) == Spelling(l) + Spell(ls) && Toks([l] + ls) == TokenOf(l) + Toks(ls)
    ensures Legible(ls) && LegibleOne(l) && (IsName(l) && ls != [] ==> !IsName(ls[0])) ==> Legible([l] + ls)
    ensures EndsClosed([l] + ls) == if ls == [] then !IsName(l) else EndsClosed(ls)
  {
    assert ([l] + ls)[1..] == ls;
    LegibleStep(l, ls);
  }

  lemma LegibleStep(l: Lexeme, ls: seq<Lexeme>)
    ensures Legible(ls) && LegibleOne(l) && (IsName(l) && ls != [] ==> !IsName(ls[0])) ==> Legible([l] + ls)
    ensures EndsClosed([l] + ls) == if ls == [] then !IsName(l) else EndsClosed(ls)
  {
    assert forall i | 0 < i < |ls| + 1 :: ([l] + ls)[i] == ls[i - 1];
  }

  lemma SpellingStarts(ls: seq<Lexeme>)
    requires ls != [] && LegibleOne(ls[0]) && !IsName(ls[0])
    ensures Spell(ls) != "" && !IsNameChar(Spell(ls)[0])
  {
    match ls[0]
    case Tok(Quoted(v)) => assert Spelling(ls[0])[0] == '\'';
    case _ =>
  }

  /** Reading a legible text gives its tokens back. */
  lemma {:induction false} TokenizeSpell(ls: seq<Lexeme>)
    requires Legible(ls)
    ensures Tokenize(Spell(ls)) == Some(Toks(ls))
  {
    if ls != [] {
      var rest := ls[1..];
      assert Legible(rest);
      TokenizeSpell(rest);
      if rest != [] && IsName(ls[0]) {
        assert !IsName(ls[1]);
        SpellingStarts(rest);
      }
      TokenizeLexeme(ls[0], Spell(rest));
    }
  }

  lemma TokenizeLexeme(l: Lexeme, text: string)
    requires LegibleOne(l) && (IsName(l) ==> text == "" || !IsNameChar(text[0]))
    requires Tokenize(text).Some?
    ensures Tokenize(Spelling(l) + text) == Some(TokenOf(l) + Tokenize(text).value)
  {
    match l
    case Blank =>
      TokenizeBlank(text);
      assert TokenOf(l) + Tokenize(text).value == Tokenize(text).value;
    case Tok(Quoted(v)) => TokenizeQuoted(v, text);
    case Tok(Name(n)) => TokenizeName(n, text);
    case Tok(IsEqual) => TokenizeEquals('=', text);
    case Tok(IsUnequal) => TokenizeEquals('!', text);
    case Tok(LParen) => TokenizePunctuation('(', text);
    case Tok(RParen) => TokenizePunctuation(')', text);
    case Tok(LBracket) => TokenizePunctuation('[', text);
    case Tok(RBracket) => TokenizePunctuation(']', text);
    case Tok(Comma) => TokenizePunctuation(',', text);
    case Tok(Dot) => TokenizePunctuation('.', text);
  }

  // ---- the operator rewriting, lexeme by lexeme

  function NormalizeToken(t: PyToken): PyToken {
    if t.Quoted? then Quoted(Normalize(t.text)) else t
  }

  function NormalizeTokens(ts: seq<PyToken>): seq<PyToken> {
    seq(|ts|, i requires 0 <= i < |ts| => NormalizeToken(ts[i]))
  }

  function NormalizeLexeme(l: Lexeme): Lexeme {
    if l.Tok? then Tok(NormalizeToken(l.token)) else l
  }

  function NormalizeLexemes(ls: seq<Lexeme>): seq<Lexeme> {
    seq(|ls|, i requires 0 <= i < |ls| => NormalizeLexeme(ls[i]))
  }

  lemma NormalizeSpelling(l: Lexeme)
    requires LegibleOne(l)
    ensures Normalize(Spelling(l)) == Spelling(NormalizeLexeme(l)) && LegibleOne(NormalizeLexeme(l))
    ensures Spelling(l) != "" && !IsOperatorChar(Spelling(l)[|Spelling(l)| - 1])
  {
    match l
    case Tok(Quoted(v)) =>
      NormalizeQuoted(v);
      NormalizeQuotable(v);
    case Tok(Name(n)) =>
      assert forall i | 0 <= i < |n| :: IsNameChar(n[i]);
      assert !HasDoubled(n);
      NormalizeIdentityIff(n);
    case _ =>
      assert !HasDoubled(Spelling(l));
      NormalizeIdentityIff(Spelling(l));
  }

  /** The rewriting of legible text rewrites its quoted values and nothing else, and the text stays legible. */
  lemma {:induction false} NormalizeSpell(ls: seq<Lexeme>)
    requires Legible(ls)
    ensures Normalize(Spell(ls)) == Spell(NormalizeLexemes(ls))
    ensures Legible(NormalizeLexemes(ls)) && Toks(NormalizeLexemes(ls)) == NormalizeTokens(Toks(ls))
  {
    if ls != [] {
      var l, rest := ls[0], ls[1..];
      NormalizeSpell(rest);
      NormalizeSpelling(l);
      NormalizeSplit(Spelling(l), Spell(rest));
      assert NormalizeLexemes(ls)[1..] == NormalizeLexemes(rest);
      NormalizeLegible(ls);
      TokensJoined(TokenOf(l), Toks(rest));
      assert NormalizeTokens(TokenOf(l)) == TokenOf(NormalizeLexeme(l));
    }
  }

  lemma NormalizeLegible(ls: seq<Lexeme>)
    requires Legible(ls)
    ensures Legible(NormalizeLexemes(ls))
  {
    forall i | 0 <= i < |ls| ensures LegibleOne(NormalizeLexemes(ls)[i]) { NormalizeSpelling(ls[i]); }
  }

  lemma TokensJoined(a: seq<PyToken>, b: seq<PyToken>)
    ensures NormalizeTokens(a + b) == NormalizeTokens(a) + NormalizeTokens(b)
  {}

  /** So legible text is read as its tokens with the quoted values rewritten. */
  lemma RewrittenTokens(ls: seq<Lexeme>)
    requires Legible(ls)
    ensures Tokenize(Normalize(Spell(ls))) == Some(NormalizeTokens(Toks(ls)))
  {
    NormalizeSpell(ls);
    TokenizeSpell(NormalizeLexemes(ls));
  }
}
