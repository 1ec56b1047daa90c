/** The second back end: native negation over a key that maps each label to one value (tkn20.cpp). */
module TwoBackEnds {
  import opened Text
  import opened Conditions
  import opened PolicyTree
  import opened PolicyCompiler
  import opened PolicyLexer
  import opened PolicyParser
  import opened KeyAttributes
  import opened PolicyPipeline
  import opened NativeKeys

  function StripQuotes(w: string): string {
    var front := if w != "" && w[0] == '"' then w[1..] else w;
    if front != "" && front[|front| - 1] == '"' then front[..|front| - 1] else front
  }

  /** A word without a colon that is no keyword stands for `word:word`. */
  function Widen(w: string): string {
    if IsKeyword(w) || ':' in w then w else w + ":" + w
  }

  function WidenAll(tokens: seq<Token>): seq<Token> {
    if tokens == [] then []
    else match tokens[0]
      case Word(w) =>
        var part := StripQuotes(w);
        (if part == "" then [] else [Word(Widen(part))]) + WidenAll(tokens[1..])
      case paren => [paren] + WidenAll(tokens[1..])
  }

  /** `not` before a bare word gets the parentheses the library's grammar wants. */
  function WrapNot(tokens: seq<Token>): seq<Token> {
    if tokens == [] then []
    else if tokens[0] == Word("not") && |tokens| > 1 && tokens[1] != Open
    then [Word("not"), Open, tokens[1], Close] + WrapNot(tokens[2..])
    else [tokens[0]] + WrapNot(tokens[1..])
  }

  /** The tokens of the converted policy. */
  function Convert(input: string): seq<Token> {
    WrapNot(WidenAll(Lex(input)))
  }

  function TokenTexts(tokens: seq<Token>): seq<string> {
    seq(|tokens|, i requires 0 <= i < |tokens| => TokenText(tokens[i]))
  }

  /** The text handed to the library: the tokens with single blanks between them. */
  function ConvertedText(input: string): string {
    Join(TokenTexts(Convert(input)), " ")
  }

  /** `convertPolicyToTKN20`: the lexer's loops, each word widened, the loop that wraps negations, and the loop that
      puts the blanks between. */
  method ConvertPolicy(input: string) returns (result: string)
    ensures result == ConvertedText(input)
  {
    var lexed, rendered := EnsureJsonString(input);
    var tokens := WidenTokens(lexed);
    var processed := WrapNegations(tokens);
    ConvertedNonEmpty(input);
    result := "";
    for k := 0 to |processed|
      invariant result == Join(TokenTexts(processed[..k]), " ") && (result == "" <==> k == 0)
    {
      TextsLast(processed, k);
      if result != "" { result := result + " "; }
      result := result + TokenText(processed[k]);
    }
    assert processed[..|processed|] == processed;
  }

  lemma TextsLast(tokens: seq<Token>, k: nat)
    requires k < |tokens|
    ensures Join(TokenTexts(tokens[..k + 1]), " ") ==
            if k == 0 then TokenText(tokens[0]) else Join(TokenTexts(tokens[..k]), " ") + " " + TokenText(tokens[k])
  {
    var front := TokenTexts(tokens[..k]);
    assert TokenTexts(tokens[..k + 1]) == front + [TokenText(tokens[k])];
    if k > 0 { JoinLast(front, TokenText(tokens[k]), " "); }
  }

  predicate NoEmptyWord(tokens: seq<Token>) {
    forall i | 0 <= i < |tokens| :: TokenText(tokens[i]) != ""
  }

  lemma ConvertedNonEmpty(input: string)
    ensures NoEmptyWord(Convert(input))
  {
    WidenedNonEmpty(Lex(input));
    WrappedNonEmpty(WidenAll(Lex(input)));
  }

  lemma {:induction false} WidenedNonEmpty(tokens: seq<Token>)
    ensures NoEmptyWord(WidenAll(tokens))
  {
    if tokens != [] { WidenedNonEmpty(tokens[1..]); }
  }

  lemma {:induction false} WrappedNonEmpty(tokens: seq<Token>)
    requires NoEmptyWord(tokens)
    ensures NoEmptyWord(WrapNot(tokens))
  {
    if tokens != [] {
      WrappedNonEmpty(tokens[1..]);
      if |tokens| > 1 { WrappedNonEmpty(tokens[2..]); }
    }
  }

  /** Reading the joined text gives the tokens back. */
  lemma {:induction false} TextReadsBack(tokens: seq<Token>)
    requires AllPlain(tokens)
    ensures Scan(Join(TokenTexts(tokens), " "), "") == tokens
  {
    if |tokens| == 1 {
      assert TokenTexts(tokens) == [TokenText(tokens[0])];
      TokenScanned(tokens[0], "");
      assert TokenText(tokens[0]) + "" == TokenText(tokens[0]) && Scan("", "") == [];
    } else if tokens != [] {
      var rest := Join(TokenTexts(tokens[1..]), " ");
      TextReadsBack(tokens[1..]);
      assert TokenTexts(tokens)[1..] == TokenTexts(tokens[1..]);
      assert Join(TokenTexts(tokens), " ") == TokenText(tokens[0]) + ([' '] + rest);
      TokenScanned(tokens[0], [' '] + rest);
      ScanStep(' ', rest);
    }
  }

  lemma TokenScanned(t: Token, rest: string)
    requires t.Word? ==> IsPlain(t.text) && Ends(rest)
    ensures Scan(TokenText(t) + rest, "") == [t] + Scan(rest, "")
  {
    match t
    case Open => ScanStep('(', rest);
    case Close => ScanStep(')', rest);
    case Word(w) => ScanOneWord(w, rest);
  }

  method WidenTokens(lexed: seq<Token>) returns (tokens: seq<Token>)
    ensures tokens == WidenAll(lexed)
  {
    tokens := [];
    for k := 0 to |lexed|
      invariant tokens + WidenAll(lexed[k..]) == WidenAll(lexed)
    {
      var more := WidenOne(lexed[k]);
      WidenNext(tokens, more, lexed, k);
      tokens := tokens + more;
    }
  }

  lemma WidenNext(tokens: seq<Token>, more: seq<Token>, lexed: seq<Token>, k: nat)
    requires k < |lexed| && forall rest :: WidenAll([lexed[k]] + rest) == more + WidenAll(rest)
    ensures tokens + WidenAll(lexed[k..]) == tokens + more + WidenAll(lexed[k + 1..])
  {
    assert lexed[k..] == [lexed[k]] + lexed[k + 1..];
    Associative(tokens, more, WidenAll(lexed[k + 1..]));
  }

  method WidenOne(token: Token) returns (more: seq<Token>)
    ensures forall rest :: WidenAll([token] + rest) == more + WidenAll(rest)
    ensures |more| <= 1
  {
    more := [token];
    match token {
      case Word(w) =>
        var part := StripQuotes(w);
        if part == "" {
          more := [];
        } else if IsKeyword(part) || ':' in part {
          more := [Word(part)];
        } else {
          more := [Word(part + ":" + part)];
        }
      case paren =>
    }
    forall rest ensures WidenAll([token] + rest) == more + WidenAll(rest) {
      assert ([token] + rest)[1..] == rest;
    }
  }

  method WrapNegations(tokens: seq<Token>) returns (processed: seq<Token>)
    ensures processed == WrapNot(tokens)
  {
    processed := [];
    var i := 0;
    while i < |tokens|
      invariant 0 <= i <= |tokens|
      invariant processed + WrapNot(tokens[i..]) == WrapNot(tokens)
    {
      assert tokens[i..][1..] == tokens[i + 1..];
      if tokens[i] == Word("not") && i + 1 < |tokens| && tokens[i + 1] != Open {
        assert tokens[i..][2..] == tokens[i + 2..];
        Associative(processed, [tokens[i], Open, tokens[i + 1], Close], WrapNot(tokens[i + 2..]));
        processed := processed + [tokens[i], Open, tokens[i + 1], Close];
        i := i + 2;
      } else {
        Associative(processed, [tokens[i]], WrapNot(tokens[i + 1..]));
        processed := processed + [tokens[i]];
        i := i + 1;
      }
    }
  }

  function WrappedTokens(t: Tree): seq<Token> {
    match t
    case NotLeaf(w) => [Word("not"), Open, Word(w), Close]
    case Gate(op, l, r) => [Open] + WrappedTokens(l) + [Word(ConnectorText(op))] + WrappedTokens(r) + [Close]
    case _ => Tokens(t)
  }

  lemma WordStaysPut(w: string)
    requires IsLeafWord(w) || IsKeyword(w)
    ensures StripQuotes(w) == w && Widen(w) == w && w != ""
  {
    if IsLeafWord(w) {
      LeafWordPlain(w);
      var k :| 0 <= k < |w| && w[k] == ':';
      assert ':' in w;
    }
  }

  /** The words of a tree and its connectives: what widening leaves alone. */
  predicate Settled(tokens: seq<Token>) {
    forall i | 0 <= i < |tokens| :: tokens[i].Word? ==> IsLeafWord(tokens[i].text) || IsKeyword(tokens[i].text)
  }

  lemma {:induction false} TokensSettled(t: Tree)
    requires LeafWords(t)
    ensures Settled(Tokens(t))
  {
    match t
    case Gate(op, l, r) =>
      TokensSettled(l);
      TokensSettled(r);
    case _ =>
  }

  lemma {:induction false} WidenSettled(tokens: seq<Token>)
    requires Settled(tokens)
    ensures WidenAll(tokens) == tokens
  {
    if tokens != [] {
      if tokens[0].Word? { WordStaysPut(tokens[0].text); }
      WidenSettled(tokens[1..]);
    }
  }

  lemma {:induction false} WrapTree(t: Tree, rest: seq<Token>)
    requires LeafWords(t)
    ensures WrapNot(Tokens(t) + rest) == WrappedTokens(t) + WrapNot(rest)
  {
    match t
    case Hole =>
      assert Tokens(t) + rest == rest;
    case Leaf(w) =>
      LeafWordNotKeyword(w);
      assert (Tokens(t) + rest)[1..] == rest;
    case NotLeaf(w) =>
      assert (Tokens(t) + rest)[2..] == rest;
    case Gate(op, l, r) =>
      var close := [Close] + rest;
      var middle := AfterLeftTokens(op, Tokens(r), rest);
      GateTokens(t, rest);
      WrapStep(Open, Tokens(l) + middle);
      WrapTree(l, middle);
      WrapStep(Word(ConnectorText(op)), Tokens(r) + close);
      WrapTree(r, close);
      WrapStep(Close, rest);
      Regroup([Open], WrappedTokens(l), [Word(ConnectorText(op))], WrappedTokens(r), [Close], WrapNot(rest));
  }

  lemma WrapStep(first: Token, rest: seq<Token>)
    requires first != Word("not")
    ensures WrapNot([first] + rest) == [first] + WrapNot(rest)
  {
    assert ([first] + rest)[1..] == rest;
  }

  lemma ParseWrappedNot(w: string, rest: seq<Token>)
    requires IsLeafWord(w)
    ensures ParseAtom([Word("not"), Open, Word(w), Close] + rest) == Some((NotLeaf(w), rest))
  {
    LeafWordNotKeyword(w);
    var inner := [Word(w)] + ([Close] + rest);
    assert inner[1..] == [Close] + rest;
    assert ParseAnd(inner) == AndTail(Leaf(w), [Close] + rest);
    assert ParseOr(inner) == OrTail(Leaf(w), [Close] + rest);
    ParseParens(inner);
    assert ([Close] + rest)[1..] == rest;
    assert ([Word("not"), Open, Word(w), Close] + rest)[1..] == [Open] + inner;
  }

  lemma {:induction false} ParseWrappedAtom(t: Tree, rest: seq<Token>)
    requires LeafWords(t) && Follows(rest)
    ensures ParseAtom(WrappedTokens(t) + rest) == if Complete(t) then Some((t, rest)) else None
  {
    match t
    case NotLeaf(w) =>
      ParseWrappedNot(w, rest);
    case Gate(op, l, r) =>
      ParseWrappedAtom(l, AfterLeftTokens(op, WrappedTokens(r), rest));
      ParseWrappedAtom(r, [Close] + rest);
      ParseGate(op, l, r, WrappedTokens(l), WrappedTokens(r), rest);
      WrappedGate(t, rest);
      ParseParens(WrappedTokens(l) + AfterLeftTokens(op, WrappedTokens(r), rest));
      assert ([Close] + rest)[1..] == rest;
    case _ =>
      ParseAtomTokens(t, rest);
  }

  lemma WrappedGate(t: Tree, rest: seq<Token>)
    requires t.Gate?
    ensures WrappedTokens(t) + rest ==
            [Open] + (WrappedTokens(t.left) + AfterLeftTokens(t.op, WrappedTokens(t.right), rest))
  {}

  lemma {:induction false} WrappedPlain(t: Tree)
    requires LeafWords(t)
    ensures AllPlain(WrappedTokens(t))
  {
    match t
    case Leaf(w) => LeafWordPlain(w);
    case NotLeaf(w) => LeafWordPlain(w);
    case Gate(op, l, r) =>
      WrappedPlain(l);
      WrappedPlain(r);
      PlainJoined([Open], WrappedTokens(l));
      PlainJoined([Open] + WrappedTokens(l), [Word(ConnectorText(op))]);
      PlainJoined([Open] + WrappedTokens(l) + [Word(ConnectorText(op))], WrappedTokens(r));
      PlainJoined([Open] + WrappedTokens(l) + [Word(ConnectorText(op))] + WrappedTokens(r), [Close]);
    case Hole =>
  }

  /** The converted text of a complete tree, negations included, reads as that tree. */
  lemma ConvertReadsBack(t: Tree)
    requires LeafWords(t)
    ensures Parse(Scan(ConvertedText(Print(t)), "")) == if Complete(t) then Some(t) else None
  {
    LexPrint(t);
    TokensSettled(t);
    WidenSettled(Tokens(t));
    WrapTree(t, []);
    assert Tokens(t) + [] == Tokens(t) && WrappedTokens(t) + [] == WrappedTokens(t);
    WrappedPlain(t);
    TextReadsBack(WrappedTokens(t));
    ParseWrappedAtom(t, []);
    assert ParseAnd(WrappedTokens(t)) == if Complete(t) then AndTail(t, []) else None;
    assert ParseOr(WrappedTokens(t)) == if Complete(t) then OrTail(t, []) else None;
  }

  // ---- keys with one value per label

  /** Native negation asks for the label to be present with another value. */
  predicate SatisfiesNative(key: map<string, string>, t: Tree) {
    match t
    case Leaf(w) => Label(w) in key && key[Label(w)] == ValueOf(w)
    case NotLeaf(w) => Label(w) in key && key[Label(w)] != ValueOf(w)
    case Gate(And, l, r) => SatisfiesNative(key, l) && SatisfiesNative(key, r)
    case Gate(Or, l, r) => SatisfiesNative(key, l) || SatisfiesNative(key, r)
    case Hole => false
  }

  predicate OpensNative(key: map<string, string>, text: string) {
    var t := Parse(Scan(ConvertedText(text), ""));
    t.Some? && SatisfiesNative(key, t.value)
  }

  predicate MayBeQuoted(text: string, w: string) {
    text == w || text == "\"" + w + "\""
  }

  /** Policies and keys of bare words: a bare word, quoted or not, is opened exactly by the keys that were given it. */
  lemma BareWordOpens(words: seq<string>, w: string, text: string)
    requires IsWord(w) && !IsKeyword(w) && MayBeQuoted(text, w) && forall i | 0 <= i < |words| :: IsWord(words[i])
    ensures OpensNative(NativeKey(Join(words, " ")), text) <==> w in words
  {
    BareConverted(text, w);
    BareReads(w);
    BareWordsKey(words);
    StandsFor(NativeKey(Join(words, " ")), words, w);
  }

  /** An empty word is dropped, and a `not` before a parenthesis is left as it is. */
  lemma LeftAlone(rest: seq<Token>)
    ensures ConvertedText("\"\"") == ""
    ensures WrapNot([Word("not"), Open] + rest) == [Word("not"), Open] + WrapNot(rest)
  {
    var quotes := "\"\"";
    assert Lower(quotes) == quotes && quotes + "" == quotes && Scan("", "") == [];
    ScanOneWord(quotes, "");
    assert StripQuotes(quotes) == "" && [Word(quotes)][1..] == [];
    assert ([Word("not"), Open] + rest)[1..] == [Open] + rest && ([Open] + rest)[1..] == rest;
  }

  lemma StandsFor(key: map<string, string>, words: seq<string>, w: string)
    requires StandFor(key, words) && ':' !in w
    ensures SatisfiesNative(key, Leaf(LeafText(w, w))) <==> w in words
  {
    LabelOfLeaf(w, w);
    if w in words { var i :| 0 <= i < |words| && words[i] == w; }
  }

  lemma BareReads(w: string)
    requires IsWord(w)
    ensures Parse(Scan(w + ":" + w, "")) == Some(Leaf(LeafText(w, w)))
  {
    var t := Leaf(LeafText(w, w));
    MakeLeafWord(w, w);
    ScanPrint(t, "");
    assert Print(t) + "" == Print(t) && Scan("", "") == [] && Tokens(t) + [] == Tokens(t);
    ParseTokens(t);
  }

  lemma BareConverted(text: string, w: string)
    requires IsWord(w) && !IsKeyword(w) && MayBeQuoted(text, w)
    ensures ConvertedText(text) == w + ":" + w
  {
    BareLexed(text, w);
    BareWidened(text, w);
    MakeLeafWord(w, w);
    LeafWordNotKeyword(LeafText(w, w));
    var wide := [Word(LeafText(w, w))];
    assert wide[1..] == [] && WrapNot(wide) == wide;
    assert TokenTexts(wide) == [LeafText(w, w)];
  }

  lemma BareLexed(text: string, w: string)
    requires IsWord(w) && MayBeQuoted(text, w)
    ensures Lex(text) == [Word(text)]
  {
    forall i | 0 <= i < |text| ensures !IsParen(text[i]) && !IsBlank(text[i]) && !('A' <= text[i] <= 'Z') {
      if text != w && 0 < i < |text| - 1 { assert text[i] == w[i - 1]; }
    }
    LowerOfWord(text);
    ScanOneWord(text, "");
    assert text + "" == text && Scan("", "") == [];
  }

  lemma BareWidened(text: string, w: string)
    requires IsWord(w) && !IsKeyword(w) && MayBeQuoted(text, w)
    ensures WidenAll([Word(text)]) == [Word(LeafText(w, w))]
  {
    assert StripQuotes(text) == w by {
      if text != w { assert text[1..] == w + "\"" && (w + "\"")[..|w|] == w; }
    }
    assert ':' !in w && [Word(text)][1..] == [];
  }

  lemma {:induction false} KeyMapOnly(words: seq<string>, name: string, value: string)
    requires forall w | w in words && Label(Lower(w)) == name :: ValueOf(Lower(w)) == value
    ensures name in KeyMap(words) <==> exists w | w in words :: Label(Lower(w)) == name
    ensures name in KeyMap(words) ==> KeyMap(words)[name] == value
  {
    if words != [] {
      var n := |words| - 1;
      MemberLast(words);
      KeyMapOnly(words[..n], name, value);
    }
  }

  lemma MemberLast(words: seq<string>)
    requires words != []
    ensures forall w :: w in words <==> w in words[..|words| - 1] || w == words[|words| - 1]
  {}

  /** The attribute has one value without capitals for this user, or none, and belongs to no hierarchy. */
  predicate Flat(u: User, attr: string) {
    Levels(attr) == [] &&
    match Lookup(u, attr)
    case One(Str(v)) => v == Lower(v)
    case One(Nothing) => true
    case _ => false
  }

  predicate FlatFor(c: Cond, u: User) {
    match c
    case BoolOp(_, values) => forall i | 0 <= i < |values| :: FlatFor(values[i], u)
    case Not(operand) => FlatFor(operand, u)
    case Compare(attr, _) => Flat(u, attr)
  }

  /** For a flat attribute the key map holds the user's own value, and nothing when there is none. */
  lemma FlatKeyMap(u: User, words: seq<string>, attr: string)
    requires WellFormedUser(u) && Enumerates(words, u) && Flat(u, attr) && IsWord(attr)
    ensures attr in KeyMap(words) <==> Lookup(u, attr).scalar.Str? && Lookup(u, attr).scalar.s != ""
    ensures attr in KeyMap(words) ==> KeyMap(words)[attr] == Lookup(u, attr).scalar.s
  {
    var own := if Lookup(u, attr).scalar.Str? then Lookup(u, attr).scalar.s else "";
    forall w | w in words && Label(Lower(w)) == attr
      ensures own != "" && ValueOf(Lower(w)) == own
    {
      var key, text :| key in u && Reaches(key, u[key], text) && w == LeafText(key, text);
      LowerLeaf(key, text);
      LabelOfLeaf(key, Lower(text));
    }
    KeyMapOnly(words, attr, own);
    if own != "" {
      assert Reaches(attr, u[attr], own);
      assert LeafText(attr, own) in words;
      LowerLeaf(attr, own);
      LabelOfLeaf(attr, own);
    }
  }

  lemma {:induction false} NativeChains(key: map<string, string>, attr: string, values: seq<string>)
    requires ':' !in attr
    ensures SatisfiesNative(key, OrChain(attr, values)) <==>
            attr in key && key[attr] in values
    ensures SatisfiesNative(key, NotChain(attr, values)) <==>
            attr in key && values != [] && key[attr] !in values
  {
    if values != [] {
      var n := |values| - 1;
      LabelOfLeaf(attr, values[n]);
      NativeChains(key, attr, values[..n]);
      assert forall v :: v in values <==> v in values[..n] || v == values[n];
    }
  }

  predicate IsNegative(test: Test) {
    test.NotEq? || test.NotIn?
  }

  /** The user has a non-empty value for the attribute. */
  predicate Held(u: User, attr: string) {
    match Lookup(u, attr)
    case One(Str(v)) => v != ""
    case _ => false
  }

  /** A leaf over native negation agrees with the evaluator exactly when, for `!=` and `not in`, the attribute is held;
      which values the definition lists does not matter. */
  lemma NativeLeafIff(attr: string, test: Test, defs: Definitions, u: User, words: seq<string>)
    requires Wordy(Compare(attr, test)) && WellFormedUser(u) && Enumerates(words, u) && Flat(u, attr)
    requires Compilable(Compare(attr, test), defs, Tkn20)
    ensures (SatisfiesNative(KeyMap(words), CompileLeaf(attr, test, defs, Tkn20)) <==>
            Passes(Lookup(u, attr), test)) <==>
            (IsNegative(test) ==> Held(u, attr))
  {
    FlatKeyMap(u, words, attr);
    NativeChains(KeyMap(words), attr, Accepted(defs, attr, test));
    NativeChains(KeyMap(words), attr, Excluded(test));
    if Lookup(u, attr).scalar.Str? {
      var own := Lookup(u, attr).scalar.s;
      assert forall xs :: IsOneOf(One(Str(own)), xs) <==> own in xs;
      assert own == "" ==> own !in TestConstants(test);
    }
  }

  /** The conditions and users on which the second back end decides as the evaluator does. */
  ghost predicate InScope(c: Cond, defs: Definitions, u: User) {
    WellFormed(c) && Wordy(c) && Compilable(c, defs, Tkn20) && FlatFor(c, u) && HeldWhereNegative(c, u)
  }

  predicate HeldWhereNegative(c: Cond, u: User) {
    match c
    case BoolOp(_, values) => forall i | 0 <= i < |values| :: HeldWhereNegative(values[i], u)
    case Not(operand) => HeldWhereNegative(operand, u)
    case Compare(attr, test) => IsNegative(test) ==> Held(u, attr)
  }

  lemma {:induction false} NativeDecides(c: Cond, defs: Definitions, u: User, words: seq<string>)
    requires InScope(c, defs, u) && WellFormedUser(u) && Enumerates(words, u)
    ensures SatisfiesNative(KeyMap(words), Compile(c, defs, Tkn20)) <==> Eval(c, u)
  {
    match c
    case BoolOp(op, values) =>
      NativeChain(KeyMap(words), op, values, defs);
      forall i | 0 <= i < |values|
        ensures SatisfiesNative(KeyMap(words), Compile(values[i], defs, Tkn20)) <==> Eval(values[i], u)
      {
        NativeDecides(values[i], defs, u, words);
      }
    case Not(_) =>
    case Compare(attr, test) => NativeLeafIff(attr, test, defs, u, words);
  }

  lemma {:induction false} NativeChain(key: map<string, string>, op: Connector, values: seq<Cond>, defs: Definitions)
    requires values != []
    ensures SatisfiesNative(key, CompileChain(op, values, defs, Tkn20)) <==>
            if op == And then forall i | 0 <= i < |values| :: SatisfiesNative(key, Compile(values[i], defs, Tkn20))
            else exists i | 0 <= i < |values| :: SatisfiesNative(key, Compile(values[i], defs, Tkn20))
  {
    var n := |values| - 1;
    if n > 0 {
      NativeChain(key, op, values[..n], defs);
      assert forall i | 0 <= i < n :: values[..n][i] == values[i];
      assert forall i | 0 <= i < |values| :: i < n || values[i] == values[n];
    }
  }

  /** The user holds a value that neither the definition lists nor the condition excludes. */
  predicate Unlisted(attr: string, test: Test, defs: Definitions, u: User) {
    match Lookup(u, attr)
    case One(Str(v)) => v != "" && v !in Excluded(test) && (attr !in defs || v !in defs[attr])
    case _ => false
  }

  /** On a leaf the two back ends part exactly at such a value of a negative test. Without the attribute both deny. */
  lemma LeavesPartIff(attr: string, test: Test, defs: Definitions, u: User, words: seq<string>)
    requires Wordy(Compare(attr, test)) && WordyDefinitions(defs) && Compilable(Compare(attr, test), defs, Tkn20)
    requires WellFormedUser(u) && Enumerates(words, u) && Flat(u, attr)
    ensures (Satisfies(Keygen(words), CompileLeaf(attr, test, defs, Ac17)) <==>
             SatisfiesNative(KeyMap(words), CompileLeaf(attr, test, defs, Tkn20))) <==>
            !(IsNegative(test) && Unlisted(attr, test, defs, u))
  {
    var accepted := Accepted(defs, attr, test);
    TruthfulIff(u, attr);
    KeyDecides(Compare(attr, test), defs, u, words);
    FlatKeyMap(u, words, attr);
    NativeChains(KeyMap(words), attr, accepted);
    NativeChains(KeyMap(words), attr, Excluded(test));
    forall v | v in accepted ensures v != "" && (Holds(u, attr, v) <==> Lookup(u, attr) == One(Str(v))) {
      AcceptedWordy(defs, attr, test, v);
      TruthfulHolds(u, attr, v);
    }
    if Lookup(u, attr).scalar.Str? {
      AcceptedExact(defs, attr, test, Lookup(u, attr).scalar.s);
    }
  }

  /** No negative test meets such a value. */
  predicate AllListed(c: Cond, defs: Definitions, u: User) {
    match c
    case BoolOp(_, values) => forall i | 0 <= i < |values| :: AllListed(values[i], defs, u)
    case Not(operand) => AllListed(operand, defs, u)
    case Compare(attr, test) => !(IsNegative(test) && Unlisted(attr, test, defs, u))
  }

  lemma {:induction false} TreesAgree(c: Cond, defs: Definitions, u: User, words: seq<string>)
    requires WellFormed(c) && Wordy(c) && WordyDefinitions(defs) && Compilable(c, defs, Tkn20)
    requires WellFormedUser(u) && Enumerates(words, u) && FlatFor(c, u) && AllListed(c, defs, u)
    ensures Satisfies(Keygen(words), Compile(c, defs, Ac17)) <==>
            SatisfiesNative(KeyMap(words), Compile(c, defs, Tkn20))
  {
    match c
    case BoolOp(op, values) =>
      ChainMeaning(Keygen(words), op, values, defs);
      NativeChain(KeyMap(words), op, values, defs);
      forall i | 0 <= i < |values|
        ensures Satisfies(Keygen(words), Compile(values[i], defs, Ac17)) <==>
                SatisfiesNative(KeyMap(words), Compile(values[i], defs, Tkn20))
      {
        TreesAgree(values[i], defs, u, words);
      }
    case Not(_) =>
    case Compare(attr, test) => LeavesPartIff(attr, test, defs, u, words);
  }

  /** Enumerated complement and native negation open the same texts to the same users, whether the evaluator allows
      them or not. */
  lemma BackEndsAgree(c: Cond, defs: Definitions, u: User, words: seq<string>)
    requires WellFormed(c) && Wordy(c) && WordyDefinitions(defs)
    requires Compilable(c, defs, Ac17) && Compilable(c, defs, Tkn20)
    requires WellFormedUser(u) && UnbrokenUser(u) && Enumerates(words, u) && FlatFor(c, u) && AllListed(c, defs, u)
    ensures Opens(Keygen(words), Print(Compile(c, defs, Ac17))) <==>
            OpensNative(NativeKey(Join(words, " ")), Print(Compile(c, defs, Tkn20)))
  {
    UserKeyMap(u, words);
    TreesAgree(c, defs, u, words);
    ReadableIffCompilable(c, defs);
    CompiledWordy(c, defs, Tkn20);
    CompleteIffCompilable(c, defs, Tkn20);
    ConvertReadsBack(Compile(c, defs, Tkn20));
  }
}
