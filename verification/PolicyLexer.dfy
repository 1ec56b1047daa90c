/** The policy lexer and the attribute splitter of the AC17 plugin (ac17.cpp). */
module PolicyLexer {
  import opened Text
  import opened Conditions
  import opened PolicyTree

  function Flush(word: string): seq<Token> {
    if word == "" then [] else [Word(word)]
  }

  predicate IsParen(c: char) {
    c == '(' || c == ')'
  }

  function ParenToken(c: char): Token {
    if c == '(' then Open else Close
  }

  /** Lexing in one pass, with the unfinished word carried along: what the two-index loops must compute. */
  function Scan(s: string, word: string): seq<Token> {
    if s == "" then Flush(word)
    else if IsParen(s[0]) then Flush(word) + [ParenToken(s[0])] + Scan(s[1..], "")
    else if IsBlank(s[0]) then Flush(word) + Scan(s[1..], "")
    else Scan(s[1..], word + [s[0]])
  }

  /** Text is lower-cased before it is lexed. */
  function Lex(input: string): seq<Token> {
    Scan(Lower(input), "")
  }

  /** How a token is handed to the library: words in quotes, parentheses bare. */
  function Quoted(t: Token): string {
    match t
    case Open => "("
    case Close => ")"
    case Word(w) => "\"" + w + "\""
  }

  function Render(tokens: seq<Token>): string {
    if tokens == [] then "" else Render(tokens[..|tokens| - 1]) + Quoted(tokens[|tokens| - 1]) + " "
  }

  /** The rendered tokens without the trailing blank. */
  function RenderTrimmed(tokens: seq<Token>): string {
    var s := Render(tokens);
    if s != "" && s[|s| - 1] == ' ' then s[..|s| - 1] else s
  }

  /** `ensureJsonString`: `iss >> token` outside, the indices `start` and `end` inside. */
  method EnsureJsonString(input: string) returns (tokens: seq<Token>, output: string)
    ensures tokens == Lex(input)
    ensures output == RenderTrimmed(Lex(input))
  {
    var lower := Lower(input);
    tokens := [];
    var pos := SkipBlanks(lower, 0);
    while pos < |lower|
      invariant 0 <= pos <= |lower|
      invariant pos < |lower| ==> !IsBlank(lower[pos])
      invariant tokens + Scan(lower[pos..], "") == Lex(input)
      decreases |lower| - pos
    {
      var stop := WordEnd(lower, pos);
      var more := SplitAtParens(lower, pos, stop);
      tokens := tokens + more;
      pos := SkipBlanks(lower, stop);
    }
    output := RenderLoop(tokens);
    if output != "" && output[|output| - 1] == ' ' {
      output := output[..|output| - 1];
    }
  }

  /** The loop over the tokens found. */
  method RenderLoop(tokens: seq<Token>) returns (output: string)
    ensures output == Render(tokens)
  {
    output := "";
    for k := 0 to |tokens|
      invariant output == Render(tokens[..k])
    {
      assert tokens[..k + 1][..k] == tokens[..k];
      output := output + (Quoted(tokens[k]) + " ");
    }
    assert tokens[..|tokens|] == tokens;
  }

  method SkipBlanks(s: string, from: nat) returns (pos: nat)
    requires from <= |s|
    ensures from <= pos <= |s| && (pos < |s| ==> !IsBlank(s[pos]))
    ensures Scan(s[pos..], "") == Scan(s[from..], "")
  {
    pos := from;
    while pos < |s| && IsBlank(s[pos])
      invariant from <= pos <= |s|
      invariant Scan(s[pos..], "") == Scan(s[from..], "")
    {
      assert s[pos..][1..] == s[pos + 1..];
      pos := pos + 1;
    }
  }

  method WordEnd(s: string, from: nat) returns (stop: nat)
    requires from < |s| && !IsBlank(s[from])
    ensures from < stop <= |s| && (stop < |s| ==> IsBlank(s[stop]))
    ensures forall i | from <= i < stop :: !IsBlank(s[i])
  {
    stop := from;
    while stop < |s| && !IsBlank(s[stop])
      invariant from <= stop <= |s|
      invariant forall i | from <= i < stop :: !IsBlank(s[i])
    {
      stop := stop + 1;
    }
  }

  function WithWord(tokens: seq<Token>, word: string): seq<Token> {
    if word == "" then tokens else tokens + [Word(word)]
  }

  /** The inner loop over one blank-free stretch `s[from..stop]`. */
  method SplitAtParens(s: string, from: nat, stop: nat) returns (tokens: seq<Token>)
    requires from < stop <= |s| && (stop < |s| ==> IsBlank(s[stop]))
    requires forall i | from <= i < stop :: !IsBlank(s[i])
    ensures tokens + Scan(s[stop..], "") == Scan(s[from..], "")
  {
    var token := s[from..stop];
    tokens := [];
    var start, end := 0, 0;
    while end < |token|
      invariant 0 <= start <= end <= |token|
      invariant tokens + Scan(s[from + end..], token[start..end]) == Scan(s[from..], "")
    {
      ScanNext(s, from + end, token[start..end], tokens);
      GrowOrEmpty(token, start, end);
      if token[end] == '(' || token[end] == ')' {
        if start != end {
          tokens := tokens + [Word(token[start..end])];
        }
        tokens := tokens + [ParenToken(token[end])];
        start := end + 1;
      }
      end := end + 1;
    }
    ScanLast(s[stop..], token[start..end], tokens);
    if start != end {
      tokens := tokens + [Word(token[start..end])];
    }
  }

  lemma GrowOrEmpty(token: string, start: nat, end: nat)
    requires start <= end < |token|
    ensures token[start..end + 1] == token[start..end] + [token[end]] && token[end + 1..end + 1] == ""
  {}

  lemma ScanLast(rest: string, word: string, tokens: seq<Token>)
    requires rest == "" || IsBlank(rest[0])
    ensures tokens + Scan(rest, word) == WithWord(tokens, word) + Scan(rest, "")
  {
    ScanFlush(rest, word);
    Associative(tokens, Flush(word), Scan(rest, ""));
    assert tokens + [] == tokens;
  }

  /** One non-blank character further: a parenthesis ends the word, anything else joins it. */
  lemma ScanNext(s: string, at: nat, word: string, tokens: seq<Token>)
    requires at < |s| && !IsBlank(s[at])
    ensures tokens + Scan(s[at..], word) ==
            if IsParen(s[at])
            then WithWord(tokens, word) + [ParenToken(s[at])] + Scan(s[at + 1..], "")
            else tokens + Scan(s[at + 1..], word + [s[at]])
  {
    assert s[at..][1..] == s[at + 1..];
    if IsParen(s[at]) {
      var rest := Scan(s[at + 1..], "");
      assert tokens + (Flush(word) + [ParenToken(s[at])] + rest) == tokens + Flush(word) + [ParenToken(s[at])] + rest;
      assert tokens + [] == tokens;
    }
  }

  /** Where a word ends, it is emitted. */
  lemma ScanFlush(rest: string, word: string)
    requires rest == "" || IsParen(rest[0]) || IsBlank(rest[0])
    ensures Scan(rest, word) == Flush(word) + Scan(rest, "")
  {}

  /** Plain characters pile up in the unfinished word. */
  lemma {:induction false} ScanWord(run: string, rest: string, word: string)
    requires forall i | 0 <= i < |run| :: !IsParen(run[i]) && !IsBlank(run[i])
    ensures Scan(run + rest, word) == Scan(rest, word + run)
  {
    if run == "" {
      assert run + rest == rest && word + run == word;
    } else {
      assert (run + rest)[1..] == run[1..] + rest;
      ScanWord(run[1..], rest, word + [run[0]]);
      assert word + [run[0]] + run[1..] == word + run;
    }
  }

  predicate Ends(rest: string) {
    rest == "" || IsParen(rest[0]) || IsBlank(rest[0])
  }

  lemma ScanOneWord(word: string, rest: string)
    requires word != "" && forall i | 0 <= i < |word| :: !IsParen(word[i]) && !IsBlank(word[i])
    requires Ends(rest)
    ensures Scan(word + rest, "") == [Word(word)] + Scan(rest, "")
  {
    ScanWord(word, rest, "");
    assert "" + word == word;
    ScanFlush(rest, word);
  }

  lemma LeafWordPlain(w: string)
    requires IsLeafWord(w)
    ensures w != "" && forall i | 0 <= i < |w| :: !IsParen(w[i]) && !IsBlank(w[i]) && (IsWordChar(w[i]) || w[i] == ':')
  {
    var k :| 0 <= k < |w| && w[k] == ':' && IsWord(w[..k]) && IsWord(w[k + 1..]);
    forall i | 0 <= i < |w| ensures IsWordChar(w[i]) || w[i] == ':' {
      if i < k { assert w[i] == w[..k][i]; }
      if i > k { assert w[i] == w[k + 1..][i - (k + 1)]; }
    }
  }

  /** Lexing the print of a tree gives the tree's words and parentheses, in order. */
  lemma {:induction false} ScanPrint(t: Tree, rest: string)
    requires LeafWords(t) && Ends(rest)
    ensures Scan(Print(t) + rest, "") == Tokens(t) + Scan(rest, "")
  {
    match t
    case Hole =>
      assert Print(t) + rest == rest;
    case Leaf(w) =>
      LeafWordPlain(w);
      ScanOneWord(w, rest);
    case NotLeaf(w) =>
      ScanNotLeaf(w, rest);
    case Gate(op, l, r) =>
      PrintGate(t, rest);
      ScanPrint(l, AfterLeft(op, Print(r), rest));
      ScanPrint(r, [')'] + rest);
      ScanGate(Print(l), Tokens(l), op, Print(r), Tokens(r), rest);
  }

  /** The text that follows the left operand of a gate. */
  function AfterLeft(op: Connector, right: string, rest: string): string {
    [' '] + (ConnectorText(op) + ([' '] + (right + ([')'] + rest))))
  }

  lemma PrintGate(t: Tree, rest: string)
    requires t.Gate?
    ensures Print(t) + rest == ['('] + (Print(t.left) + AfterLeft(t.op, Print(t.right), rest))
  {}

  lemma ScanGate(left: string, leftTokens: seq<Token>, op: Connector, right: string, rightTokens: seq<Token>,
      rest: string)
    requires Scan(left + AfterLeft(op, right, rest), "") == leftTokens + Scan(AfterLeft(op, right, rest), "")
    requires Scan(right + ([')'] + rest), "") == rightTokens + Scan([')'] + rest, "")
    ensures Scan(['('] + (left + AfterLeft(op, right, rest)), "") ==
            [Open] + leftTokens + [Word(ConnectorText(op))] + rightTokens + [Close] + Scan(rest, "")
  {
    var tail := right + ([')'] + rest);
    ScanStep('(', left + AfterLeft(op, right, rest));
    ScanConnector(op, tail);
    ScanStep(')', rest);
    Regroup([Open], leftTokens, [Word(ConnectorText(op))], rightTokens, [Close], Scan(rest, ""));
  }

  lemma ScanConnector(op: Connector, tail: string)
    ensures Scan([' '] + (ConnectorText(op) + ([' '] + tail)), "") == [Word(ConnectorText(op))] + Scan(tail, "")
  {
    ScanStep(' ', ConnectorText(op) + ([' '] + tail));
    ScanOneWord(ConnectorText(op), [' '] + tail);
    ScanStep(' ', tail);
  }

  lemma ScanStep(c: char, rest: string)
    requires IsParen(c) || IsBlank(c)
    ensures Scan([c] + rest, "") == (if IsParen(c) then [ParenToken(c)] else []) + Scan(rest, "")
  {
    assert ([c] + rest)[1..] == rest;
  }

  lemma ScanNotLeaf(w: string, rest: string)
    requires IsLeafWord(w) && Ends(rest)
    ensures Scan("not " + w + rest, "") == [Word("not"), Word(w)] + Scan(rest, "")
  {
    LeafWordPlain(w);
    assert "not " + w + rest == "not" + ([' '] + (w + rest));
    ScanOneWord("not", [' '] + (w + rest));
    ScanStep(' ', w + rest);
    ScanOneWord(w, rest);
  }

  lemma Regroup<T>(a: seq<T>, b: seq<T>, c: seq<T>, d: seq<T>, e: seq<T>, f: seq<T>)
    ensures a + (b + (c + (d + (e + f)))) == a + b + c + d + e + f
  {}

  predicate NoCapitals(s: string) {
    forall i | 0 <= i < |s| :: !('A' <= s[i] <= 'Z')
  }

  lemma NoCapitalsConcat(a: string, b: string)
    requires NoCapitals(a) && NoCapitals(b)
    ensures NoCapitals(a + b)
  {}

  lemma {:induction false} PrintLower(t: Tree)
    requires LeafWords(t)
    ensures NoCapitals(Print(t))
  {
    match t
    case Leaf(w) => LeafWordPlain(w);
    case NotLeaf(w) => LeafWordPlain(w);
    case Gate(op, l, r) =>
      PrintLower(l);
      PrintLower(r);
      var front := "(" + Print(l) + " " + ConnectorText(op) + " ";
      NoCapitalsConcat(front, Print(r));
    case Hole =>
  }

  lemma LexPrint(t: Tree)
    requires LeafWords(t)
    ensures Lex(Print(t)) == Tokens(t)
  {
    PrintLower(t);
    LowerOfWord(Print(t));
    ScanPrint(t, "");
    assert Print(t) + "" == Print(t);
  }

  // ---- nothing but blanks is dropped, whatever the input

  function TokenText(t: Token): string {
    match t
    case Open => "("
    case Close => ")"
    case Word(w) => w
  }

  function Flatten(tokens: seq<Token>): string {
    if tokens == [] then "" else TokenText(tokens[0]) + Flatten(tokens[1..])
  }

  function WithoutBlanks(s: string): string {
    if s == "" then ""
    else if IsBlank(s[0]) then WithoutBlanks(s[1..])
    else [s[0]] + WithoutBlanks(s[1..])
  }

  lemma {:induction false} FlattenConcat(a: seq<Token>, b: seq<Token>)
    ensures Flatten(a + b) == Flatten(a) + Flatten(b)
  {
    if a == [] {
      assert a + b == b;
    } else {
      assert (a + b)[1..] == a[1..] + b;
      FlattenConcat(a[1..], b);
    }
  }

  lemma {:induction false} ScanKeepsText(s: string, word: string)
    ensures Flatten(Scan(s, word)) == word + WithoutBlanks(s)
    decreases s
  {
    if s != "" {
      var tail := s[1..];
      if IsParen(s[0]) {
        FlattenConcat(Flush(word) + [ParenToken(s[0])], Scan(tail, ""));
        FlattenConcat(Flush(word), [ParenToken(s[0])]);
        FlattenFlush(word);
        ScanKeepsText(tail, "");
        Associative(word, [s[0]], WithoutBlanks(tail));
      } else if IsBlank(s[0]) {
        FlattenConcat(Flush(word), Scan(tail, ""));
        FlattenFlush(word);
        ScanKeepsText(tail, "");
      } else {
        ScanKeepsText(tail, word + [s[0]]);
        Associative(word, [s[0]], WithoutBlanks(tail));
      }
    } else {
      FlattenFlush(word);
    }
  }

  lemma FlattenFlush(word: string)
    ensures Flatten(Flush(word)) == word
    ensures Flatten([Open]) == "(" && Flatten([Close]) == ")"
  {
    assert [Word(word)][1..] == [] && [Open][1..] == [] && [Close][1..] == [];
  }

  /** On any input the tokens, run together, are the lower-cased input without its blanks,
      and no word is empty or holds a blank or a parenthesis. */
  lemma LexDropsOnlyBlanks(input: string)
    ensures Flatten(Lex(input)) == WithoutBlanks(Lower(input))
    ensures AllPlain(Lex(input))
  {
    ScanKeepsText(Lower(input), "");
    ScanWordsPlain(Lower(input), "");
  }

  predicate IsPlain(w: string) {
    w != "" && forall i | 0 <= i < |w| :: !IsParen(w[i]) && !IsBlank(w[i])
  }

  predicate AllPlain(tokens: seq<Token>) {
    forall i | 0 <= i < |tokens| :: tokens[i].Word? ==> IsPlain(tokens[i].text)
  }

  lemma PlainJoined(s: seq<Token>, t: seq<Token>)
    requires AllPlain(s) && AllPlain(t)
    ensures AllPlain(s + t)
  {}

  lemma {:induction false} ScanWordsPlain(s: string, word: string)
    requires word != "" ==> IsPlain(word)
    ensures AllPlain(Scan(s, word))
    decreases s
  {
    if s != "" {
      ScanWordsPlain(s[1..], if IsParen(s[0]) || IsBlank(s[0]) then "" else word + [s[0]]);
    }
  }

  /** Six characters separate words, and capitals become small letters. */
  lemma BlanksSeparate(a: string, c: char, b: string)
    requires IsWord(a) && IsWord(b) && c in {' ', '\t', '\n', '\r', '\U{000B}', '\U{000C}'}
    ensures Lex(a + ([c] + b)) == [Word(a), Word(b)] && Lex("AND") == [Word("and")]
  {
    LowerOfWord(a + ([c] + b));
    ScanOneWord(a, [c] + b);
    ScanStep(c, b);
    ScanLoneWord(b);
    assert Lower("AND") == "and";
    ScanLoneWord("and");
  }

  /** Parentheses separate words without any blank. */
  lemma ParensSeparate(a: string, b: string)
    requires IsWord(a) && IsWord(b)
    ensures Lex(['('] + (a + ([')'] + b))) == [Open, Word(a), Close, Word(b)]
  {
    LowerOfWord(['('] + (a + ([')'] + b)));
    ScanStep('(', a + ([')'] + b));
    ScanOneWord(a, [')'] + b);
    ScanStep(')', b);
    ScanLoneWord(b);
  }

  lemma ScanLoneWord(w: string)
    requires IsWord(w)
    ensures Scan(w, "") == [Word(w)]
  {
    ScanOneWord(w, "");
    assert w + "" == w && Scan("", "") == [];
  }

  // ---- the rendered text

  function QuotedAll(tokens: seq<Token>): seq<string> {
    seq(|tokens|, i requires 0 <= i < |tokens| => Quoted(tokens[i]))
  }

  lemma {:induction false} RenderJoins(tokens: seq<Token>)
    ensures RenderTrimmed(tokens) == Join(QuotedAll(tokens), " ")
    ensures tokens != [] ==> Render(tokens) == Join(QuotedAll(tokens), " ") + " "
  {
    if tokens != [] {
      var n := |tokens| - 1;
      RenderJoins(tokens[..n]);
      QuotedLast(tokens);
      WithoutLastBlank(Join(QuotedAll(tokens), " "));
    }
  }

  lemma QuotedLast(tokens: seq<Token>)
    requires tokens != []
    ensures var n := |tokens| - 1;
            Join(QuotedAll(tokens), " ") ==
            (if n == 0 then "" else Join(QuotedAll(tokens[..n]), " ") + " ") + Quoted(tokens[n])
  {
    var n := |tokens| - 1;
    var front, last := QuotedAll(tokens[..n]), Quoted(tokens[n]);
    assert QuotedAll(tokens) == front + [last];
    if n == 0 { assert front + [last] == [last]; } else { JoinLast(front, last, " "); }
  }

  lemma WithoutLastBlank(s: string)
    ensures (s + " ")[..|s|] == s && (s + " ")[|s|] == ' '
  {}

  /** What the library is given determines the tokens: connectives are quoted like attributes there, and whoever reads
      the text has to take a quoted connective for a connective. */
  lemma RenderedTokens(a: string, b: string)
    requires RenderTrimmed(Lex(a)) == RenderTrimmed(Lex(b))
    ensures Lex(a) == Lex(b)
  {
    LexDropsOnlyBlanks(a);
    LexDropsOnlyBlanks(b);
    SameRendered(Lex(a), Lex(b));
  }

  lemma SameRendered(s: seq<Token>, t: seq<Token>)
    requires AllPlain(s) && AllPlain(t)
    requires RenderTrimmed(s) == RenderTrimmed(t)
    ensures s == t
  {
    RenderJoins(s);
    RenderJoins(t);
    QuotedSplit(s);
    QuotedSplit(t);
    assert QuotedAll(s) == QuotedAll(t);
    forall i | 0 <= i < |s| ensures s[i] == t[i] {
      assert QuotedAll(s)[i] == QuotedAll(t)[i];
      SameQuoted(s[i], t[i]);
    }
  }

  lemma SameQuoted(s: Token, t: Token)
    requires Quoted(s) == Quoted(t)
    ensures s == t
  {
    if s.Word? && t.Word? {
      assert s.text == Quoted(s)[1..|Quoted(s)| - 1] == t.text;
    }
  }

  /** The pieces between the blanks, and none in the empty text. */
  lemma QuotedSplit(tokens: seq<Token>)
    requires AllPlain(tokens)
    ensures QuotedAll(tokens) == if RenderTrimmed(tokens) == "" then [] else Split(RenderTrimmed(tokens), ' ')
  {
    RenderJoins(tokens);
    if tokens != [] {
      var parts := QuotedAll(tokens);
      forall i | 0 <= i < |parts| ensures ' ' !in parts[i] && parts[i] != "" {
        QuotedBlankFree(tokens[i]);
      }
      assert [' '] == " ";
      SplitJoin(parts, ' ');
      assert |Join(parts, " ")| >= |parts[0]|;
    }
  }

  lemma QuotedBlankFree(t: Token)
    requires t.Word? ==> IsPlain(t.text)
    ensures ' ' !in Quoted(t) && Quoted(t) != ""
  {
    if t.Word? { assert ' ' !in t.text by { assert forall i | 0 <= i < |t.text| :: !IsBlank(t.text[i]); } }
  }

  // ---- attributes

  /** The blank-separated fields of an attribute string; only the space separates. */
  function Fields(s: string): seq<string> {
    NonEmpty(Split(s, ' '))
  }

  function NonEmpty(parts: seq<string>): seq<string> {
    if parts == [] then []
    else (if parts[0] == "" then [] else [parts[0]]) + NonEmpty(parts[1..])
  }

  lemma FieldsStep(s: string)
    ensures var n := Find(s, ' ');
            Fields(s) == (if s[..n] == "" then [] else [s[..n]]) + (if n == |s| then [] else Fields(s[n + 1..]))
  {
    var n := Find(s, ' ');
    assert s[..|s|] == s;
    SplitStep(s, ' ');
    NonEmptyStep(Split(s, ' '));
    assert n == |s| ==> [s[..n]][1..] == [] && NonEmpty([]) == [];
  }

  lemma SplitStep(s: string, c: char)
    ensures var n := Find(s, c);
            Split(s, c) != [] && Split(s, c)[0] == s[..n] &&
            Split(s, c)[1..] == if n == |s| then [] else Split(s[n + 1..], c)
  {
    assert s[..|s|] == s;
  }

  lemma NonEmptyStep(parts: seq<string>)
    requires parts != []
    ensures NonEmpty(parts) == (if parts[0] == "" then [] else [parts[0]]) + NonEmpty(parts[1..])
  {}

  /** `splitAttributes`: `getline` up to each space, empty items skipped. */
  method SplitAttributes(input: string) returns (result: seq<string>)
    ensures result == Fields(input)
  {
    result := [];
    var rest, more := input, true;
    while more
      invariant result + (if more then Fields(rest) else []) == Fields(input)
      decreases more, |rest|
    {
      FieldsAfter(result, rest);
      var n := Find(rest, ' ');
      if rest[..n] != "" { result := result + [rest[..n]]; }
      if n == |rest| {
        more := false;
      } else {
        rest := rest[n + 1..];
      }
    }
  }

  lemma FieldsAfter(result: seq<string>, s: string)
    ensures var n := Find(s, ' ');
            result + Fields(s) ==
            (if s[..n] != "" then result + [s[..n]] else result) + (if n == |s| then [] else Fields(s[n + 1..]))
  {
    FieldsStep(s);
    var n := Find(s, ' ');
    Associative(result, if s[..n] == "" then [] else [s[..n]], if n == |s| then [] else Fields(s[n + 1..]));
    assert s[..n] == "" ==> result + [] == result;
  }

  /** A blank joins the fields on its two sides. */
  lemma {:induction false} FieldsJoined(a: string, b: string)
    ensures Fields(a + ([' '] + b)) == Fields(a) + Fields(b)
    decreases |a|
  {
    var n := Find(a, ' ');
    FindFirst(a, ' ');
    if n == |a| {
      FieldsStep(a);
      FieldsBehind(a, b);
      assert a[..n] == a;
    } else {
      var first, rest := a[..n], a[n + 1..];
      assert a == first + ([' '] + rest);
      assert a + ([' '] + b) == first + ([' '] + (rest + ([' '] + b)));
      FieldsBehind(first, rest);
      FieldsBehind(first, rest + ([' '] + b));
      FieldsJoined(rest, b);
      Associative(if first == "" then [] else [first], Fields(rest), Fields(b));
    }
  }

  /** The first field, and the fields behind the first blank. */
  lemma FieldsBehind(first: string, rest: string)
    requires ' ' !in first
    ensures Fields(first + ([' '] + rest)) == (if first == "" then [] else [first]) + Fields(rest)
  {
    var s := first + ([' '] + rest);
    FindExact(first, [' '] + rest, ' ');
    FieldsStep(s);
    assert s[..|first|] == first && s[|first| + 1..] == rest;
  }

  /** A word without a blank is its only field. */
  lemma FieldsOne(w: string)
    requires w != "" && ' ' !in w
    ensures Fields(w) == [w]
  {
    FieldsStep(w);
    FindExact(w, "", ' ');
    assert w + "" == w && w[..|w|] == w;
  }
}
