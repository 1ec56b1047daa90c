/** The attribute text of the second back end and the map its key generation reads from it (tkn20.cpp,
    cpabe_tkn20.go). */
module NativeKeys {
  import opened Text
  import opened Conditions
  import opened PolicyTree
  import opened KeyAttributes

  predicate NotBlank(c: char) {
    !IsBlank(c)
  }

  /** What `iss >> word` extracts, one after the other. */
  function Words(s: string): seq<string>
    decreases |s|
  {
    var t := StripLeft(s);
    if t == "" then []
    else
      var n := Span(t, NotBlank);
      StripLeftStops(s);
      [t[..n]] + Words(t[n..])
  }

  lemma {:induction false} StripLeftStops(s: string)
    ensures |StripLeft(s)| <= |s| && (StripLeft(s) != "" ==> !IsBlank(StripLeft(s)[0]))
  {
    if s != "" && IsBlank(s[0]) { StripLeftStops(s[1..]); }
  }

  /** A word without a colon stands for `word:word`. */
  function Pair(w: string): string {
    if ':' in w then w else w + ":" + w
  }

  function PairAll(words: seq<string>): seq<string> {
    seq(|words|, i requires 0 <= i < |words| => Pair(words[i]))
  }

  function AttributeText(attrs: string): string {
    Join(PairAll(Words(Lower(attrs))), ",")
  }

  /** `convertAttrsToTKN20`: blank-separated words become comma-separated pairs. */
  method ConvertAttrs(attrs: string) returns (result: string)
    ensures result == AttributeText(attrs)
  {
    var lower := Lower(attrs);
    var rest := StripLeft(lower);
    ghost var done: seq<string> := [];
    result := "";
    StripTwice(lower);
    while rest != ""
      invariant done + Words(rest) == Words(lower) && rest == StripLeft(rest)
      invariant result == Join(PairAll(done), ",") && (result == "" <==> done == [])
      decreases |rest|
    {
      var n := Span(rest, NotBlank);
      WordsStep(rest);
      Associative(done, [rest[..n]], Words(StripLeft(rest[n..])));
      PairLast(done, rest[..n]);
      if result != "" { result := result + ","; }
      result := result + Pair(rest[..n]);
      done := done + [rest[..n]];
      rest := StripLeft(rest[n..]);
    }
    assert Words("") == [] && done + [] == done;
  }

  lemma WordsStep(rest: string)
    requires rest != "" && rest == StripLeft(rest)
    ensures var n := Span(rest, NotBlank);
            var next := StripLeft(rest[n..]);
            Words(rest) == [rest[..n]] + Words(next) && StripLeft(next) == next && |next| < |rest|
  {
    var n := Span(rest, NotBlank);
    StripLeftStops(rest);
    StripLeftStops(rest[n..]);
    StripTwice(rest[n..]);
  }

  lemma StripTwice(s: string)
    ensures StripLeft(StripLeft(s)) == StripLeft(s) && Words(StripLeft(s)) == Words(s)
  {
    StripLeftStops(s);
  }

  lemma PairLast(done: seq<string>, word: string)
    ensures Pair(word) != ""
    ensures Join(PairAll(done + [word]), ",") ==
            if done == [] then Pair(word) else Join(PairAll(done), ",") + "," + Pair(word)
  {
    assert PairAll(done + [word]) == PairAll(done) + [Pair(word)];
    if done == [] {
      assert PairAll(done) + [Pair(word)] == [Pair(word)];
    } else {
      JoinLast(PairAll(done), Pair(word), ",");
    }
  }

  /** One pair enters the map under its trimmed label, whatever was there before. */
  function Enter(m: map<string, string>, pair: string): map<string, string> {
    m[Trim(Label(pair)) := Trim(ValueOf(pair))]
  }

  function EnterAll(pairs: seq<string>): map<string, string> {
    if pairs == [] then map[] else Enter(EnterAll(pairs[..|pairs| - 1]), pairs[|pairs| - 1])
  }

  /** The key generated from an attribute string, as far as satisfaction goes. */
  function NativeKey(attrs: string): map<string, string> {
    var text := AttributeText(attrs);
    if text == "" then map[] else EnterAll(Split(text, ','))
  }

  /** The loop of `TKN20_KeyGen` behind the conversion. */
  method KeyGen(attrs: string) returns (attrMap: map<string, string>)
    ensures attrMap == NativeKey(attrs)
  {
    var text := ConvertAttrs(attrs);
    attrMap := map[];
    if text != "" {
      attrMap := EnterPairs(Split(text, ','));
    }
  }

  method EnterPairs(pairs: seq<string>) returns (attrMap: map<string, string>)
    ensures attrMap == EnterAll(pairs)
  {
    attrMap := map[];
    for k := 0 to |pairs|
      invariant attrMap == EnterAll(pairs[..k])
    {
      assert pairs[..k + 1][..k] == pairs[..k];
      attrMap := EnterPair(attrMap, pairs[k]);
    }
    assert pairs[..|pairs|] == pairs;
  }

  /** `SplitN(pair, ":", 2)` and its two cases. */
  method EnterPair(attrMap: map<string, string>, pair: string) returns (r: map<string, string>)
    ensures r == Enter(attrMap, pair)
  {
    var n := Find(pair, ':');
    if n < |pair| {
      r := attrMap[Trim(pair[..n]) := Trim(pair[n + 1..])];
    } else {
      assert pair[..n] == pair && Trim("") == "";
      r := attrMap[Trim(pair) := ""];
    }
  }

  // ---- what the text carries

  /** No blank and no comma that would cut a word in two. */
  predicate Unbroken(s: string) {
    forall i | 0 <= i < |s| :: !IsBlank(s[i]) && s[i] != ','
  }

  /** `attrMap[label] = value` over the words in order: the last word of a label wins. */
  function KeyMap(words: seq<string>): map<string, string> {
    if words == [] then map[]
    else
      var last := Lower(words[|words| - 1]);
      KeyMap(words[..|words| - 1])[Label(last) := ValueOf(last)]
  }

  lemma {:induction false} SpanAll(s: string, rest: string)
    requires (forall i | 0 <= i < |s| :: NotBlank(s[i])) && (rest != "" ==> IsBlank(rest[0]))
    ensures Span(s + rest, NotBlank) == |s|
  {
    SpanExact(s, rest, NotBlank);
  }

  lemma WordsFirst(first: string, rest: string)
    requires first != "" && Unbroken(first) && (rest != "" ==> IsBlank(rest[0]))
    ensures Words(first + rest) == [first] + Words(rest)
  {
    var s := first + rest;
    assert s[0] == first[0];
    SpanAll(first, rest);
    assert s[..|first|] == first && s[|first|..] == rest;
  }

  /** The words of a joined text are the words that were joined. */
  lemma {:induction false} WordsJoin(words: seq<string>)
    requires forall i | 0 <= i < |words| :: words[i] != "" && Unbroken(words[i])
    ensures Words(Join(words, " ")) == words
  {
    if |words| == 1 {
      WordsFirst(words[0], "");
      assert words[0] + "" == words[0] && Words("") == [] && words == [words[0]] + [];
    } else if words != [] {
      var tail := Join(words[1..], " ");
      WordsJoin(words[1..]);
      WordsFirst(words[0], " " + tail);
      WordsAfterBlank(tail);
      assert Join(words, " ") == words[0] + (" " + tail);
    }
  }

  lemma WordsAfterBlank(s: string)
    ensures Words(" " + s) == Words(s)
  {
    assert (" " + s)[1..] == s;
    StripTwice(s);
    StripTwice(" " + s);
  }

  lemma TrimUnbroken(s: string)
    requires Unbroken(s)
    ensures Trim(s) == s
  {}

  lemma {:induction false} EnterAllIsKeyMap(words: seq<string>)
    requires forall i | 0 <= i < |words| :: Unbroken(words[i])
    ensures EnterAll(LowerAll(words)) == KeyMap(words)
  {
    if words != [] {
      var n := |words| - 1;
      var last := Lower(words[n]);
      EnterAllIsKeyMap(words[..n]);
      assert LowerAll(words)[..n] == LowerAll(words[..n]);
      assert Unbroken(last);
      TrimUnbroken(Label(last));
      TrimUnbroken(ValueOf(last));
    }
  }

  /** Two conversions and a reading later, the key map is the one the words themselves give. */
  lemma NativeKeyIsKeyMap(words: seq<string>)
    requires forall i | 0 <= i < |words| :: ':' in words[i] && Unbroken(words[i])
    ensures NativeKey(Join(words, " ")) == KeyMap(words)
  {
    var lowered := LowerAll(words);
    LowerJoin(words);
    forall i | 0 <= i < |lowered| ensures ':' in lowered[i] && ',' !in lowered[i] && Unbroken(lowered[i]) {
      ColonStays(words[i]);
    }
    WordsJoin(lowered);
    assert PairAll(lowered) == lowered;
    EnterAllIsKeyMap(words);
    if words != [] {
      assert [','] == ",";
      SplitJoin(lowered, ',');
      assert lowered[0] != "" && |Join(lowered, ",")| >= |lowered[0]|;
    }
  }

  /** Every word stands for itself, as label and as value, and no other label is there. */
  predicate StandFor(m: map<string, string>, words: seq<string>) {
    (forall w | w in m :: w in words && m[w] == w) && forall i | 0 <= i < |words| :: words[i] in m
  }

  /** So do words without a colon. */
  lemma BareWordsKey(words: seq<string>)
    requires forall i | 0 <= i < |words| :: IsWord(words[i])
    ensures StandFor(NativeKey(Join(words, " ")), words)
  {
    BareText(words);
    EnterBare(words);
    if words != [] {
      var pairs := PairAll(words);
      forall i | 0 <= i < |pairs| ensures ',' !in pairs[i] { BarePair(words[i]); }
      assert [','] == ",";
      SplitJoin(pairs, ',');
      BarePair(words[0]);
      assert |Join(pairs, ",")| >= |pairs[0]|;
    }
  }

  lemma BareText(words: seq<string>)
    requires forall i | 0 <= i < |words| :: IsWord(words[i])
    ensures AttributeText(Join(words, " ")) == Join(PairAll(words), ",")
  {
    forall i | 0 <= i < |words| ensures Lower(words[i]) == words[i] && Unbroken(words[i]) && words[i] != "" {
      LowerOfWord(words[i]);
    }
    LowerJoin(words);
    assert LowerAll(words) == words;
    WordsJoin(words);
  }

  lemma BarePair(w: string)
    requires IsWord(w)
    ensures Pair(w) == LeafText(w, w) && ',' !in Pair(w) && Pair(w) != ""
    ensures forall m :: Enter(m, Pair(w)) == m[w := w]
  {
    assert ':' !in w && Unbroken(w);
    assert ',' !in w;
    LabelOfLeaf(w, w);
    TrimUnbroken(w);
  }

  lemma {:induction false} EnterBare(words: seq<string>)
    requires forall i | 0 <= i < |words| :: IsWord(words[i])
    ensures StandFor(EnterAll(PairAll(words)), words)
  {
    if words != [] {
      var n := |words| - 1;
      EnterBare(words[..n]);
      BarePair(words[n]);
      OneMore(EnterAll(PairAll(words[..n])), words[..n], words[n]);
      assert words[..n] + [words[n]] == words;
      EnterLast(words);
    }
  }

  lemma EnterLast(words: seq<string>)
    requires words != []
    ensures var n := |words| - 1;
            EnterAll(PairAll(words)) == Enter(EnterAll(PairAll(words[..n])), Pair(words[n]))
  {
    assert PairAll(words)[..|words| - 1] == PairAll(words[..|words| - 1]);
  }

  lemma OneMore(m: map<string, string>, words: seq<string>, w: string)
    requires StandFor(m, words)
    ensures StandFor(m[w := w], words + [w])
  {
    assert (words + [w])[|words|] == w;
    forall x | x in m ensures x in words + [w] {}
  }

  /** Of several values for one label the last one is kept. */
  lemma LastWordWins(words: seq<string>, name: string, value: string)
    requires forall i | 0 <= i < |words| :: ':' in words[i] && Unbroken(words[i])
    requires IsWord(name) && IsWord(value)
    ensures var key := NativeKey(Join(words + [LeafText(name, value)], " "));
            name in key && key[name] == value
  {
    UnbrokenWord(name, value);
    KeyOfMore(words, LeafText(name, value));
    LeafEnters(KeyMap(words), name, value);
  }

  lemma KeyOfMore(words: seq<string>, w: string)
    requires forall i | 0 <= i < |words| :: ':' in words[i] && Unbroken(words[i])
    requires ':' in w && Unbroken(w)
    ensures NativeKey(Join(words + [w], " ")) == KeyMap(words)[Label(Lower(w)) := ValueOf(Lower(w))]
  {
    NativeKeyIsKeyMap(words + [w]);
    assert (words + [w])[..|words|] == words;
  }

  lemma LeafEnters(m: map<string, string>, name: string, value: string)
    requires IsWord(name) && IsWord(value)
    ensures var w := Lower(LeafText(name, value)); m[Label(w) := ValueOf(w)] == m[name := value]
  {
    LowerLeaf(name, value);
    LowerOfWord(value);
    LabelOfLeaf(name, value);
  }

  lemma ColonStays(w: string)
    requires ':' in w && Unbroken(w)
    ensures ':' in Lower(w) && Unbroken(Lower(w))
  {
    var k :| 0 <= k < |w| && w[k] == ':';
    assert Lower(w)[k] == ':';
  }

  /** No attribute value holds a blank or a comma. */
  predicate UnbrokenUser(u: User) {
    forall key | key in u :: match u[key]
      case One(s) => Unbroken(ScalarText(s))
      case Many(vs) => forall i | 0 <= i < |vs| :: Unbroken(ScalarText(vs[i]))
  }

  /** The key of a user: for unbroken values it is the map of the words, in the order they were joined. */
  lemma UserKeyMap(u: User, words: seq<string>)
    requires WellFormedUser(u) && UnbrokenUser(u) && Enumerates(words, u)
    ensures NativeKey(Join(words, " ")) == KeyMap(words)
  {
    forall i | 0 <= i < |words| ensures ':' in words[i] && Unbroken(words[i]) {
      assert words[i] in words;
      var key, text :| key in u && Reaches(key, u[key], text) && words[i] == LeafText(key, text);
      LevelsDistinct(key);
      UnbrokenWord(key, text);
    }
    NativeKeyIsKeyMap(words);
  }

  lemma UnbrokenWord(key: string, text: string)
    requires IsWord(key) && Unbroken(text)
    ensures ':' in LeafText(key, text) && Unbroken(LeafText(key, text))
  {
    assert LeafText(key, text)[|key|] == ':';
  }
}
