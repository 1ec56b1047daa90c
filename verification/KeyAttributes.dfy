/** From user attributes to the attribute words of a private key (cpabe_service.py, ac17.cpp). */
module KeyAttributes {
  import opened Text
  import opened Conditions
  import opened PolicyTree
  import opened PolicyLexer

  const CLEARANCE_LEVELS: seq<string> := ["public", "confidential", "secret", "top_secret"]
  const ROLE_LEVELS: seq<string> := ["intern", "employee", "manager", "director"]

  /** Python's `str` on the values that occur. */
  function ScalarText(s: Scalar): string {
    match s
    case Str(t) => t
    case Number(t, _) => t
    case Flag(b) => if b then "True" else "False"
    case Nothing => "None"
  }

  predicate Truthy(v: AttrValue) {
    match v
    case One(Str(t)) => t != ""
    case One(Number(_, zero)) => !zero
    case One(Flag(b)) => b
    case One(Nothing) => false
    case Many(vs) => vs != []
  }

  function Levels(key: string): seq<string> {
    if key == "clearance_level" then CLEARANCE_LEVELS
    else if key == "role" then ROLE_LEVELS
    else []
  }

  /** The value texts one attribute contributes to a key: its own, and the levels below it. */
  ghost predicate Reaches(key: string, v: AttrValue, text: string) {
    Truthy(v) &&
    match v
    case One(s) =>
      text == ScalarText(s) ||
      exists i, j | 0 <= i < j < |Levels(key)| :: s == Str(Levels(key)[j]) && text == Levels(key)[i]
    case Many(vs) => exists i | 0 <= i < |vs| :: text == ScalarText(vs[i])
  }

  /** A word is granted to a user when some attribute reaches its value. */
  ghost predicate Granted(u: User, word: string) {
    exists key, text | key in u && Reaches(key, u[key], text) :: word == LeafText(key, text)
  }

  /** `expand_hierarchical_attributes`: loops over the dictionary in its order, then drops duplicates. */
  method ExpandHierarchicalAttributes(u: User, order: seq<string>) returns (result: set<string>)
    requires forall key :: key in order <==> key in u
    ensures forall word :: word in result <==> Granted(u, word)
  {
    var words: seq<string> := [];
    for k := 0 to |order|
      invariant forall word :: word in words <==>
        exists i, text | 0 <= i < k && Reaches(order[i], u[order[i]], text) :: word == LeafText(order[i], text)
    {
      var more := ExpandOne(order[k], u[order[k]]);
      words := words + more;
    }
    result := set word | word in words;
    forall word ensures word in words <==> Granted(u, word) {
      if Granted(u, word) {
        var key, text :| key in u && Reaches(key, u[key], text) && word == LeafText(key, text);
        var i :| 0 <= i < |order| && order[i] == key;
      }
    }
  }

  method ExpandOne(key: string, value: AttrValue) returns (result: seq<string>)
    ensures forall word :: word in result <==> exists text | Reaches(key, value, text) :: word == LeafText(key, text)
  {
    result := [];
    if !Truthy(value) { return; }
    match value {
      case Many(vs) =>
        for i := 0 to |vs|
          invariant forall word :: word in result <==> exists j | 0 <= j < i :: word == LeafText(key, ScalarText(vs[j]))
        {
          result := result + [key + ":" + ScalarText(vs[i])];
        }
        forall word ensures word in result <==> exists text | Reaches(key, value, text) :: word == LeafText(key, text) {
          if word in result {
            var j :| 0 <= j < |vs| && word == LeafText(key, ScalarText(vs[j]));
            assert Reaches(key, value, ScalarText(vs[j]));
          }
        }
      case One(s) =>
        var levels := Levels(key);
        var index := IndexIn(levels, s);
        result := [key + ":" + ScalarText(s)];
        for i := 0 to index
          invariant forall word :: word in result <==>
            word == LeafText(key, ScalarText(s)) || exists j | 0 <= j < i :: word == LeafText(key, levels[j])
        {
          result := result + [key + ":" + levels[i]];
        }
        LevelsDistinct(key);
        forall word ensures word in result <==> exists text | Reaches(key, value, text) :: word == LeafText(key, text) {
          if word in result && word != LeafText(key, ScalarText(s)) {
            var j :| 0 <= j < index && word == LeafText(key, levels[j]);
            assert Reaches(key, value, levels[j]);
          }
          assert Reaches(key, value, ScalarText(s));
        }
    }
  }

  /** `levels.index(value)`, with 0 for the ValueError: then no level lies below. */
  method IndexIn(levels: seq<string>, s: Scalar) returns (index: nat)
    ensures index <= |levels|
    ensures index > 0 ==> index < |levels| && s == Str(levels[index])
    ensures index == 0 ==> forall j | 0 < j < |levels| :: s != Str(levels[j]) || s == Str(levels[0])
  {
    index := 0;
    while index < |levels|
      invariant index <= |levels|
      invariant forall j | 0 <= j < index :: s != Str(levels[j])
    {
      if s == Str(levels[index]) { return; }
      index := index + 1;
    }
    index := 0;
  }

  lemma LevelsDistinct(key: string)
    ensures forall i, j | 0 <= i < j < |Levels(key)| :: Levels(key)[i] != Levels(key)[j]
    ensures forall i | 0 <= i < |Levels(key)| :: IsWord(Levels(key)[i])
  {
    assert |CLEARANCE_LEVELS[0]| == 6 && |CLEARANCE_LEVELS[1]| == 12 && |CLEARANCE_LEVELS[3]| == 10;
    assert CLEARANCE_LEVELS[0][0] == 'p' && CLEARANCE_LEVELS[2][0] == 's';
    assert ROLE_LEVELS[0][0] == 'i' && ROLE_LEVELS[1][0] == 'e' && ROLE_LEVELS[2][0] == 'm' && ROLE_LEVELS[3][0] == 'd';
  }

  // ---- the key the plugin generates

  /** `generate_user_key` joins the words in some order; the plugin lower-cases and splits the text. */
  function Keygen(words: seq<string>): set<string> {
    set w | w in Fields(Lower(Join(words, " ")))
  }

  /** What a granted word puts into the key: itself in lower case, or its pieces when it holds spaces. */
  function Pieces(word: string): seq<string> {
    Fields(Lower(word))
  }

  /** Some granted word puts `w` into the user's key. */
  ghost predicate Yields(u: User, w: string) {
    exists word | Granted(u, word) :: w in Pieces(word)
  }

  /** Attribute names are words and no value holds a blank that would cut it in pieces. */
  predicate WellFormedUser(u: User) {
    forall key | key in u :: IsWord(key) && BlankFree(u[key])
  }

  predicate BlankFree(v: AttrValue) {
    match v
    case One(s) => ' ' !in ScalarText(s)
    case Many(vs) => forall i | 0 <= i < |vs| :: ' ' !in ScalarText(vs[i])
  }

  lemma {:induction false} LowerJoin(words: seq<string>)
    ensures Lower(Join(words, " ")) == Join(LowerAll(words), " ")
  {
    if |words| > 1 {
      LowerJoin(words[1..]);
      assert LowerAll(words)[1..] == LowerAll(words[1..]);
      LowerConcat(words[0] + " ", Join(words[1..], " "));
      LowerConcat(words[0], " ");
    } else if |words| == 1 {
      assert LowerAll(words) == [Lower(words[0])];
    }
  }

  function LowerAll(words: seq<string>): seq<string> {
    seq(|words|, i requires 0 <= i < |words| => Lower(words[i]))
  }

  /** Joined in whatever order, the words put their pieces into the key and nothing else gets there. */
  lemma {:induction false} KeygenExact(words: seq<string>, w: string)
    ensures w in Keygen(words) <==> exists i | 0 <= i < |words| :: w in Pieces(words[i])
  {
    if words == [] {
      assert Split("", ' ') == [""] && [""][1..] == [];
    } else if |words| > 1 {
      var rest := Join(words[1..], " ");
      KeygenExact(words[1..], w);
      assert Join(words, " ") == words[0] + ([' '] + rest);
      PiecesJoined(words[0], rest);
      assert forall i | 0 < i < |words| :: words[i] == words[1..][i - 1];
      assert forall i | 0 <= i < |words| - 1 :: words[1..][i] == words[i + 1];
    }
  }

  lemma PiecesJoined(first: string, rest: string)
    ensures Pieces(first + ([' '] + rest)) == Pieces(first) + Pieces(rest)
  {
    LowerConcat(first, [' '] + rest);
    LowerConcat([' '], rest);
    assert Lower([' ']) == [' '];
    FieldsJoined(Lower(first), Lower(rest));
  }

  lemma LowerNoBlank(s: string)
    requires ' ' !in s
    ensures ' ' !in Lower(s)
  {
    forall i | 0 <= i < |s| ensures Lower(s)[i] != ' ' {}
  }

  /** Some list of exactly the words granted to the user. */
  ghost predicate Enumerates(words: seq<string>, u: User) {
    forall w :: w in words <==> Granted(u, w)
  }

  /** A word is in the key exactly when some granted word puts it there. */
  lemma KeyHolds(u: User, words: seq<string>, w: string)
    requires Enumerates(words, u)
    ensures w in Keygen(words) <==> Yields(u, w)
  {
    KeygenExact(words, w);
    if Yields(u, w) {
      var word :| Granted(u, word) && w in Pieces(word);
      var i :| 0 <= i < |words| && words[i] == word;
    }
    if w in Keygen(words) {
      var i :| 0 <= i < |words| && w in Pieces(words[i]);
      assert words[i] in words;
    }
  }

  /** A value without blanks gets into the key, whatever its neighbours are. */
  lemma OwnValueYields(u: User, attr: string, text: string)
    requires IsWord(attr) && ' ' !in text && attr in u && Reaches(attr, u[attr], text)
    ensures Yields(u, LeafText(attr, Lower(text)))
  {
    var word := LeafText(attr, text);
    assert Granted(u, word);
    LeafPieces(attr, text);
  }

  lemma LeafPieces(attr: string, text: string)
    requires IsWord(attr) && ' ' !in text
    ensures Pieces(LeafText(attr, text)) == [LeafText(attr, Lower(text))]
  {
    LowerLeaf(attr, text);
    LowerNoBlank(text);
    FieldsOne(LeafText(attr, Lower(text)));
  }

  /** For a well-formed user a leaf word is in the key exactly when its own attribute reaches, up to case, its value. */
  lemma TidyYields(u: User, attr: string, value: string)
    requires WellFormedUser(u) && IsWord(attr)
    ensures Yields(u, LeafText(attr, value)) <==>
            attr in u && exists text :: Reaches(attr, u[attr], text) && Lower(text) == value
  {
    if Yields(u, LeafText(attr, value)) {
      var word :| Granted(u, word) && LeafText(attr, value) in Pieces(word);
      var key, text :| key in u && Reaches(key, u[key], text) && word == LeafText(key, text);
      ReachesBlankFree(u, key, text);
      LeafPieces(key, text);
      LeafWordSplit(attr, value, key, Lower(text));
    }
    if attr in u && exists text :: Reaches(attr, u[attr], text) && Lower(text) == value {
      var text :| Reaches(attr, u[attr], text) && Lower(text) == value;
      ReachesBlankFree(u, attr, text);
      OwnValueYields(u, attr, text);
    }
  }

  lemma ReachesBlankFree(u: User, key: string, text: string)
    requires WellFormedUser(u) && key in u && Reaches(key, u[key], text)
    ensures ' ' !in text
  {
    LevelsDistinct(key);
  }

  lemma LowerLeaf(key: string, text: string)
    requires IsWord(key)
    ensures Lower(LeafText(key, text)) == LeafText(key, Lower(text))
    ensures ':' !in key
  {
    LowerOfWord(key + ":");
    LowerConcat(key + ":", text);
  }

  // ---- the key as a function of the user

  /** The levels before the one that equals `s`, none when there is no such level. */
  function Below(levels: seq<string>, s: Scalar): seq<string> {
    if levels == [] then []
    else
      var n := |levels| - 1;
      if s == Str(levels[n]) then levels[..n] else Below(levels[..n], s)
  }

  function ValueTexts(key: string, v: AttrValue): seq<string> {
    if !Truthy(v) then []
    else match v
      case One(s) => [ScalarText(s)] + Below(Levels(key), s)
      case Many(vs) => seq(|vs|, i requires 0 <= i < |vs| => ScalarText(vs[i]))
  }

  function KeyOf(u: User): set<string> {
    set key, text, w | key in u && text in ValueTexts(key, u[key]) && w in Pieces(LeafText(key, text)) :: w
  }

  lemma {:induction false} BelowExact(levels: seq<string>, s: Scalar, text: string)
    requires forall i, j | 0 <= i < j < |levels| :: levels[i] != levels[j]
    ensures text in Below(levels, s) <==>
            exists i, j | 0 <= i < j < |levels| :: s == Str(levels[j]) && text == levels[i]
  {
    if levels != [] {
      var n := |levels| - 1;
      if s == Str(levels[n]) {
        if text in levels[..n] { var i :| 0 <= i < n && text == levels[i]; }
      } else {
        BelowExact(levels[..n], s, text);
        assert forall i | 0 <= i < n :: levels[..n][i] == levels[i];
      }
    }
  }

  lemma ValueTextsExact(key: string, v: AttrValue, text: string)
    ensures text in ValueTexts(key, v) <==> Reaches(key, v, text)
  {
    LevelsDistinct(key);
    match v
    case One(s) => BelowExact(Levels(key), s, text);
    case Many(vs) =>
      var texts := ValueTexts(key, v);
      if vs != [] { assert forall i | 0 <= i < |vs| :: texts[i] == ScalarText(vs[i]); }
  }

  /** However the granted words are listed, the generated key is the same set. */
  lemma KeygenIsKeyOf(u: User, words: seq<string>)
    requires Enumerates(words, u)
    ensures Keygen(words) == KeyOf(u)
  {
    forall w ensures w in Keygen(words) <==> w in KeyOf(u) {
      KeyHolds(u, words, w);
      KeyOfYields(u, w);
    }
  }

  lemma KeyOfYields(u: User, w: string)
    ensures w in KeyOf(u) <==> Yields(u, w)
  {
    if w in KeyOf(u) {
      var key, text :| key in u && text in ValueTexts(key, u[key]) && w in Pieces(LeafText(key, text));
      ValueTextsExact(key, u[key], text);
      assert Granted(u, LeafText(key, text));
    }
    if Yields(u, w) {
      var word :| Granted(u, word) && w in Pieces(word);
      var key, text :| key in u && Reaches(key, u[key], text) && word == LeafText(key, text);
      ValueTextsExact(key, u[key], text);
    }
  }

  /** `list(s)`: the elements in an order nobody promises. */
  method ListOf(s: set<string>) returns (list: seq<string>)
    ensures forall x :: x in list <==> x in s
  {
    list := [];
    var rest := s;
    while rest != {}
      invariant forall x :: x in s <==> x in list || x in rest
      decreases rest
    {
      var x :| x in rest;
      list, rest := list + [x], rest - {x};
    }
  }

  /** `generate_user_key` and the plugin's key generation, from the attributes to the key's words. */
  method GenerateUserKey(u: User) returns (key: set<string>)
    ensures key == KeyOf(u)
  {
    var order := ListOf(u.Keys);
    var granted := ExpandHierarchicalAttributes(u, order);
    var words := ListOf(granted);
    var fields := SplitAttributes(Lower(Join(words, " ")));
    key := set w | w in fields;
    KeygenIsKeyOf(u, words);
  }
}
