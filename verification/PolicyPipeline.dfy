/** Conditions, compiled policies and keys together: who can open what. */
module PolicyPipeline {
  import opened Text
  import opened Conditions
  import opened PolicyTree
  import opened PolicyCompiler
  import opened PolicyLexer
  import opened PolicyParser
  import opened KeyAttributes

  /** A key opens a policy text when the text reads as a policy that the key satisfies. */
  predicate Opens(key: set<string>, text: string) {
    var t := Parse(Lex(text));
    t.Some? && Satisfies(key, t.value)
  }

  /** The text stored for a condition. */
  function PolicyText(c: Cond, defs: Definitions): string {
    Print(Compile(c, defs, Ac17))
  }

  /** The user's key holds the leaf for this attribute and value. */
  ghost predicate Holds(u: User, attr: string, value: string) {
    Yields(u, LeafText(attr, value))
  }

  /** What a key decides: like the evaluator, but a leaf passes when some accepted value is held. */
  ghost predicate Decides(c: Cond, defs: Definitions, u: User) {
    match c
    case BoolOp(And, values) => forall i | 0 <= i < |values| :: Decides(values[i], defs, u)
    case BoolOp(Or, values) => exists i | 0 <= i < |values| :: Decides(values[i], defs, u)
    case Not(_) => false
    case Compare(attr, test) => exists v | v in Accepted(defs, attr, test) :: Holds(u, attr, v)
  }

  // ---- the key decides

  lemma {:induction false} OrChainMeaning(key: set<string>, attr: string, values: seq<string>)
    ensures Satisfies(key, OrChain(attr, values)) <==> exists v | v in values :: LeafText(attr, v) in key
  {
    if values != [] {
      var n := |values| - 1;
      OrChainMeaning(key, attr, values[..n]);
      assert forall v :: v in values <==> v in values[..n] || v == values[n];
    }
  }

  /** Satisfaction of a compiled policy, attribute by attribute, hierarchies included. */
  lemma {:induction false} KeyDecides(c: Cond, defs: Definitions, u: User, words: seq<string>)
    requires WellFormed(c) && Enumerates(words, u)
    ensures Satisfies(Keygen(words), Compile(c, defs, Ac17)) <==> Decides(c, defs, u)
  {
    match c
    case BoolOp(op, values) =>
      ChainMeaning(Keygen(words), op, values, defs);
      forall i | 0 <= i < |values|
        ensures Satisfies(Keygen(words), Compile(values[i], defs, Ac17)) <==> Decides(values[i], defs, u)
      {
        KeyDecides(values[i], defs, u, words);
      }
    case Not(_) =>
    case Compare(attr, test) =>
      var accepted := Accepted(defs, attr, test);
      OrChainMeaning(Keygen(words), attr, accepted);
      forall v | v in accepted ensures LeafText(attr, v) in Keygen(words) <==> Holds(u, attr, v) {
        KeyHolds(u, words, LeafText(attr, v));
      }
  }

  /** A chain of gates is the conjunction or disjunction of its operands. */
  lemma {:induction false} ChainMeaning(key: set<string>, op: Connector, values: seq<Cond>, defs: Definitions)
    requires values != []
    ensures Satisfies(key, CompileChain(op, values, defs, Ac17)) <==>
            if op == And then forall i | 0 <= i < |values| :: Satisfies(key, Compile(values[i], defs, Ac17))
            else exists i | 0 <= i < |values| :: Satisfies(key, Compile(values[i], defs, Ac17))
  {
    var n := |values| - 1;
    if n > 0 {
      ChainMeaning(key, op, values[..n], defs);
      assert forall i | 0 <= i < n :: values[..n][i] == values[i];
      assert forall i | 0 <= i < |values| :: i < n || values[i] == values[n];
    }
  }

  // ---- against the evaluator

  /** What the key says about the attribute is true: it holds no leaf of it but that of the user's own value. */
  ghost predicate Truthful(u: User, attr: string) {
    forall v | IsWord(v) && Holds(u, attr, v) :: Lookup(u, attr) == One(Str(v))
  }

  ghost predicate TruthfulFor(c: Cond, u: User) {
    match c
    case BoolOp(_, values) => forall i | 0 <= i < |values| :: TruthfulFor(values[i], u)
    case Not(operand) => TruthfulFor(operand, u)
    case Compare(attr, _) => Truthful(u, attr)
  }

  /** The user's value of the attribute is one the definition lists. */
  predicate Listed(u: User, attr: string, defs: Definitions) {
    match Lookup(u, attr)
    case One(Str(v)) => attr in defs && v in defs[attr] && IsWord(v)
    case _ => false
  }

  /** Wherever the condition excludes values, the user's value is a listed one. */
  predicate InRange(c: Cond, defs: Definitions, u: User) {
    match c
    case BoolOp(_, values) => forall i | 0 <= i < |values| :: InRange(values[i], defs, u)
    case Not(operand) => InRange(operand, defs, u)
    case Compare(attr, test) => (test.NotEq? || test.NotIn?) ==> Listed(u, attr, defs)
  }

  lemma LowerWord(w: string)
    requires IsWord(w)
    ensures Lower(w) == w
  {
    LowerOfWord(w);
  }

  lemma TruthfulHolds(u: User, attr: string, v: string)
    requires Truthful(u, attr) && IsWord(attr) && IsWord(v)
    ensures Holds(u, attr, v) <==> Lookup(u, attr) == One(Str(v))
  {
    if Lookup(u, attr) == One(Str(v)) {
      LowerWord(v);
      OwnValueYields(u, attr, v);
    }
  }

  lemma AcceptedExact(defs: Definitions, attr: string, test: Test, v: string)
    ensures v in Accepted(defs, attr, test) <==>
            match test
            case Eq(x) => v == x
            case In(xs) => v in xs
            case _ => attr in defs && v in defs[attr] && v !in Excluded(test)
  {
    if attr in defs { RemainingExact(defs[attr], Excluded(test), v); }
  }

  lemma AcceptedWordy(defs: Definitions, attr: string, test: Test, v: string)
    requires Wordy(Compare(attr, test)) && WordyDefinitions(defs) && v in Accepted(defs, attr, test)
    ensures IsWord(attr) && IsWord(v)
  {
    AcceptedExact(defs, attr, test, v);
  }

  /** A leaf the key accepts, the evaluator accepts. */
  lemma LeafSound(attr: string, test: Test, defs: Definitions, u: User)
    requires Truthful(u, attr) && Wordy(Compare(attr, test)) && WordyDefinitions(defs)
    requires Decides(Compare(attr, test), defs, u)
    ensures Passes(Lookup(u, attr), test)
  {
    var v :| v in Accepted(defs, attr, test) && Holds(u, attr, v);
    AcceptedWordy(defs, attr, test, v);
    AcceptedExact(defs, attr, test, v);
  }

  /** A leaf the evaluator accepts, the key accepts, for hierarchical attributes too. */
  lemma LeafComplete(attr: string, test: Test, defs: Definitions, u: User)
    requires Wordy(Compare(attr, test)) && InRange(Compare(attr, test), defs, u)
    requires Passes(Lookup(u, attr), test)
    ensures Decides(Compare(attr, test), defs, u)
  {
    var v := Lookup(u, attr).scalar.s;
    assert IsWord(v) by { if test.In? { assert v in test.values; } }
    AcceptedExact(defs, attr, test, v);
    LowerWord(v);
    OwnValueYields(u, attr, v);
    assert Holds(u, attr, v);
  }

  lemma {:induction false} DecidesSound(c: Cond, defs: Definitions, u: User)
    requires TruthfulFor(c, u) && Wordy(c) && WordyDefinitions(defs)
    requires Decides(c, defs, u)
    ensures Eval(c, u)
  {
    match c
    case BoolOp(And, values) =>
      forall i | 0 <= i < |values| ensures Eval(values[i], u) { DecidesSound(values[i], defs, u); }
    case BoolOp(Or, values) =>
      var i :| 0 <= i < |values| && Decides(values[i], defs, u);
      DecidesSound(values[i], defs, u);
    case Not(_) =>
    case Compare(attr, test) => LeafSound(attr, test, defs, u);
  }

  lemma {:induction false} DecidesComplete(c: Cond, defs: Definitions, u: User)
    requires Wordy(c) && InRange(c, defs, u) && Compilable(c, defs, Ac17)
    requires Eval(c, u)
    ensures Decides(c, defs, u)
  {
    match c
    case BoolOp(And, values) =>
      forall i | 0 <= i < |values| ensures Decides(values[i], defs, u) { DecidesComplete(values[i], defs, u); }
    case BoolOp(Or, values) =>
      var i :| 0 <= i < |values| && Eval(values[i], u);
      DecidesComplete(values[i], defs, u);
    case Not(_) =>
    case Compare(attr, test) => LeafComplete(attr, test, defs, u);
  }

  /** The stored text reads as the compiled tree, and as nothing exactly when the condition is not expressible. */
  lemma ReadableIffCompilable(c: Cond, defs: Definitions)
    requires Wordy(c) && WordyDefinitions(defs)
    ensures Parse(Lex(PolicyText(c, defs))) ==
            if Compilable(c, defs, Ac17) then Some(Compile(c, defs, Ac17)) else None
  {
    CompiledWordy(c, defs, Ac17);
    CompleteIffCompilable(c, defs, Ac17);
    PrintLexParse(Compile(c, defs, Ac17));
  }

  /** No false opening: whoever opens the text passes the condition, if the key is truthful where it looks. */
  lemma CompilerSound(c: Cond, defs: Definitions, u: User, words: seq<string>)
    requires WellFormed(c) && Wordy(c) && WordyDefinitions(defs)
    requires Enumerates(words, u) && TruthfulFor(c, u)
    requires Opens(Keygen(words), PolicyText(c, defs))
    ensures Eval(c, u)
  {
    ReadableIffCompilable(c, defs);
    KeyDecides(c, defs, u, words);
    DecidesSound(c, defs, u);
  }

  /** No reader is lost: whoever passes the condition opens the text, whatever other attributes there are,
      hierarchies included. */
  lemma CompilerComplete(c: Cond, defs: Definitions, u: User, words: seq<string>)
    requires WellFormed(c) && Wordy(c) && WordyDefinitions(defs)
    requires Compilable(c, defs, Ac17) && InRange(c, defs, u) && Enumerates(words, u)
    requires Eval(c, u)
    ensures Opens(Keygen(words), PolicyText(c, defs))
  {
    DecidesComplete(c, defs, u);
    KeyDecides(c, defs, u, words);
    ReadableIffCompilable(c, defs);
  }

  /** The generated key opens the compiled text exactly when the evaluator allows. */
  lemma CompilerCorrect(c: Cond, defs: Definitions, u: User, words: seq<string>)
    requires WellFormed(c) && Wordy(c) && WordyDefinitions(defs)
    requires Compilable(c, defs, Ac17) && InRange(c, defs, u) && TruthfulFor(c, u)
    requires Enumerates(words, u)
    ensures Opens(Keygen(words), PolicyText(c, defs)) <==> Eval(c, u)
  {
    if Eval(c, u) { CompilerComplete(c, defs, u, words); }
    if Opens(Keygen(words), PolicyText(c, defs)) { CompilerSound(c, defs, u, words); }
  }

  /** A condition with `not`, for which the compiler writes nothing, has an equivalent one that it can express: the
      key opens the text of that one exactly when the evaluator allows the condition itself. */
  lemma WithoutNotOpens(c: Cond, defs: Definitions, u: User, words: seq<string>)
    requires WellFormed(c) && WordyDefinitions(defs) && Enumerates(words, u)
    requires var p := Positive(c, false);
             Wordy(p) && Compilable(p, defs, Ac17) && InRange(p, defs, u) && TruthfulFor(p, u)
    ensures Opens(Keygen(words), PolicyText(Positive(c, false), defs)) <==> Eval(c, u)
  {
    PositiveMeansSame(c, false, u);
    CompilerCorrect(Positive(c, false), defs, u, words);
  }

  // ---- when a key is truthful

  /** Nothing weaker would do: if each `==` on the attribute is decided soundly, the key is truthful about it. */
  lemma SoundIffTruthful(u: User, attr: string, defs: Definitions, words: seq<string>)
    requires IsWord(attr) && WordyDefinitions(defs) && Enumerates(words, u)
    ensures Truthful(u, attr) <==>
            forall v | IsWord(v) && Opens(Keygen(words), PolicyText(Compare(attr, Eq(v)), defs)) ::
                Eval(Compare(attr, Eq(v)), u)
  {
    forall v | IsWord(v) ensures Opens(Keygen(words), PolicyText(Compare(attr, Eq(v)), defs)) <==> Holds(u, attr, v) {
      var c := Compare(attr, Eq(v));
      assert TestConstants(Eq(v)) == [v] && Wordy(c);
      ReadableIffCompilable(c, defs);
      KeyDecides(c, defs, u, words);
      assert Accepted(defs, attr, Eq(v)) == [v];
    }
  }

  /** Without blanks in the user's values the key tells the truth about an attribute exactly when its value has no
      capitals, is no truth value, no list of words and no level above the lowest. */
  lemma TruthfulIff(u: User, attr: string)
    requires WellFormedUser(u) && IsWord(attr)
    ensures Truthful(u, attr) <==>
            match Lookup(u, attr)
            case One(Str(v)) =>
              (IsWord(Lower(v)) ==> v == Lower(v)) && forall j | 0 < j < |Levels(attr)| :: v != Levels(attr)[j]
            case One(Number(t, zero)) => zero || !IsWord(Lower(t))
            case One(Flag(b)) => !b
            case One(Nothing) => true
            case Many(vs) => forall i | 0 <= i < |vs| :: !IsWord(Lower(ScalarText(vs[i])))
  {
    LevelsDistinct(attr);
    if attr !in u {
      forall v | Holds(u, attr, v) ensures false { TidyYields(u, attr, v); }
    } else {
      TruthfulTexts(u, attr);
      match u[attr]
      case One(Str(v)) => TruthfulText(u, attr, v);
      case One(Number(t, zero)) => if !zero { assert Reaches(attr, u[attr], t); }
      case One(Flag(b)) => if b { TruthfulFlag(u, attr); }
      case One(Nothing) =>
      case Many(vs) =>
        if exists i :: 0 <= i < |vs| && IsWord(Lower(ScalarText(vs[i]))) {
          var i :| 0 <= i < |vs| && IsWord(Lower(ScalarText(vs[i])));
          assert Reaches(attr, u[attr], ScalarText(vs[i]));
        }
    }
  }

  /** For a well-formed user: truthful exactly when every text the attribute reaches, lower-cased, is its own value. */
  lemma TruthfulTexts(u: User, attr: string)
    requires WellFormedUser(u) && IsWord(attr) && attr in u
    ensures Truthful(u, attr) <==>
            forall text | Reaches(attr, u[attr], text) && IsWord(Lower(text)) :: u[attr] == One(Str(Lower(text)))
  {
    forall v ensures Holds(u, attr, v) <==> exists text :: Reaches(attr, u[attr], text) && Lower(text) == v {
      TidyYields(u, attr, v);
    }
    if Truthful(u, attr) {
      forall text | Reaches(attr, u[attr], text) && IsWord(Lower(text)) ensures u[attr] == One(Str(Lower(text))) {
        assert Holds(u, attr, Lower(text));
      }
    }
  }

  lemma TruthfulText(u: User, attr: string, v: string)
    requires attr in u && u[attr] == One(Str(v))
    ensures (forall text | Reaches(attr, u[attr], text) && IsWord(Lower(text)) :: u[attr] == One(Str(Lower(text)))) <==>
            (IsWord(Lower(v)) ==> v == Lower(v)) && forall j | 0 < j < |Levels(attr)| :: v != Levels(attr)[j]
  {
    var levels := Levels(attr);
    LevelsDistinct(attr);
    if v != "" { assert Reaches(attr, u[attr], v); }
    if exists j :: 0 < j < |levels| && v == levels[j] {
      var j :| 0 < j < |levels| && v == levels[j];
      assert Reaches(attr, u[attr], levels[0]);
      LowerWord(levels[0]);
    }
  }

  lemma TruthfulFlag(u: User, attr: string)
    requires attr in u && u[attr] == One(Flag(true))
    ensures exists text :: Reaches(attr, u[attr], text) && IsWord(Lower(text))
  {
    assert Reaches(attr, u[attr], "True");
    assert Lower("True") == "true";
  }

  /** A blank in one attribute's value speaks for another: such a user opens a policy on an attribute he has not. */
  lemma BlankSpeaksForAnother(title: string, attr: string, value: string, defs: Definitions, words: seq<string>)
    requires IsWord(title) && IsWord(attr) && IsWord(value) && title != attr && WordyDefinitions(defs)
    requires Enumerates(words, map[title := One(Str("x " + LeafText(attr, value)))])
    ensures var u: User := map[title := One(Str("x " + LeafText(attr, value)))];
            var c := Compare(attr, Eq(value));
            Opens(Keygen(words), PolicyText(c, defs)) && !Eval(c, u)
  {
    var own := "x " + LeafText(attr, value);
    var u: User := map[title := One(Str(own))];
    assert own != "" && Reaches(title, u[title], own) && Granted(u, LeafText(title, own));
    assert LeafText(title, own) == (title + ":x") + ([' '] + LeafText(attr, value));
    PiecesJoined(title + ":x", LeafText(attr, value));
    LowerWord(value);
    LeafPieces(attr, value);
    assert LeafText(attr, value) in Pieces(LeafText(title, own));
    assert Holds(u, attr, value);
    var c := Compare(attr, Eq(value));
    assert TestConstants(Eq(value)) == [value] && Wordy(c);
    ReadableIffCompilable(c, defs);
    KeyDecides(c, defs, u, words);
  }

  /** Enumerating the complement agrees with `!=` and `not in` exactly when the user's value is known to
      the definition or to the condition itself; a missing attribute is where they part. */
  lemma ComplementExact(attr: string, test: Test, defs: Definitions, u: User)
    requires test.NotEq? || test.NotIn?
    requires attr in defs && Truthful(u, attr) && Wordy(Compare(attr, test)) && WordyDefinitions(defs)
    ensures (Decides(Compare(attr, test), defs, u) <==> Eval(Compare(attr, test), u)) <==>
            match Lookup(u, attr)
            case One(Str(v)) => v in defs[attr] || v in Excluded(test)
            case _ => false
  {
    forall v | v in Accepted(defs, attr, test)
      ensures Holds(u, attr, v) <==> Lookup(u, attr) == One(Str(v))
    {
      AcceptedWordy(defs, attr, test, v);
      TruthfulHolds(u, attr, v);
    }
    match Lookup(u, attr)
    case One(Str(v)) =>
      AcceptedExact(defs, attr, test, v);
      assert IsOneOf(One(Str(v)), Excluded(test)) <==> v in Excluded(test);
    case _ =>
  }

  /** `==` and `in` on an attribute without levels, against lower-casing: evaluator and key part exactly when a
      value accepted by the key is the user's in lower case only. */
  lemma CaseExact(attr: string, test: Test, defs: Definitions, u: User)
    requires (test.Eq? || test.In?) && Wordy(Compare(attr, test))
    requires WellFormedUser(u) && Levels(attr) == []
    ensures (Decides(Compare(attr, test), defs, u) <==> Eval(Compare(attr, test), u)) <==>
            match Lookup(u, attr)
            case One(Str(v)) => v == Lower(v) || Lower(v) !in TestConstants(test)
            case One(Number(t, zero)) => zero || Lower(t) !in TestConstants(test)
            case One(Flag(b)) => !b || "true" !in TestConstants(test)
            case One(Nothing) => true
            case Many(vs) => forall i | 0 <= i < |vs| :: Lower(ScalarText(vs[i])) !in TestConstants(test)
  {
    forall v ensures Holds(u, attr, v) <==>
        attr in u && exists text :: Reaches(attr, u[attr], text) && Lower(text) == v {
      TidyYields(u, attr, v);
    }
    assert Accepted(defs, attr, test) == TestConstants(test);
    var accepted := TestConstants(test);
    match Lookup(u, attr)
    case One(Str(v)) =>
      assert v in accepted ==> IsWord(v);
      assert Lower(v) in accepted ==> v != "";
      if v in accepted { LowerWord(v); }
      if attr in u && v != "" { assert Reaches(attr, u[attr], v); }
      assert IsOneOf(One(Str(v)), accepted) <==> v in accepted;
    case One(Number(t, zero)) =>
      if !zero { assert Reaches(attr, u[attr], t); }
    case One(Flag(b)) =>
      assert Lower("True") == "true";
      if b { assert Reaches(attr, u[attr], "True"); }
    case One(Nothing) =>
    case Many(vs) =>
      forall i | 0 <= i < |vs| ensures Reaches(attr, u[attr], ScalarText(vs[i])) {}
  }

  // ---- hierarchies

  /** On a hierarchy a key decides `==` by dominance, where the evaluator decides by equality:
      they part exactly when the user stands strictly above the level asked for. */
  lemma HierarchyIsDominance(u: User, key: string, defs: Definitions, asked: nat, own: nat)
    requires WellFormedUser(u) && asked < |Levels(key)| && own < |Levels(key)|
    requires key in u && u[key] == One(Str(Levels(key)[own]))
    ensures var c := Compare(key, Eq(Levels(key)[asked]));
            (Decides(c, defs, u) <==> asked <= own) && (Eval(c, u) <==> asked == own)
  {
    LevelsDistinct(key);
    var level := Levels(key)[asked];
    LowerWord(level);
    TidyYields(u, key, level);
    if asked <= own { assert Reaches(key, u[key], level); }
    if Holds(u, key, level) {
      var text :| Reaches(key, u[key], text) && Lower(text) == level;
      assert exists k :: 0 <= k <= own && text == Levels(key)[k];
      LowerWord(text);
    }
  }

  /** The four roles and the four clearances, lowest first, and which of them a key holds; any other attribute brings
      nothing but its own value. */
  lemma LevelsSpelledOut(u: User, key: string, own: string, v: string)
    requires WellFormedUser(u) && IsWord(own) && key in u && u[key] == One(Str(own))
    ensures key == "role" ==>
      (Holds(u, key, v) <==>
         v == own || (own == "employee" && v == "intern") || (own == "manager" && v in {"intern", "employee"}) ||
         (own == "director" && v in {"intern", "employee", "manager"}))
    ensures key == "clearance_level" ==>
      (Holds(u, key, v) <==>
         v == own || (own == "confidential" && v == "public") || (own == "secret" && v in {"public", "confidential"}) ||
         (own == "top_secret" && v in {"public", "confidential", "secret"}))
    ensures key != "role" && key != "clearance_level" ==> (Holds(u, key, v) <==> v == own)
  {
    var levels := Levels(key);
    LevelsDistinct(key);
    TidyYields(u, key, v);
    LowerWord(own);
    assert Reaches(key, u[key], own);
    forall i | 0 <= i < |levels| ensures Lower(levels[i]) == levels[i] { LowerWord(levels[i]); }
    assert Holds(u, key, v) <==>
           v == own || exists i, j | 0 <= i < j < |levels| :: own == levels[j] && v == levels[i] by {
      if v != own && exists i, j | 0 <= i < j < |levels| :: own == levels[j] && v == levels[i] {
        var i, j :| 0 <= i < j < |levels| && own == levels[j] && v == levels[i];
        assert Reaches(key, u[key], levels[i]);
      }
    }
    if levels != [] { FourLevels(levels, own, v); }
  }

  lemma FourLevels(levels: seq<string>, own: string, v: string)
    requires |levels| == 4
    ensures (exists i, j | 0 <= i < j < |levels| :: own == levels[j] && v == levels[i]) <==>
            (own == levels[1] && v == levels[0]) || (own == levels[2] && v in {levels[0], levels[1]}) ||
            (own == levels[3] && v in {levels[0], levels[1], levels[2]})
  {
    if own == levels[2] && v in {levels[0], levels[1]} { assert v == levels[0] || v == levels[1]; }
    if own == levels[3] && v in {levels[0], levels[1], levels[2]} {
      assert v == levels[0] || v == levels[1] || v == levels[2];
    }
  }

  /** The same user with a clearance or role moved from level `low` to level `high`. */
  function Raised(u: User, key: string, high: nat): User
    requires high < |Levels(key)|
  {
    u[key := One(Str(Levels(key)[high]))]
  }

  lemma RaisedHolds(u: User, key: string, low: nat, high: nat, attr: string, text: string)
    requires low <= high < |Levels(key)| && key in u && u[key] == One(Str(Levels(key)[low]))
    requires attr in u && Reaches(attr, u[attr], text)
    ensures attr in Raised(u, key, high) && Reaches(attr, Raised(u, key, high)[attr], text)
  {
    LevelsDistinct(key);
    if attr == key {
      if text == Levels(key)[low] {
        assert Reaches(key, One(Str(Levels(key)[high])), text);
      } else {
        var i, j :| 0 <= i < j < |Levels(key)| && u[key].scalar == Str(Levels(key)[j]) && text == Levels(key)[i];
        assert i < high;
      }
    }
  }

  /** Raising clearance or role never closes a policy text that was open. */
  lemma RaisingKeepsAccess(u: User, key: string, low: nat, high: nat, words: seq<string>, raised: seq<string>,
      text: string)
    requires low <= high < |Levels(key)| && key in u && u[key] == One(Str(Levels(key)[low]))
    requires Enumerates(words, u) && Enumerates(raised, Raised(u, key, high))
    requires Opens(Keygen(words), text)
    ensures Opens(Keygen(raised), text)
  {
    var u' := Raised(u, key, high);
    LevelsDistinct(key);
    forall w | w in words ensures w in raised {
      var attr, v :| attr in u && Reaches(attr, u[attr], v) && w == LeafText(attr, v);
      RaisedHolds(u, key, low, high, attr, v);
    }
    KeygenMonotone(words, raised);
    SatisfiesMonotone(Keygen(words), Keygen(raised), Parse(Lex(text)).value);
  }

  lemma KeygenMonotone(words: seq<string>, raised: seq<string>)
    requires forall w | w in words :: w in raised
    ensures Keygen(words) <= Keygen(raised)
  {
    forall w | w in Keygen(words) ensures w in Keygen(raised) {
      KeygenExact(words, w);
      KeygenExact(raised, w);
      var i :| 0 <= i < |words| && w in Pieces(words[i]);
      assert words[i] in words;
      var j :| 0 <= j < |raised| && raised[j] == words[i];
    }
  }
}
