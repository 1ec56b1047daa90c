/** How an owner's attributes are extended so that the owner's key always opens
    the file's policies (_decrypt_file_if_needed in views/storage.py). */
module OwnerBypass {
  import opened Text
  import opened Conditions
  import opened PolicyTree
  import opened PolicyLexer
  import opened PolicyParser
  import opened KeyAttributes
  import opened PolicyPipeline
  import opened MergedGrants

  predicate IsRegexWord(c: char) {
    IsWordChar(c) || 'A' <= c <= 'Z'
  }

  /** The matches of `[a-zA-Z0-9_]+:[a-zA-Z0-9_]+`, leftmost first, as pairs. */
  function FindAll(s: string): seq<(string, string)> {
    if s == "" then []
    else
      var n := Span(s, IsRegexWord);
      var m := if n < |s| then Span(s[n + 1..], IsRegexWord) else 0;
      if n > 0 && n < |s| && s[n] == ':' && m > 0
      then [(s[..n], s[n + 1..][..m])] + FindAll(s[n + 1 + m..])
      else FindAll(s[1..])
  }

  /** One token `k:v` merged into the attributes: lists grow, a different scalar becomes a pair. */
  function Absorb(u: User, k: string, v: string): User {
    if k !in u then u[k := Many([Str(v)])]
    else match u[k]
      case Many(vs) => if Str(v) in vs then u else u[k := Many(vs + [Str(v)])]
      case One(s) => if s == Str(v) then u else u[k := Many([s, Str(v)])]
  }

  function AbsorbAll(u: User, pairs: seq<(string, string)>): User {
    if pairs == [] then u
    else
      var last := pairs[|pairs| - 1];
      Absorb(AbsorbAll(u, pairs[..|pairs| - 1]), last.0, last.1)
  }

  function AllPairs(texts: seq<string>): seq<(string, string)> {
    if texts == [] then [] else AllPairs(texts[..|texts| - 1]) + FindAll(texts[|texts| - 1])
  }

  /** The loop over the policies and their tokens, updating `user_attrs` token by token. */
  method ExtendOwner(u: User, texts: seq<string>) returns (attrs: User)
    ensures attrs == AbsorbAll(u, AllPairs(texts))
  {
    attrs := u;
    for p := 0 to |texts|
      invariant attrs == AbsorbAll(u, AllPairs(texts[..p]))
    {
      var tokens := FindAll(texts[p]);
      ghost var before := AllPairs(texts[..p]);
      assert texts[..p + 1][..p] == texts[..p];
      assert before + tokens[..0] == before;
      for t := 0 to |tokens|
        invariant attrs == AbsorbAll(u, before + tokens[..t])
      {
        var (k, v) := tokens[t];
        AbsorbNext(u, before, tokens, t);
        attrs := MergeOne(attrs, k, v);
      }
      assert before + tokens[..|tokens|] == AllPairs(texts[..p + 1]);
    }
    assert texts[..|texts|] == texts;
  }

  /** One token: a new list, one more element, or a scalar turned into a list of two. */
  method MergeOne(before: User, k: string, v: string) returns (attrs: User)
    ensures attrs == Absorb(before, k, v)
  {
    attrs := before;
    if k !in attrs {
      attrs := attrs[k := Many([])];
    }
    match attrs[k] {
      case Many(vs) =>
        if Str(v) !in vs { attrs := attrs[k := Many(vs + [Str(v)])]; }
      case One(s) =>
        if s != Str(v) { attrs := attrs[k := Many([s, Str(v)])]; }
    }
    assert [] + [Str(v)] == [Str(v)];
  }

  lemma AbsorbNext(u: User, before: seq<(string, string)>, tokens: seq<(string, string)>, t: nat)
    requires t < |tokens|
    ensures AbsorbAll(u, before + tokens[..t + 1]) ==
            Absorb(AbsorbAll(u, before + tokens[..t]), tokens[t].0, tokens[t].1)
  {
    var all := before + tokens[..t + 1];
    assert all[..|all| - 1] == before + tokens[..t];
  }

  /** The attribute carries the value itself, alone or in its list. */
  predicate Carries(u: User, k: string, v: string) {
    k in u && match u[k]
      case One(s) => s == Str(v)
      case Many(vs) => Str(v) in vs
  }

  lemma {:induction false} AbsorbedCarries(u: User, pairs: seq<(string, string)>, i: nat)
    requires i < |pairs|
    ensures Carries(AbsorbAll(u, pairs), pairs[i].0, pairs[i].1)
  {
    var n := |pairs| - 1;
    if i < n {
      AbsorbedCarries(u, pairs[..n], i);
    }
  }

  /** The extended attributes carry what was carried before and the pairs, and nothing else. */
  lemma {:induction false} CarriesExactly(u: User, pairs: seq<(string, string)>, k: string, v: string)
    ensures Carries(AbsorbAll(u, pairs), k, v) <==> Carries(u, k, v) || (k, v) in pairs
  {
    if pairs != [] {
      var n := |pairs| - 1;
      CarriesExactly(u, pairs[..n], k, v);
      assert (k, v) in pairs <==> (k, v) in pairs[..n] || (k, v) == pairs[n];
      var before := AbsorbAll(u, pairs[..n]);
      if k == pairs[n].0 && k in before && before[k].One? {
        assert [before[k].scalar, Str(pairs[n].1)][0] == before[k].scalar;
      }
    }
  }

  /** An attribute becomes a list as soon as a pair brings a value that it did not carry, and stays as it is, absent or
      not, if none does. */
  lemma {:induction false} ListOrAsBefore(u: User, pairs: seq<(string, string)>, k: string)
    ensures var owner := AbsorbAll(u, pairs);
            if exists v :: (k, v) in pairs && !Carries(u, k, v) then k in owner && owner[k].Many?
            else (k in owner <==> k in u) && (k in u ==> owner[k] == u[k])
  {
    if pairs != [] {
      var n := |pairs| - 1;
      ListOrAsBefore(u, pairs[..n], k);
      forall v ensures (k, v) in pairs <==> (k, v) in pairs[..n] || (k, v) == pairs[n] {}
      if pairs[n].0 == k { CarriesExactly(u, pairs[..n], k, pairs[n].1); }
    }
  }

  /** Levels are not expanded in a list: an owner's key holds no level below the listed ones, not even those it held
      before. */
  lemma ExtensionLosesLevels(u: User, k: string, own: string, v: string, w: string)
    requires WellFormedUser(u) && k in u && u[k] == One(Str(own)) && IsWord(k) && v != own && ' ' !in v
    ensures Yields(AbsorbAll(u, [(k, v)]), LeafText(k, w)) <==> w == Lower(own) || w == Lower(v)
  {
    var pairs := [(k, v)];
    assert pairs[..0] == [] && AbsorbAll(u, []) == u;
    var owner := AbsorbAll(u, pairs);
    var texts := [Str(own), Str(v)];
    assert owner == u[k := Many(texts)];
    forall i | 0 <= i < |texts| ensures ' ' !in ScalarText(texts[i]) {}
    assert WellFormedUser(owner);
    TidyYields(owner, k, w);
    assert texts[0] == Str(own) && texts[1] == Str(v);
    assert forall text :: Reaches(k, owner[k], text) <==> text == own || text == v by {
      assert ScalarText(texts[0]) == own && ScalarText(texts[1]) == v;
    }
  }

  /** A value that is absent or false becomes a word of the key once the attribute is extended to a list. */
  lemma NothingSpeaks(u: User, k: string, v: string, s: Scalar)
    requires IsWord(k) && k in u && u[k] == One(s) && (s == Nothing || s == Flag(false))
    ensures Yields(AbsorbAll(u, [(k, v)]), LeafText(k, if s == Nothing then "none" else "false"))
    ensures !Reaches(k, u[k], ScalarText(s))
  {
    var text := if s == Nothing then "None" else "False";
    var pairs := [(k, v)];
    assert pairs[..0] == [] && AbsorbAll(u, []) == u && AbsorbAll(u, pairs) == Absorb(u, k, v);
    var owner := AbsorbAll(u, pairs);
    assert owner[k] == Many([s, Str(v)]) && [s, Str(v)][0] == s;
    assert Reaches(k, owner[k], text);
    assert Lower("None") == "none" && Lower("False") == "false";
    OwnValueYields(owner, k, text);
  }

  // ---- the scan of a policy text finds its leaves

  /** Where a run of word characters ends without a colon, nothing matches in it. */
  lemma {:induction false} FindAllSkips(run: string, rest: string)
    requires forall i | 0 <= i < |run| :: IsRegexWord(run[i])
    requires rest == "" || (!IsRegexWord(rest[0]) && rest[0] != ':')
    ensures FindAll(run + rest) == FindAll(rest)
  {
    if run == "" {
      assert run + rest == rest;
    } else {
      SpanExact(run, rest, IsRegexWord);
      assert (run + rest)[1..] == run[1..] + rest;
      FindAllSkips(run[1..], rest);
    }
  }

  lemma FindAllDelimiter(c: char, rest: string)
    requires !IsRegexWord(c)
    ensures FindAll([c] + rest) == FindAll(rest)
  {
    assert ([c] + rest)[1..] == rest;
  }

  lemma FindAllLeaf(name: string, value: string, rest: string)
    requires IsWord(name) && IsWord(value) && (rest == "" || !IsRegexWord(rest[0]))
    ensures FindAll(LeafText(name, value) + rest) == [(name, value)] + FindAll(rest)
  {
    LeafAt(name, value, rest);
    SpanExact(name, ":" + (value + rest), IsRegexWord);
    SpanExact(value, rest, IsRegexWord);
  }

  lemma LeafAt(name: string, value: string, rest: string)
    ensures var s, n := LeafText(name, value) + rest, |name|;
            s == name + (":" + (value + rest)) && s[..n] == name && s[n] == ':' && s[n + 1..] == value + rest &&
            (value + rest)[..|value|] == value && s[n + 1 + |value|..] == rest
  {
    var s := LeafText(name, value) + rest;
    assert s == name + (":" + (value + rest));
  }

  /** A name or a value alone is no match. */
  lemma FindAllNeedsBoth(w: string)
    requires IsWord(w)
    ensures FindAll(w) == FindAll(w + ":") == FindAll(":" + w) == []
    ensures IsRegexWord('A') && IsRegexWord('Z') && !IsRegexWord('-') && !IsRegexWord('[') && !IsRegexWord('@')
  {
    FindAllSkips(w, "");
    assert w + "" == w;
    FindAllDelimiter(':', w);
    assert [':'] + w == ":" + w;
    NameAlone(w);
  }

  /** Matches do not overlap: of three words between colons only the first two are one. */
  lemma FindAllApart(a: string, b: string, c: string)
    requires IsWord(a) && IsWord(b) && IsWord(c)
    ensures FindAll(LeafText(a, b) + (":" + c)) == [(a, b)]
  {
    FindAllLeaf(a, b, ":" + c);
    FindAllNeedsBoth(c);
  }

  lemma {:induction false} NameAlone(w: string)
    requires forall i | 0 <= i < |w| :: IsRegexWord(w[i])
    ensures FindAll(w + ":") == []
  {
    var s := w + ":";
    SpanExact(w, ":", IsRegexWord);
    if w == "" {
      assert s[1..] == "";
    } else {
      assert s[1..] == w[1..] + ":" && s[|w| + 1..] == "";
      NameAlone(w[1..]);
    }
  }

  function Pairs(t: Tree): seq<(string, string)> {
    match t
    case Leaf(w) => [(Label(w), ValueOf(w))]
    case Gate(_, l, r) => Pairs(l) + Pairs(r)
    case _ => []
  }

  lemma {:induction false} FindAllPrint(t: Tree, rest: string)
    requires LeafWords(t) && Complete(t) && Monotone(t) && Ends(rest)
    ensures FindAll(Print(t) + rest) == Pairs(t) + FindAll(rest)
  {
    match t
    case Leaf(w) =>
      FindAllLeafWord(w, rest);
    case Gate(op, l, r) =>
      PrintGate(t, rest);
      FindAllPrint(l, AfterLeft(op, Print(r), rest));
      FindAllPrint(r, [')'] + rest);
      FindAllGate(Print(l), op, Print(r), rest);
    case _ =>
  }

  lemma FindAllLeafWord(w: string, rest: string)
    requires IsLeafWord(w) && Ends(rest)
    ensures FindAll(w + rest) == [(Label(w), ValueOf(w))] + FindAll(rest)
  {
    LeafWordParts(w);
    FindAllLeaf(Label(w), ValueOf(w), rest);
  }

  /** The parentheses, blanks and connective of a gate hold no match. */
  lemma FindAllGate(left: string, op: Connector, right: string, rest: string)
    ensures FindAll(['('] + (left + AfterLeft(op, right, rest))) == FindAll(left + AfterLeft(op, right, rest))
    ensures FindAll(AfterLeft(op, right, rest)) == FindAll(right + ([')'] + rest))
    ensures FindAll([')'] + rest) == FindAll(rest)
  {
    FindAllDelimiter('(', left + AfterLeft(op, right, rest));
    FindAllConnector(op, right + ([')'] + rest));
    FindAllDelimiter(')', rest);
  }

  lemma FindAllConnector(op: Connector, tail: string)
    ensures FindAll([' '] + (ConnectorText(op) + ([' '] + tail))) == FindAll(tail)
  {
    FindAllDelimiter(' ', ConnectorText(op) + ([' '] + tail));
    FindAllSkips(ConnectorText(op), [' '] + tail);
    FindAllDelimiter(' ', tail);
  }

  function PairsOf(trees: seq<Tree>): seq<(string, string)> {
    if trees == [] then [] else Pairs(trees[0]) + PairsOf(trees[1..])
  }

  lemma {:induction false} FindAllMerged(trees: seq<Tree>)
    requires forall i | 0 <= i < |trees| :: IsPolicyTree(trees[i])
    ensures FindAll(MergeText(PrintAll(trees))) == PairsOf(trees)
  {
    if trees != [] {
      if |trees| == 1 {
        FindAllDisjunct(trees[0], "");
        assert PrintAll(trees)[0] == Print(trees[0]);
        assert MergeText(PrintAll(trees)) == ['('] + (Print(trees[0]) + ([')'] + ""));
        assert trees[1..] == [];
      } else {
        var tail := MergeText(PrintAll(trees[1..]));
        MergeStep(trees);
        FindAllDisjunct(trees[0], OrThen(tail));
        FindAllOr(tail);
        FindAllMerged(trees[1..]);
      }
    }
  }

  lemma FindAllOr(tail: string)
    ensures FindAll(OrThen(tail)) == FindAll(tail)
  {
    FindAllDelimiter(' ', "or" + ([' '] + tail));
    FindAllSkips("or", [' '] + tail);
    FindAllDelimiter(' ', tail);
  }

  lemma FindAllDisjunct(t: Tree, rest: string)
    requires IsPolicyTree(t)
    ensures FindAll(['('] + (Print(t) + ([')'] + rest))) == Pairs(t) + FindAll(rest)
  {
    FindAllDelimiter('(', Print(t) + ([')'] + rest));
    FindAllPrint(t, [')'] + rest);
    FindAllDelimiter(')', rest);
  }

  // ---- the extended key opens every policy

  lemma {:induction false} PairsCoverLeaves(t: Tree)
    requires IsPolicyTree(t)
    ensures |Pairs(t)| == |Leaves(t)|
    ensures forall i | 0 <= i < |Pairs(t)| ::
              IsWord(Pairs(t)[i].0) && IsWord(Pairs(t)[i].1) && Leaves(t)[i] == LeafText(Pairs(t)[i].0, Pairs(t)[i].1)
  {
    match t
    case Leaf(w) =>
      LeafWordParts(w);
    case Gate(_, l, r) =>
      PairsCoverLeaves(l);
      PairsCoverLeaves(r);
    case _ =>
  }

  /** A user who carries every leaf of a policy holds a key that satisfies it. */
  lemma CarrierSatisfies(u: User, words: seq<string>, t: Tree)
    requires Enumerates(words, u) && IsPolicyTree(t)
    requires forall i | 0 <= i < |Pairs(t)| :: Carries(u, Pairs(t)[i].0, Pairs(t)[i].1)
    ensures Satisfies(Keygen(words), t)
  {
    PairsCoverLeaves(t);
    forall w | w in Leaves(t) ensures w in Keygen(words) {
      var i :| 0 <= i < |Leaves(t)| && Leaves(t)[i] == w;
      var (k, v) := Pairs(t)[i];
      assert Reaches(k, u[k], v);
      LowerWord(v);
      OwnValueYields(u, k, v);
      KeyHolds(u, words, w);
    }
    AllLeavesSatisfy(Keygen(words), t);
  }

  /** The policy texts that get stored: one compiled policy, or several merged. */
  ghost predicate IsStoredPolicy(text: string) {
    exists trees: seq<Tree> :: Stores(text, trees)
  }

  ghost predicate Stores(text: string, trees: seq<Tree>) {
    trees != [] && (forall i | 0 <= i < |trees| :: IsPolicyTree(trees[i])) &&
    (text == MergeText(PrintAll(trees)) || (|trees| == 1 && text == Print(trees[0])))
  }

  lemma StoredPairs(text: string, trees: seq<Tree>)
    requires Stores(text, trees)
    ensures FindAll(text) == PairsOf(trees)
  {
    FindAllMerged(trees);
    if |trees| == 1 {
      FindAllPrint(trees[0], "");
      assert Print(trees[0]) + "" == Print(trees[0]);
      assert trees[1..] == [];
    }
  }

  lemma {:induction false} PairsOfIndex(trees: seq<Tree>, i: nat, j: nat) returns (k: nat)
    requires i < |trees| && j < |Pairs(trees[i])|
    ensures k < |PairsOf(trees)| && PairsOf(trees)[k] == Pairs(trees[i])[j]
  {
    if i == 0 {
      k := j;
    } else {
      var k' := PairsOfIndex(trees[1..], i - 1, j);
      k := |Pairs(trees[0])| + k';
    }
  }

  /** A user who carries every pair found in a stored policy opens it. */
  lemma CarrierOpens(u: User, words: seq<string>, text: string)
    requires Enumerates(words, u) && IsStoredPolicy(text)
    requires forall i | 0 <= i < |FindAll(text)| :: Carries(u, FindAll(text)[i].0, FindAll(text)[i].1)
    ensures Opens(Keygen(words), text)
  {
    var trees :| Stores(text, trees);
    StoredPairs(text, trees);
    forall j | 0 <= j < |Pairs(trees[0])| ensures Carries(u, Pairs(trees[0])[j].0, Pairs(trees[0])[j].1) {
      var k := PairsOfIndex(trees, 0, j);
    }
    CarrierSatisfies(u, words, trees[0]);
    PrintLexParse(trees[0]);
    MergedMeansAny(Keygen(words), trees);
  }

  lemma {:induction false} AllPairsIndex(texts: seq<string>, p: nat, j: nat) returns (k: nat)
    requires p < |texts| && j < |FindAll(texts[p])|
    ensures k < |AllPairs(texts)| && AllPairs(texts)[k] == FindAll(texts[p])[j]
  {
    var n := |texts| - 1;
    if p == n {
      k := |AllPairs(texts[..n])| + j;
    } else {
      k := AllPairsIndex(texts[..n], p, j);
    }
  }

  /** Whatever the owner held before, the extended key opens every policy of the file. */
  lemma OwnerAlwaysOpens(u: User, texts: seq<string>, words: seq<string>, p: nat)
    requires p < |texts|
    requires forall q | 0 <= q < |texts| :: IsStoredPolicy(texts[q])
    requires Enumerates(words, AbsorbAll(u, AllPairs(texts)))
    ensures Opens(Keygen(words), texts[p])
  {
    var owner := AbsorbAll(u, AllPairs(texts));
    forall j | 0 <= j < |FindAll(texts[p])| ensures Carries(owner, FindAll(texts[p])[j].0, FindAll(texts[p])[j].1) {
      var k := AllPairsIndex(texts, p, j);
      AbsorbedCarries(u, AllPairs(texts), k);
    }
    CarrierOpens(owner, words, texts[p]);
  }
}
