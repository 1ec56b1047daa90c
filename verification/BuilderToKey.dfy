/** From the tree on screen to the key that opens the file: builder, parser, compiler, lexer and key together. */
module BuilderToKey {
  import opened Text
  import opened Conditions
  import opened ConditionText
  import opened VisualBuilder
  import opened BuilderPage
  import opened PolicyCompiler
  import opened KeyAttributes
  import opened PolicyPipeline

  /** The rule is over words, keeps an accepted value, and the user's key is truthful about its attribute. */
  ghost predicate RuleInScope(attr: string, test: Test, defs: Definitions, u: User) {
    Wordy(Compare(attr, test)) && Compilable(Compare(attr, test), defs, Ac17) &&
    InRange(Compare(attr, test), defs, u) && Truthful(u, attr)
  }

  ghost predicate InScope(n: Node, defs: Definitions, u: User) {
    match n
    case Rule(attr, test) => HasValue(test) ==> RuleInScope(attr, test, defs, u)
    case Group(_, children) => forall i | 0 <= i < |children| :: InScope(children[i], defs, u)
  }

  ghost predicate CondInScope(c: Cond, defs: Definitions, u: User) {
    WellFormed(c) && Wordy(c) && Compilable(c, defs, Ac17) && InRange(c, defs, u) && TruthfulFor(c, u)
  }

  lemma {:induction false} PruneInScope(n: Node, defs: Definitions, u: User)
    requires Live(n) && InScope(n, defs, u)
    ensures InScope(Prune(n), defs, u)
    decreases n, 1
  {
    match n
    case Group(_, children) => PruneAllInScope(children, defs, u);
    case _ =>
  }

  lemma {:induction false} PruneAllInScope(children: seq<Node>, defs: Definitions, u: User)
    requires forall i | 0 <= i < |children| :: InScope(children[i], defs, u)
    ensures forall i | 0 <= i < |PruneAll(children)| :: InScope(PruneAll(children)[i], defs, u)
    decreases children, 0
  {
    if children != [] {
      var n := |children| - 1;
      PruneAllInScope(children[..n], defs, u);
      if Live(children[n]) { PruneInScope(children[n], defs, u); }
    }
  }

  lemma {:induction false} CondOfInScope(n: Node, defs: Definitions, u: User)
    requires Full(n) && InScope(n, defs, u)
    ensures CondInScope(CondOf(n), defs, u)
  {
    match n
    case Rule(_, _) =>
    case Group(op, children) =>
      CondsOfIndex(children[1..]);
      var conds := [CondOf(children[0])] + CondsOf(children[1..]);
      forall i | 0 <= i < |conds| ensures CondInScope(conds[i], defs, u) {
        assert conds[i] == CondOf(children[i]);
        CondOfInScope(children[i], defs, u);
      }
      if |children| > 1 {
        assert CondOf(n) == BoolOp(op, conds);
      } else {
        assert CondOf(n) == conds[0];
      }
  }

  /** Words hold no operator characters. */
  lemma {:induction false} ScopeUnchanged(n: Node, defs: Definitions, u: User)
    requires InScope(n, defs, u)
    ensures Unchanged(n)
  {
    match n
    case Rule(_, test) =>
      forall i | 0 <= i < |ValuesOf(test)| ensures !HasDoubled(ValuesOf(test)[i]) {
        assert IsWord(ValuesOf(test)[i]);
      }
    case Group(_, children) =>
      forall i | 0 <= i < |children| ensures Unchanged(children[i]) { ScopeUnchanged(children[i], defs, u); }
  }

  /** A user's key opens the policy compiled from what the builder printed exactly when the tree on screen,
      read as ALL and ANY, holds for the user. */
  lemma BuilderToReader(op: Connector, children: seq<Node>, defs: Definitions, u: User, words: seq<string>)
    requires var g := Group(op, children); Live(g) && Printable(g) && InScope(g, defs, u)
    requires WordyDefinitions(defs) && Enumerates(words, u)
    ensures var c := ParseCondition(PrintGroup(op, children));
            c.Some? && (Opens(Keygen(words), PolicyText(c.value, defs)) <==> Meaning(Group(op, children), u))
  {
    var g := Group(op, children);
    ScopeUnchanged(g, defs, u);
    UnchangedIff(g);
    PrintedParses(op, children);
    PrintedMeans(op, children, u);
    PruneRewritten(g);
    PruneInScope(g, defs, u);
    CondOfInScope(Prune(g), defs, u);
    CompilerCorrect(CondOf(Prune(g)), defs, u, words);
  }

  /** A normal tree over offered values goes to the server and back onto the page unchanged exactly when no value has a
      doubled `&` or `|`. */
  lemma PageRoundTrip(op: Connector, children: seq<Node>, offer: Offer)
    requires var g := Group(op, children); Live(g) && Printable(g) && NormalRoot(g) && OffersAll(offer, g)
    ensures Reload(PrintGroup(op, children)) == Some(Group(op, children)) <==> Unchanged(Group(op, children))
    ensures ShownAll(offer, children) == children
  {
    RoundTripIffNormal(op, children);
    OfferedShown(offer, Group(op, children));
    assert Shown(offer, Group(op, children)).children == ShownAll(offer, children);
  }
}
