/** Adding a grant joins the policies of a file with `or` (assign_policy in views/storage.py). */
module MergedGrants {
  import opened Text
  import opened Conditions
  import opened PolicyTree
  import opened PolicyLexer
  import opened PolicyParser
  import opened PolicyPipeline

  /** `" or ".join(f"({p})" for p in all_cpabe)` */
  function MergeText(policies: seq<string>): string {
    if policies == [] then ""
    else if |policies| == 1 then "(" + policies[0] + ")"
    else "(" + policies[0] + ")" + " or " + MergeText(policies[1..])
  }

  function PrintAll(trees: seq<Tree>): seq<string> {
    seq(|trees|, i requires 0 <= i < |trees| => Print(trees[i]))
  }

  /** A tree the AC17 library accepts as a policy over `name:value` words. */
  predicate IsPolicyTree(t: Tree) {
    Complete(t) && Monotone(t) && LeafWords(t)
  }

  /** The trees joined with `or`, to the left. */
  function OrAll(left: Tree, trees: seq<Tree>): Tree
    decreases trees
  {
    if trees == [] then left else OrAll(Gate(Or, left, trees[0]), trees[1..])
  }

  /** The tokens after the first disjunct. */
  function RestTokens(trees: seq<Tree>): seq<Token> {
    if trees == [] then []
    else [Word("or"), Open] + (Tokens(trees[0]) + ([Close] + RestTokens(trees[1..])))
  }

  lemma {:induction false} LexMerged(trees: seq<Tree>)
    requires trees != [] && forall i | 0 <= i < |trees| :: LeafWords(trees[i])
    ensures Scan(MergeText(PrintAll(trees)), "") == [Open] + (Tokens(trees[0]) + ([Close] + RestTokens(trees[1..])))
  {
    if |trees| == 1 {
      assert PrintAll(trees)[0] == Print(trees[0]);
      assert MergeText(PrintAll(trees)) == ['('] + (Print(trees[0]) + ([')'] + ""));
      LexDisjunct(trees[0], "");
    } else {
      var tail := MergeText(PrintAll(trees[1..]));
      MergeStep(trees);
      LexDisjunct(trees[0], OrThen(tail));
      LexOr(tail);
      LexMerged(trees[1..]);
      RestStep(trees[1..]);
    }
  }

  /** A further disjunct, with the blanks around `or`. */
  function OrThen(tail: string): string {
    [' '] + ("or" + ([' '] + tail))
  }

  lemma MergeStep(trees: seq<Tree>)
    requires |trees| > 1
    ensures MergeText(PrintAll(trees)) == ['('] + (Print(trees[0]) + ([')'] + OrThen(MergeText(PrintAll(trees[1..])))))
  {
    assert PrintAll(trees)[1..] == PrintAll(trees[1..]);
    assert PrintAll(trees)[0] == Print(trees[0]);
    assert " or " == [' '] + ("or" + [' ']);
  }

  lemma LexOr(tail: string)
    ensures Scan(OrThen(tail), "") == [Word("or")] + Scan(tail, "")
  {
    ScanStep(' ', "or" + ([' '] + tail));
    ScanOneWord("or", [' '] + tail);
    ScanStep(' ', tail);
  }

  lemma RestStep(trees: seq<Tree>)
    requires trees != []
    ensures RestTokens(trees) == [Word("or")] + ([Open] + (Tokens(trees[0]) + ([Close] + RestTokens(trees[1..]))))
  {}

  lemma LexDisjunct(t: Tree, rest: string)
    requires LeafWords(t)
    ensures Scan(['('] + (Print(t) + ([')'] + rest)), "") == [Open] + (Tokens(t) + ([Close] + Scan(rest, "")))
  {
    ScanStep('(', Print(t) + ([')'] + rest));
    ScanPrint(t, [')'] + rest);
    ScanStep(')', rest);
  }

  lemma ParseDisjunct(t: Tree, rest: seq<Token>)
    requires LeafWords(t) && Complete(t)
    ensures ParseAtom([Open] + (Tokens(t) + ([Close] + rest))) == Some((t, rest))
  {
    var close := [Close] + rest;
    ParseAtomTokens(t, close);
    assert ParseAnd(Tokens(t) + close) == AndTail(t, close);
    assert ParseOr(Tokens(t) + close) == OrTail(t, close);
    ParseParens(Tokens(t) + close);
    assert close[1..] == rest;
  }

  lemma {:induction false} ParseRest(left: Tree, trees: seq<Tree>)
    requires forall i | 0 <= i < |trees| :: LeafWords(trees[i]) && Complete(trees[i])
    ensures OrTail(left, RestTokens(trees)) == Some((OrAll(left, trees), []))
    decreases trees
  {
    if trees != [] {
      var rest := RestTokens(trees[1..]);
      var next := [Open] + (Tokens(trees[0]) + ([Close] + rest));
      assert RestTokens(trees)[1..] == next;
      ParseDisjunct(trees[0], rest);
      assert ParseAnd(next) == AndTail(trees[0], rest);
      ParseRest(Gate(Or, left, trees[0]), trees[1..]);
    }
  }

  lemma {:induction false} MergedLower(trees: seq<Tree>)
    requires forall i | 0 <= i < |trees| :: LeafWords(trees[i])
    ensures NoCapitals(MergeText(PrintAll(trees)))
  {
    if trees != [] {
      assert PrintAll(trees)[1..] == PrintAll(trees[1..]);
      PrintLower(trees[0]);
      MergedLower(trees[1..]);
      NoCapitalsConcat("(" + Print(trees[0]), ")");
      NoCapitalsConcat("(" + Print(trees[0]) + ")" + " or ", MergeText(PrintAll(trees[1..])));
    }
  }

  /** The merged text of any number of policies reads as their disjunction. */
  lemma MergedReads(trees: seq<Tree>)
    requires trees != [] && forall i | 0 <= i < |trees| :: LeafWords(trees[i]) && Complete(trees[i])
    ensures Parse(Lex(MergeText(PrintAll(trees)))) == Some(OrAll(trees[0], trees[1..]))
  {
    var text := MergeText(PrintAll(trees));
    MergedLower(trees);
    LowerOfWord(text);
    LexMerged(trees);
    var rest := RestTokens(trees[1..]);
    ParseDisjunct(trees[0], rest);
    assert ParseAnd(Lex(text)) == AndTail(trees[0], rest);
    ParseRest(trees[0], trees[1..]);
  }

  lemma {:induction false} OrAllMeaning(key: set<string>, left: Tree, trees: seq<Tree>)
    ensures Satisfies(key, OrAll(left, trees)) <==>
            Satisfies(key, left) || exists i | 0 <= i < |trees| :: Satisfies(key, trees[i])
    decreases trees
  {
    if trees != [] {
      OrAllMeaning(key, Gate(Or, left, trees[0]), trees[1..]);
      assert forall i | 0 <= i < |trees| - 1 :: trees[1..][i] == trees[i + 1];
      assert forall i | 0 < i < |trees| :: trees[i] == trees[1..][i - 1];
    }
  }

  /** A key opens the merged text exactly when it opens one of the policies merged. */
  lemma MergedMeansAny(key: set<string>, trees: seq<Tree>)
    requires trees != [] && forall i | 0 <= i < |trees| :: LeafWords(trees[i]) && Complete(trees[i])
    ensures Opens(key, MergeText(PrintAll(trees))) <==> exists i | 0 <= i < |trees| :: Opens(key, Print(trees[i]))
  {
    MergedReads(trees);
    OrAllMeaning(key, trees[0], trees[1..]);
    forall i | 0 <= i < |trees| ensures Opens(key, Print(trees[i])) <==> Satisfies(key, trees[i]) {
      PrintLexParse(trees[i]);
    }
    if exists i | 0 <= i < |trees[1..]| :: Satisfies(key, trees[1..][i]) {
      var i :| 0 <= i < |trees[1..]| && Satisfies(key, trees[1..][i]);
      assert Satisfies(key, trees[i + 1]);
    }
    if exists i | 0 < i < |trees| :: Satisfies(key, trees[i]) {
      var i :| 0 < i < |trees| && Satisfies(key, trees[i]);
      assert Satisfies(key, trees[1..][i - 1]);
    }
  }

  /** Adding a grant never removes a reader, and admits exactly the readers of the new policy. */
  lemma AddingGrantKeepsReaders(key: set<string>, trees: seq<Tree>, added: Tree)
    requires trees != [] && forall i | 0 <= i < |trees| :: LeafWords(trees[i]) && Complete(trees[i])
    requires LeafWords(added) && Complete(added)
    ensures Opens(key, MergeText(PrintAll(trees + [added]))) <==>
            Opens(key, MergeText(PrintAll(trees))) || Opens(key, Print(added))
  {
    MergedMeansAny(key, trees);
    MergedMeansAny(key, trees + [added]);
    assert (trees + [added])[|trees|] == added;
    assert forall i | 0 <= i < |trees| :: (trees + [added])[i] == trees[i];
  }
}
