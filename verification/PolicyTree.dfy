/** CP-ABE policies: their trees, their text, their tokens, and the keys that satisfy them. */
module PolicyTree {
  import opened Text
  import opened Conditions

  /** A leaf word is `name:value`. A Hole stands where the compiler wrote nothing at all. */
  datatype Tree =
    | Leaf(word: string)
    | NotLeaf(word: string)
    | Gate(op: Connector, left: Tree, right: Tree)
    | Hole

  function LeafText(name: string, value: string): string {
    name + ":" + value
  }

  /** The part of a word before its first colon, and the part after it. */
  function Label(word: string): string {
    word[..Find(word, ':')]
  }

  function ValueOf(word: string): string {
    if Find(word, ':') < |word| then word[Find(word, ':') + 1..] else ""
  }

  function ConnectorText(op: Connector): string {
    if op == And then "and" else "or"
  }

  function Print(t: Tree): string {
    match t
    case Leaf(w) => w
    case NotLeaf(w) => "not " + w
    case Gate(op, l, r) => "(" + Print(l) + " " + ConnectorText(op) + " " + Print(r) + ")"
    case Hole => ""
  }

  datatype Token = Open | Close | Word(text: string)

  function Tokens(t: Tree): seq<Token> {
    match t
    case Leaf(w) => [Word(w)]
    case NotLeaf(w) => [Word("not"), Word(w)]
    case Gate(op, l, r) => [Open] + Tokens(l) + [Word(ConnectorText(op))] + Tokens(r) + [Close]
    case Hole => []
  }

  /** No hole anywhere: the tree is a policy. */
  predicate Complete(t: Tree) {
    match t
    case Gate(_, l, r) => Complete(l) && Complete(r)
    case _ => !t.Hole?
  }

  /** No native negation: the tree is an AC17 policy. */
  predicate Monotone(t: Tree) {
    match t
    case Gate(_, l, r) => Monotone(l) && Monotone(r)
    case _ => !t.NotLeaf?
  }

  predicate IsLeafWord(w: string) {
    exists k | 0 <= k < |w| :: w[k] == ':' && IsWord(w[..k]) && IsWord(w[k + 1..])
  }

  predicate LeafWords(t: Tree) {
    match t
    case Leaf(w) => IsLeafWord(w)
    case NotLeaf(w) => IsLeafWord(w)
    case Gate(_, l, r) => LeafWords(l) && LeafWords(r)
    case Hole => true
  }

  function Leaves(t: Tree): seq<string> {
    match t
    case Leaf(w) => [w]
    case NotLeaf(w) => [w]
    case Gate(_, l, r) => Leaves(l) + Leaves(r)
    case Hole => []
  }

  /** AC17: a key is a set of attribute words; the scheme has no negation. */
  predicate Satisfies(key: set<string>, t: Tree) {
    match t
    case Leaf(w) => w in key
    case Gate(And, l, r) => Satisfies(key, l) && Satisfies(key, r)
    case Gate(Or, l, r) => Satisfies(key, l) || Satisfies(key, r)
    case _ => false
  }

  /** More attributes never lose a policy. */
  lemma {:induction false} SatisfiesMonotone(small: set<string>, large: set<string>, t: Tree)
    requires small <= large && Satisfies(small, t)
    ensures Satisfies(large, t)
  {
    match t
    case Gate(op, l, r) =>
      if Satisfies(small, l) { SatisfiesMonotone(small, large, l); }
      if Satisfies(small, r) { SatisfiesMonotone(small, large, r); }
    case _ =>
  }

  /** A key that holds every leaf satisfies every AC17 policy. */
  lemma {:induction false} AllLeavesSatisfy(key: set<string>, t: Tree)
    requires Complete(t) && Monotone(t)
    requires forall w | w in Leaves(t) :: w in key
    ensures Satisfies(key, t)
  {
    match t
    case Gate(_, l, r) =>
      assert forall w | w in Leaves(l) :: w in Leaves(t);
      assert forall w | w in Leaves(r) :: w in Leaves(t);
      AllLeavesSatisfy(key, l);
      AllLeavesSatisfy(key, r);
    case _ =>
  }

  /** The colon splits a leaf word in one way only. */
  lemma LeafWordSplit(name: string, value: string, name': string, value': string)
    requires ':' !in name && ':' !in name'
    requires name + ":" + value == name' + ":" + value'
    ensures name == name' && value == value'
  {
    var w := name + ":" + value;
    assert w == name + (":" + value) == name' + (":" + value');
    FindExact(name, ":" + value, ':');
    FindExact(name', ":" + value', ':');
    assert name == w[..|name|] == name';
    assert value == w[|name| + 1..] == value';
  }

  lemma LabelOfLeaf(name: string, value: string)
    requires ':' !in name
    ensures Label(LeafText(name, value)) == name && ValueOf(LeafText(name, value)) == value
    ensures Label(name) == name && ValueOf(name) == ""
  {
    FindExact(name, "", ':');
    assert name + "" == name;
    assert LeafText(name, value) == name + (":" + value);
    FindExact(name, ":" + value, ':');
  }

  lemma MakeLeafWord(name: string, value: string)
    requires IsWord(name) && IsWord(value)
    ensures IsLeafWord(LeafText(name, value))
  {
    var w := LeafText(name, value);
    assert w[|name|] == ':' && w[..|name|] == name && w[|name| + 1..] == value;
  }

  /** A leaf word is its label and its value around a colon. */
  lemma LeafWordParts(w: string)
    requires IsLeafWord(w)
    ensures IsWord(Label(w)) && IsWord(ValueOf(w)) && w == LeafText(Label(w), ValueOf(w))
  {
    var k :| 0 <= k < |w| && w[k] == ':' && IsWord(w[..k]) && IsWord(w[k + 1..]);
    LabelOfLeaf(w[..k], w[k + 1..]);
    assert w == LeafText(w[..k], w[k + 1..]);
  }
}
