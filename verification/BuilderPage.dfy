/** Rebuilding the builder page from the tree the server sends back (policy-builder.js):
    numbered group and rule elements, one counter, children appended in place. */
module BuilderPage {
  import opened Conditions
  import opened VisualBuilder

  datatype Element = GroupElement(id: nat) | RuleElement(id: nat)
  datatype GroupBox = GroupBox(connector: Connector, children: seq<Element>)

  /** The attributes on offer, each with its list of values. */
  type Offer = map<string, seq<string>>

  datatype Page = Page(counter: nat, groups: map<nat, GroupBox>, rules: map<nat, Node>)

  function Checked(offered: seq<string>, values: seq<string>): seq<string> {
    if offered == [] then []
    else (if offered[0] in values then [offered[0]] else []) + Checked(offered[1..], values)
  }

  /** A select element takes a value only if it is one of its options. */
  function Selected(options: seq<string>, value: string): string {
    if value == "" then (if options == [] then "" else options[0])
    else if value in options then value else ""
  }

  /** The rule element after `updateValueSelector` has been given the rule's data. */
  function ShownRule(offer: Offer, attr: string, test: Test): Node {
    var shown := if attr in offer then attr else "";
    var options := if shown in offer then offer[shown] else [];
    match test
    case Eq(v) => Rule(shown, Eq(Selected(options, v)))
    case NotEq(v) => Rule(shown, NotEq(Selected(options, v)))
    case In(vs) => Rule(shown, In(Checked(options, vs)))
    case NotIn(vs) => Rule(shown, NotIn(Checked(options, vs)))
  }

  function AddRule(p: Page, parent: nat, rule: Node): Page
    requires parent in p.groups
  {
    var box := p.groups[parent];
    Page(p.counter + 1, p.groups[parent := GroupBox(box.connector, box.children + [RuleElement(p.counter + 1)])],
         p.rules[p.counter + 1 := rule])
  }

  function AddGroup(p: Page, parent: nat, connector: Connector): Page
    requires parent in p.groups
  {
    var box := p.groups[parent];
    Page(p.counter + 1,
         p.groups[parent := GroupBox(box.connector, box.children + [GroupElement(p.counter + 1)])]
                 [p.counter + 1 := GroupBox(connector, [])],
         p.rules)
  }

  /** `buildUIFromJson(node, parent)` for a node below the root. */
  function Build(p: Page, offer: Offer, node: Node, parent: nat): (r: Page)
    requires parent in p.groups
    ensures p.groups.Keys <= r.groups.Keys
    decreases node, 1
  {
    match node
    case Rule(attr, test) => AddRule(p, parent, ShownRule(offer, attr, test))
    case Group(connector, children) => BuildAll(AddGroup(p, parent, connector), offer, children, p.counter + 1)
  }

  function BuildAll(p: Page, offer: Offer, children: seq<Node>, parent: nat): (r: Page)
    requires parent in p.groups
    ensures p.groups.Keys <= r.groups.Keys
    decreases children, 0
  {
    if children == [] then p
    else Build(BuildAll(p, offer, children[..|children| - 1], parent), offer, children[|children| - 1], parent)
  }

  /** Children are numbered after their group, and every element on the page is known. */
  predicate Valid(p: Page) {
    (forall g | g in p.groups :: g <= p.counter && forall i | 0 <= i < |p.groups[g].children| ::
       Known(p, p.groups[g].children[i]) && g < p.groups[g].children[i].id) &&
    (forall r | r in p.rules :: r <= p.counter)
  }

  predicate Known(p: Page, e: Element) {
    if e.GroupElement? then e.id in p.groups else e.id in p.rules
  }

  /** The tree an element stands for. */
  function View(p: Page, e: Element): Node
    requires Valid(p) && Known(p, e)
    decreases p.counter - e.id
  {
    if e.RuleElement? then p.rules[e.id]
    else
      var box := p.groups[e.id];
      Group(box.connector, seq(|box.children|, i requires 0 <= i < |box.children| => View(p, box.children[i])))
  }

  /** Nothing at or after number `from`, and not after the old counter, differs. */
  predicate SameFrom(p: Page, q: Page, from: nat) {
    forall i | from <= i <= p.counter ::
      (i in p.groups ==> i in q.groups && q.groups[i] == p.groups[i]) &&
      (i in p.rules ==> i in q.rules && q.rules[i] == p.rules[i])
  }

  lemma {:induction false} ViewFrame(p: Page, q: Page, e: Element)
    requires Valid(p) && Valid(q) && Known(p, e) && SameFrom(p, q, e.id)
    ensures Known(q, e) && View(q, e) == View(p, e)
    decreases p.counter - e.id
  {
    if e.GroupElement? {
      var box := p.groups[e.id];
      forall i | 0 <= i < |box.children|
          ensures Known(q, box.children[i]) && View(q, box.children[i]) == View(p, box.children[i]) {
        ViewFrame(p, q, box.children[i]);
      }
    }
  }

  /** What building one node does: one more child of its parent, new numbers only, and nothing else changed. */
  ghost predicate Appends(p: Page, q: Page, parent: nat, shown: Node) {
    parent in p.groups && parent in q.groups && p.counter < q.counter &&
    (forall i | i <= p.counter && i != parent ::
       (i in p.groups <==> i in q.groups) && (i in p.groups ==> q.groups[i] == p.groups[i])) &&
    (forall i | i <= p.counter :: (i in p.rules <==> i in q.rules) && (i in p.rules ==> q.rules[i] == p.rules[i])) &&
    q.groups[parent].connector == p.groups[parent].connector &&
    |q.groups[parent].children| == |p.groups[parent].children| + 1 &&
    q.groups[parent].children[..|p.groups[parent].children|] == p.groups[parent].children &&
    var e := q.groups[parent].children[|p.groups[parent].children|];
    Known(q, e) && p.counter < e.id && Valid(q) && View(q, e) == shown
  }

  /** The tree as the page shows it. */
  function Shown(offer: Offer, node: Node): Node {
    match node
    case Rule(attr, test) => ShownRule(offer, attr, test)
    case Group(connector, children) =>
      Group(connector, seq(|children|, i requires 0 <= i < |children| => Shown(offer, children[i])))
  }

  lemma {:induction false} BuildAppends(p: Page, offer: Offer, node: Node, parent: nat)
    requires Valid(p) && parent in p.groups
    ensures Appends(p, Build(p, offer, node, parent), parent, Shown(offer, node))
    decreases node, 1
  {
    match node
    case Rule(attr, test) =>
      AddRuleAppends(p, parent, ShownRule(offer, attr, test));
    case Group(connector, children) =>
      var start := AddGroup(p, parent, connector);
      var id := p.counter + 1;
      AddGroupValid(p, parent, connector);
      BuildAllFills(start, offer, children, id);
      var q := BuildAll(start, offer, children, id);
      var e := q.groups[parent].children[|p.groups[parent].children|];
      assert e == GroupElement(id);
      assert q.groups[parent] == start.groups[parent];
  }

  lemma AddRuleAppends(p: Page, parent: nat, rule: Node)
    requires Valid(p) && parent in p.groups
    ensures Appends(p, AddRule(p, parent, rule), parent, rule)
  {
    assert Valid(AddRule(p, parent, rule));
  }

  lemma AddGroupValid(p: Page, parent: nat, connector: Connector)
    requires Valid(p) && parent in p.groups
    ensures Valid(AddGroup(p, parent, connector))
  {}

  /** Building a list of children into an empty group fills it with them, in order. */
  ghost predicate Fills(p: Page, q: Page, parent: nat, shown: seq<Node>) {
    parent in p.groups && parent in q.groups && p.counter <= q.counter && Valid(q) &&
    (forall i | i <= p.counter && i != parent ::
       (i in p.groups <==> i in q.groups) && (i in p.groups ==> q.groups[i] == p.groups[i])) &&
    (forall i | i <= p.counter :: (i in p.rules <==> i in q.rules) && (i in p.rules ==> q.rules[i] == p.rules[i])) &&
    q.groups[parent].connector == p.groups[parent].connector &&
    |q.groups[parent].children| == |shown| &&
    forall i | 0 <= i < |shown| :: View(q, q.groups[parent].children[i]) == shown[i]
  }

  function ShownAll(offer: Offer, children: seq<Node>): seq<Node> {
    seq(|children|, i requires 0 <= i < |children| => Shown(offer, children[i]))
  }

  lemma {:induction false} BuildAllFills(p: Page, offer: Offer, children: seq<Node>, parent: nat)
    requires Valid(p) && parent in p.groups && p.groups[parent].children == []
    ensures Fills(p, BuildAll(p, offer, children, parent), parent, ShownAll(offer, children))
    decreases children, 0
  {
    if children != [] {
      var n := |children| - 1;
      var mid := BuildAll(p, offer, children[..n], parent);
      BuildAllFills(p, offer, children[..n], parent);
      BuildAppends(mid, offer, children[n], parent);
      FillsThenAppends(p, mid, BuildAll(p, offer, children, parent), parent, ShownAll(offer, children[..n]),
        Shown(offer, children[n]));
      ShownLast(offer, children);
    }
  }

  lemma ShownLast(offer: Offer, children: seq<Node>)
    requires children != []
    ensures var n := |children| - 1;
            ShownAll(offer, children) == ShownAll(offer, children[..n]) + [Shown(offer, children[n])]
  {}

  lemma FillsThenAppends(p: Page, mid: Page, q: Page, parent: nat, shown: seq<Node>, last: Node)
    requires Fills(p, mid, parent, shown) && Appends(mid, q, parent, last)
    ensures Fills(p, q, parent, shown + [last])
  {
    var before, after := mid.groups[parent].children, q.groups[parent].children;
    forall i | 0 <= i < |shown| ensures View(q, after[i]) == shown[i] {
      assert after[i] == before[i];
      assert parent < before[i].id;
      ViewFrame(mid, q, before[i]);
    }
  }

  /** The rules whose attribute and values the page offers, lists in the page's order. */
  predicate OffersAll(offer: Offer, node: Node) {
    match node
    case Rule(attr, test) =>
      attr in offer && (
        match test
        case Eq(v) => v != "" && v in offer[attr]
        case NotEq(v) => v != "" && v in offer[attr]
        case In(vs) => vs == Checked(offer[attr], vs)
        case NotIn(vs) => vs == Checked(offer[attr], vs))
    case Group(_, children) => forall i | 0 <= i < |children| :: OffersAll(offer, children[i])
  }

  lemma {:induction false} OfferedShown(offer: Offer, node: Node)
    requires OffersAll(offer, node)
    ensures Shown(offer, node) == node
  {
    match node
    case Group(_, children) =>
      forall i | 0 <= i < |children|
          ensures Shown(offer, children[i]) == children[i] { OfferedShown(offer, children[i]); }
      assert ShownAll(offer, children) == children;
    case _ =>
  }

  /** A value is checked exactly when it is offered and was stored. */
  lemma {:induction false} CheckedExact(offered: seq<string>, values: seq<string>, v: string)
    ensures v in Checked(offered, values) <==> v in offered && v in values
  {
    if offered != [] {
      CheckedExact(offered[1..], values, v);
      assert v in offered <==> v == offered[0] || v in offered[1..];
    }
  }

  lemma {:induction false} CheckedInOrder(a: seq<string>, b: seq<string>, values: seq<string>)
    ensures Checked(a + b, values) == Checked(a, values) + Checked(b, values)
  {
    if a == [] {
      assert a + b == b;
    } else {
      assert (a + b)[1..] == a[1..] + b;
      CheckedInOrder(a[1..], b, values);
    }
  }

  /** What the page shows of a rule that it does not offer: no attribute; no value in place of one that is not among the
      options, and the first option in place of none; of a list, what is offered. */
  predicate OnlyOffered(offer: Offer, n: Node) {
    match n
    case Rule(attr, test) =>
      (attr in offer || attr == "") &&
      forall i | 0 <= i < |ValuesOf(test)| ::
        ValuesOf(test)[i] == "" || (attr in offer && ValuesOf(test)[i] in offer[attr])
    case Group(_, children) => forall i | 0 <= i < |children| :: OnlyOffered(offer, children[i])
  }

  lemma {:induction false} ShownIsOffered(offer: Offer, node: Node)
    ensures OnlyOffered(offer, Shown(offer, node))
  {
    match node
    case Rule(attr, test) =>
      var shown := if attr in offer then attr else "";
      var options := if shown in offer then offer[shown] else [];
      forall vs, v | v in Checked(options, vs) ensures v in options { CheckedExact(options, vs, v); }
    case Group(_, children) =>
      forall i | 0 <= i < |children| ensures OnlyOffered(offer, Shown(offer, children[i])) {
        ShownIsOffered(offer, children[i]);
      }
  }

  /** Under an offered attribute a single value is kept if it is offered, and blank if it is another. */
  lemma ShownValue(offer: Offer, attr: string, v: string, vs: seq<string>, w: string)
    requires attr in offer && v != ""
    ensures Shown(offer, Rule(attr, Eq(v))) == Rule(attr, Eq(if v in offer[attr] then v else ""))
    ensures Shown(offer, Rule(attr, NotEq(v))) == Rule(attr, NotEq(if v in offer[attr] then v else ""))
    ensures offer[attr] != [] ==> Shown(offer, Rule(attr, Eq(""))) == Rule(attr, Eq(offer[attr][0]))
    ensures Shown(offer, Rule(attr, In(vs))).test.In? && Shown(offer, Rule(attr, NotIn(vs))).test.NotIn?
    ensures w in Shown(offer, Rule(attr, In(vs))).test.values <==> w in offer[attr] && w in vs
    ensures w in Shown(offer, Rule(attr, NotIn(vs))).test.values <==> w in offer[attr] && w in vs
  {
    CheckedExact(offer[attr], vs, w);
  }

  /** The page as an object whose elements are created and extended in place. */
  class Builder {
    var elementCounter: nat
    var groups: map<nat, GroupBox>
    var rules: map<nat, Node>
    const offer: Offer

    constructor (o: Offer)
      ensures offer == o && State() == Page(0, map[], map[])
    {
      offer, elementCounter, groups, rules := o, 0, map[], map[];
    }

    ghost function State(): Page
      reads this
    {
      Page(elementCounter, groups, rules)
    }

    method AddRuleToGroup(parent: nat, attr: string, test: Test)
      requires parent in groups
      modifies this
      ensures State() == AddRule(old(State()), parent, ShownRule(offer, attr, test))
    {
      elementCounter := elementCounter + 1;
      groups := groups[parent :=
        GroupBox(groups[parent].connector, groups[parent].children + [RuleElement(elementCounter)])];
      rules := rules[elementCounter := ShownRule(offer, attr, test)];
    }

    method AddGroupToGroup(parent: nat, connector: Connector) returns (id: nat)
      requires parent in groups
      modifies this
      ensures State() == AddGroup(old(State()), parent, connector) && id == elementCounter
    {
      elementCounter := elementCounter + 1;
      id := elementCounter;
      groups := groups[parent := GroupBox(groups[parent].connector, groups[parent].children + [GroupElement(id)])];
      groups := groups[id := GroupBox(And, [])];
      groups := groups[id := GroupBox(connector, groups[id].children)];
    }

    method BuildUIFromJson(node: Node, parent: nat)
      requires parent in groups
      modifies this
      ensures State() == Build(old(State()), offer, node, parent)
      decreases node, 1
    {
      match node
      case Rule(attr, test) =>
        AddRuleToGroup(parent, attr, test);
      case Group(connector, children) =>
        var id := AddGroupToGroup(parent, connector);
        BuildChildren(children, id);
    }

    method BuildChildren(children: seq<Node>, parent: nat)
      requires parent in groups
      modifies this
      ensures State() == BuildAll(old(State()), offer, children, parent)
      decreases children, 0
    {
      ghost var start := State();
      for k := 0 to |children|
        invariant State() == BuildAll(start, offer, children[..k], parent)
        invariant parent in groups
      {
        BuildUIFromJson(children[k], parent);
        assert children[..k + 1][..k] == children[..k];
      }
      assert children[..|children|] == children;
    }

    /** `parseConditionToRules` with a tree from the server: the page starts over from the root group 0. */
    method ShowTree(connector: Connector, children: seq<Node>)
      modifies this
      ensures Valid(State()) && Known(State(), GroupElement(0))
      ensures View(State(), GroupElement(0)) == Group(connector, ShownAll(offer, children))
    {
      elementCounter := 0;
      groups := map[0 := GroupBox(And, [])];
      rules := map[];
      groups := groups[0 := GroupBox(connector, groups[0].children)];
      ghost var start := State();
      BuildChildren(children, 0);
      BuildAllFills(start, offer, children, 0);
    }
  }
}
