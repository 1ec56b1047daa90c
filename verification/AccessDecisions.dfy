/** Policy decisions in priority order (services/casbin_service.py). */
module AccessDecisions {
  import opened Text
  import opened Conditions
  import opened ConditionText

  datatype Effect = Allow | Deny | OtherEffect

  datatype Policy = Policy(
    id: nat, condition: string, resource: string, action: string, effect: Effect, priority: int, active: bool)

  // ---- which policies speak

  /** `safe_eval_condition`: a condition that does not parse counts as false. */
  predicate SafeEval(condition: string, u: User) {
    var c := ParseCondition(condition);
    c.Some? && Eval(c.value, u)
  }

  /** `[r.strip() for r in text.split(',')]` */
  function Listed(text: string): seq<string> {
    var parts := Split(text, ',');
    seq(|parts|, i requires 0 <= i < |parts| => Trim(parts[i]))
  }

  predicate GlobalMatch(p: Policy, resource: string, actions: seq<string>) {
    (resource in Listed(p.resource) || "*" in Listed(p.resource)) &&
    ((exists i | 0 <= i < |actions| :: actions[i] in Listed(p.action)) || "*" in Listed(p.action))
  }

  /** What a policy says to a global request; an effect that is neither says nothing. */
  function GlobalVerdict(p: Policy, u: User, resource: string, actions: seq<string>): Option<bool> {
    if p.active && GlobalMatch(p, resource, actions) && SafeEval(p.condition, u) && p.effect != OtherEffect
    then Some(p.effect == Allow) else None
  }

  predicate FileActionMatch(p: Policy, action: string) {
    if action == "download" then p.action in ["download", "*"]
    else if action in ["read", "view"] then p.action in ["read", "view", "download", "*"]
    else p.action in [action, "*"]
  }

  /** What a policy of a file says; every effect but allow denies. */
  function FileVerdict(p: Policy, u: User, action: string): Option<bool> {
    if FileActionMatch(p, action) && SafeEval(p.condition, u) then Some(p.effect == Allow) else None
  }

  // ---- the same in terms of the policies' columns

  /** One of the names between the commas, without the blanks around it, is this one or the star. */
  predicate NamesOrAll(text: string, name: string) {
    exists i | 0 <= i < |Split(text, ',')| :: Trim(Split(text, ',')[i]) in {name, "*"}
  }

  ghost predicate ConditionHolds(text: string, u: User) {
    exists c | ParseCondition(text) == Some(c) :: Eval(c, u)
  }

  /** The policy is active, names the resource and one of the actions, its condition holds, and it has one of the two
      effects. */
  ghost predicate Concerns(p: Policy, u: User, resource: string, actions: seq<string>) {
    p.active && NamesOrAll(p.resource, resource) &&
    (NamesOrAll(p.action, "*") || exists i | 0 <= i < |actions| :: NamesOrAll(p.action, actions[i])) &&
    ConditionHolds(p.condition, u) && p.effect in {Allow, Deny}
  }

  /** A file's policy names the action or all of them; for reading and viewing each other or downloading will do. */
  ghost predicate ConcernsFile(p: Policy, u: User, action: string) {
    (p.action == action || p.action == "*" ||
     (action in {"read", "view"} && p.action in {"read", "view", "download"})) &&
    ConditionHolds(p.condition, u)
  }

  lemma ListedNames(text: string, name: string)
    ensures NamesOrAll(text, name) <==> name in Listed(text) || "*" in Listed(text)
  {
    var parts, listed := Split(text, ','), Listed(text);
    forall i | 0 <= i < |parts| ensures listed[i] == Trim(parts[i]) {}
    if name in listed { var i :| 0 <= i < |listed| && listed[i] == name; }
    if "*" in listed { var i :| 0 <= i < |listed| && listed[i] == "*"; }
    if NamesOrAll(text, name) {
      var i :| 0 <= i < |parts| && Trim(parts[i]) in {name, "*"};
      assert listed[i] in listed;
    }
  }

  /** Who speaks to a global request, and what. */
  lemma GlobalSpeaks(p: Policy, u: User, resource: string, actions: seq<string>)
    ensures var verdict := GlobalVerdict(p, u, resource, actions + ["*"]);
            (verdict.Some? <==> Concerns(p, u, resource, actions)) &&
            (verdict.Some? ==> (verdict == Some(true) <==> p.effect == Allow))
  {
    ListedNames(p.resource, resource);
    ListedNames(p.action, "*");
    var all := actions + ["*"];
    forall i | 0 <= i < |actions|
      ensures NamesOrAll(p.action, actions[i]) <==> all[i] in Listed(p.action) || "*" in Listed(p.action)
    {
      ListedNames(p.action, actions[i]);
    }
    assert all[|actions|] == "*";
  }

  lemma FileSpeaks(p: Policy, u: User, action: string)
    ensures var verdict := FileVerdict(p, u, action);
            (verdict.Some? <==> ConcernsFile(p, u, action)) &&
            (verdict.Some? ==> (verdict == Some(true) <==> p.effect == Allow))
  {}

  /** Of the policies that concern the request, this one has the lowest priority number. */
  ghost predicate GlobalLeads(ps: seq<Policy>, u: User, resource: string, actions: seq<string>, p: Policy) {
    p in ps && Concerns(p, u, resource, actions) &&
    forall q | q in ps && Concerns(q, u, resource, actions) :: p.priority <= q.priority
  }

  /** Some policy that leads has this effect. */
  ghost predicate LedBy(ps: seq<Policy>, u: User, resource: string, actions: seq<string>, effect: Effect) {
    exists p :: GlobalLeads(ps, u, resource, actions, p) && p.effect == effect
  }

  ghost predicate NoneConcerned(ps: seq<Policy>, u: User, resource: string, actions: seq<string>) {
    forall p | p in ps :: !Concerns(p, u, resource, actions)
  }

  ghost predicate FileLeads(ps: seq<Policy>, u: User, action: string, p: Policy) {
    p in ps && ConcernsFile(p, u, action) &&
    forall q | q in ps && ConcernsFile(q, u, action) :: p.priority <= q.priority
  }

  /** The general answer is the effect of a policy that leads, and there is none exactly when no policy concerns the
      request. */
  lemma GlobalAnswer(ps: seq<Policy>, u: User, resource: string, actions: seq<string>)
    ensures var answer := Decide(ByPriority(ps), p => GlobalVerdict(p, u, resource, actions + ["*"]));
            (answer.None? <==> NoneConcerned(ps, u, resource, actions)) &&
            (answer == Some(true) ==> LedBy(ps, u, resource, actions, Allow)) &&
            (answer == Some(false) ==> LedBy(ps, u, resource, actions, Deny))
  {
    var verdict := p => GlobalVerdict(p, u, resource, actions + ["*"]);
    var ordered := ByPriority(ps);
    ByPrioritySorts(ps);
    SameMembers(ps, ordered);
    DecideIsLeading(ordered, verdict);
    forall p ensures verdict(p).Some? <==> Concerns(p, u, resource, actions) { GlobalSpeaks(p, u, resource, actions); }
    var answer := Decide(ordered, verdict);
    if answer.Some? {
      var p :| Leads(ordered, verdict, p) && verdict(p) == answer;
      GlobalSpeaks(p, u, resource, actions);
      assert GlobalLeads(ps, u, resource, actions, p);
    }
  }

  lemma FileAnswer(ps: seq<Policy>, u: User, action: string)
    ensures var answer := Decide(ByPriority(ps), p => FileVerdict(p, u, action));
            (answer.None? <==> forall p | p in ps :: !ConcernsFile(p, u, action)) &&
            (answer == Some(true) ==> exists p :: FileLeads(ps, u, action, p) && p.effect == Allow) &&
            (answer == Some(false) ==> exists p :: FileLeads(ps, u, action, p) && p.effect != Allow)
  {
    var verdict := p => FileVerdict(p, u, action);
    var ordered := ByPriority(ps);
    ByPrioritySorts(ps);
    SameMembers(ps, ordered);
    DecideIsLeading(ordered, verdict);
    forall p ensures verdict(p).Some? <==> ConcernsFile(p, u, action) { FileSpeaks(p, u, action); }
    var answer := Decide(ordered, verdict);
    if answer.Some? {
      var p :| Leads(ordered, verdict, p) && verdict(p) == answer;
      FileSpeaks(p, u, action);
      assert FileLeads(ps, u, action, p);
    }
  }

  // ---- priority order

  predicate Sorted(ps: seq<Policy>) {
    forall i, j | 0 <= i < j < |ps| :: ps[i].priority <= ps[j].priority
  }

  function Insert(ps: seq<Policy>, p: Policy): seq<Policy> {
    if ps == [] || ps[|ps| - 1].priority <= p.priority then ps + [p]
    else Insert(ps[..|ps| - 1], p) + [ps[|ps| - 1]]
  }

  /** A stable sort by priority: Python's `sorted`, and the database's order for one order of its rows. */
  function ByPriority(ps: seq<Policy>): seq<Policy> {
    if ps == [] then [] else Insert(ByPriority(ps[..|ps| - 1]), ps[|ps| - 1])
  }

  lemma {:induction false} InsertMembers(ps: seq<Policy>, p: Policy)
    ensures multiset(Insert(ps, p)) == multiset(ps) + multiset{p}
  {
    if ps != [] && ps[|ps| - 1].priority > p.priority {
      var n := |ps| - 1;
      InsertMembers(ps[..n], p);
      assert ps == ps[..n] + [ps[n]];
    }
  }

  lemma {:induction false} InsertSorted(ps: seq<Policy>, p: Policy, bound: int)
    requires Sorted(ps) && p.priority <= bound && forall i | 0 <= i < |ps| :: ps[i].priority <= bound
    ensures Sorted(Insert(ps, p)) && forall i | 0 <= i < |Insert(ps, p)| :: Insert(ps, p)[i].priority <= bound
  {
    if ps != [] && ps[|ps| - 1].priority > p.priority {
      var n := |ps| - 1;
      InsertSorted(ps[..n], p, ps[n].priority);
    }
  }

  lemma {:induction false} ByPrioritySorts(ps: seq<Policy>)
    ensures Sorted(ByPriority(ps)) && multiset(ByPriority(ps)) == multiset(ps)
  {
    if ps != [] {
      var n := |ps| - 1;
      ByPrioritySorts(ps[..n]);
      var front := ByPriority(ps[..n]);
      var bound := if front == [] || front[|front| - 1].priority < ps[n].priority then ps[n].priority
          else front[|front| - 1].priority;
      InsertSorted(front, ps[n], bound);
      InsertMembers(front, ps[n]);
      assert ps == ps[..n] + [ps[n]];
    }
  }

  /** The first verdict along the list. */
  function Decide(ps: seq<Policy>, verdict: Policy -> Option<bool>): Option<bool> {
    if ps == [] then None
    else if verdict(ps[0]).Some? then verdict(ps[0])
    else Decide(ps[1..], verdict)
  }

  // ---- the checks

  /** `_check_abac`: scan the active policies by priority, stop at the first that speaks. */
  method CheckAbac(policies: seq<Policy>, u: User, resource: string, actions: seq<string>)
      returns (answer: Option<bool>)
    ensures answer == Decide(ByPriority(policies), p => GlobalVerdict(p, u, resource, actions + ["*"]))
    ensures answer.None? <==> NoneConcerned(policies, u, resource, actions)
    ensures answer == Some(true) ==> LedBy(policies, u, resource, actions, Allow)
    ensures answer == Some(false) ==> LedBy(policies, u, resource, actions, Deny)
  {
    GlobalAnswer(policies, u, resource, actions);
    var verdict := p => GlobalVerdict(p, u, resource, actions + ["*"]);
    var ordered := ByPriority(policies);
    for k := 0 to |ordered|
      invariant Decide(ordered[k..], verdict) == Decide(ordered, verdict)
    {
      var p := ordered[k];
      assert ordered[k..][1..] == ordered[k + 1..];
      if p.active && GlobalMatch(p, resource, actions + ["*"]) {
        if SafeEval(p.condition, u) {
          if p.effect == Deny { return Some(false); }
          if p.effect == Allow { return Some(true); }
        }
      }
    }
    return None;
  }

  /** `check_access`: superusers pass, everyone else needs an explicit allow. */
  method CheckAccess(superuser: bool, policies: seq<Policy>, u: User, resource: string, actions: seq<string>)
      returns (allowed: bool)
    ensures allowed == (superuser ||
            Decide(ByPriority(policies), p => GlobalVerdict(p, u, resource, actions + ["*"])) == Some(true))
    ensures allowed ==>
              superuser || LedBy(policies, u, resource, actions, Allow)
    ensures !allowed ==>
              !superuser &&
              (NoneConcerned(policies, u, resource, actions) || LedBy(policies, u, resource, actions, Deny))
  {
    if superuser { return true; }
    var answer := CheckAbac(policies, u, resource, actions);
    assert answer.Some? && answer.value ==> answer == Some(true);
    assert answer.Some? && !answer.value ==> answer == Some(false);
    return answer == Some(true);
  }

  /** `check_file_access` on the policies found for the file. */
  method CheckFileAccess(superuser: bool, filePolicies: seq<Policy>, u: User, action: string) returns (allowed: bool)
    ensures allowed == FileAllowed(superuser, filePolicies, u, action)
    ensures allowed ==>
              superuser || filePolicies == [] || exists p :: FileLeads(filePolicies, u, action, p) && p.effect == Allow
    ensures !allowed ==>
              !superuser && filePolicies != [] &&
              ((forall p | p in filePolicies :: !ConcernsFile(p, u, action)) ||
               exists p :: FileLeads(filePolicies, u, action, p) && p.effect != Allow)
  {
    if superuser { return true; }
    if filePolicies == [] { return true; }
    FileAnswer(filePolicies, u, action);
    var verdict := p => FileVerdict(p, u, action);
    var ordered := ByPriority(filePolicies);
    for k := 0 to |ordered|
      invariant Decide(ordered[k..], verdict) == Decide(ordered, verdict)
    {
      var p := ordered[k];
      assert ordered[k..][1..] == ordered[k + 1..];
      if action == "download" {
        if p.action !in ["download", "*"] { continue; }
      } else if action in ["read", "view"] {
        if p.action !in ["read", "view", "download", "*"] { continue; }
      } else {
        if p.action !in [action, "*"] { continue; }
      }
      if SafeEval(p.condition, u) { return p.effect == Allow; }
    }
    return false;
  }

  predicate FileAllowed(superuser: bool, filePolicies: seq<Policy>, u: User, action: string) {
    superuser || filePolicies == [] || Decide(ByPriority(filePolicies), p => FileVerdict(p, u, action)) == Some(true)
  }

  /** `check_file_access_with_fallback`: the general check first, then the file's own policies. */
  method CheckFileAccessWithFallback(superuser: bool, policies: seq<Policy>, filePolicies: seq<Policy>, u: User,
      action: string, aliases: seq<string>)
    returns (allowed: bool)
    ensures allowed <==>
      (superuser ||
        Decide(ByPriority(policies), p => GlobalVerdict(p, u, "document", aliases + ["*"])) == Some(true)) &&
      FileAllowed(superuser, filePolicies, u, action)
    ensures allowed && !superuser ==>
              LedBy(policies, u, "document", aliases, Allow) &&
              (filePolicies == [] || exists p :: FileLeads(filePolicies, u, action, p) && p.effect == Allow)
  {
    var general := CheckAccess(superuser, policies, u, "document", aliases);
    if !general { return false; }
    allowed := CheckFileAccess(superuser, filePolicies, u, action);
  }

  // ---- what the scan decides

  /** The policy speaks, and none that speaks has a smaller priority number. */
  ghost predicate Leads(ps: seq<Policy>, verdict: Policy -> Option<bool>, p: Policy) {
    p in ps && verdict(p).Some? && forall q | q in ps && verdict(q).Some? :: p.priority <= q.priority
  }

  /** The answer is the verdict of a leading policy, and there is none exactly when no policy speaks. */
  lemma {:induction false} DecideIsLeading(ps: seq<Policy>, verdict: Policy -> Option<bool>)
    requires Sorted(ps)
    ensures Decide(ps, verdict).None? <==> forall p | p in ps :: verdict(p).None?
    ensures Decide(ps, verdict).Some? ==> exists p | Leads(ps, verdict, p) :: verdict(p) == Decide(ps, verdict)
  {
    if ps != [] {
      var rest := ps[1..];
      assert forall p :: p in ps <==> p == ps[0] || p in rest;
      if verdict(ps[0]).Some? {
        forall q | q in ps ensures ps[0].priority <= q.priority {
          var i :| 0 <= i < |ps| && ps[i] == q;
        }
        assert Leads(ps, verdict, ps[0]);
      } else {
        DecideIsLeading(rest, verdict);
        if Decide(ps, verdict).Some? {
          var p :| Leads(rest, verdict, p) && verdict(p) == Decide(rest, verdict);
          assert Leads(ps, verdict, p);
        }
      }
    }
  }

  /** The policies that lead all say the same. */
  ghost predicate TiesAgree(ps: seq<Policy>, verdict: Policy -> Option<bool>) {
    forall p, q | Leads(ps, verdict, p) && Leads(ps, verdict, q) :: verdict(p) == verdict(q)
  }

  /** Every listing of the same policies in priority order gives the same answer. */
  ghost predicate OrderIndependent(ps: seq<Policy>, verdict: Policy -> Option<bool>) {
    forall qs | Sorted(qs) && multiset(qs) == multiset(ps) :: Decide(qs, verdict) == Decide(ps, verdict)
  }

  lemma SameMembers(ps: seq<Policy>, qs: seq<Policy>)
    requires multiset(ps) == multiset(qs)
    ensures forall p :: p in ps <==> p in qs
  {
    forall p ensures p in ps <==> p in qs {
      assert p in ps <==> p in multiset(ps);
      assert p in qs <==> p in multiset(qs);
    }
  }

  /** A leading policy can be listed before all the others that speak. */
  lemma LeaderFirst(ps: seq<Policy>, verdict: Policy -> Option<bool>, p: Policy) returns (qs: seq<Policy>)
    requires Sorted(ps) && Leads(ps, verdict, p)
    ensures Sorted(qs) && multiset(qs) == multiset(ps) && Decide(qs, verdict) == verdict(p)
  {
    var i :| 0 <= i < |ps| && ps[i] == p;
    var j := FirstOf(ps, p.priority, i);
    qs := Promoted(ps, j, i);
    PromotedSorted(ps, j, i);
    PromotedMembers(ps, j, i);
    forall k | 0 <= k < j ensures verdict(ps[k]).None? { assert ps[k] in ps; }
    SilentFront(ps[..j], [p] + (ps[j..i] + ps[i + 1..]), verdict);
  }

  /** The element at `i` moved up to `j`. */
  function Promoted(ps: seq<Policy>, j: nat, i: nat): seq<Policy>
    requires j <= i < |ps|
  {
    ps[..j] + ([ps[i]] + (ps[j..i] + ps[i + 1..]))
  }

  lemma PromotedMembers(ps: seq<Policy>, j: nat, i: nat)
    requires j <= i < |ps|
    ensures multiset(Promoted(ps, j, i)) == multiset(ps)
  {
    assert ps == ps[..j] + (ps[j..i] + ([ps[i]] + ps[i + 1..]));
  }

  lemma PromotedSorted(ps: seq<Policy>, j: nat, i: nat)
    requires Sorted(ps) && j <= i < |ps| && ps[j].priority == ps[i].priority
    ensures Sorted(Promoted(ps, j, i))
  {
    var qs := Promoted(ps, j, i);
    assert |qs| == |ps|;
    forall a | 0 <= a < |qs| ensures qs[a] == ps[OldIndex(a, j, i)] {}
    forall a, b | 0 <= a < b < |qs| ensures qs[a].priority <= qs[b].priority {
      var a', b' := OldIndex(a, j, i), OldIndex(b, j, i);
      assert qs[a] == ps[a'] && qs[b] == ps[b'];
      if b' < a' { assert ps[j].priority <= ps[b'].priority; }
    }
  }

  /** Where the element at position `k` of the rearranged list came from. */
  function OldIndex(k: nat, j: nat, i: nat): nat {
    if k < j then k else if k == j then i else if k <= i then k - 1 else k
  }

  lemma FirstOf(ps: seq<Policy>, priority: int, i: nat) returns (j: nat)
    requires Sorted(ps) && i < |ps| && ps[i].priority == priority
    ensures j <= i && ps[j].priority == priority && forall k | 0 <= k < j :: ps[k].priority < priority
  {
    j := i;
    while j > 0 && ps[j - 1].priority == priority
      invariant j <= i && ps[j].priority == priority
    {
      j := j - 1;
    }
    forall k | 0 <= k < j ensures ps[k].priority < priority {
      assert ps[k].priority <= ps[j - 1].priority <= ps[j].priority;
    }
  }

  lemma {:induction false} SilentFront(front: seq<Policy>, rest: seq<Policy>, verdict: Policy -> Option<bool>)
    requires forall k | 0 <= k < |front| :: verdict(front[k]).None?
    ensures Decide(front + rest, verdict) == Decide(rest, verdict)
  {
    if front == [] {
      assert front + rest == rest;
    } else {
      assert (front + rest)[1..] == front[1..] + rest;
      SilentFront(front[1..], rest, verdict);
    }
  }

  /** The decision does not depend on the order among equal priorities exactly when the leading policies agree. */
  lemma OrderIndependentIffTiesAgree(ps: seq<Policy>, verdict: Policy -> Option<bool>)
    requires Sorted(ps)
    ensures OrderIndependent(ps, verdict) <==> TiesAgree(ps, verdict)
  {
    if TiesAgree(ps, verdict) {
      forall qs | Sorted(qs) && multiset(qs) == multiset(ps) ensures Decide(qs, verdict) == Decide(ps, verdict) {
        SameMembers(ps, qs);
        DecideIsLeading(ps, verdict);
        DecideIsLeading(qs, verdict);
        if Decide(qs, verdict).Some? {
          var q :| Leads(qs, verdict, q) && verdict(q) == Decide(qs, verdict);
          assert Leads(ps, verdict, q);
        }
      }
    }
    if OrderIndependent(ps, verdict) {
      forall p, q | Leads(ps, verdict, p) && Leads(ps, verdict, q) ensures verdict(p) == verdict(q) {
        var first := LeaderFirst(ps, verdict, p);
        var second := LeaderFirst(ps, verdict, q);
      }
    }
  }

  /** For the checks: whatever order the policies of a file come in, the answer is one and the same
      if the leading ones agree. */
  lemma FileAnswerFixed(ps: seq<Policy>, qs: seq<Policy>, superuser: bool, u: User, action: string)
    requires multiset(ps) == multiset(qs)
    requires TiesAgree(ByPriority(ps), p => FileVerdict(p, u, action))
    ensures FileAllowed(superuser, ps, u, action) == FileAllowed(superuser, qs, u, action)
  {
    var verdict := p => FileVerdict(p, u, action);
    ByPrioritySorts(ps);
    ByPrioritySorts(qs);
    OrderIndependentIffTiesAgree(ByPriority(ps), verdict);
    assert |ps| == |multiset(ps)| == |multiset(qs)| == |qs|;
  }

  /** And the same for the general check. */
  lemma GlobalAnswerFixed(ps: seq<Policy>, qs: seq<Policy>, u: User, resource: string, actions: seq<string>)
    requires multiset(ps) == multiset(qs)
    requires TiesAgree(ByPriority(ps), p => GlobalVerdict(p, u, resource, actions))
    ensures Decide(ByPriority(ps), p => GlobalVerdict(p, u, resource, actions)) ==
            Decide(ByPriority(qs), p => GlobalVerdict(p, u, resource, actions))
  {
    ByPrioritySorts(ps);
    ByPrioritySorts(qs);
    OrderIndependentIffTiesAgree(ByPriority(ps), p => GlobalVerdict(p, u, resource, actions));
  }
}
