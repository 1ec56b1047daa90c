/** What whole runs of the store promise: who opens the latest version of a file while policies are added and replaced,
    when stored paths cannot collide, and which requests lose bytes when they do. */
module StoreRuns {
  import opened Text
  import opened Conditions
  import opened PolicyTree
  import opened PolicyPipeline
  import opened MergedGrants
  import opened UniqueNames
  import opened PhysicalPaths
  import opened StoredObjects
  import opened VersionPaths
  import opened Reencryption

  // ---- readers

  /** Whoever opens the policy opens one of the texts. */
  ghost predicate Covered(policy: string, texts: seq<string>) {
    forall key: set<string> | Opens(key, policy) :: OpensOne(key, texts)
  }

  predicate OpensOne(key: set<string>, texts: seq<string>) {
    exists i | 0 <= i < |texts| :: Opens(key, texts[i])
  }

  /** The recorded policy of the latest version opens to nobody but the readers of the assigned policies. Objects under
      earlier policies stay in the storage all the same, as Reencryption.OldObjectStays says. */
  ghost predicate OnlyGranted(s: State) {
    forall f | f in s.files && s.files[f].versions != [] && Latest(s.files[f]).policy != "" ::
      Covered(Latest(s.files[f]).policy, Texts(s.files[f].grants))
  }

  lemma {:induction false} TextsHold(grants: seq<Policy>, p: Policy) returns (k: nat)
    requires p in grants && p.cpabe != ""
    ensures k < |Texts(grants)| && Texts(grants)[k] == p.cpabe
  {
    if grants[0] == p {
      k := 0;
    } else {
      var j := TextsHold(grants[1..], p);
      k := if grants[0].cpabe == "" then j else j + 1;
    }
  }

  /** One more grant in front covers what was covered. */
  lemma CoveredByMore(policy: string, p: Policy, grants: seq<Policy>)
    requires Covered(policy, Texts(grants))
    ensures Covered(policy, Texts([p] + grants))
  {
    TextsFront(p, grants);
    forall key: set<string> | Opens(key, policy) ensures OpensOne(key, Texts([p] + grants)) {
      var i :| 0 <= i < |Texts(grants)| && Opens(key, Texts(grants)[i]);
      var j := if p.cpabe == "" then i else i + 1;
      assert Texts([p] + grants)[j] == Texts(grants)[i];
    }
  }

  lemma TextsFront(p: Policy, grants: seq<Policy>)
    ensures Texts([p] + grants) == (if p.cpabe == "" then [] else [p.cpabe]) + Texts(grants)
  {
    assert ([p] + grants)[1..] == grants;
  }

  /** The merged policy opens exactly to the readers of the policies merged. */
  lemma AddedPolicyOpens(grants: seq<Policy>, policy: Policy, key: set<string>)
    requires GoodPolicy(policy) && policy.cpabe != "" && forall p | p in grants :: GoodPolicy(p)
    ensures Opens(key, AssignedPolicy(grants, policy, false)) <==>
            OpensOne(key, Texts(grants)) || Opens(key, policy.cpabe)
  {
    if Texts(grants) != [] {
      var trees := TextsHaveTrees(grants);
      var t :| IsPolicyTree(t) && policy.cpabe == Print(t);
      assert PrintAll(trees) == Texts(grants);
      assert PrintAll(trees + [t]) == Texts(grants) + [policy.cpabe];
      AddingGrantKeepsReaders(key, trees, t);
      MergedMeansAny(key, trees);
    }
  }

  /** What StepOnlyGranted keeps for one file. */
  ghost predicate FileGranted(file: FileRecord) {
    FileInStep(file) && (Latest(file).policy != "" ==> Covered(Latest(file).policy, Texts(file.grants)))
  }

  lemma UploadFileGranted(file: FileRecord, op: Op)
    requires op.Upload? && GoodOp(op) && (file == FileRecord([], []) || FileInStep(file))
    ensures FileGranted(UploadedRecord(file, op))
  {
    UploadedInStep(file, op);
    var record := UploadedRecord(file, op);
    var policy := Latest(record).policy;
    if op.chosen.Some? && op.chosen.value.cpabe != "" {
      var k := TextsHold(record.grants, op.chosen.value);
      assert forall key: set<string> :: Opens(key, policy) ==> Opens(key, Texts(record.grants)[k]);
    } else if Texts(file.grants) != [] {
      assert policy == Texts(file.grants)[op.pick % |Texts(file.grants)|];
      assert Covered(policy, Texts(file.grants));
      if record.grants != file.grants { CoveredByMore(policy, op.chosen.value, file.grants); }
    }
  }

  lemma AssignFileGranted(file: FileRecord, op: Op)
    requires op.Assign? && GoodOp(op) && FileGranted(file)
    ensures FileGranted(AssignedRecord(file, op))
  {
    AssignedInStep(file, op);
    var policy := AssignedPolicy(file.grants, op.policy, op.replace);
    if op.replace {
      assert [op.policy][1..] == [];
      if policy != "" { assert Texts([op.policy])[0] == policy; }
    } else if op.policy.cpabe == "" {
      if Latest(file).policy != "" { CoveredByMore(Latest(file).policy, op.policy, file.grants); }
    } else {
      forall key: set<string> | Opens(key, policy) ensures OpensOne(key, Texts([op.policy] + file.grants)) {
        AddedPolicyOpens(file.grants, op.policy, key);
        OpensOneMore(key, op.policy, file.grants);
      }
    }
  }

  lemma OpensOneMore(key: set<string>, p: Policy, grants: seq<Policy>)
    requires p.cpabe != "" && (OpensOne(key, Texts(grants)) || Opens(key, p.cpabe))
    ensures OpensOne(key, Texts([p] + grants))
  {
    TextsFront(p, grants);
    var texts := Texts([p] + grants);
    if OpensOne(key, Texts(grants)) {
      var i :| 0 <= i < |Texts(grants)| && Opens(key, Texts(grants)[i]);
      assert texts[i + 1] == Texts(grants)[i];
    } else {
      assert texts[0] == p.cpabe;
    }
  }

  lemma StepOnlyGranted(s: State, op: Op)
    requires FilesInStep(s) && GoodOp(op) && OnlyGranted(s)
    ensures HaveVersions(s) && FilesInStep(Apply(s, op).0) && OnlyGranted(Apply(s, op).0)
  {
    forall f | f in s.files ensures FileGranted(s.files[f]) { assert FileInStep(s.files[f]); }
    var t := Apply(s, op).0;
    forall f | f in t.files ensures FileGranted(t.files[f]) {
      if f == op.path && t.files != s.files {
        if op.Upload? { UploadFileGranted(FileAt(s, f), op); } else { AssignFileGranted(s.files[f], op); }
      }
    }
  }

  /** Over every run, whether paths collide or not, it stays so that no key opens the policy of a file's latest
      version unless it opens one of the policies assigned to the file at that time. */
  lemma {:induction false} RunOnlyGranted(s: State, ops: seq<Op>)
    requires HaveVersions(s) && FilesInStep(s) && OnlyGranted(s) && forall i | 0 <= i < |ops| :: GoodOp(ops[i])
    ensures FilesInStep(Run(s, ops)) && OnlyGranted(Run(s, ops))
    decreases |ops|
  {
    if ops != [] {
      StepVersions(s, ops[0]);
      StepOnlyGranted(s, ops[0]);
      RunOnlyGranted(Apply(s, ops[0]).0, ops[1..]);
    }
  }

  /** From the empty store on. */
  lemma RunFromEmpty(vendor: Vendor, ops: seq<Op>)
    requires forall i | 0 <= i < |ops| :: GoodOp(ops[i])
    ensures OnlyGranted(Run(Empty(vendor), ops))
    ensures AdmissibleRun(Empty(vendor), ops) ==> AllConserved(Run(Empty(vendor), ops))
  {
    EmptyStoreConsistent(vendor);
    RunOnlyGranted(Empty(vendor), ops);
    if AdmissibleRun(Empty(vendor), ops) { RunConserves(Empty(vendor), ops); }
  }

  /** In any such state an assignment succeeds and leaves the latest version open exactly to the readers of all
      assigned policies and of the new one, or of the new one alone when it replaces. So an addition to an
      encrypted file removes no reader. */
  lemma AssignAdmitsExactly(s: State, op: Op, key: set<string>)
    requires Inv(s) && OnlyGranted(s) && op.Assign? && GoodOp(op) && op.policy.cpabe != ""
    requires op.path in s.files && op.permitted && (op.replace || op.policy !in s.files[op.path].grants)
    ensures HaveVersions(s)
    ensures var t := Apply(s, op).0;
            var before, after := s.files[op.path], t.files[op.path];
            Apply(s, op).1 == Success &&
            (Opens(key, Latest(after).policy) <==>
               Opens(key, op.policy.cpabe) || (!op.replace && OpensOne(key, Texts(before.grants)))) &&
            (!op.replace && Latest(before).policy != "" && Opens(key, Latest(before).policy) ==>
              Opens(key, Latest(after).policy))
  {
    InvVersions(s);
    var file := s.files[op.path];
    assert FileInStep(file);
    LatestPlain(s, op);
    if !op.replace { AddedPolicyOpens(file.grants, op.policy, key); }
  }

  // ---- runs whose paths cannot collide, told from the requests alone

  /** The path is one of the file's own; numbers are at most `bound` and times lie behind it, up to `clock`. */
  ghost predicate OwnPath(f: string, v: Version, bound: nat, clock: nat) {
    exists l :: LabelOf(f, v, l, bound, clock)
  }

  predicate LabelOf(f: string, v: Version, l: Label, bound: nat, clock: nat) {
    v.path == Render(f, l) && Fits(f, l) &&
    (l.Numbered? ==> l.n == v.number <= bound) && (l.Stamped? ==> bound < l.time <= clock)
  }

  /** A name without "_v", of two characters or more, on a disk with neat components. */
  predicate CleanName(vendor: Vendor, f: string) {
    NoV(f) && |f| >= 2 && (vendor.LocalDisk? ==> Neat(f))
  }

  ghost predicate Clean(s: State, bound: nat, clock: nat) {
    (forall f | f in s.files :: CleanName(s.vendor, f)) &&
    forall f, i | IsVersion(s, f, i) :: OwnPath(f, VersionAt(s, f, i), bound, clock)
  }

  ghost predicate CleanRun(vendor: Vendor, ops: seq<Op>, clock: nat)
    decreases |ops|
  {
    ops == [] ||
    (CleanOp(vendor, ops[0], clock) && CleanRun(vendor, ops[1..], if ops[0].Assign? then ops[0].time else clock))
  }

  /** Clean names, no field encryption, and a second for each policy change. */
  ghost predicate CleanOp(vendor: Vendor, op: Op, clock: nat) {
    GoodOp(op) &&
    match op
    case Upload(path, _, _, _, _, _, unique) => CleanName(vendor, path) && unique.None?
    case Assign(_, _, _, _, _, time, _) => clock < time
  }

  lemma OwnPathLong(vendor: Vendor, f: string, v: Version, bound: nat, clock: nat)
    requires CleanName(vendor, f) && OwnPath(f, v, bound, clock)
    ensures |v.path| >= 2 && (vendor.LocalDisk? ==> Neat(v.path))
  {
    var l :| LabelOf(f, v, l, bound, clock);
    if l.Stamped? { MarkedQuiet(l.time); }
    if vendor.LocalDisk? { RenderNeat(f, l); }
  }

  /** Paths of clean names name one object only if they are equal, and then belong to one file and one number. */
  lemma RenderApart(vendor: Vendor, f: string, l: Label, g: string, m: Label)
    requires CleanName(vendor, f) && CleanName(vendor, g) && Fits(f, l) && Fits(g, m)
    requires ObjectOf(vendor, Render(f, l)) == ObjectOf(vendor, Render(g, m))
    ensures f == g && l.Plain? == m.Plain? && (!l.Plain? ==> NumberOf(l) == NumberOf(m))
  {
    if vendor.LocalDisk? {
      RenderNeat(f, l);
      RenderNeat(g, m);
    }
    NeatInjective(vendor, Render(f, l), Render(g, m));
    RenderInjective(f, l, g, m);
  }

  lemma UploadedLabel(file: FileRecord, op: Op) returns (l: Label)
    requires op.Upload? && op.unique.None?
    ensures UploadedVersion(file, op).path == Render(op.path, l) && Fits(op.path, l) && !l.Stamped?
    ensures if file.versions == [] then l.Plain? else l == Numbered(NextNumber(file))
  {
    l := if file.versions == [] then Plain else Numbered(NextNumber(file));
    assert op.path + "_v" + Decimal(NextNumber(file)) == op.path + Marked(NextNumber(file));
  }

  lemma CleanUploadFresh(s: State, op: Op, bound: nat, clock: nat)
    requires op.Upload? && Inv(s) && Clean(s, bound, clock) && CleanOp(s.vendor, op, clock)
    requires NextNumber(FileAt(s, op.path)) <= bound
    ensures FreshPath(s, op)
  {
    InvVersions(s);
    var file := FileAt(s, op.path);
    var written := UploadedVersion(file, op).path;
    var mine := UploadedLabel(file, op);
    forall g, i | IsVersion(s, g, i) ensures ObjectOfVersion(s, g, i) != ObjectAt(s, written) {
      var l :| LabelOf(g, VersionAt(s, g, i), l, bound, clock);
      if ObjectOfVersion(s, g, i) == ObjectAt(s, written) {
        RenderApart(s.vendor, g, l, op.path, mine);
        assert FileInStep(s.files[g]);
        NumbersBelowNext(s.files[g], i);
        assert false;
      }
    }
  }

  lemma CleanAssignFresh(s: State, op: Op, bound: nat, clock: nat)
    requires op.Assign? && Inv(s) && Clean(s, bound, clock) && CleanOp(s.vendor, op, clock) && bound <= clock
    ensures FreshPath(s, op) && Unswept(s, op)
  {
    if op.path in s.files && s.files[op.path].versions != [] {
      var file := s.files[op.path];
      var n := |file.versions| - 1;
      assert IsVersion(s, op.path, n) && Latest(file) == VersionAt(s, op.path, n);
      var l :| LabelOf(op.path, Latest(file), l, bound, clock);
      var mine := AssignedLabel(op.path, l, op.time);
      forall g, i | IsVersion(s, g, i)
        ensures ObjectOfVersion(s, g, i) != ObjectAt(s, NewPath(file, op)) && Spared(s, op, ObjectOfVersion(s, g, i))
      {
        VersionApart(s, op, mine, bound, clock, g, i);
        VersionSpared(s, op, bound, clock, g, i);
      }
    }
  }

  lemma VersionApart(s: State, op: Op, mine: Label, bound: nat, clock: nat, g: string, i: int)
    requires op.Assign? && Clean(s, bound, clock) && CleanOp(s.vendor, op, clock) && bound <= clock
    requires op.path in s.files && s.files[op.path].versions != [] && IsVersion(s, g, i)
    requires mine.Stamped? && mine.time == op.time && Fits(op.path, mine)
    requires NewPath(s.files[op.path], op) == Render(op.path, mine)
    ensures ObjectOfVersion(s, g, i) != ObjectAt(s, NewPath(s.files[op.path], op))
  {
    var m :| LabelOf(g, VersionAt(s, g, i), m, bound, clock);
    if ObjectOfVersion(s, g, i) == ObjectAt(s, NewPath(s.files[op.path], op)) {
      RenderApart(s.vendor, g, m, op.path, mine);
    }
  }

  lemma VersionSpared(s: State, op: Op, bound: nat, clock: nat, g: string, i: int)
    requires op.Assign? && Clean(s, bound, clock) && op.path in s.files && s.files[op.path].versions != []
    requires IsVersion(s, g, i)
    ensures Spared(s, op, ObjectOfVersion(s, g, i))
  {
    var former := Latest(s.files[op.path]).path;
    OwnPathLong(s.vendor, g, VersionAt(s, g, i), bound, clock);
    LongPathsStay(s.vendor, VersionAt(s, g, i).path, former);
    SweptCharacters(s.vendor, op.blocked, s.blobs.Keys + {ObjectAt(s, NewPath(s.files[op.path], op))}, former);
  }

  lemma CleanStep(s: State, op: Op, bound: nat, clock: nat)
    requires Inv(s) && HaveVersions(s) && Clean(s, bound, clock) && CleanOp(s.vendor, op, clock) && bound <= clock
    requires op.Upload? ==> NextNumber(FileAt(s, op.path)) <= bound
    ensures Clean(Apply(s, op).0, bound, if op.Assign? then op.time else clock)
  {
    var t, clock' := Apply(s, op).0, if op.Assign? then op.time else clock;
    CleanNames(s, op, bound, clock);
    forall f, i | IsVersion(t, f, i) ensures OwnPath(f, VersionAt(t, f, i), bound, clock') {
      if op.Upload? {
        UploadedOwn(s, op, bound, clock, f, i);
      } else {
        AssignedStepOwn(s, op, bound, clock, f, i);
      }
    }
  }

  lemma CleanNames(s: State, op: Op, bound: nat, clock: nat)
    requires HaveVersions(s) && Clean(s, bound, clock) && CleanOp(s.vendor, op, clock)
    ensures Apply(s, op).0.vendor == s.vendor
    ensures forall f | f in Apply(s, op).0.files :: CleanName(s.vendor, f)
  {
    StepFiles(s, op);
  }

  lemma StepFiles(s: State, op: Op)
    requires HaveVersions(s)
    ensures Apply(s, op).0.vendor == s.vendor
    ensures Apply(s, op).0.files.Keys ==
            if op.Upload? && Performed(s, op) then s.files.Keys + {op.path} else s.files.Keys
  {}

  lemma AssignedStepOwn(s: State, op: Op, bound: nat, clock: nat, f: string, i: int)
    requires op.Assign? && HaveVersions(s) && Clean(s, bound, clock) && CleanOp(s.vendor, op, clock) && bound <= clock
    requires IsVersion(ApplyAssign(s, op).0, f, i)
    ensures OwnPath(f, VersionAt(ApplyAssign(s, op).0, f, i), bound, op.time)
  {
    AssignMoves(s, op, f, i);
    if VersionAt(ApplyAssign(s, op).0, f, i) == VersionAt(s, f, i) {
      OwnLater(f, VersionAt(s, f, i), bound, clock, op.time);
    } else {
      AssignedOwn(s, op, bound, clock);
    }
  }

  lemma OwnLater(f: string, v: Version, bound: nat, clock: nat, later: nat)
    requires OwnPath(f, v, bound, clock) && clock <= later
    ensures OwnPath(f, v, bound, later)
  {
    var l :| LabelOf(f, v, l, bound, clock);
    assert LabelOf(f, v, l, bound, later);
  }

  lemma UploadedOwn(s: State, op: Op, bound: nat, clock: nat, f: string, i: int)
    requires op.Upload? && Clean(s, bound, clock) && CleanOp(s.vendor, op, clock) &&
             NextNumber(FileAt(s, op.path)) <= bound
    requires IsVersion(ApplyUpload(s, op).0, f, i)
    ensures OwnPath(f, VersionAt(ApplyUpload(s, op).0, f, i), bound, clock)
  {
    var t := ApplyUpload(s, op).0;
    if IsVersion(s, f, i) {
      assert VersionAt(t, f, i) == VersionAt(s, f, i);
    } else {
      var v := UploadedVersion(FileAt(s, f), op);
      assert f == op.path && VersionAt(t, f, i) == v;
      var l := UploadedLabel(FileAt(s, f), op);
      assert LabelOf(f, v, l, bound, clock);
    }
  }

  lemma AssignedOwn(s: State, op: Op, bound: nat, clock: nat)
    requires op.Assign? && HaveVersions(s) && Clean(s, bound, clock) && CleanOp(s.vendor, op, clock) && bound <= clock
    requires op.path in s.files && Reencrypts(op)
    ensures OwnPath(op.path, Latest(AssignedRecord(s.files[op.path], op)), bound, op.time)
  {
    var file := s.files[op.path];
    var n := |file.versions| - 1;
    assert IsVersion(s, op.path, n) && Latest(file) == VersionAt(s, op.path, n);
    var l :| LabelOf(op.path, Latest(file), l, bound, clock);
    var l' := AssignedLabel(op.path, l, op.time);
    assert LabelOf(op.path, Latest(AssignedRecord(file, op)), l', bound, op.time);
  }

  ghost predicate NumbersLeave(s: State, bound: nat, room: nat) {
    forall f | f in s.files :: s.files[f].versions != [] && Latest(s.files[f]).number + room <= bound
  }

  lemma StepNumbers(s: State, op: Op, bound: nat, room: nat)
    requires HaveVersions(s) && NumbersLeave(s, bound, room) && 0 < room <= bound
    ensures NumbersLeave(Apply(s, op).0, bound, room - 1)
    ensures op.Upload? ==> NextNumber(FileAt(s, op.path)) <= bound
  {}

  /** No request of a clean run finds its paths taken. */
  lemma {:induction false} CleanRunAdmissible(s: State, ops: seq<Op>, bound: nat, clock: nat)
    requires HaveVersions(s) && Inv(s) && Clean(s, bound, clock) && NumbersLeave(s, bound, |ops|)
    requires |ops| <= bound <= clock && CleanRun(s.vendor, ops, clock)
    ensures AdmissibleRun(s, ops)
    decreases |ops|
  {
    if ops != [] {
      var op := ops[0];
      StepNumbers(s, op, bound, |ops|);
      if op.Upload? { CleanUploadFresh(s, op, bound, clock); } else { CleanAssignFresh(s, op, bound, clock); }
      StepVersions(s, op);
      StepConserves(s, op);
      CleanStep(s, op, bound, clock);
      CleanRunAdmissible(Apply(s, op).0, ops[1..], bound, if op.Assign? then op.time else clock);
    }
  }

  /** From the empty store, on any storage: every clean run of uploads, new versions and policy changes ends with
      each version decrypting, under its recorded policy, to the bytes uploaded for it. */
  lemma CleanRunConserves(vendor: Vendor, ops: seq<Op>, clock: nat)
    requires |ops| <= clock && CleanRun(vendor, ops, clock)
    ensures AdmissibleRun(Empty(vendor), ops) && AllConserved(Run(Empty(vendor), ops))
  {
    EmptyStoreConsistent(vendor);
    CleanRunAdmissible(Empty(vendor), ops, clock, clock);
    RunConserves(Empty(vendor), ops);
  }

  // ---- requests that lose bytes

  /** The file's bytes without a policy, as a new file or as a new version. */
  function Plainly(path: string, asVersion: bool, data: Bytes): Op {
    Op.Upload(path, asVersion, true, data, None, 0, None)
  }

  lemma RunTwo(s: State, a: Op, b: Op)
    requires HaveVersions(s)
    ensures HaveVersions(Apply(s, a).0) && Run(s, [a, b]) == Apply(Apply(s, a).0, b).0
  {
    StepVersions(s, a);
    StepVersions(Apply(s, a).0, b);
    assert [a, b][1..] == [b] && [b][1..] == [];
    assert Run(Apply(s, a).0, [b]) == Run(Apply(Apply(s, a).0, b).0, []);
  }

  /** Two files uploaded one after the other. */
  function TwoFiles(vendor: Vendor, f: string, g: string, first: Bytes, second: Bytes): State {
    State(vendor,
          map[ObjectOf(vendor, f) := Raw(first)][ObjectOf(vendor, g) := Raw(second)],
          map[f := FileRecord([Version(1, f, "")], []), g := FileRecord([Version(1, g, "")], [])],
          map[(f, 1) := first, (g, 1) := second])
  }

  lemma PlainUpload(s: State, f: string, data: Bytes)
    requires HaveVersions(s) && f !in s.files
    ensures Apply(s, Plainly(f, false, data)).0 ==
            State(s.vendor, s.blobs[ObjectAt(s, f) := Raw(data)],
                  s.files[f := FileRecord([Version(1, f, "")], [])], s.originals[(f, 1) := data])
  {
    assert [] + [Version(1, f, "")] == [Version(1, f, "")];
  }

  lemma TwoUploads(vendor: Vendor, f: string, g: string, first: Bytes, second: Bytes)
    requires f != g
    ensures Run(Empty(vendor), [Plainly(f, false, first), Plainly(g, false, second)]) ==
            TwoFiles(vendor, f, g, first, second)
  {
    var a, b := Plainly(f, false, first), Plainly(g, false, second);
    RunTwo(Empty(vendor), a, b);
    PlainUpload(Empty(vendor), f, first);
    PlainUpload(Apply(Empty(vendor), a).0, g, second);
  }

  /** A file without policies gets its first one. */
  function Granting(path: string, policy: Policy, user: User, time: nat): Op {
    Op.Assign(path, true, policy, false, user, time, {})
  }

  lemma FirstGrant(s: State, f: string, policy: Policy, user: User, time: nat)
    requires HaveVersions(s) && policy.cpabe != "" && ObjectAt(s, f) in s.blobs
    requires f in s.files && s.files[f] == FileRecord([Version(1, f, "")], [])
    ensures var path := AssignedPath(f, time);
            Apply(s, Granting(f, policy, user, time)) ==
            (State(s.vendor, Rewritten(s, f, path, Sealed(policy.cpabe, s.blobs[ObjectAt(s, f)]), {}),
                   s.files[f := FileRecord([Version(1, path, policy.cpabe)], [policy])], s.originals), Success)
  {
    var version := Version(1, AssignedPath(f, time), policy.cpabe);
    assert [Version(1, f, "")][0 := version] == [version] && [policy] + [] == [policy];
  }

  lemma BothAtHome(vendor: Vendor, f: string, g: string, first: Bytes, second: Bytes)
    requires f != g
    ensures forall h, i | IsVersion(TwoFiles(vendor, f, g, first, second), h, i) ::
              i == 0 && (h == f || h == g) && VersionAt(TwoFiles(vendor, f, g, first, second), h, i).path == h
  {}

  lemma BothConserved(vendor: Vendor, f: string, g: string, first: Bytes, second: Bytes)
    requires f != g && ObjectOf(vendor, f) != ObjectOf(vendor, g)
    ensures AllConserved(TwoFiles(vendor, f, g, first, second))
  {}

  lemma GoneObject(s: State, f: string)
    requires f in s.files && s.files[f].versions == [Version(1, f, "")] && ObjectAt(s, f) !in s.blobs
    ensures IsVersion(s, f, 0) && !Conserved(s, f, 0)
  {}

  /** Any two files whose paths name one object: the second upload takes the first one's bytes. */
  lemma SpellingTakesAnother(vendor: Vendor, f: string, g: string, first: Bytes, second: Bytes)
    requires f != g && first != second && ObjectOf(vendor, f) == ObjectOf(vendor, g)
    ensures var after := Run(Empty(vendor), [Plainly(f, false, first), Plainly(g, false, second)]);
            IsVersion(after, f, 0) && !Conserved(after, f, 0)
  {
    TwoUploads(vendor, f, g, first, second);
  }

  /** On a local disk "ab/c" and "ab//c" are two files and one object. */
  lemma DoubledSlashTakesAnother(bucket: seq<string>, first: Bytes, second: Bytes)
    requires first != second
    ensures var after := Run(Empty(LocalDisk(bucket)),
            [Plainly("ab/c", false, first), Plainly("ab//c", false, second)]);
            IsVersion(after, "ab/c", 0) && !Conserved(after, "ab/c", 0)
  {
    DoubledSlash(bucket);
    assert |"ab/c"| != |"ab//c"|;
    SpellingTakesAnother(LocalDisk(bucket), "ab/c", "ab//c", first, second);
  }

  /** On a local disk: a policy assigned to the file "data" deletes the bytes of the file "a", although the path
      written is free. */
  lemma DeletionTakesAnother(bucket: seq<string>, first: Bytes, second: Bytes, policy: Policy, user: User, time: nat)
    requires policy.cpabe != ""
    ensures var op := Granting("data", policy, user, time);
            var before := Run(Empty(LocalDisk(bucket)), [Plainly("a", false, first), Plainly("data", false, second)]);
            AllConserved(before) && FreshPath(before, op) && Apply(before, op).1 == Success &&
            IsVersion(Apply(before, op).0, "a", 0) && !Conserved(Apply(before, op).0, "a", 0)
  {
    var disk := LocalDisk(bucket);
    var s, path := TwoFiles(disk, "a", "data", first, second), AssignedPath("data", time);
    TwoUploads(disk, "a", "data", first, second);
    DataApart(bucket, time);
    BothConserved(disk, "a", "data", first, second);
    BothAtHome(disk, "a", "data", first, second);
    FirstGrant(s, "data", policy, user, time);
    DataDeleted(bucket, s.blobs[ObjectOf(disk, path) := Sealed(policy.cpabe, Raw(second))].Keys);
    GoneObject(Apply(s, Granting("data", policy, user, time)).0, "a");
  }

  lemma DataApart(bucket: seq<string>, time: nat)
    ensures var disk := LocalDisk(bucket);
            ObjectOf(disk, "a") != ObjectOf(disk, "data") &&
            ObjectOf(disk, AssignedPath("data", time)) != ObjectOf(disk, "a") && AssignedPath("data", time) != "data"
  {
    NeatName("data");
    AssignedStays(LocalDisk(bucket), "data", time, "a");
    assert 'a' in "a" && "a" == ['a'];
    LongPathsStay(LocalDisk(bucket), "data", "a");
    var front, mark := AssignedParts("data", time);
    assert '_' in mark;
    assert '_' !in "data";
  }

  lemma DataDeleted(bucket: seq<string>, names: set<ObjectName>)
    ensures ObjectOf(LocalDisk(bucket), "a") in Swept(LocalDisk(bucket), {}, names, "data")
  {
    SweptCharacters(LocalDisk(bucket), {}, names, "data");
    assert "data"[1] == 'a' && "a" == ['a'];
  }

  /** For every name, on every storage: the second version of a file lies where a new file of that name with "_v2" is
      put. */
  lemma VersionTakesAnother(vendor: Vendor, f: string, first: Bytes, second: Bytes, other: Bytes)
    requires second != other
    ensures var before := Run(Empty(vendor), [Plainly(f, false, first), Plainly(f, true, second)]);
            var op := Plainly(f + "_v2", false, other);
            AllConserved(before) && Performed(before, op) && Apply(before, op).1 == Success &&
            IsVersion(Apply(before, op).0, f, 1) && !Conserved(Apply(before, op).0, f, 1)
  {
    TwoVersionsRun(vendor, f, first, second);
    var before := TwoVersions(vendor, f, first, second);
    assert f + "_v2" != f;
    MarkedElsewhere(vendor, f, "_v2");
    PlainUpload(before, f + "_v2", other);
    forall g, i | IsVersion(before, g, i) ensures Conserved(before, g, i) {
      assert g == f && (i == 0 || i == 1);
    }
  }

  /** One file in two versions. */
  function TwoVersions(vendor: Vendor, f: string, first: Bytes, second: Bytes): State {
    State(vendor,
          map[ObjectOf(vendor, f) := Raw(first)][ObjectOf(vendor, f + "_v2") := Raw(second)],
          map[f := FileRecord([Version(1, f, ""), Version(2, f + "_v2", "")], [])],
          map[(f, 1) := first, (f, 2) := second])
  }

  lemma TwoVersionsRun(vendor: Vendor, f: string, first: Bytes, second: Bytes)
    ensures Run(Empty(vendor), [Plainly(f, false, first), Plainly(f, true, second)]) ==
            TwoVersions(vendor, f, first, second)
  {
    var a, b := Plainly(f, false, first), Plainly(f, true, second);
    RunTwo(Empty(vendor), a, b);
    PlainUpload(Empty(vendor), f, first);
    SecondUpload(Apply(Empty(vendor), a).0, f, second);
  }

  lemma SecondUpload(s: State, f: string, data: Bytes)
    requires HaveVersions(s) && f in s.files && s.files[f] == FileRecord([Version(1, f, "")], [])
    ensures Apply(s, Plainly(f, true, data)).0 ==
            State(s.vendor, s.blobs[ObjectAt(s, f + "_v2") := Raw(data)],
                  s.files[f := FileRecord([Version(1, f, ""), Version(2, f + "_v2", "")], [])],
                  s.originals[(f, 2) := data])
  {
    assert Decimal(2) == "2" && f + "_v" + "2" == f + "_v2";
    assert [Version(1, f, "")] + [Version(2, f + "_v2", "")] == [Version(1, f, ""), Version(2, f + "_v2", "")];
  }

  /** Two files whose names differ only behind "_v", given a policy in the same second, end up in one object. */
  lemma SameSecondTakesAnother(first: Bytes, second: Bytes, policy: Policy, user: User, time: nat)
    requires policy.cpabe != "" && first != second && time > 2
    ensures var f, g := "x_v1.txt", "x_v2.txt";
            var start := Run(Empty(Supabase), [Plainly(f, false, first), Plainly(g, false, second)]);
            var middle := Apply(start, Granting(f, policy, user, time)).0;
            HaveVersions(middle) && AllConserved(middle) &&
            var after := Apply(middle, Granting(g, policy, user, time)).0;
            IsVersion(after, f, 0) && !Conserved(after, f, 0)
  {
    assert "x_v1.txt"[3] != "x_v2.txt"[3];
    SameNewPath(time);
    SecondNameOther(time);
    SamePathTakesAnother("x_v1.txt", "x_v2.txt", first, second, policy, user, time);
  }

  /** Any two files that get the same path. */
  lemma SamePathTakesAnother(f: string, g: string, first: Bytes, second: Bytes, policy: Policy, user: User, time: nat)
    requires policy.cpabe != "" && first != second && f != g
    requires AssignedPath(f, time) == AssignedPath(g, time) != g
    ensures var start := Run(Empty(Supabase), [Plainly(f, false, first), Plainly(g, false, second)]);
            var middle := Apply(start, Granting(f, policy, user, time)).0;
            HaveVersions(middle) && AllConserved(middle) &&
            var after := Apply(middle, Granting(g, policy, user, time)).0;
            IsVersion(after, f, 0) && !Conserved(after, f, 0)
  {
    TwoUploads(Supabase, f, g, first, second);
    var start := TwoFiles(Supabase, f, g, first, second);
    FirstGrantKept(start, f, policy, user, time);
    var middle := Apply(start, Granting(f, policy, user, time)).0;
    SecondGrant(middle, f, g, AssignedPath(f, time), policy, first, second, user, time);
  }

  lemma SecondGrant(s: State, f: string, g: string, path: string, policy: Policy, first: Bytes, second: Bytes,
                    user: User, time: nat)
    requires s.vendor == Supabase && f != g && first != second && policy.cpabe != "" && path == AssignedPath(g, time)
    requires s.files.Keys == {f, g} && s.files[g] == FileRecord([Version(1, g, "")], [])
    requires s.files[f] == FileRecord([Version(1, path, policy.cpabe)], [policy])
    requires Key(path) in s.blobs && s.blobs[Key(path)] == Sealed(policy.cpabe, Raw(first))
    requires Key(g) in s.blobs && s.blobs[Key(g)] == Raw(second)
    requires (f, 1) in s.originals && s.originals[(f, 1)] == first
    requires (g, 1) in s.originals && s.originals[(g, 1)] == second
    ensures HaveVersions(s) && AllConserved(s)
    ensures var after := Apply(s, Granting(g, policy, user, time)).0;
            IsVersion(after, f, 0) && !Conserved(after, f, 0)
  {
    GrantedConserved(s, f, g, path, policy, first, second);
    FirstGrantKept(s, g, policy, user, time);
    SharedObject(Apply(s, Granting(g, policy, user, time)).0, f, path, policy, first, second);
  }

  /** A first policy on a storage that refuses the deletion call. */
  lemma FirstGrantKept(s: State, f: string, policy: Policy, user: User, time: nat)
    requires s.vendor == Supabase && HaveVersions(s) && policy.cpabe != "" && Key(f) in s.blobs
    requires f in s.files && s.files[f] == FileRecord([Version(1, f, "")], [])
    ensures var path := AssignedPath(f, time);
            Apply(s, Granting(f, policy, user, time)).0 ==
            State(s.vendor, s.blobs[Key(path) := Sealed(policy.cpabe, s.blobs[Key(f)])],
                  s.files[f := FileRecord([Version(1, path, policy.cpabe)], [policy])], s.originals)
  {
    FirstGrant(s, f, policy, user, time);
    NothingSwept(s, f, AssignedPath(f, time), Sealed(policy.cpabe, s.blobs[Key(f)]));
  }

  lemma GrantedConserved(s: State, f: string, g: string, path: string, policy: Policy, first: Bytes, second: Bytes)
    requires s.vendor == Supabase && s.files.Keys == {f, g} && f != g && policy.cpabe != ""
    requires s.files[f].versions == [Version(1, path, policy.cpabe)] && s.files[g].versions == [Version(1, g, "")]
    requires Key(path) in s.blobs && s.blobs[Key(path)] == Sealed(policy.cpabe, Raw(first))
    requires Key(g) in s.blobs && s.blobs[Key(g)] == Raw(second)
    requires (f, 1) in s.originals && s.originals[(f, 1)] == first
    requires (g, 1) in s.originals && s.originals[(g, 1)] == second
    ensures AllConserved(s)
  {}

  lemma SharedObject(s: State, f: string, path: string, policy: Policy, first: Bytes, second: Bytes)
    requires s.vendor == Supabase && first != second && policy.cpabe != ""
    requires f in s.files && s.files[f].versions == [Version(1, path, policy.cpabe)]
    requires Key(path) in s.blobs && s.blobs[Key(path)] == Sealed(policy.cpabe, Raw(second))
    requires (f, 1) in s.originals && s.originals[(f, 1)] == first
    ensures IsVersion(s, f, 0) && !Conserved(s, f, 0)
  {}

  lemma NothingSwept(s: State, former: string, next: string, content: Blob)
    requires s.vendor == Supabase
    ensures Rewritten(s, former, next, content, {}) == s.blobs[Key(next) := content]
  {
    SweptCharacters(Supabase, {}, s.blobs[Key(next) := content].Keys, former);
  }
}
