/** Stored bytes, version records and grants, and how uploads and policy changes move them
    (upload and assign_policy in views/storage.py, FileVersion in models/storage.py). */
module Reencryption {
  import opened Text
  import opened Conditions
  import opened PolicyTree
  import opened PolicyParser
  import opened KeyAttributes
  import opened PolicyPipeline
  import opened MergedGrants
  import opened OwnerBypass
  import opened PhysicalPaths
  import opened StoredObjects

  type Bytes = seq<bv8>

  /** Stored objects: plain bytes, or a ciphertext under a policy of whatever was encrypted. */
  datatype Blob = Raw(bytes: Bytes) | Sealed(policy: string, inner: Blob)

  /** An access policy; the empty text means that it has no CP-ABE form. */
  datatype Policy = Policy(id: nat, cpabe: string)

  datatype Version = Version(number: nat, path: string, policy: string)

  /** A file's versions, latest last, and the policies assigned to it, newest first. */
  datatype FileRecord = FileRecord(versions: seq<Version>, grants: seq<Policy>)

  /** `originals` remembers what was uploaded as each version; no code reads it. */
  datatype State = State(
    vendor: Vendor,
    blobs: map<ObjectName, Blob>,
    files: map<string, FileRecord>,
    originals: map<(string, nat), Bytes>)

  datatype Response = Success | BadRequest | Forbidden | NotFound | ServerError

  datatype Op =
    | Upload(path: string, asVersion: bool, permitted: bool, data: Bytes, chosen: Option<Policy>, pick: nat,
             unique: Option<string>)
    | Assign(path: string, permitted: bool, policy: Policy, replace: bool, user: User, time: nat, blocked: set<char>)

  /** The object that a stored path names. */
  function ObjectAt(s: State, path: string): ObjectName {
    ObjectOf(s.vendor, path)
  }

  // ---- the steps

  /** `encrypt_buffer` when there is a policy, the bytes themselves when there is none. */
  function Protect(policy: string, content: Blob): Blob {
    if policy == "" then content else Sealed(policy, content)
  }

  /** `_decrypt_file_if_needed` for the owner: the key is built from the user's attributes extended by the
      leaves of the recorded policy; bytes that cannot be a frame come back as they are, and others raise. */
  function DecryptAsOwner(u: User, content: Blob, recorded: string): Option<Blob> {
    if recorded == "" then Some(content)
    else match content
      case Raw(bytes) => if LooksLikeFrame(bytes) then None else Some(content)
      case Sealed(policy, inner) =>
        if Opens(KeyOf(AbsorbAll(u, AllPairs([recorded]))), policy) then Some(inner) else None
  }

  /** Empty, or with the first byte of a known frame version. */
  predicate LooksLikeFrame(bytes: Bytes) {
    bytes == [] || bytes[0] == 1 || bytes[0] == 2
  }

  /** The non-empty policy texts of the assigned policies, in their order. */
  function Texts(grants: seq<Policy>): seq<string> {
    if grants == [] then []
    else (if grants[0].cpabe == "" then [] else [grants[0].cpabe]) + Texts(grants[1..])
  }

  /** The policy an upload is encrypted under: the chosen one, else one inherited from the file's own
      grants, in an order the program does not fix, else none. */
  function UploadPolicy(chosen: Option<Policy>, grants: seq<Policy>, pick: nat): string {
    if chosen.Some? && chosen.value.cpabe != "" then chosen.value.cpabe
    else if Texts(grants) == [] then ""
    else Texts(grants)[pick % |Texts(grants)|]
  }

  function Latest(file: FileRecord): Version
    requires file.versions != []
  {
    file.versions[|file.versions| - 1]
  }

  function NextNumber(file: FileRecord): nat {
    if file.versions == [] then 1 else Latest(file).number + 1
  }

  function FileAt(s: State, path: string): FileRecord {
    if path in s.files then s.files[path] else FileRecord([], [])
  }

  /** The version an upload appends. */
  function UploadedVersion(file: FileRecord, op: Op): Version
    requires op.Upload?
  {
    var number := NextNumber(file);
    Version(number, UploadPath(op.path, file.versions != [], number, op.unique),
            UploadPolicy(op.chosen, file.grants, op.pick))
  }

  /** The record after an upload; a policy that is assigned already is not assigned twice. */
  function UploadedRecord(file: FileRecord, op: Op): FileRecord
    requires op.Upload?
  {
    FileRecord(file.versions + [UploadedVersion(file, op)],
               if op.chosen.Some? && op.chosen.value !in file.grants
               then [op.chosen.value] + file.grants else file.grants)
  }

  /** The upload goes through rather than being refused. */
  predicate Performed(s: State, op: Op)
    requires op.Upload?
  {
    op.path !in s.files || (op.asVersion && op.permitted)
  }

  function ApplyUpload(s: State, op: Op): (State, Response)
    requires op.Upload?
  {
    var file := FileAt(s, op.path);
    if !Performed(s, op) then (s, if op.asVersion then Forbidden else BadRequest)
    else
      var version := UploadedVersion(file, op);
      (State(s.vendor,
             s.blobs[ObjectAt(s, version.path) := Protect(version.policy, Raw(op.data))],
             s.files[op.path := UploadedRecord(file, op)],
             s.originals[(op.path, version.number) := op.data]),
       if op.chosen.Some? && op.chosen.value in file.grants then ServerError else Success)
  }

  /** The policy an assignment encrypts under. */
  function AssignedPolicy(grants: seq<Policy>, policy: Policy, replace: bool): string {
    if replace || Texts(grants) == [] then policy.cpabe
    else MergeText(Texts(grants) + [policy.cpabe])
  }

  /** The object a policy change writes. */
  function NewPath(file: FileRecord, op: Op): string
    requires op.Assign? && file.versions != []
  {
    AssignedPath(Latest(file).path, op.time)
  }

  predicate Reencrypts(op: Op)
    requires op.Assign?
  {
    op.replace || op.policy.cpabe != ""
  }

  /** The record after a policy change; without re-encryption only the assignment is added. */
  function AssignedRecord(file: FileRecord, op: Op): FileRecord
    requires op.Assign? && file.versions != []
  {
    var version := Version(Latest(file).number, NewPath(file, op), AssignedPolicy(file.grants, op.policy, op.replace));
    if !Reencrypts(op) then FileRecord(file.versions, [op.policy] + file.grants)
    else FileRecord(file.versions[|file.versions| - 1 := version],
                    if op.replace then [op.policy] else [op.policy] + file.grants)
  }

  /** What a policy change takes for the latest version's plaintext. */
  function PlainOf(s: State, file: FileRecord, user: User): Option<Blob>
    requires file.versions != []
  {
    var latest := Latest(file);
    if ObjectAt(s, latest.path) !in s.blobs then None
    else if Texts(file.grants) != [] then DecryptAsOwner(user, s.blobs[ObjectAt(s, latest.path)], latest.policy)
    else Some(s.blobs[ObjectAt(s, latest.path)])
  }

  /** The objects after writing the new one and the call that is meant to delete the old one. */
  function Rewritten(s: State, former: string, next: string, content: Blob, blocked: set<char>): map<ObjectName, Blob> {
    var written := s.blobs[ObjectAt(s, next) := content];
    if next == former then written else written - Swept(s.vendor, blocked, written.Keys, former)
  }

  /** The request passes all checks before the re-encryption. */
  predicate Allowed(s: State, op: Op)
    requires op.Assign?
  {
    op.path in s.files && op.permitted && (op.replace || op.policy !in s.files[op.path].grants)
  }

  function ApplyAssign(s: State, op: Op): (State, Response)
    requires op.Assign? && HaveVersions(s)
  {
    if op.path !in s.files then (s, NotFound)
    else if !op.permitted then (s, Forbidden)
    else if !Allowed(s, op) then (s, BadRequest)
    else
      var file := s.files[op.path];
      var record := AssignedRecord(file, op);
      if !Reencrypts(op) then (s.(files := s.files[op.path := record]), Success)
      else
        var plain := PlainOf(s, file, op.user);
        if plain.None? then (s, ServerError)
        else
          var content := Protect(Latest(record).policy, plain.value);
          (State(s.vendor,
                 Rewritten(s, Latest(file).path, NewPath(file, op), content, op.blocked),
                 s.files[op.path := record], s.originals),
           Success)
  }

  function Apply(s: State, op: Op): (State, Response)
    requires HaveVersions(s)
  {
    if op.Upload? then ApplyUpload(s, op) else ApplyAssign(s, op)
  }

  // ---- what every step keeps

  ghost predicate HaveVersions(s: State) {
    forall f | f in s.files :: s.files[f].versions != []
  }

  predicate IsVersion(s: State, f: string, i: int) {
    f in s.files && 0 <= i < |s.files[f].versions|
  }

  function VersionAt(s: State, f: string, i: int): Version
    requires IsVersion(s, f, i)
  {
    s.files[f].versions[i]
  }

  /** A policy is stored with no CP-ABE form or with the text of one compiled tree. */
  ghost predicate GoodPolicy(p: Policy) {
    p.cpabe == "" || exists t :: IsPolicyTree(t) && p.cpabe == Print(t)
  }

  /** The recorded version decrypts, under exactly its recorded policy, to the bytes uploaded for it. */
  ghost predicate Conserved(s: State, f: string, i: int)
    requires IsVersion(s, f, i)
  {
    var v := VersionAt(s, f, i);
    (f, v.number) in s.originals && ObjectAt(s, v.path) in s.blobs &&
    s.blobs[ObjectAt(s, v.path)] == Protect(v.policy, Raw(s.originals[(f, v.number)]))
  }

  ghost predicate AllConserved(s: State) {
    forall f, i | IsVersion(s, f, i) :: Conserved(s, f, i)
  }

  /** The object of a version; two spellings of a path may name the same one. */
  function ObjectOfVersion(s: State, f: string, i: int): ObjectName
    requires IsVersion(s, f, i)
  {
    ObjectAt(s, VersionAt(s, f, i).path)
  }

  ghost predicate DistinctObjects(s: State) {
    forall f, i, g, j | IsVersion(s, f, i) && IsVersion(s, g, j) &&
        ObjectOfVersion(s, f, i) == ObjectOfVersion(s, g, j) ::
      f == g && i == j
  }

  /** Versions are numbered upwards; the latest one is encrypted exactly when some assigned policy has a
      CP-ABE form, and then under a policy its owner can always open. */
  ghost predicate FileInStep(file: FileRecord) {
    file.versions != [] &&
    (forall i, j | 0 <= i < j < |file.versions| :: file.versions[i].number < file.versions[j].number) &&
    (forall p | p in file.grants :: GoodPolicy(p)) &&
    (Latest(file).policy == "" <==> Texts(file.grants) == []) &&
    (Latest(file).policy != "" ==> IsStoredPolicy(Latest(file).policy))
  }

  ghost predicate FilesInStep(s: State) {
    forall f | f in s.files :: FileInStep(s.files[f])
  }

  ghost predicate Inv(s: State) {
    FilesInStep(s) && AllConserved(s) && DistinctObjects(s)
  }

  lemma InvVersions(s: State)
    requires Inv(s)
    ensures HaveVersions(s)
  {
    assert forall f | f in s.files :: FileInStep(s.files[f]);
  }

  /** Not the version that the policy change re-encrypts. */
  predicate IsOther(s: State, op: Op, f: string, i: int) {
    IsVersion(s, f, i) && !(f == op.path && i == |s.files[f].versions| - 1)
  }

  /** The object an operation writes is in no version's use; a policy change may write the object of the latest
      version of its own file again. */
  ghost predicate FreshPath(s: State, op: Op) {
    match op
    case Upload(path, _, _, _, _, _, _) =>
      forall f, i | IsVersion(s, f, i) ::
        ObjectOfVersion(s, f, i) != ObjectAt(s, UploadedVersion(FileAt(s, path), op).path)
    case Assign(path, _, _, _, _, _, _) =>
      path in s.files && s.files[path].versions != [] ==>
        forall f, i | IsOther(s, op, f, i) :: ObjectOfVersion(s, f, i) != ObjectAt(s, NewPath(s.files[path], op))
  }

  /** The deletion call of a policy change hits the object of no other version. */
  ghost predicate Unswept(s: State, op: Op)
    requires op.Assign?
  {
    op.path in s.files && s.files[op.path].versions != [] ==>
      forall f, i | IsOther(s, op, f, i) :: Spared(s, op, ObjectOfVersion(s, f, i))
  }

  /** The object survives the deletion call. */
  predicate Spared(s: State, op: Op, x: ObjectName)
    requires op.Assign? && op.path in s.files && s.files[op.path].versions != []
  {
    var file := s.files[op.path];
    var former, next := Latest(file).path, NewPath(file, op);
    next == former || x !in Swept(s.vendor, op.blocked, s.blobs.Keys + {ObjectAt(s, next)}, former)
  }

  ghost predicate Admissible(s: State, op: Op) {
    FreshPath(s, op) && GoodOp(op) && (op.Assign? ==> Unswept(s, op))
  }

  /** The policy comes from the compiler. */
  ghost predicate GoodOp(op: Op) {
    match op
    case Upload(_, _, _, _, chosen, _, _) => chosen.Some? ==> GoodPolicy(chosen.value)
    case Assign(_, _, policy, _, _, _, _) => GoodPolicy(policy)
  }

  // ---- proofs

  /** The trees behind policy texts that are compiled ones. */
  lemma {:induction false} TextsHaveTrees(grants: seq<Policy>) returns (trees: seq<Tree>)
    requires forall p | p in grants :: GoodPolicy(p)
    ensures |trees| == |Texts(grants)|
    ensures forall i | 0 <= i < |trees| :: IsPolicyTree(trees[i]) && Print(trees[i]) == Texts(grants)[i]
  {
    trees := [];
    if grants != [] {
      var rest := TextsHaveTrees(grants[1..]);
      trees := rest;
      if grants[0].cpabe != "" {
        assert grants[0] in grants;
        var t :| IsPolicyTree(t) && grants[0].cpabe == Print(t);
        trees := [t] + rest;
      }
    }
  }

  lemma {:induction false} TextsMember(grants: seq<Policy>, k: nat) returns (p: Policy)
    requires k < |Texts(grants)|
    ensures p in grants && p.cpabe == Texts(grants)[k] && p.cpabe != ""
  {
    if grants[0].cpabe == "" {
      p := TextsMember(grants[1..], k);
    } else if k == 0 {
      p := grants[0];
    } else {
      p := TextsMember(grants[1..], k - 1);
    }
  }

  lemma {:induction false} TextsEmpty(grants: seq<Policy>)
    ensures Texts(grants) == [] <==> forall p | p in grants :: p.cpabe == ""
  {
    if grants != [] {
      TextsEmpty(grants[1..]);
      assert forall p :: p in grants <==> p == grants[0] || p in grants[1..];
    }
  }

  lemma SinglePolicyStored(p: Policy)
    requires GoodPolicy(p) && p.cpabe != ""
    ensures IsStoredPolicy(p.cpabe)
  {
    var t :| IsPolicyTree(t) && p.cpabe == Print(t);
    assert Stores(p.cpabe, [t]);
  }

  lemma UploadPolicyStored(chosen: Option<Policy>, grants: seq<Policy>, pick: nat)
    requires (chosen.Some? ==> GoodPolicy(chosen.value)) && forall p | p in grants :: GoodPolicy(p)
    ensures var policy := UploadPolicy(chosen, grants, pick);
            (policy != "" ==> IsStoredPolicy(policy)) &&
            (policy == "" <==> Texts(grants) == [] && (chosen.Some? ==> chosen.value.cpabe == ""))
  {
    if chosen.Some? && chosen.value.cpabe != "" {
      SinglePolicyStored(chosen.value);
    } else if Texts(grants) != [] {
      var p := TextsMember(grants, pick % |Texts(grants)|);
      SinglePolicyStored(p);
    }
  }

  lemma AssignedPolicyStored(grants: seq<Policy>, policy: Policy, replace: bool)
    requires GoodPolicy(policy) && forall p | p in grants :: GoodPolicy(p)
    requires replace || policy.cpabe != ""
    ensures var text := AssignedPolicy(grants, policy, replace);
            (text == "" <==> policy.cpabe == "") && (text != "" ==> IsStoredPolicy(text))
  {
    if policy.cpabe != "" {
      SinglePolicyStored(policy);
      if !replace && Texts(grants) != [] {
        var trees := TextsHaveTrees(grants);
        var t :| IsPolicyTree(t) && policy.cpabe == Print(t);
        var all := trees + [t];
        assert PrintAll(all) == Texts(grants) + [policy.cpabe];
        assert forall i | 0 <= i < |all| :: IsPolicyTree(all[i]);
        assert Stores(MergeText(PrintAll(all)), all);
      }
    }
  }

  /** The owner always gets back what was encrypted under the recorded policy. */
  lemma OwnerDecrypts(u: User, recorded: string, inner: Blob)
    requires IsStoredPolicy(recorded) && recorded != ""
    ensures DecryptAsOwner(u, Sealed(recorded, inner), recorded) == Some(inner)
  {
    var owner := AbsorbAll(u, AllPairs([recorded]));
    var words := ListEnumerating(owner);
    OwnerAlwaysOpens(u, [recorded], words, 0);
    KeygenIsKeyOf(owner, words);
  }

  /** Bytes that were never encrypted come back under a recorded policy unless they begin like a frame. */
  lemma PlainBytesUnderPolicy(u: User, bytes: Bytes, recorded: string)
    ensures DecryptAsOwner(u, Raw(bytes), recorded) ==
            if recorded != "" && (bytes == [] || bytes[0] in {1, 2}) then None else Some(Raw(bytes))
  {}

  /** The leaves of the recorded policy open nothing else: an object under another leaf stays closed to an owner without
      attributes. */
  lemma OtherPolicyStaysClosed(recorded: string, policy: string, inner: Blob)
    requires IsLeafWord(recorded) && IsLeafWord(policy) && recorded != policy
    ensures DecryptAsOwner(map[], Sealed(policy, inner), recorded) == None
  {
    var k, v := Label(recorded), ValueOf(recorded);
    LeafWordParts(recorded);
    LeafWordParts(policy);
    LeafPairs(recorded);
    var owner: User := map[k := Many([Str(v)])];
    assert AbsorbAll(map[], [(k, v)]) == owner by { assert [(k, v)][..0] == []; }
    KeyOfYields(owner, policy);
    OwnLeafOnly(k, v, policy);
    assert Print(Leaf(policy)) == policy;
    PrintLexParse(Leaf(policy));
  }

  lemma LeafPairs(w: string)
    requires IsLeafWord(w)
    ensures AllPairs([w]) == [(Label(w), ValueOf(w))]
  {
    FindAllLeafWord(w, "");
    assert w + "" == w && FindAll("") == [];
    assert [w][..0] == [] && AllPairs([]) == [];
  }

  lemma OwnLeafOnly(k: string, v: string, w: string)
    requires IsWord(k) && IsWord(v) && IsLeafWord(w)
    ensures Yields(map[k := Many([Str(v)])], w) <==> w == LeafText(k, v)
  {
    var owner: User := map[k := Many([Str(v)])];
    LeafWordParts(w);
    LowerWord(v);
    OnlyElement(k, v);
    TidyYields(owner, Label(w), ValueOf(w));
    if w == LeafText(k, v) { LabelOfLeaf(k, v); }
  }

  lemma OnlyElement(k: string, v: string)
    requires IsWord(k) && IsWord(v)
    ensures WellFormedUser(map[k := Many([Str(v)])])
    ensures forall text :: Reaches(k, Many([Str(v)]), text) <==> text == v
  {
    assert [Str(v)][0] == Str(v) && ScalarText(Str(v)) == v;
    assert ' ' !in v by { assert forall i | 0 <= i < |v| :: IsWordChar(v[i]); }
  }

  lemma ListEnumerating(u: User) returns (words: seq<string>)
    ensures Enumerates(words, u)
  {
    var granted := set key, text | key in u && text in ValueTexts(key, u[key]) :: LeafText(key, text);
    words := [];
    var rest := granted;
    while rest != {}
      invariant forall x :: x in granted <==> x in words || x in rest
      decreases rest
    {
      var x :| x in rest;
      words, rest := words + [x], rest - {x};
    }
    forall w ensures w in words <==> Granted(u, w) {
      if Granted(u, w) {
        var key, text :| key in u && Reaches(key, u[key], text) && w == LeafText(key, text);
        ValueTextsExact(key, u[key], text);
      }
      if w in words {
        var key, text :| key in u && text in ValueTexts(key, u[key]) && w == LeafText(key, text);
        ValueTextsExact(key, u[key], text);
      }
    }
  }

  lemma UploadedInStep(file: FileRecord, op: Op)
    requires op.Upload? && (op.chosen.Some? ==> GoodPolicy(op.chosen.value))
    requires file == FileRecord([], []) || FileInStep(file)
    ensures FileInStep(UploadedRecord(file, op))
  {
    var record := UploadedRecord(file, op);
    UploadPolicyStored(op.chosen, file.grants, op.pick);
    TextsEmpty(file.grants);
    TextsEmpty(record.grants);
    NumbersAppend(file.versions, Latest(record));
  }

  lemma NumbersAppend(versions: seq<Version>, last: Version)
    requires forall i, j | 0 <= i < j < |versions| :: versions[i].number < versions[j].number
    requires versions != [] ==> versions[|versions| - 1].number < last.number
    ensures var all := versions + [last]; forall i, j | 0 <= i < j < |all| :: all[i].number < all[j].number
  {
    var n := |versions|;
    forall i | 0 <= i < n ensures versions[i].number < last.number {
      if i < n - 1 { assert versions[i].number < versions[n - 1].number; }
    }
  }

  lemma NumbersBelowNext(file: FileRecord, i: nat)
    requires FileInStep(file) && i < |file.versions|
    ensures file.versions[i].number < NextNumber(file)
  {}

  lemma UploadKeeps(s: State, op: Op)
    requires op.Upload? && Inv(s) && Admissible(s, op)
    ensures Inv(ApplyUpload(s, op).0)
  {
    if Performed(s, op) {
      UploadedFilesInStep(s, op);
      UploadConserves(s, op);
      UploadObjectsDistinct(s, op);
    }
  }

  lemma UploadedFilesInStep(s: State, op: Op)
    requires op.Upload? && Performed(s, op) && FilesInStep(s) && GoodOp(op)
    ensures FilesInStep(ApplyUpload(s, op).0)
  {
    assert op.path in s.files ==> FileInStep(s.files[op.path]);
    UploadedInStep(FileAt(s, op.path), op);
  }

  lemma UploadConserves(s: State, op: Op)
    requires op.Upload? && Performed(s, op) && Inv(s) && FreshPath(s, op)
    ensures AllConserved(ApplyUpload(s, op).0)
  {
    var t, file := ApplyUpload(s, op).0, FileAt(s, op.path);
    forall f, i | IsVersion(t, f, i) ensures Conserved(t, f, i) {
      if f != op.path || i < |file.versions| {
        UploadLeaves(s, op, f, i);
      }
    }
  }

  /** An upload moves no earlier version and rewrites no earlier upload. */
  lemma UploadLeaves(s: State, op: Op, f: string, i: int)
    requires op.Upload? && Performed(s, op) && Inv(s)
    requires IsVersion(ApplyUpload(s, op).0, f, i) && (f != op.path || i < |FileAt(s, op.path).versions|)
    ensures var t := ApplyUpload(s, op).0;
            IsVersion(s, f, i) && VersionAt(t, f, i) == VersionAt(s, f, i) && Conserved(s, f, i) &&
            var v := VersionAt(s, f, i);
            (f, v.number) in t.originals && t.originals[(f, v.number)] == s.originals[(f, v.number)]
  {
    assert IsVersion(s, f, i) && Conserved(s, f, i);
    if f == op.path {
      assert FileInStep(s.files[f]);
      NumbersBelowNext(s.files[f], i);
    }
  }

  lemma UploadObjectsDistinct(s: State, op: Op)
    requires op.Upload? && Performed(s, op) && DistinctObjects(s) && FreshPath(s, op)
    ensures DistinctObjects(ApplyUpload(s, op).0)
  {
    var t, n := ApplyUpload(s, op).0, |FileAt(s, op.path).versions|;
    var written := ObjectAt(s, UploadedVersion(FileAt(s, op.path), op).path);
    forall f, i, g, j |
      IsVersion(t, f, i) && IsVersion(t, g, j) && ObjectOfVersion(t, f, i) == ObjectOfVersion(t, g, j)
      ensures f == g && i == j
    {
      assert (IsVersion(s, f, i) && ObjectOfVersion(t, f, i) == ObjectOfVersion(s, f, i)) ||
             (f == op.path && i == n && ObjectOfVersion(t, f, i) == written);
      assert (IsVersion(s, g, j) && ObjectOfVersion(t, g, j) == ObjectOfVersion(s, g, j)) ||
             (g == op.path && j == n && ObjectOfVersion(t, g, j) == written);
    }
  }

  /** The owner's decryption during a policy change gives back the latest upload. */
  lemma LatestPlain(s: State, op: Op)
    requires op.Assign? && Inv(s) && op.path in s.files
    ensures var file := s.files[op.path];
            file.versions != [] && (op.path, Latest(file).number) in s.originals &&
            PlainOf(s, file, op.user) == Some(Raw(s.originals[(op.path, Latest(file).number)]))
  {
    var file := s.files[op.path];
    assert FileInStep(file);
    var n := |file.versions| - 1;
    var latest := Latest(file);
    assert IsVersion(s, op.path, n) && latest == VersionAt(s, op.path, n);
    assert Conserved(s, op.path, n);
    if latest.policy != "" {
      OwnerDecrypts(op.user, latest.policy, Raw(s.originals[(op.path, latest.number)]));
    }
  }

  lemma AssignedInStep(file: FileRecord, op: Op)
    requires op.Assign? && FileInStep(file) && GoodPolicy(op.policy)
    ensures FileInStep(AssignedRecord(file, op))
  {
    var record := AssignedRecord(file, op);
    TextsEmpty(file.grants);
    TextsEmpty(record.grants);
    if Reencrypts(op) {
      AssignedPolicyStored(file.grants, op.policy, op.replace);
    }
  }

  lemma AssignKeeps(s: State, op: Op)
    requires op.Assign? && Inv(s) && Admissible(s, op)
    ensures HaveVersions(s) && Inv(ApplyAssign(s, op).0)
  {
    InvVersions(s);
    if Allowed(s, op) {
      assert FileInStep(s.files[op.path]);
      AssignedInStep(s.files[op.path], op);
      AssignObjectsDistinct(s, op);
      if Reencrypts(op) {
        LatestPlain(s, op);
        AdmissibleKept(s, op);
        AssignConservesIff(s, op);
      } else {
        AssignOnlyConserves(s, op);
      }
    }
  }

  lemma AdmissibleKept(s: State, op: Op)
    requires op.Assign? && Inv(s) && Admissible(s, op) && Allowed(s, op) && s.files[op.path].versions != []
    requires PlainOf(s, s.files[op.path], op.user).Some?
    ensures forall f, i | IsOther(s, op, f, i) :: Kept(s, op, ObjectOfVersion(s, f, i))
  {
    forall f, i | IsOther(s, op, f, i) ensures Kept(s, op, ObjectOfVersion(s, f, i)) {
      assert Conserved(s, f, i);
    }
  }

  /** Without re-encryption no version and no object changes. */
  lemma AssignOnlyConserves(s: State, op: Op)
    requires op.Assign? && Inv(s) && HaveVersions(s) && Allowed(s, op) && !Reencrypts(op)
    ensures AllConserved(ApplyAssign(s, op).0)
  {
    var t := ApplyAssign(s, op).0;
    forall f, i | IsVersion(t, f, i) ensures Conserved(t, f, i) {
      assert IsVersion(s, f, i) && Conserved(s, f, i);
    }
  }

  /** The bytes a policy change stores. */
  function Written(s: State, op: Op): Blob
    requires op.Assign? && op.path in s.files && s.files[op.path].versions != []
    requires PlainOf(s, s.files[op.path], op.user).Some?
  {
    var file := s.files[op.path];
    Protect(AssignedPolicy(file.grants, op.policy, op.replace), PlainOf(s, file, op.user).value)
  }

  /** The object is missed by the deletion call and not overwritten with something else. */
  predicate Kept(s: State, op: Op, x: ObjectName)
    requires op.Assign? && op.path in s.files && s.files[op.path].versions != []
    requires PlainOf(s, s.files[op.path], op.user).Some?
  {
    x in s.blobs && Spared(s, op, x) &&
    (x == ObjectAt(s, NewPath(s.files[op.path], op)) ==> s.blobs[x] == Written(s, op))
  }

  /** A policy change keeps every plaintext exactly when each other version's object is missed by the deletion call
      and is not overwritten with something else. */
  lemma AssignConservesIff(s: State, op: Op)
    requires op.Assign? && Inv(s) && GoodOp(op) && Allowed(s, op) && Reencrypts(op)
    ensures HaveVersions(s) && PlainOf(s, s.files[op.path], op.user).Some?
    ensures AllConserved(ApplyAssign(s, op).0) <==>
            forall f, i | IsOther(s, op, f, i) :: Kept(s, op, ObjectOfVersion(s, f, i))
  {
    InvVersions(s);
    LatestPlain(s, op);
    LatestConserved(s, op);
    var t := ApplyAssign(s, op).0;
    forall f, i | IsOther(s, op, f, i)
      ensures IsVersion(t, f, i) && (Conserved(t, f, i) <==> Kept(s, op, ObjectOfVersion(s, f, i)))
    {
      OtherConservedIff(s, op, f, i);
    }
    if forall f, i | IsOther(s, op, f, i) :: Kept(s, op, ObjectOfVersion(s, f, i)) {
      forall f, i | IsVersion(t, f, i) ensures Conserved(t, f, i) {
        AssignMoves(s, op, f, i);
        assert IsOther(s, op, f, i) || (f == op.path && i == |s.files[op.path].versions| - 1);
      }
    }
  }

  /** The new object is never hit by the deletion call. */
  lemma RewrittenHolds(s: State, former: string, time: nat, content: Blob, blocked: set<char>)
    ensures var next := AssignedPath(former, time);
            var after := Rewritten(s, former, next, content, blocked);
            ObjectAt(s, next) in after && after[ObjectAt(s, next)] == content
  {
    var next := AssignedPath(former, time);
    SweptCharacters(s.vendor, blocked, s.blobs[ObjectAt(s, next) := content].Keys, former);
    AssignedStays(s.vendor, former, time, former);
  }

  /** The re-encrypted version itself is always conserved. */
  lemma LatestConserved(s: State, op: Op)
    requires op.Assign? && Inv(s) && HaveVersions(s) && Allowed(s, op) && Reencrypts(op)
    ensures var n := |s.files[op.path].versions| - 1;
            IsVersion(ApplyAssign(s, op).0, op.path, n) && Conserved(ApplyAssign(s, op).0, op.path, n)
  {
    var file := s.files[op.path];
    LatestPlain(s, op);
    RewrittenHolds(s, Latest(file).path, op.time, Written(s, op), op.blocked);
    var t, n := ApplyAssign(s, op).0, |file.versions| - 1;
    assert t.files[op.path] == AssignedRecord(file, op) && t.originals == s.originals;
    assert VersionAt(t, op.path, n) == Latest(AssignedRecord(file, op));
  }

  /** What the call leaves of an object stored before. */
  lemma KeptIff(s: State, op: Op, x: ObjectName)
    requires op.Assign? && op.path in s.files && s.files[op.path].versions != []
    requires PlainOf(s, s.files[op.path], op.user).Some?
    ensures var file := s.files[op.path];
            var after := Rewritten(s, Latest(file).path, NewPath(file, op), Written(s, op), op.blocked);
            Kept(s, op, x) <==> x in s.blobs && x in after && after[x] == s.blobs[x]
  {
    var next := ObjectAt(s, NewPath(s.files[op.path], op));
    assert s.blobs[next := Written(s, op)].Keys == s.blobs.Keys + {next};
  }

  lemma OtherConservedIff(s: State, op: Op, f: string, i: int)
    requires op.Assign? && Inv(s) && HaveVersions(s) && Allowed(s, op) && Reencrypts(op)
    requires IsOther(s, op, f, i) && PlainOf(s, s.files[op.path], op.user).Some?
    ensures var t := ApplyAssign(s, op).0;
            IsVersion(t, f, i) && (Conserved(t, f, i) <==> Kept(s, op, ObjectOfVersion(s, f, i)))
  {
    var file, t := s.files[op.path], ApplyAssign(s, op).0;
    var n := |file.versions| - 1;
    assert Conserved(s, f, i);
    assert IsVersion(s, op.path, n) && Latest(file) == VersionAt(s, op.path, n);
    assert VersionAt(t, f, i) == VersionAt(s, f, i);
    KeptIff(s, op, ObjectOfVersion(s, f, i));
  }

  lemma AssignObjectsDistinct(s: State, op: Op)
    requires op.Assign? && DistinctObjects(s) && FreshPath(s, op) && HaveVersions(s)
    ensures DistinctObjects(ApplyAssign(s, op).0)
  {
    var t := ApplyAssign(s, op).0;
    forall f, i, g, j |
      IsVersion(t, f, i) && IsVersion(t, g, j) && ObjectOfVersion(t, f, i) == ObjectOfVersion(t, g, j)
      ensures f == g && i == j
    {
      AssignMovesObject(s, op, f, i);
      AssignMovesObject(s, op, g, j);
    }
  }

  lemma AssignMovesObject(s: State, op: Op, f: string, i: int)
    requires op.Assign? && HaveVersions(s) && IsVersion(ApplyAssign(s, op).0, f, i)
    ensures IsVersion(s, f, i)
    ensures var x := ObjectOfVersion(ApplyAssign(s, op).0, f, i);
            x == ObjectOfVersion(s, f, i) ||
            (f == op.path && i == |s.files[f].versions| - 1 && x == ObjectAt(s, NewPath(s.files[f], op)))
  {
    AssignMoves(s, op, f, i);
  }

  /** A version stays as it is, or is the file's latest and is replaced by the re-encrypted one. */
  lemma AssignMoves(s: State, op: Op, f: string, i: int)
    requires op.Assign? && HaveVersions(s) && IsVersion(ApplyAssign(s, op).0, f, i)
    ensures IsVersion(s, f, i) && ApplyAssign(s, op).0.vendor == s.vendor
    ensures var v := VersionAt(ApplyAssign(s, op).0, f, i);
            v == VersionAt(s, f, i) ||
            (f == op.path && Reencrypts(op) && i == |s.files[f].versions| - 1 &&
             v == Latest(AssignedRecord(s.files[f], op)))
  {}

  /** The old object is not deleted: unless it is that of a single character that the call happens to reach, or is
      written again, it stays as it was. A path of more characters, neat on a disk, names no such object. */
  lemma OldObjectStays(s: State, op: Op)
    requires op.Assign? && Inv(s) && Allowed(s, op) && Reencrypts(op)
    ensures HaveVersions(s) && ObjectAt(s, Latest(s.files[op.path]).path) in s.blobs
    ensures var path := Latest(s.files[op.path]).path;
            var former := ObjectAt(s, path);
            var t := ApplyAssign(s, op).0;
            (former in t.blobs <==> Spared(s, op, former)) &&
            (|path| != 1 && (s.vendor.LocalDisk? ==> Neat(path)) ==> former in t.blobs) &&
            (former in t.blobs && former != ObjectAt(s, NewPath(s.files[op.path], op)) ==>
               t.blobs[former] == s.blobs[former])
  {
    InvVersions(s);
    LatestPlain(s, op);
    var file := s.files[op.path];
    var path := Latest(file).path;
    var next := ObjectAt(s, NewPath(file, op));
    if |path| != 1 && (s.vendor.LocalDisk? ==> Neat(path)) {
      LongPathsStay(s.vendor, path, path);
      SweptCharacters(s.vendor, op.blocked, s.blobs.Keys + {next}, path);
    }
    assert s.blobs[next := Written(s, op)].Keys == s.blobs.Keys + {next};
    assert ApplyAssign(s, op).0.blobs == Rewritten(s, path, NewPath(file, op), Written(s, op), op.blocked);
  }

  /** So a first assignment leaves the plaintext where it was. */
  lemma FirstAssignmentLeavesPlaintext(s: State, op: Op)
    requires op.Assign? && Inv(s) && Allowed(s, op) && Reencrypts(op)
    requires Texts(s.files[op.path].grants) == [] && s.files[op.path].versions != []
    requires var path := Latest(s.files[op.path]).path;
             |path| != 1 && (s.vendor.LocalDisk? ==> Neat(path)) &&
             ObjectAt(s, path) != ObjectAt(s, NewPath(s.files[op.path], op))
    ensures HaveVersions(s)
    ensures var latest := Latest(s.files[op.path]);
            var t := ApplyAssign(s, op).0;
            ObjectAt(s, latest.path) in t.blobs && (op.path, latest.number) in s.originals &&
            t.blobs[ObjectAt(s, latest.path)] == Raw(s.originals[(op.path, latest.number)])
  {
    OldObjectStays(s, op);
    LatestPlain(s, op);
  }

  /** Every admissible step keeps all plaintexts, and forgets nothing that was uploaded. */
  lemma StepConserves(s: State, op: Op)
    requires Inv(s) && Admissible(s, op)
    ensures HaveVersions(s) && Inv(Apply(s, op).0)
    ensures forall k | k in s.originals && (op.Assign? || k != (op.path, NextNumber(FileAt(s, op.path)))) ::
              k in Apply(s, op).0.originals && Apply(s, op).0.originals[k] == s.originals[k]
  {
    InvVersions(s);
    if op.Upload? { UploadKeeps(s, op); } else { AssignKeeps(s, op); }
  }

  // ---- whole runs

  lemma StepVersions(s: State, op: Op)
    requires HaveVersions(s)
    ensures HaveVersions(Apply(s, op).0)
  {
    var t := Apply(s, op).0;
    forall f | f in t.files ensures t.files[f].versions != [] {}
  }

  /** Any sequence of requests, collisions or not. */
  function Run(s: State, ops: seq<Op>): (t: State)
    requires HaveVersions(s)
    ensures HaveVersions(t)
    decreases |ops|
  {
    if ops == [] then s
    else
      StepVersions(s, ops[0]);
      Run(Apply(s, ops[0]).0, ops[1..])
  }

  /** Each request of the run finds its paths free. */
  ghost predicate AdmissibleRun(s: State, ops: seq<Op>)
    requires HaveVersions(s)
    decreases |ops|
  {
    ops == [] || (Admissible(s, ops[0]) && (StepVersions(s, ops[0]); AdmissibleRun(Apply(s, ops[0]).0, ops[1..])))
  }

  // ---- who may change what

  /** Which requests are refused, and that a refused one changes nothing. */
  lemma RefusedExactly(s: State, op: Op)
    requires HaveVersions(s)
    ensures var (t, answer) := Apply(s, op);
            var known := op.path in s.files;
            (answer == NotFound <==> op.Assign? && !known) &&
            (answer == Forbidden <==> known && !op.permitted && (op.Assign? || op.asVersion)) &&
            (answer == BadRequest <==>
               known && if op.Upload? then !op.asVersion
                        else op.permitted && !op.replace && op.policy in s.files[op.path].grants) &&
            (op.Upload? ==>
               (answer == ServerError <==>
                  known && op.asVersion && op.permitted && op.chosen.Some? &&
                  op.chosen.value in s.files[op.path].grants)) &&
            (answer in {NotFound, Forbidden, BadRequest} ==> t == s) &&
            (known && !op.permitted ==> t == s && answer != Success)
  {}

  /** A successful request adds no file but its own and changes no other one. */
  lemma OthersUntouched(s: State, op: Op)
    requires HaveVersions(s) && Apply(s, op).1 == Success
    ensures var t := Apply(s, op).0;
            t.files.Keys == s.files.Keys + {op.path} &&
            forall f | f in s.files && f != op.path :: t.files[f] == s.files[f]
  {}

  /** What success does to the record: an upload adds one version behind the others, with the next number. */
  lemma RecordAfterUpload(s: State, op: Op)
    requires HaveVersions(s) && op.Upload? && Apply(s, op).1 == Success
    ensures op.path in Apply(s, op).0.files
    ensures var before, after := FileAt(s, op.path), Apply(s, op).0.files[op.path];
            |after.versions| == |before.versions| + 1 && before.versions <= after.versions &&
            Latest(after).number == (if before.versions == [] then 1 else Latest(before).number + 1) &&
            after.grants == (if op.chosen.Some? then [op.chosen.value] else []) + before.grants
  {
    assert [] + FileAt(s, op.path).grants == FileAt(s, op.path).grants;
  }

  /** A policy change touches the latest version only and keeps its number; the new policy comes first, or alone. */
  lemma RecordAfterAssign(s: State, op: Op)
    requires HaveVersions(s) && op.Assign? && Apply(s, op).1 == Success
    ensures op.path in s.files && op.path in Apply(s, op).0.files
    ensures var before, after := s.files[op.path], Apply(s, op).0.files[op.path];
            |after.versions| == |before.versions| && after.versions[..|after.versions| - 1] <= before.versions &&
            Latest(after).number == Latest(before).number &&
            after.grants == [op.policy] + (if op.replace then [] else before.grants)
  {
    assert [op.policy] + [] == [op.policy];
  }

  /** A new version under a policy that the file has already is stored, and the answer is an error all the same. */
  lemma StoredDespiteError(s: State, op: Op)
    requires HaveVersions(s) && op.Upload? && op.path in s.files && op.asVersion && op.permitted
    requires op.chosen.Some? && op.chosen.value in s.files[op.path].grants
    ensures var (t, answer) := Apply(s, op);
            var before, after := s.files[op.path], t.files[op.path];
            answer == ServerError && after.grants == before.grants && before.versions <= after.versions &&
            |after.versions| == |before.versions| + 1 && ObjectAt(t, Latest(after).path) in t.blobs
  {}

  /** Any other server error comes from a policy change that cannot read the latest version, and changes nothing. */
  lemma UnreadableChangesNothing(s: State, op: Op)
    requires HaveVersions(s) && op.Assign?
    ensures Apply(s, op).1 == ServerError ==>
              Apply(s, op).0 == s && op.path in s.files && PlainOf(s, s.files[op.path], op.user) == None
  {}

  /** A file as it is found: its record, and the object of each version. */
  ghost predicate SameFile(s: State, t: State, f: string)
    requires f in s.files
  {
    f in t.files && t.files[f] == s.files[f] && t.vendor == s.vendor &&
    forall i | IsVersion(s, f, i) ::
      var x := ObjectOfVersion(s, f, i); x in s.blobs && x in t.blobs && t.blobs[x] == s.blobs[x]
  }

  lemma StepLeavesFile(s: State, op: Op, f: string)
    requires HaveVersions(s) && Inv(s) && Admissible(s, op) && f in s.files && (op.path == f ==> !op.permitted)
    ensures SameFile(s, Apply(s, op).0, f)
  {
    if op.path == f {
      RefusedExactly(s, op);
      forall i | IsVersion(s, f, i) ensures ObjectOfVersion(s, f, i) in s.blobs { assert Conserved(s, f, i); }
    } else {
      StepConserves(s, op);
      StepBeside(s, op, f);
      ConservedSame(s, Apply(s, op).0, f);
    }
  }

  lemma StepBeside(s: State, op: Op, f: string)
    requires HaveVersions(s) && f in s.files && op.path != f
    ensures var t := Apply(s, op).0; f in t.files && t.files[f] == s.files[f] && t.vendor == s.vendor
  {}

  /** Two states that keep the same versions for the same uploads hold the same objects for them. */
  lemma ConservedSame(s: State, t: State, f: string)
    requires AllConserved(s) && AllConserved(t) && f in s.files && f in t.files && t.files[f] == s.files[f]
    requires t.vendor == s.vendor
    requires forall i | IsVersion(s, f, i) && (f, VersionAt(s, f, i).number) in s.originals ::
               var k := (f, VersionAt(s, f, i).number); k in t.originals && t.originals[k] == s.originals[k]
    ensures SameFile(s, t, f)
  {
    forall i | IsVersion(s, f, i) ensures var x := ObjectOfVersion(s, f, i);
      x in s.blobs && x in t.blobs && t.blobs[x] == s.blobs[x]
    {
      assert Conserved(s, f, i) && IsVersion(t, f, i) && Conserved(t, f, i);
    }
  }

  /** Over every run without collisions, a file whose permitted users ask for nothing stays as it is: record, versions
      and objects. */
  lemma {:induction false} OnlyPermittedChange(s: State, ops: seq<Op>, f: string)
    requires HaveVersions(s) && Inv(s) && AdmissibleRun(s, ops) && f in s.files
    requires forall i | 0 <= i < |ops| && ops[i].path == f :: !ops[i].permitted
    ensures SameFile(s, Run(s, ops), f)
    decreases |ops|
  {
    if ops == [] {
      forall i | IsVersion(s, f, i) ensures ObjectOfVersion(s, f, i) in s.blobs { assert Conserved(s, f, i); }
    } else {
      var next := Apply(s, ops[0]).0;
      StepVersions(s, ops[0]);
      StepConserves(s, ops[0]);
      StepLeavesFile(s, ops[0], f);
      OnlyPermittedChange(next, ops[1..], f);
      forall i | IsVersion(s, f, i)
        ensures IsVersion(next, f, i) && ObjectOfVersion(next, f, i) == ObjectOfVersion(s, f, i) {}
    }
  }

  function Empty(vendor: Vendor): State {
    State(vendor, map[], map[], map[])
  }

  /** After any run from any consistent state, every version decrypts to the bytes uploaded for it. */
  lemma {:induction false} RunConserves(s: State, ops: seq<Op>)
    requires HaveVersions(s) && Inv(s) && AdmissibleRun(s, ops)
    ensures Inv(Run(s, ops)) && AllConserved(Run(s, ops))
    decreases |ops|
  {
    if ops != [] {
      StepVersions(s, ops[0]);
      StepConserves(s, ops[0]);
      RunConserves(Apply(s, ops[0]).0, ops[1..]);
    }
  }

  lemma EmptyStoreConsistent(vendor: Vendor)
    ensures Inv(Empty(vendor))
  {}

  /** Whoever opens the recorded policy reads the uploaded bytes; nobody else opens the object. */
  lemma ReadersReadTheUpload(s: State, ops: seq<Op>, f: string, i: nat, key: set<string>)
    requires HaveVersions(s) && Inv(s) && AdmissibleRun(s, ops)
    requires IsVersion(Run(s, ops), f, i)
    ensures var t := Run(s, ops);
            var v := VersionAt(t, f, i);
            (f, v.number) in t.originals && ObjectAt(t, v.path) in t.blobs &&
            ReadWith(key, t.blobs[ObjectAt(t, v.path)]) ==
              if v.policy == "" || Opens(key, v.policy) then Some(t.originals[(f, v.number)]) else None
  {
    RunConserves(s, ops);
    assert Conserved(Run(s, ops), f, i);
  }

  function ReadWith(key: set<string>, b: Blob): Option<Bytes> {
    match b
    case Raw(bytes) => Some(bytes)
    case Sealed(policy, inner) => if Opens(key, policy) then ReadWith(key, inner) else None
  }

  /** An upload keeps every plaintext exactly when its object is in no version's use or already is the very one being
      written. */
  lemma UploadConservesIff(s: State, op: Op)
    requires Inv(s) && op.Upload? && Performed(s, op)
    ensures var version := UploadedVersion(FileAt(s, op.path), op);
            var x := ObjectAt(s, version.path);
            AllConserved(ApplyUpload(s, op).0) <==>
            forall f, i | IsVersion(s, f, i) && ObjectOfVersion(s, f, i) == x ::
              x in s.blobs && s.blobs[x] == Protect(version.policy, Raw(op.data))
  {
    var file := FileAt(s, op.path);
    var t := ApplyUpload(s, op).0;
    var version := UploadedVersion(file, op);
    var x, written := ObjectAt(s, version.path), Protect(version.policy, Raw(op.data));
    forall f, i | IsVersion(s, f, i)
      ensures IsVersion(t, f, i) && (ObjectOfVersion(s, f, i) != x ==> Conserved(t, f, i))
      ensures ObjectOfVersion(s, f, i) == x ==> x in s.blobs && (Conserved(t, f, i) <==> s.blobs[x] == written)
    {
      assert IsVersion(t, f, i);
      UploadLeaves(s, op, f, i);
    }
    assert IsVersion(t, op.path, |file.versions|) && Conserved(t, op.path, |file.versions|);
    forall f, i | IsVersion(t, f, i) ensures IsVersion(s, f, i) || (f == op.path && i == |file.versions|) {}
  }

  // ---- the store as an object

  class FileStore {
    const vendor: Vendor
    var blobs: map<ObjectName, Blob>
    var files: map<string, FileRecord>
    ghost var originals: map<(string, nat), Bytes>

    constructor (v: Vendor)
      ensures Contents() == Empty(v)
    {
      vendor, blobs, files, originals := v, map[], map[], map[];
    }

    ghost function Contents(): State
      reads this
    {
      State(vendor, blobs, files, originals)
    }

    method Upload(path: string, asVersion: bool, permitted: bool, data: Bytes, chosen: Option<Policy>, pick: nat,
                  unique: Option<string>)
      returns (response: Response)
      requires HaveVersions(Contents())
      modifies this
      ensures var op := Op.Upload(path, asVersion, permitted, data, chosen, pick, unique);
              (Contents(), response) == ApplyUpload(old(Contents()), op) && HaveVersions(Contents()) &&
              (path in old(files) && !(asVersion && permitted) ==>
                 Contents() == old(Contents()) && response == if asVersion then Forbidden else BadRequest) &&
              (old(Inv(Contents()) && Admissible(Contents(), op)) ==> Inv(Contents()))
    {
      var op := Op.Upload(path, asVersion, permitted, data, chosen, pick, unique);
      if Inv(Contents()) && Admissible(Contents(), op) { UploadKeeps(Contents(), op); }
      StepVersions(Contents(), op);
      var file := FileRecord([], []);
      if path in files {
        if !asVersion { return BadRequest; }
        if !permitted { return Forbidden; }
        file := files[path];
      }
      assert file == FileAt(Contents(), path);
      var version, record := NewVersion(file, op);
      var content := if version.policy != "" then Sealed(version.policy, Raw(data)) else Raw(data);
      blobs := blobs[ObjectOf(vendor, version.path) := content];
      originals := originals[(path, version.number) := data];
      files := files[path := record];
      return if chosen.Some? && chosen.value in file.grants then ServerError else Success;
    }

    method Assign(path: string, permitted: bool, policy: Policy, replace: bool, user: User, time: nat,
        blocked: set<char>)
      returns (response: Response)
      requires HaveVersions(Contents())
      modifies this
      ensures var op := Op.Assign(path, permitted, policy, replace, user, time, blocked);
              (Contents(), response) == ApplyAssign(old(Contents()), op) && HaveVersions(Contents()) &&
              (!permitted ==> Contents() == old(Contents()) && response in {NotFound, Forbidden}) &&
              (old(Inv(Contents()) && Admissible(Contents(), op)) ==> Inv(Contents()))
    {
      var op := Op.Assign(path, permitted, policy, replace, user, time, blocked);
      if Inv(Contents()) && Admissible(Contents(), op) { AssignKeeps(Contents(), op); }
      StepVersions(Contents(), op);
      if path !in files { return NotFound; }
      if !permitted { return Forbidden; }
      if policy in files[path].grants && !replace { return BadRequest; }
      response := Change(op);
    }

    /** The part behind the checks: re-encryption if it is needed, and the new record. */
    method Change(op: Op) returns (response: Response)
      requires op.Assign? && HaveVersions(Contents()) && Allowed(Contents(), op)
      modifies this`blobs, this`files
      ensures (Contents(), response) == ApplyAssign(old(Contents()), op)
    {
      var file := files[op.path];
      if op.replace || op.policy.cpabe != "" {
        var version := Reencrypt(file, op);
        if version.None? { return ServerError; }
        file := file.(versions := file.versions[|file.versions| - 1 := version.value]);
      }
      files := files[op.path :=
        FileRecord(file.versions, if op.replace then [op.policy] else [op.policy] + file.grants)];
      return Success;
    }

    /** Fetch, decrypt as the owner, encrypt under the new policy, store under the new path, and the deletion call. */
    method Reencrypt(file: FileRecord, op: Op) returns (version: Option<Version>)
      requires op.Assign? && file.versions != []
      modifies this`blobs
      ensures version ==
              if PlainOf(old(Contents()), file, op.user).None? then None
              else Some(Version(Latest(file).number, NewPath(file, op),
                AssignedPolicy(file.grants, op.policy, op.replace)))
      ensures blobs ==
              if version.None? then old(blobs)
              else Rewritten(old(Contents()), Latest(file).path, NewPath(file, op),
                             Protect(version.value.policy, PlainOf(old(Contents()), file, op.user).value), op.blocked)
    {
      var latest := file.versions[|file.versions| - 1];
      if ObjectOf(vendor, latest.path) !in blobs { return None; }
      var content := blobs[ObjectOf(vendor, latest.path)];
      if Texts(file.grants) != [] {
        var plain := OpenForOwner(content, op.user, latest.policy);
        if plain.None? { return None; }
        content := plain.value;
      }
      var target := op.policy.cpabe;
      if !op.replace && Texts(file.grants) != [] {
        target := MergeText(Texts(file.grants) + [op.policy.cpabe]);
      }
      var physical := AssignedPath(latest.path, op.time);
      blobs := blobs[ObjectOf(vendor, physical) := if target != "" then Sealed(target, content) else content];
      if physical != latest.path { DeleteFile(op.blocked, latest.path); }
      return Some(Version(latest.number, physical, target));
    }

    /** `delete_file` with a string: the loop over "paths" runs over its characters. */
    method DeleteFile(blocked: set<char>, path: string)
      modifies this`blobs
      ensures blobs == old(blobs) - Swept(vendor, blocked, old(blobs).Keys, path)
    {
      var k := 0;
      while k < |path| && GoesOn(vendor, blocked, blobs.Keys, path[k])
        invariant 0 <= k <= |path|
        invariant blobs - Swept(vendor, blocked, blobs.Keys, path[k..]) ==
                  old(blobs) - Swept(vendor, blocked, old(blobs).Keys, path)
      {
        SweepStep(blobs, vendor, blocked, path[k..]);
        assert path[k..][1..] == path[k + 1..];
        blobs := blobs - {ObjectOf(vendor, [path[k]])};
        k := k + 1;
      }
      assert Swept(vendor, blocked, blobs.Keys, path[k..]) == {};
    }

    /** The owner's attributes grow by the policy's leaves, a key is generated, and the object is opened with it. */
    method OpenForOwner(content: Blob, user: User, recorded: string) returns (plain: Option<Blob>)
      ensures plain == DecryptAsOwner(user, content, recorded)
    {
      if recorded == "" { return Some(content); }
      var owner := ExtendOwner(user, [recorded]);
      var key := GenerateUserKey(owner);
      match content
      case Raw(bytes) => return if LooksLikeFrame(bytes) then None else Some(content);
      case Sealed(policy, inner) => return if Opens(key, policy) then Some(inner) else None;
    }
  }

  lemma SweepStep(blobs: map<ObjectName, Blob>, vendor: Vendor, blocked: set<char>, path: string)
    requires path != "" && GoesOn(vendor, blocked, blobs.Keys, path[0])
    ensures var rest := blobs - {ObjectOf(vendor, [path[0]])};
            blobs - Swept(vendor, blocked, blobs.Keys, path) == rest - Swept(vendor, blocked, rest.Keys, path[1..])
  {
    var gone := ObjectOf(vendor, [path[0]]);
    var rest := blobs - {gone};
    assert rest.Keys == blobs.Keys - {gone};
  }

  /** The version an upload creates: numbered after all earlier ones, encrypted under the chosen policy if that has a
      CP-ABE form, else under one of the file's own, and under none exactly when there is none. */
  method NewVersion(file: FileRecord, op: Op) returns (version: Version, record: FileRecord)
    requires op.Upload?
    ensures FileInStep(file) ==> forall i | 0 <= i < |file.versions| :: file.versions[i].number < version.number
    ensures op.chosen.Some? && op.chosen.value.cpabe != "" ==> version.policy == op.chosen.value.cpabe
    ensures version.policy != "" ==> exists p :: (p in file.grants || op.chosen == Some(p)) && p.cpabe == version.policy
    ensures version.policy == "" <==>
              (op.chosen.Some? ==> op.chosen.value.cpabe == "") && forall p | p in file.grants :: p.cpabe == ""
    ensures version == UploadedVersion(file, op) && record == UploadedRecord(file, op)
  {
    var number := if file.versions == [] then 1 else file.versions[|file.versions| - 1].number + 1;
    var policy := "";
    if op.chosen.Some? { policy := op.chosen.value.cpabe; }
    if policy == "" {
      var texts := Texts(file.grants);
      if texts != [] { policy := texts[op.pick % |texts|]; }
    }
    version := Version(number, UploadPath(op.path, file.versions != [], number, op.unique), policy);
    var grants := file.grants;
    if op.chosen.Some? && op.chosen.value !in grants { grants := [op.chosen.value] + grants; }
    record := FileRecord(file.versions + [version], grants);
    if FileInStep(file) { NewNumber(file); }
    PolicyFound(op.chosen, file.grants, op.pick);
  }

  lemma NewNumber(file: FileRecord)
    requires FileInStep(file)
    ensures forall i | 0 <= i < |file.versions| :: file.versions[i].number < NextNumber(file)
  {
    forall i | 0 <= i < |file.versions|
        ensures file.versions[i].number < NextNumber(file) { NumbersBelowNext(file, i); }
  }

  lemma PolicyFound(chosen: Option<Policy>, grants: seq<Policy>, pick: nat)
    ensures var policy := UploadPolicy(chosen, grants, pick);
            (policy != "" ==> exists p :: (p in grants || chosen == Some(p)) && p.cpabe == policy) &&
            (policy == "" <==> (chosen.Some? ==> chosen.value.cpabe == "") && forall p | p in grants :: p.cpabe == "")
  {
    TextsEmpty(grants);
    if !(chosen.Some? && chosen.value.cpabe != "") && Texts(grants) != [] {
      var p := TextsMember(grants, pick % |Texts(grants)|);
    }
  }
}
