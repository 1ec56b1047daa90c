/** Inherited folder policies (models/storage.py) and what renaming a folder does to them (views/storage.py). */
module FolderRename {
  import opened Text

  datatype FolderGrant = FolderGrant(folder: string, policy: nat, users: set<nat>)

  datatype Response = Success | BadRequest | Forbidden | ServerError

  /** The call that moves the folder's own object. As the program writes it, it passes a keyword that the storage
      interface does not have; repaired, it needs the old object and may refuse to overwrite the new one. */
  datatype MoveCall = AsWritten | Repaired(objects: set<string>, overwrites: bool)

  datatype StorageMove = Moved | Duplicate | Failed

  function Outcome(call: MoveCall, from: string, to: string): StorageMove {
    match call
    case AsWritten => Failed
    case Repaired(objects, overwrites) =>
      if from !in objects then Failed else if to in objects && !overwrites then Duplicate else Moved
  }

  // ---- which folders a path inherits from

  /** The lookup for index `i` of the path parts: the last part looks at its parent once more. */
  function LookupAt(parts: seq<string>, i: nat): string
    requires i < |parts|
  {
    if i < |parts| - 1 then Join(parts[..i + 1], "/") + "/" else Join(parts[..i], "/") + "/"
  }

  /** What those lookups come to: the prefixes of the path that end in a slash, and for a path without
      any slash the lone "/". */
  predicate Covers(folder: string, path: string) {
    (folder != "" && folder[|folder| - 1] == '/' && folder <= path) || ('/' !in path && folder == "/")
  }

  ghost predicate LooksAt(path: string, folder: string) {
    var parts := Split(path, '/');
    exists i | 0 <= i < |parts| :: LookupAt(parts, i) == folder
  }

  /** A joined initial stretch of the parts, with its slash, is a prefix of the path. */
  lemma {:induction false} StretchIsPrefix(parts: seq<string>, k: nat)
    requires k + 1 < |parts|
    ensures Join(parts[..k + 1], "/") + "/" <= Join(parts, "/")
  {
    if k == 0 {
      assert parts[..1] == [parts[0]];
    } else {
      StretchIsPrefix(parts[1..], k - 1);
      assert parts[..k + 1][1..] == parts[1..][..k];
      assert Join(parts[..k + 1], "/") + "/" == parts[0] + "/" + (Join(parts[1..][..k], "/") + "/");
      assert Join(parts, "/") == parts[0] + "/" + Join(parts[1..], "/");
    }
  }

  /** Every prefix that ends in a slash is such a stretch. */
  lemma {:induction false} PrefixIsStretch(parts: seq<string>, q: string) returns (k: nat)
    requires parts != [] && forall i | 0 <= i < |parts| :: '/' !in parts[i]
    requires q != "" && q[|q| - 1] == '/' && q <= Join(parts, "/")
    ensures k + 1 < |parts| && Join(parts[..k + 1], "/") + "/" == q
  {
    var path := Join(parts, "/");
    if |parts| == 1 {
      assert false;
    }
    var n := |parts[0]|;
    if |q| <= n {
      assert false;
    } else if |q| == n + 1 {
      k := 0;
      assert parts[..1] == [parts[0]];
      assert q == path[..n + 1] == parts[0] + "/";
    } else {
      var rest := q[n + 1..];
      assert path[n + 1..] == Join(parts[1..], "/");
      assert rest <= Join(parts[1..], "/");
      var k' := PrefixIsStretch(parts[1..], rest);
      k := k' + 1;
      assert parts[..k + 1][1..] == parts[1..][..k' + 1];
      assert q == parts[0] + "/" + rest;
      assert Join(parts[..k + 1], "/") + "/" == parts[0] + ("/" + Join(parts[1..][..k' + 1], "/")) + "/";
    }
  }

  /** The walk over the path's components looks exactly at the folders that cover the path. */
  lemma LooksAtIffCovers(path: string, folder: string)
    ensures LooksAt(path, folder) <==> Covers(folder, path)
  {
    if LooksAt(path, folder) { LookedAtCovers(path, folder); }
    if Covers(folder, path) { CoveringIsLookedAt(path, folder); }
  }

  lemma LookedAtCovers(path: string, folder: string)
    requires LooksAt(path, folder)
    ensures Covers(folder, path)
  {
    var parts := Split(path, '/');
    JoinSplit(path, '/');
    assert ['/'] == "/";
    var i :| 0 <= i < |parts| && LookupAt(parts, i) == folder;
    if i < |parts| - 1 {
      StretchIsPrefix(parts, i);
    } else if i > 0 {
      StretchIsPrefix(parts, i - 1);
      assert parts[..i] == parts[..(i - 1) + 1];
    }
  }

  lemma CoveringIsLookedAt(path: string, folder: string)
    requires Covers(folder, path)
    ensures LooksAt(path, folder)
  {
    var parts := Split(path, '/');
    JoinSplit(path, '/');
    assert ['/'] == "/";
    if '/' !in path && folder == "/" {
      OnePart(path);
      assert LookupAt(parts, 0) == "/";
    } else {
      var k := PrefixIsStretch(parts, folder);
      assert LookupAt(parts, k) == folder;
    }
  }

  lemma OnePart(path: string)
    requires '/' !in path
    ensures Split(path, '/') == [path]
  {
    FindExact(path, "", '/');
    assert path + "" == path;
  }

  // ---- policies of a file

  function Inherited(grants: seq<FolderGrant>, path: string): set<nat> {
    set g | g in grants && Covers(g.folder, path) :: g.policy
  }

  /** The folder part of `get_policies_for_file`: one query for each path part. */
  method FolderPolicies(grants: seq<FolderGrant>, path: string) returns (policies: set<nat>)
    ensures policies == Inherited(grants, path)
  {
    var parts := Split(path, '/');
    JoinSplit(path, '/');
    var found: seq<nat> := [];
    for i := 0 to |parts|
      invariant forall p :: p in found <==>
        exists k, g | 0 <= k < i && g in grants && g.folder == LookupAt(parts, k) :: g.policy == p
    {
      var folder := if i < |parts| - 1 then Join(parts[..i + 1], "/") + "/" else Join(parts[..i], "/") + "/";
      var more := Query(grants, folder);
      ghost var before := found;
      found := found + more;
      assert folder == LookupAt(parts, i);
      forall p ensures p in found <==>
        exists k, g | 0 <= k < i + 1 && g in grants && g.folder == LookupAt(parts, k) :: g.policy == p
      {
        assert p in found <==> p in before || p in more;
        if exists k, g | 0 <= k < i + 1 && g in grants && g.folder == LookupAt(parts, k) :: g.policy == p {
          var k, g :| 0 <= k < i + 1 && g in grants && g.folder == LookupAt(parts, k) && g.policy == p;
          assert k < i ==> p in before;
        }
      }
    }
    policies := set p | p in found;
    forall p ensures p in policies <==> p in Inherited(grants, path) {
      if p in policies {
        var k, g :| 0 <= k < |parts| && g in grants && g.folder == LookupAt(parts, k) && g.policy == p;
        LooksAtIffCovers(path, g.folder);
      }
      if p in Inherited(grants, path) {
        var g :| g in grants && Covers(g.folder, path) && g.policy == p;
        LooksAtIffCovers(path, g.folder);
      }
    }
  }

  method Query(grants: seq<FolderGrant>, folder: string) returns (policies: seq<nat>)
    ensures forall p :: p in policies <==> exists g | g in grants && g.folder == folder :: g.policy == p
  {
    policies := [];
    for i := 0 to |grants|
      invariant forall p :: p in policies <==>
                exists k | 0 <= k < i && grants[k].folder == folder :: grants[k].policy == p
    {
      if grants[i].folder == folder { policies := policies + [grants[i].policy]; }
    }
    forall p ensures p in policies <==> exists g | g in grants && g.folder == folder :: g.policy == p {
      if p in policies {
        var k :| 0 <= k < |grants| && grants[k].folder == folder && grants[k].policy == p;
        assert grants[k] in grants;
      }
    }
  }

  /** The folder part of `check_user_has_access`: stop at the first folder that grants the user. */
  method UserGranted(grants: seq<FolderGrant>, path: string, user: nat) returns (granted: bool)
    ensures granted <==> exists g | g in grants && Covers(g.folder, path) :: user in g.users
  {
    var parts := Split(path, '/');
    JoinSplit(path, '/');
    for i := 0 to |parts|
      invariant forall k, g | 0 <= k < i && g in grants && g.folder == LookupAt(parts, k) :: user !in g.users
    {
      var folder := if i < |parts| - 1 then Join(parts[..i + 1], "/") + "/" else Join(parts[..i], "/") + "/";
      if exists g | g in grants :: g.folder == folder && user in g.users {
        var g :| g in grants && g.folder == folder && user in g.users;
        assert folder == LookupAt(parts, i);
        LooksAtIffCovers(path, folder);
        return true;
      }
    }
    if exists g | g in grants && Covers(g.folder, path) :: user in g.users {
      var g :| g in grants && Covers(g.folder, path) && user in g.users;
      LooksAtIffCovers(path, g.folder);
      assert false;
    }
    return false;
  }

  // ---- renaming

  /** `s.replace(old, new, 1)` */
  function ReplaceFirst(s: string, what: string, instead: string): string {
    if what <= s then instead + s[|what|..]
    else if s == "" then s
    else [s[0]] + ReplaceFirst(s[1..], what, instead)
  }

  /** Only the first occurrence gives way, and everything around it stays. */
  lemma {:induction false} ReplaceFirstExact(front: string, what: string, back: string, instead: string)
    requires forall i | 0 <= i < |front| :: !(what <= (front + (what + back))[i..])
    ensures ReplaceFirst(front + (what + back), what, instead) == front + (instead + back)
  {
    var s := front + (what + back);
    if front == "" {
      assert s == what + back && s[|what|..] == back;
    } else {
      assert s[0..] == s && !(what <= s[0..]);
      assert s[1..] == front[1..] + (what + back);
      forall i | 0 <= i < |front[1..]| ensures !(what <= (front[1..] + (what + back))[i..]) {
        assert s[i + 1..] == s[1..][i..];
      }
      ReplaceFirstExact(front[1..], what, back, instead);
      assert [s[0]] + (front[1..] + (instead + back)) == front + (instead + back);
    }
  }

  /** The rewriting the loops apply: to file paths, and to folder paths. */
  function MoveFile(path: string, source: string, target: string): string {
    if source + "/" <= path then ReplaceFirst(path, source, target) else path
  }

  function MoveFolder(folder: string, source: string, target: string): string {
    if folder == source + "/" then target + "/"
    else if source + "/" <= folder then ReplaceFirst(folder, source + "/", target + "/")
    else folder
  }

  /** Both come to exchanging the prefix. */
  function Move(path: string, source: string, target: string): string {
    if source + "/" <= path then target + path[|source|..] else path
  }

  lemma MoveIsPrefixExchange(path: string, source: string, target: string)
    ensures MoveFile(path, source, target) == Move(path, source, target)
    ensures MoveFolder(path, source, target) == Move(path, source, target)
  {
    if source + "/" <= path {
      assert source <= path;
      assert path == source + "/" + path[|source| + 1..];
      assert path[|source|..] == "/" + path[|source| + 1..];
      assert target + path[|source|..] == target + "/" + path[|source| + 1..];
    }
  }

  function RightStrip(s: string): string {
    if s != "" && s[|s| - 1] == '/' then RightStrip(s[..|s| - 1]) else s
  }

  /** Only slashes at the end are taken away, and all of them. */
  lemma {:induction false} RightStripExact(s: string)
    ensures RightStrip(s) <= s && forall i | |RightStrip(s)| <= i < |s| :: s[i] == '/'
    ensures RightStrip(s) != "" ==> RightStrip(s)[|RightStrip(s)| - 1] != '/'
  {
    if s != "" && s[|s| - 1] == '/' { RightStripExact(s[..|s| - 1]); }
  }

  /** `'/'.join(parts[:-1])` and the new name behind it. */
  function TargetOf(source: string, name: string): string {
    var parts := Split(source, '/');
    var parent := if |parts| > 1 then Join(parts[..|parts| - 1], "/") else "";
    if parent != "" then parent + "/" + name else name
  }

  predicate IsNameChar(c: char) {
    'a' <= c <= 'z' || 'A' <= c <= 'Z' || '0' <= c <= '9' || c == '_' || c == '.' || c == '-'
  }

  predicate NameChars(s: string) {
    s != "" && forall i | 0 <= i < |s| :: IsNameChar(s[i])
  }

  /** `^[a-zA-Z0-9_.-]+$`: the dollar also matches before a final newline. */
  predicate IsValidName(name: string) {
    var core := if name != "" && name[|name| - 1] == '\n' then name[..|name| - 1] else name;
    NameChars(core)
  }

  lemma ValidNameHasNoSlash(name: string)
    requires IsValidName(name)
    ensures '/' !in name && name != ""
  {
    var core := if name[|name| - 1] == '\n' then name[..|name| - 1] else name;
    forall i | 0 <= i < |name| ensures name[i] != '/' {
      if i < |core| { assert name[i] == core[i] && IsNameChar(core[i]); }
    }
  }

  /** Not a single component behind a leading slash. */
  predicate HasProperParent(source: string) {
    source == "" || source[0] != '/' || '/' in source[1..]
  }

  lemma ProperFront(source: string, front: string, own: string)
    requires HasProperParent(source) && source == front + "/" + own && '/' !in own
    ensures front != ""
  {
    assert ("/" + own)[1..] == own && "" + "/" + own == "/" + own;
  }

  /** Source and target share everything but their last component, unless the parent is an empty component. */
  lemma TargetShares(source: string, name: string) returns (parent: string, own: string)
    requires HasProperParent(source)
    ensures source == parent + own && '/' !in own && TargetOf(source, name) == parent + name
    ensures parent == "" || parent[|parent| - 1] == '/'
  {
    var parts := Split(source, '/');
    JoinSplit(source, '/');
    assert ['/'] == "/";
    var n := |parts| - 1;
    own := parts[n];
    if n == 0 {
      parent := "";
      assert source == own;
    } else {
      var front := Join(parts[..n], "/");
      parent := front + "/";
      JoinLast(parts[..n], own, "/");
      assert parts[..n] + [own] == parts;
      assert source == front + "/" + own;
      ProperFront(source, front, own);
    }
  }

  /** A name-space: the paths of the files by record number, and the folder policies. */
  class Namespace {
    var files: map<nat, string>
    var grants: seq<FolderGrant>

    constructor (f: map<nat, string>, g: seq<FolderGrant>)
      ensures files == f && grants == g
    {
      files, grants := f, g;
    }

    /** Renaming a folder: all checks come first, then files and folder policies are rewritten one by one,
        and if the storage does not move the folder object the transaction takes it all back. */
    method RenameFolder(oldPath: string, name: string, admin: bool, dataOwner: bool, owned: set<nat>, call: MoveCall)
      returns (response: Response)
      modifies this
      ensures response == RenameAnswer(old(files), oldPath, name, admin, dataOwner, owned, call)
      ensures var source := RightStrip(oldPath);
              var target := TargetOf(source, name);
              if response == Success
              then files == Renamed(old(files), source, target) && grants == RenamedGrants(old(grants), source, target)
              else files == old(files) && grants == old(grants)
    {
      if oldPath == "" || !IsValidName(name) { return BadRequest; }
      var source := RightStrip(oldPath);
      var target := TargetOf(source, name);
      if !admin && !dataOwner { return Forbidden; }
      if !admin && exists f | f in files && source + "/" <= files[f] :: f !in owned { return Forbidden; }
      if exists f | f in files :: files[f] == target + "/.folder" { return BadRequest; }
      var savedFiles, savedGrants := files, grants;
      MoveFiles(source, target);
      MoveGrants(source, target);
      var outcome := Outcome(call, source + "/.folder", target + "/.folder");
      if outcome != Moved {
        files, grants := savedFiles, savedGrants;
        return if outcome == Duplicate then BadRequest else ServerError;
      }
      return Success;
    }

    method MoveFiles(source: string, target: string)
      modifies this`files
      ensures files == Renamed(old(files), source, target)
    {
      var rest := files.Keys;
      while rest != {}
        invariant rest <= files.Keys == old(files).Keys
        invariant forall f | f in files ::
          files[f] == if f in rest then old(files)[f] else Move(old(files)[f], source, target)
        decreases rest
      {
        var f :| f in rest;
        MoveIsPrefixExchange(files[f], source, target);
        if source + "/" <= files[f] {
          files := files[f := ReplaceFirst(files[f], source, target)];
        }
        rest := rest - {f};
      }
    }

    method MoveGrants(source: string, target: string)
      modifies this`grants
      ensures grants == RenamedGrants(old(grants), source, target)
    {
      for i := 0 to |grants|
        invariant |grants| == |old(grants)|
        invariant forall k | 0 <= k < |grants| ::
          grants[k] == if k < i then MovedGrant(old(grants)[k], source, target) else old(grants)[k]
      {
        MoveIsPrefixExchange(grants[i].folder, source, target);
        if grants[i].folder == source + "/" {
          grants := grants[i := grants[i].(folder := target + "/")];
        } else if source + "/" <= grants[i].folder {
          grants := grants[i := grants[i].(folder := ReplaceFirst(grants[i].folder, source + "/", target + "/"))];
        }
      }
    }
  }

  /** Which request gets which answer. */
  function RenameAnswer(files: map<nat, string>, oldPath: string, name: string, admin: bool, dataOwner: bool,
                        owned: set<nat>, call: MoveCall): Response
  {
    var source := RightStrip(oldPath);
    if oldPath == "" || !IsValidName(name) then BadRequest
    else if !admin && !dataOwner then Forbidden
    else if !admin && exists f | f in files && source + "/" <= files[f] :: f !in owned then Forbidden
    else if exists f | f in files :: files[f] == TargetOf(source, name) + "/.folder" then BadRequest
    else match Outcome(call, source + "/.folder", TargetOf(source, name) + "/.folder")
      case Moved => Success
      case Duplicate => BadRequest
      case Failed => ServerError
  }

  /** Who may rename what: nobody but an administrator or a data owner, and a data owner only a folder in which every
      file is his own; an empty path and a bad name come first, a marker at the new place last. */
  lemma RenameRefused(files: map<nat, string>, oldPath: string, name: string, admin: bool, dataOwner: bool,
      owned: set<nat>, call: MoveCall)
    ensures var answer := RenameAnswer(files, oldPath, name, admin, dataOwner, owned, call);
            var source := RightStrip(oldPath);
            (oldPath == "" || !IsValidName(name) ==> answer == BadRequest) &&
            (answer == Forbidden <==>
               oldPath != "" && IsValidName(name) && !admin &&
               (dataOwner ==> exists f | f in files :: source + "/" <= files[f] && f !in owned)) &&
            (answer == Success ==> forall f | f in files :: files[f] != TargetOf(source, name) + "/.folder")
  {}

  /** A valid name is a run of the listed characters, with or without one line break behind it. */
  lemma ValidNameIff(name: string)
    ensures IsValidName(name) <==> NameChars(name) || exists core | NameChars(core) :: name == core + "\n"
    ensures !IsNameChar('/') && !IsNameChar(' ') && !IsNameChar('\n') && !IsNameChar('\\') && !IsNameChar('$')
    ensures IsNameChar('a') && IsNameChar('Z') && IsNameChar('9')
    ensures IsNameChar('_') && IsNameChar('.') && IsNameChar('-')
  {
    if name != "" && name[|name| - 1] == '\n' {
      var core := name[..|name| - 1];
      assert name == core + "\n";
      assert !IsNameChar(name[|name| - 1]);
      forall other | name == other + "\n" ensures other == core {}
      assert IsValidName(name) == NameChars(core);
    }
  }

  /** The request passes everything that is looked at before the records are rewritten. */
  predicate PassesChecks(files: map<nat, string>, oldPath: string, name: string, admin: bool, dataOwner: bool,
      owned: set<nat>) {
    var source := RightStrip(oldPath);
    oldPath != "" && IsValidName(name) && (admin || dataOwner) &&
    (admin || forall f | f in files && source + "/" <= files[f] :: f in owned) &&
    forall f | f in files :: files[f] != TargetOf(source, name) + "/.folder"
  }

  /** As written, the program renames no folder: every request that passes the checks is answered 500, and since the
      answer is never a success, RenameFolder leaves all records as they were. */
  lemma AsWrittenNeverRenames(files: map<nat, string>, oldPath: string, name: string, admin: bool, dataOwner: bool,
      owned: set<nat>)
    ensures var answer := RenameAnswer(files, oldPath, name, admin, dataOwner, owned, AsWritten);
            answer != Success &&
              (answer == ServerError <==> PassesChecks(files, oldPath, name, admin, dataOwner, owned))
  {}

  /** Repaired, it renames exactly when the checks pass, the old marker is an object, and the new one is none or may be
      overwritten. */
  lemma RepairedRenamesIff(files: map<nat, string>, oldPath: string, name: string, admin: bool, dataOwner: bool,
      owned: set<nat>, objects: set<string>, overwrites: bool)
    ensures var source := RightStrip(oldPath);
            RenameAnswer(files, oldPath, name, admin, dataOwner, owned, Repaired(objects, overwrites)) == Success <==>
            PassesChecks(files, oldPath, name, admin, dataOwner, owned) &&
            source + "/.folder" in objects && (overwrites || TargetOf(source, name) + "/.folder" !in objects)
    ensures var answer := RenameAnswer(files, oldPath, name, admin, dataOwner, owned, Repaired(objects, overwrites));
            answer == ServerError <==>
            PassesChecks(files, oldPath, name, admin, dataOwner, owned) && RightStrip(oldPath) + "/.folder" !in objects
  {}

  function Renamed(files: map<nat, string>, source: string, target: string): map<nat, string> {
    map f | f in files :: Move(files[f], source, target)
  }

  function MovedGrant(g: FolderGrant, source: string, target: string): FolderGrant {
    g.(folder := Move(g.folder, source, target))
  }

  function RenamedGrants(grants: seq<FolderGrant>, source: string, target: string): seq<FolderGrant> {
    seq(|grants|, i requires 0 <= i < |grants| => MovedGrant(grants[i], source, target))
  }

  // ---- what the rewriting loops do to inheritance

  predicate Under(path: string, folder: string) {
    folder + "/" <= path
  }

  /** The setting of a rename: source and target differ in their last component only. */
  predicate Siblings(source: string, target: string, parent: string, own: string, name: string) {
    source == parent + own && target == parent + name && '/' !in own && '/' !in name &&
    (parent == "" || parent[|parent| - 1] == '/')
  }

  /** A folder that is not below the source covers a path in the source only from above the source. */
  lemma CoverSplits(q: string, path: string, source: string, target: string, parent: string, own: string, name: string)
    requires Siblings(source, target, parent, own, name)
    requires Under(path, source) && Covers(q, path) && !Under(q, source)
    ensures q <= parent && Covers(q, Move(path, source, target))
  {
    assert path[|source|] == '/';
    assert q <= path;
    if |q| > |source| {
      assert false;
    }
    if |q| > |parent| {
      assert false;
    }
    assert q == path[..|q|] == source[..|q|] == parent[..|q|];
    assert Move(path, source, target)[..|q|] == target[..|q|] == parent[..|q|];
  }

  /** A folder below the source covers a path in the source exactly as their new names do. */
  lemma CoverMoves(q: string, path: string, source: string, target: string)
    requires Under(path, source) && Under(q, source)
    ensures Covers(q, path) <==> Covers(Move(q, source, target), Move(path, source, target))
  {
    var q', path' := Move(q, source, target), Move(path, source, target);
    assert path[|source|] == '/' && path'[|target|] == '/';
    assert q'[|q'| - 1] == q[|q| - 1];
    var a, b := q[|source|..], path[|source|..];
    assert q == source + a && path == source + b;
    assert q' == target + a && path' == target + b;
    assert q <= path <==> a <= b by { PrefixCancel(source, a, b); }
    assert q' <= path' <==> a <= b by { PrefixCancel(target, a, b); }
  }

  lemma PrefixCancel(front: string, a: string, b: string)
    ensures front + a <= front + b <==> a <= b
  {
    if front + a <= front + b {
      assert forall i | 0 <= i < |a| :: a[i] == (front + a)[|front| + i] == (front + b)[|front| + i] == b[i];
    }
  }

  /** The policies a file picks up from folders that were not on its path before. */
  function Foreign(grants: seq<FolderGrant>, path: string, source: string, target: string): set<nat> {
    if Under(path, source)
    then set g | g in grants && !Under(g.folder, source) && Under(g.folder, target) &&
      Covers(g.folder, Move(path, source, target)) :: g.policy
    else set g | g in grants && Under(g.folder, source) && Covers(Move(g.folder, source, target), path) :: g.policy
  }

  lemma RenamedGrantsMember(grants: seq<FolderGrant>, source: string, target: string, g': FolderGrant)
    ensures g' in RenamedGrants(grants, source, target) <==>
            exists g | g in grants :: g' == MovedGrant(g, source, target)
  {
    var all := RenamedGrants(grants, source, target);
    if g' in all { var i :| 0 <= i < |all| && all[i] == g'; assert grants[i] in grants; }
    if exists g | g in grants :: g' == MovedGrant(g, source, target) {
      var g :| g in grants && g' == MovedGrant(g, source, target);
      var i :| 0 <= i < |grants| && grants[i] == g;
      assert all[i] == g';
    }
  }

  /** One policy folder and one file, before and after. */
  lemma CoverAfter(q: string, path: string, source: string, target: string, parent: string, own: string, name: string)
    requires Siblings(source, target, parent, own, name) && (source == "" ==> '/' in path)
    ensures var covers := Covers(Move(q, source, target), Move(path, source, target));
            (Covers(q, path) ==> covers) &&
            (covers && !Covers(q, path) ==>
               if Under(path, source) then !Under(q, source) && Under(q, target) else Under(q, source))
  {
    var q', path' := Move(q, source, target), Move(path, source, target);
    if Under(path, source) {
      assert path[|source|] == '/';
      assert path'[|target|] == '/';
      if Under(q, source) {
        CoverMoves(q, path, source, target);
      } else {
        if Covers(q, path) { CoverSplits(q, path, source, target, parent, own, name); }
        if Covers(q, path') && !Under(q, target) {
          assert target + path[|source|..] == path' && Under(path', target);
          assert Move(path', target, source) == source + path'[|target|..] == path;
          CoverSplits(q, path', target, source, parent, name, own);
        }
      }
    } else if Under(q, source) && Covers(q, path) {
      assert false;
    }
  }

  lemma GrantBehind(grants: seq<FolderGrant>, path: string, source: string, target: string, parent: string,
      own: string, name: string, p: nat)
    returns (g: FolderGrant)
    requires Siblings(source, target, parent, own, name) && (source == "" ==> '/' in path)
    requires p in Inherited(grants, path) + Foreign(grants, path, source, target)
    ensures g in grants && g.policy == p && Covers(Move(g.folder, source, target), Move(path, source, target))
  {
    if p in Inherited(grants, path) {
      g :| g in grants && Covers(g.folder, path) && g.policy == p;
      CoverAfter(g.folder, path, source, target, parent, own, name);
    } else if Under(path, source) {
      g :| g in grants && !Under(g.folder, source) && Under(g.folder, target) &&
           Covers(g.folder, Move(path, source, target)) && g.policy == p;
    } else {
      g :| g in grants && Under(g.folder, source) && Covers(Move(g.folder, source, target), path) && g.policy == p;
    }
  }

  /** After the rewriting a file inherits what it inherited before and the foreign policies, nothing less or more. */
  lemma InheritedAfterRename(grants: seq<FolderGrant>, path: string, source: string, target: string, parent: string,
      own: string, name: string)
    requires Siblings(source, target, parent, own, name) && (source == "" ==> '/' in path)
    ensures Inherited(RenamedGrants(grants, source, target), Move(path, source, target)) ==
            Inherited(grants, path) + Foreign(grants, path, source, target)
  {
    var after := RenamedGrants(grants, source, target);
    var path' := Move(path, source, target);
    forall p ensures p in Inherited(after, path') <==>
        p in Inherited(grants, path) + Foreign(grants, path, source, target) {
      if p in Inherited(after, path') {
        var g' :| g' in after && Covers(g'.folder, path') && g'.policy == p;
        RenamedGrantsMember(grants, source, target, g');
        var g :| g in grants && g' == MovedGrant(g, source, target);
        CoverAfter(g.folder, path, source, target, parent, own, name);
      }
      if p in Inherited(grants, path) + Foreign(grants, path, source, target) {
        var g := GrantBehind(grants, path, source, target, parent, own, name, p);
        RenamedGrantsMember(grants, source, target, MovedGrant(g, source, target));
      }
    }
  }

  /** No file and no policy folder lies below the target. */
  predicate NothingBelow(files: map<nat, string>, grants: seq<FolderGrant>, target: string) {
    (forall f | f in files :: !Under(files[f], target)) &&
    (forall i | 0 <= i < |grants| :: !Under(grants[i].folder, target))
  }

  /** Rewriting onto a free name keeps the inherited policies of every file, inside and outside the folder. */
  lemma RenameKeepsPolicies(files: map<nat, string>, grants: seq<FolderGrant>, source: string, name: string, f: nat)
    requires HasProperParent(source) && IsValidName(name)
    requires NothingBelow(files, grants, TargetOf(source, name)) && f in files && (source == "" ==> '/' in files[f])
    ensures var target := TargetOf(source, name);
            Inherited(RenamedGrants(grants, source, target), Renamed(files, source, target)[f]) ==
              Inherited(grants, files[f])
  {
    var parent, own := TargetShares(source, name);
    ValidNameHasNoSlash(name);
    var target := TargetOf(source, name);
    InheritedAfterRename(grants, files[f], source, target, parent, own, name);
    NothingForeign(grants, files[f], source, target);
  }

  /** The empty folder holds everything behind a leading slash. When it gets a name, the files without any slash stay
      and lose their policies, all of which come from the root folder. */
  lemma EmptyFolderLosesRoot(grants: seq<FolderGrant>, name: string, path: string)
    requires IsValidName(name) && '/' !in path
    ensures TargetOf("", name) == name && Move(path, "", name) == path
    ensures Inherited(grants, path) == AtRoot(grants) && Inherited(RenamedGrants(grants, "", name), path) == {}
  {
    ValidNameHasNoSlash(name);
    OnePart("");
    assert "" + "/" == "/" && (path != "" ==> path[0] != '/');
    var after := RenamedGrants(grants, "", name);
    forall g' | g' in after ensures !Covers(g'.folder, path) {
      RenamedGrantsMember(grants, "", name, g');
      var g :| g in grants && g' == MovedGrant(g, "", name);
      if "/" <= g.folder { assert g'.folder[0] == name[0]; }
      if g'.folder != "" && g'.folder <= path { assert path[|g'.folder| - 1] == g'.folder[|g'.folder| - 1]; }
    }
    forall g | g in grants ensures Covers(g.folder, path) <==> g.folder == "/" {
      if g.folder != "" && g.folder <= path { assert path[|g.folder| - 1] == g.folder[|g.folder| - 1]; }
    }
  }

  lemma NothingForeign(grants: seq<FolderGrant>, path: string, source: string, target: string)
    requires target != "" && !Under(path, target)
    requires forall i | 0 <= i < |grants| :: !Under(grants[i].folder, target)
    ensures Foreign(grants, path, source, target) == {}
  {
    forall g | g in grants && Under(g.folder, source) ensures !Covers(Move(g.folder, source, target), path) {
      var moved := Move(g.folder, source, target);
      assert g.folder[|source|] == '/' && Under(moved, target);
      assert |moved| > 1;
    }
  }

  lemma MoveInjective(p: string, q: string, source: string, target: string)
    requires Under(p, source) && Under(q, source) && Move(p, source, target) == Move(q, source, target)
    ensures p == q
  {
    var a, b := p[|source|..], q[|source|..];
    assert a == Move(p, source, target)[|target|..] == Move(q, source, target)[|target|..] == b;
    assert p == source + a && q == source + b;
  }

  predicate DistinctFiles(files: map<nat, string>) {
    forall f, g | f in files && g in files && files[f] == files[g] :: f == g
  }

  /** Rewriting keeps paths distinct exactly when no file outside has the path that a moved file gets. */
  lemma DistinctIffNoCollision(files: map<nat, string>, source: string, target: string)
    requires DistinctFiles(files)
    ensures DistinctFiles(Renamed(files, source, target)) <==>
            forall f, g | f in files && g in files && Under(files[f], source) && !Under(files[g], source) ::
              files[g] != target + files[f][|source|..]
  {
    var after := Renamed(files, source, target);
    if !DistinctFiles(after) {
      var f, g :| f in after && g in after && after[f] == after[g] && f != g;
      if Under(files[f], source) && Under(files[g], source) {
        MoveInjective(files[f], files[g], source, target);
        assert false;
      }
    }
    if DistinctFiles(after) {
      forall f, g | f in files && g in files && Under(files[f], source) && !Under(files[g], source)
        ensures files[g] != target + files[f][|source|..]
      {
        assert after[f] == target + files[f][|source|..] && after[g] == files[g];
      }
    }
  }

  /** The program's own guard, that no folder marker stands at the target, does not prevent a collision, once the move
      call is repaired: a folder with its marker is renamed onto one that has none. */
  lemma MarkerGuardIsNotEnough(overwrites: bool)
    ensures var files := map[0 := "a/.folder", 1 := "a/x", 2 := "b/x"];
            var call := Repaired({"a/.folder", "a/x", "b/x"}, overwrites);
            DistinctFiles(files) && RenameAnswer(files, "a", "b", true, true, {}, call) == Success &&
            !DistinctFiles(Renamed(files, RightStrip("a"), TargetOf(RightStrip("a"), "b")))
  {
    var files := map[0 := "a/.folder", 1 := "a/x", 2 := "b/x"];
    ThreeNames();
    RenamedTo();
    MarkedFolderRenames(files, {"a/.folder", "a/x", "b/x"}, overwrites);
    assert "a" + "/" <= "a/x" && !("a" + "/" <= "b/x");
    assert Renamed(files, "a", "b")[1] == "b/x" == Renamed(files, "a", "b")[2];
  }

  lemma MarkedFolderRenames(files: map<nat, string>, objects: set<string>, overwrites: bool)
    requires "a/.folder" in objects && "b/.folder" !in objects
    requires forall f | f in files :: files[f] != "b/.folder"
    ensures RenameAnswer(files, "a", "b", true, true, {}, Repaired(objects, overwrites)) == Success
  {
    RenamedTo();
    assert "a" + "/.folder" == "a/.folder" && "b" + "/.folder" == "b/.folder";
    RepairedRenamesIff(files, "a", "b", true, true, {}, objects, overwrites);
  }

  lemma RenamedTo()
    ensures RightStrip("a") == "a" && TargetOf("a", "b") == "b" && IsValidName("b")
  {
    OnePart("a");
    assert IsNameChar("b"[0]);
  }

  lemma ThreeNames()
    ensures "a/x" != "b/x" && "a/.folder" != "a/x" && "a/.folder" != "b/x"
    ensures "b/.folder" != "a/.folder" && "b/.folder" != "a/x" && "b/.folder" != "b/x"
  {
    assert "a/x"[0] != "b/x"[0] && "b/.folder"[0] != "a/.folder"[0];
    assert |"a/.folder"| == 9 && |"b/.folder"| == 9 && |"a/x"| == 3 && |"b/x"| == 3;
  }

  // ---- folders right behind a leading slash

  /** The grants on the root folder. */
  function AtRoot(grants: seq<FolderGrant>): set<nat> {
    set g | g in grants && g.folder == "/" :: g.policy
  }

  /** What a path inherits from all other folders. */
  function NotFromRoot(grants: seq<FolderGrant>, path: string): set<nat> {
    set g | g in grants && g.folder != "/" && Covers(g.folder, path) :: g.policy
  }

  /** A folder right behind a leading slash moves out of the root folder: a file in it keeps what it does not inherit
      from there and what lies on its new path, and loses the rest. */
  lemma LeadingSlashInherits(grants: seq<FolderGrant>, own: string, name: string, path: string)
    requires own != "" && '/' !in own && IsValidName(name) && Under(path, "/" + own)
    ensures var source := "/" + own;
            TargetOf(source, name) == name && Inherited(grants, path) == AtRoot(grants) + NotFromRoot(grants, path) &&
            Inherited(RenamedGrants(grants, source, name), Move(path, source, name)) ==
            NotFromRoot(grants, path) + Foreign(grants, path, source, name)
  {
    var source := "/" + own;
    LeadingTarget(own, name);
    var after, path' := RenamedGrants(grants, source, name), Move(path, source, name);
    assert path[0] == '/' && "/" <= path;
    forall p ensures p in Inherited(after, path') <==>
        p in NotFromRoot(grants, path) + Foreign(grants, path, source, name) {
      if p in Inherited(after, path') {
        var g' :| g' in after && Covers(g'.folder, path') && g'.policy == p;
        RenamedGrantsMember(grants, source, name, g');
        var g :| g in grants && g' == MovedGrant(g, source, name);
        LeadingCover(g.folder, path, own, name);
      }
      if p in NotFromRoot(grants, path) + Foreign(grants, path, source, name) {
        var g :| g in grants && g.policy == p &&
                 ((g.folder != "/" && Covers(g.folder, path)) ||
                  (!Under(g.folder, source) && Under(g.folder, name) && Covers(g.folder, path')));
        LeadingCover(g.folder, path, own, name);
        RenamedGrantsMember(grants, source, name, MovedGrant(g, source, name));
        assert MovedGrant(g, source, name) in after;
      }
    }
  }

  /** So it keeps its policies exactly when every policy of the root folder also comes from below or lies on the new
      path, and nothing else lies there. */
  lemma LeadingSlashKeepsIff(grants: seq<FolderGrant>, own: string, name: string, path: string)
    requires own != "" && '/' !in own && IsValidName(name) && Under(path, "/" + own)
    ensures var source := "/" + own;
            Inherited(RenamedGrants(grants, source, name), Move(path, source, name)) == Inherited(grants, path) <==>
            AtRoot(grants) <= NotFromRoot(grants, path) + Foreign(grants, path, source, name) &&
            Foreign(grants, path, source, name) <= AtRoot(grants) + NotFromRoot(grants, path)
  {
    LeadingSlashInherits(grants, own, name, path);
  }

  lemma LeadingTarget(own: string, name: string)
    requires own != "" && '/' !in own && IsValidName(name)
    ensures TargetOf("/" + own, name) == name
  {
    assert '/' !in "";
    SplitJoin(["", own], '/');
    assert ["", own][1..] == [own] && "" + "/" + own == "/" + own;
    assert ['/'] == "/";
    assert ["", own][..1] == [""];
  }

  /** One policy folder and one file in the folder, before and after. */
  lemma LeadingCover(q: string, path: string, own: string, name: string)
    requires own != "" && '/' !in own && IsValidName(name) && Under(path, "/" + own)
    ensures var source := "/" + own;
            Covers(Move(q, source, name), Move(path, source, name)) <==>
            (q != "/" && Covers(q, path)) ||
              (!Under(q, source) && Under(q, name) && Covers(q, Move(path, source, name)))
  {
    var source := "/" + own;
    ValidNameHasNoSlash(name);
    assert path[|source|] == '/';
    var path' := Move(path, source, name);
    assert path'[|name|] == '/';
    if Under(q, source) {
      CoverMoves(q, path, source, name);
      assert |q| > 1;
    } else {
      if Covers(q, path) { LeadingAbove(q, path, own); }
      if Covers(q, path') { LeadingBeside(q, path', name); }
    }
  }

  /** Above such a folder there is only the root. */
  lemma LeadingAbove(q: string, path: string, own: string)
    requires own != "" && '/' !in own && Under(path, "/" + own) && !Under(q, "/" + own) && Covers(q, path)
    ensures q == "/"
  {
    var source := "/" + own;
    assert path[0] == '/' && '/' in path;
    assert forall k | 0 < k < |source| :: path[k] == own[k - 1];
    assert q[|q| - 1] == path[|q| - 1];
  }

  /** A folder that covers a path under a one-component folder lies at or below that folder. */
  lemma LeadingBeside(q: string, path: string, name: string)
    requires name != "" && '/' !in name && Under(path, name) && Covers(q, path)
    ensures Under(q, name)
  {
    assert path[|name|] == '/' && '/' in path;
    assert forall k | 0 <= k < |name| :: path[k] == name[k];
    assert q[|q| - 1] == path[|q| - 1];
    assert q[..|name| + 1] == name + "/";
  }
}
