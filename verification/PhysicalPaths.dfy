/** Where the bytes of a version are stored (upload and assign_policy in views/storage.py). */
module PhysicalPaths {
  import opened Text
  import opened UniqueNames

  // ---- names of stored objects

  function FolderOf(path: string): string {
    var parts := Split(path, '/');
    if |parts| > 1 then Join(parts[..|parts| - 1], "/") else ""
  }

  /** What follows the last dot of the last component, without the dot. */
  function Suffix(path: string): string {
    var parts := Split(path, '/');
    var last := if parts == [] then "" else parts[|parts| - 1];
    var k := LastDot(last);
    if k < |last| then last[k + 1..] else ""
  }

  /** With field encryption the object gets a fresh name in the file's folder. */
  function UniquePath(path: string, unique: string): string {
    var name := if Suffix(path) != "" then unique + "." + Suffix(path) else unique;
    InFolder(FolderOf(path), name)
  }

  /** The object of an upload: the file's own path, with the version number for a later version. */
  function UploadPath(path: string, known: bool, number: nat, unique: Option<string>): string {
    match unique
    case Some(name) => UniquePath(path, name)
    case None => if known then path + "_v" + Decimal(number) else path
  }

  function LastSlash(s: string): (k: int)
    ensures -1 <= k < |s|
  {
    if s == "" then -1 else if s[|s| - 1] == '/' then |s| - 1 else LastSlash(s[..|s| - 1])
  }

  /** `os.path.splitext`: the last dot of the last component splits, unless only dots stand before it there. */
  function ExtensionAt(path: string): (k: nat)
    ensures k <= |path|
  {
    LastDotBound(path);
    var dot := LastDot(path);
    if dot < |path| && exists i | LastSlash(path) < i < dot :: path[i] != '.' then dot else |path|
  }

  /** The first place where "_v" stands, or the length when there is none. */
  function FindV(s: string): (k: nat)
    ensures k <= |s|
  {
    if |s| < 2 then |s| else if s[0] == '_' && s[1] == 'v' then 0 else 1 + FindV(s[1..])
  }

  /** The object a policy change writes: everything from the first "_v" of the base name on gives way to the
      time in seconds. */
  function AssignedPath(physical: string, time: nat): string {
    var k := ExtensionAt(physical);
    var base := physical[..k];
    base[..FindV(base)] + "_v" + Decimal(time) + physical[k..]
  }

  lemma AssignedPathLong(physical: string, time: nat)
    ensures |AssignedPath(physical, time)| > 2
  {
    DecimalLength(time);
  }

  /** Folder and extension of a path are what stands before its last slash and behind its last dot after that. */
  lemma PathParts(folder: string, name: string, suffix: string)
    requires '/' !in name && '/' !in suffix && '.' !in suffix
    ensures FolderOf(name) == "" && FolderOf(folder + "/" + name) == folder
    ensures Suffix(folder + "/" + (name + "." + suffix)) == Suffix(name + "." + suffix) == suffix
    ensures '.' !in name ==> Suffix(name) == Suffix(folder + "/" + name) == ""
  {
    var last := name + "." + suffix;
    FolderBefore(folder, name);
    FolderBefore(folder, last);
    LastDotBound(name);
    LastDotBehind(name + ".", suffix);
    assert last == name + "." + suffix && LastDot(name + ".") == |name|;
    assert last[|name| + 1..] == suffix;
  }

  lemma FolderBefore(folder: string, name: string)
    requires '/' !in name
    ensures FolderOf(name) == "" && FolderOf(folder + "/" + name) == folder
    ensures Split(name, '/') == [name]
    ensures var parts := Split(folder + "/" + name, '/'); parts != [] && parts[|parts| - 1] == name
  {
    JoinSplit(folder, '/');
    assert ['/'] == "/";
    var parts := Split(folder, '/');
    JoinLast(parts, name, "/");
    SplitJoin(parts + [name], '/');
    SplitJoin([name], '/');
    assert (parts + [name])[..|parts|] == parts;
  }

  /** Under field encryption a fresh name keeps its folder and its extension, and two names give two paths, whatever
      files they are for. */
  lemma UniquePathKeeps(path: string, unique: string, known: bool, number: nat)
    requires Quiet(unique)
    ensures var stored := UploadPath(path, known, number, Some(unique));
            FolderOf(stored) == FolderOf(path) && Suffix(stored) == Suffix(path)
  {
    UniqueKeeps(path, unique);
  }

  lemma UniqueKeeps(path: string, unique: string)
    requires Quiet(unique)
    ensures FolderOf(UniquePath(path, unique)) == FolderOf(path) && Suffix(UniquePath(path, unique)) == Suffix(path)
  {
    var name := if Suffix(path) != "" then unique + "." + Suffix(path) else unique;
    SuffixQuiet(path);
    FolderJoined(path, name);
    if Suffix(path) == "" {
      assert unique + "" == unique;
      LastDotBehind("", unique);
      assert "" + unique == unique;
    } else {
      LastDotBehind(unique + ".", Suffix(path));
    }
  }

  lemma UniquePathsDiffer(p: string, q: string, u: string, v: string, known: bool, m: nat, n: nat)
    requires Quiet(u) && Quiet(v) && UploadPath(p, known, m, Some(u)) == UploadPath(q, known, n, Some(v))
    ensures u == v
  {
    NameOfUnique(p, u);
    NameOfUnique(q, v);
  }

  /** The last component up to its first dot. */
  function NameBeforeDot(path: string): string {
    var parts := Split(path, '/');
    var last := if parts == [] then "" else parts[|parts| - 1];
    last[..Find(last, '.')]
  }

  lemma NameOfUnique(path: string, unique: string)
    requires Quiet(unique)
    ensures NameBeforeDot(UniquePath(path, unique)) == unique
  {
    var name := if Suffix(path) != "" then unique + "." + Suffix(path) else unique;
    SuffixQuiet(path);
    FolderJoined(path, name);
    BeforeDot(unique, Suffix(path), name);
  }

  lemma BeforeDot(u: string, suffix: string, name: string)
    requires Quiet(u) && name == if suffix != "" then u + "." + suffix else u
    ensures Find(name, '.') == |u| && u == name[..|u|]
  {
    FindExact(u, if suffix != "" then "." + suffix else "", '.');
    assert name == u + if suffix != "" then "." + suffix else "";
  }

  lemma SuffixQuiet(path: string)
    ensures Quiet(Suffix(path))
  {
    var parts := Split(path, '/');
    JoinSplit(path, '/');
    var last := parts[|parts| - 1];
    LastDotBound(last);
    if LastDot(last) < |last| { assert forall c | c in last[LastDot(last) + 1..] :: c in last; }
  }

  /** The components of a path in that folder: those of the folder, and the name. */
  lemma FolderJoined(path: string, name: string)
    requires '/' !in name
    ensures FolderOf(InFolder(FolderOf(path), name)) == FolderOf(path)
    ensures var parts := Split(InFolder(FolderOf(path), name), '/'); parts[|parts| - 1] == name
  {
    JoinSplit(path, '/');
    assert ['/'] == "/";
    var parts := Split(path, '/');
    var front := parts[..|parts| - 1];
    var folder := FolderOf(path);
    if folder == "" {
      SplitJoin([name], '/');
    } else {
      assert front != [];
      JoinLast(front, name, "/");
      SplitJoin(front + [name], '/');
      assert (front + [name])[..|front|] == front;
    }
  }

  // ---- how the parts of such a name are found again

  predicate NoV(s: string) {
    forall i | 0 <= i < |s| - 1 :: !(s[i] == '_' && s[i + 1] == 'v')
  }

  lemma NoVTail(s: string)
    requires NoV(s) && s != ""
    ensures NoV(s[1..])
  {
    var tail := s[1..];
    forall i | 0 <= i < |tail| - 1 ensures !(tail[i] == '_' && tail[i + 1] == 'v') {
      var j := i + 1;
      assert !(s[j] == '_' && s[j + 1] == 'v');
    }
  }

  /** Behind a text without "_v", the first "_v" is the one put there. */
  lemma {:induction false} FindVAt(s: string, rest: string)
    requires NoV(s)
    ensures FindV(s + ("_v" + rest)) == |s|
  {
    var all := s + ("_v" + rest);
    if s == "" {
      assert all[0] == '_' && all[1] == 'v';
    } else {
      assert all[0] == s[0] && all[1] == if |s| == 1 then '_' else s[1];
      assert |s| > 1 ==> !(s[0] == '_' && s[0 + 1] == 'v');
      assert all[1..] == s[1..] + ("_v" + rest);
      NoVTail(s);
      FindVAt(s[1..], rest);
    }
  }

  lemma {:induction false} FindVNone(s: string)
    requires NoV(s)
    ensures FindV(s) == |s|
  {
    if |s| >= 2 {
      assert !(s[0] == '_' && s[0 + 1] == 'v');
      NoVTail(s);
      FindVNone(s[1..]);
    }
  }

  predicate Quiet(s: string) {
    '.' !in s && '/' !in s
  }

  lemma {:induction false} LastDotBehind(s: string, suffix: string)
    requires '.' !in suffix
    ensures LastDot(s + suffix) == if LastDot(s) < |s| then LastDot(s) else |s| + |suffix|
  {
    if suffix == "" {
      LastDotBound(s);
      assert s + suffix == s;
    } else {
      var n := |suffix| - 1;
      var all := s + suffix;
      assert all[..|all| - 1] == s + suffix[..n] && all[|all| - 1] == suffix[n];
      LastDotBehind(s, suffix[..n]);
    }
  }

  lemma {:induction false} LastSlashBehind(s: string, suffix: string)
    requires '/' !in suffix
    ensures LastSlash(s + suffix) == LastSlash(s)
  {
    if suffix == "" {
      assert s + suffix == s;
    } else {
      var n := |suffix| - 1;
      var all := s + suffix;
      assert all[..|all| - 1] == s + suffix[..n] && all[|all| - 1] == suffix[n];
      LastSlashBehind(s, suffix[..n]);
    }
  }

  /** A suffix without dot and slash leaves the extension where it begins. */
  lemma ExtensionBehind(path: string, suffix: string)
    requires Quiet(suffix)
    ensures ExtensionAt(path + suffix) == if ExtensionAt(path) < |path| then ExtensionAt(path) else |path| + |suffix|
  {
    LastDotBehind(path, suffix);
    LastSlashBehind(path, suffix);
    LastDotBound(path);
    var dot := LastDot(path);
    if dot < |path| {
      assert forall i | 0 <= i < dot :: (path + suffix)[i] == path[i];
    }
  }

  /** An extension stays one behind another base that ends in something else than a slash or a dot. */
  lemma ExtensionMoved(path: string, base: string)
    requires ExtensionAt(path) < |path| && base != "" && base[|base| - 1] != '.' && base[|base| - 1] != '/'
    ensures ExtensionAt(base + path[ExtensionAt(path)..]) == |base|
  {
    var ext := path[ExtensionAt(path)..];
    ExtensionShape(path);
    var front := base + ".";
    assert base + ext == front + ext[1..];
    LastDotBehind(front, ext[1..]);
    assert LastDot(front) == |base|;
    LastSlashBehind(base, ext);
    assert LastSlash(base) < |base| - 1;
    assert (base + ext)[|base| - 1] != '.';
  }

  /** It begins with its only dot and lies in the last component. */
  lemma ExtensionShape(path: string)
    requires ExtensionAt(path) < |path|
    ensures var ext := path[ExtensionAt(path)..];
            ext != "" && ext[0] == '.' && Quiet(ext[1..]) && '/' !in ext
  {
    LastDotBound(path);
    LastSlashLast(path);
    var k := ExtensionAt(path);
    assert forall i | 0 <= i < |path| - k :: path[k..][i] == path[k + i];
  }

  lemma {:induction false} LastSlashLast(s: string)
    ensures forall i | LastSlash(s) < i < |s| :: s[i] != '/'
  {
    if s != "" && s[|s| - 1] != '/' { LastSlashLast(s[..|s| - 1]); }
  }
}
