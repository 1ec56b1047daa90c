/** Which stored object a path names on each storage (services/storage), when two paths name the same one, and what
    the call that is meant to delete an old object removes. */
module StoredObjects {
  import opened Text
  import opened UniqueNames
  import opened PhysicalPaths

  /** The storage behind the service; a local disk keeps the files of the bucket in the directory with these
      components. */
  datatype Vendor = Supabase | AwsS3 | GoogleCloud | LocalDisk(bucket: seq<string>)

  /** An object store takes a path as it is, a disk walks it. */
  datatype ObjectName = Key(path: string) | Place(components: seq<string>)

  /** One component of a walk from directory to directory. */
  function Step(at: seq<string>, part: string): seq<string> {
    if part == "" || part == "." then at
    else if part != ".." then at + [part]
    else if at == [] then []
    else at[..|at| - 1]
  }

  function Walk(at: seq<string>, parts: seq<string>): seq<string> {
    if parts == [] then at else Step(Walk(at, parts[..|parts| - 1]), parts[|parts| - 1])
  }

  /** Where the walk begins: `os.path.join` drops the bucket's directory before a path that starts with a slash. */
  function Start(bucket: seq<string>, path: string): seq<string> {
    if path != "" && path[0] == '/' then [] else bucket
  }

  function ObjectOf(vendor: Vendor, path: string): ObjectName {
    match vendor
    case LocalDisk(bucket) => Place(Walk(Start(bucket, path), Split(path, '/')))
    case _ => Key(path)
  }

  // ---- when paths name one object

  predicate NeatPart(part: string) {
    part != "" && part != "." && part != ".."
  }

  /** No component is empty, "." or "..". */
  predicate Neat(path: string) {
    forall i | 0 <= i < |Split(path, '/')| :: NeatPart(Split(path, '/')[i])
  }

  lemma {:induction false} WalkNeat(at: seq<string>, parts: seq<string>)
    requires forall i | 0 <= i < |parts| :: NeatPart(parts[i])
    ensures Walk(at, parts) == at + parts
  {
    if parts != [] {
      var n := |parts| - 1;
      WalkNeat(at, parts[..n]);
      assert at + parts[..n] + [parts[n]] == at + parts;
    }
  }

  lemma NeatStart(bucket: seq<string>, path: string)
    requires Neat(path)
    ensures path != "" && Start(bucket, path) == bucket
  {
    var n := Find(path, '/');
    assert path[..|path|] == path;
    assert Split(path, '/')[0] == path[..n] && NeatPart(Split(path, '/')[0]);
  }

  /** Neat paths name the same object only if they are equal, on every storage. */
  lemma NeatInjective(vendor: Vendor, p: string, q: string)
    requires vendor.LocalDisk? ==> Neat(p) && Neat(q)
    ensures ObjectOf(vendor, p) == ObjectOf(vendor, q) <==> p == q
  {
    if vendor.LocalDisk? && ObjectOf(vendor, p) == ObjectOf(vendor, q) {
      NeatPlace(vendor.bucket, p);
      NeatPlace(vendor.bucket, q);
      var b := vendor.bucket;
      assert Split(p, '/') == (b + Split(p, '/'))[|b|..] == (b + Split(q, '/'))[|b|..] == Split(q, '/');
      JoinSplit(p, '/');
      JoinSplit(q, '/');
    }
  }

  lemma NeatPlace(bucket: seq<string>, path: string)
    requires Neat(path)
    ensures ObjectOf(LocalDisk(bucket), path) == Place(bucket + Split(path, '/'))
  {
    NeatStart(bucket, path);
    WalkNeat(bucket, Split(path, '/'));
  }

  /** A text without a slash goes to the last component. */
  lemma {:induction false} SplitBehind(s: string, suffix: string)
    requires '/' !in suffix
    ensures var parts, n := Split(s, '/'), |Split(s, '/')| - 1;
            n >= 0 && Split(s + suffix, '/') == parts[..n] + [parts[n] + suffix]
    decreases |s|
  {
    var k := Find(s, '/');
    FindFirst(s, '/');
    assert s[..|s|] == s;
    if k == |s| {
      FindExact(s + suffix, "", '/');
      assert s + suffix + "" == s + suffix;
    } else {
      SplitBehind(s[k + 1..], suffix);
      SplitAt(s[..k], s[k + 1..] + suffix);
      assert s + suffix == s[..k] + (['/'] + (s[k + 1..] + suffix));
    }
  }

  lemma SplitAt(first: string, rest: string)
    requires '/' !in first
    ensures Split(first + (['/'] + rest), '/') == [first] + Split(rest, '/')
  {
    FindExact(first, ['/'] + rest, '/');
    var s := first + (['/'] + rest);
    assert s[..|first|] == first && s[|first| + 1..] == rest;
  }

  predicate IsMark(suffix: string) {
    |suffix| > 1 && suffix[0] == '_' && '/' !in suffix
  }

  /** Another ending that begins with an underscore keeps a path neat. */
  lemma NeatBehind(front: string, ending: string, mark: string)
    requires Neat(front + ending) && '/' !in ending && IsMark(mark)
    ensures Neat(front + mark)
  {
    SplitBehind(front, ending);
    SplitBehind(front, mark);
    var parts := Split(front, '/');
    var n := |parts| - 1;
    var before, after := Split(front + ending, '/'), Split(front + mark, '/');
    forall i | 0 <= i < |after| ensures NeatPart(after[i]) {
      if i < n { assert NeatPart(before[i]) && after[i] == before[i]; }
      if i == n { assert after[n][|parts[n]|] == '_'; }
    }
  }

  /** Behind such an ending the walk ends in a component of its own. */
  lemma MarkedPlace(bucket: seq<string>, front: string, mark: string) returns (at: seq<string>, last: string)
    requires IsMark(mark)
    ensures ObjectOf(LocalDisk(bucket), front + mark) == Place(at + [last + mark])
    ensures ObjectOf(LocalDisk(bucket), front) == Place(Step(at, last))
  {
    SplitBehind(front, mark);
    var parts := Split(front, '/');
    var n := |parts| - 1;
    last := parts[n];
    at := Walk(Start(bucket, front), parts[..n]);
    var all := Split(front + mark, '/');
    assert all[..|all| - 1] == parts[..n];
    assert (last + mark)[|last|] == '_' && NeatPart(last + mark);
    assert Start(bucket, front + mark) == Start(bucket, front);
  }

  lemma SameEnding(a: seq<string>, x: string, b: seq<string>, y: string)
    ensures a + [x] == b + [y] ==> x == y
  {
    assert (a + [x])[|a + [x]| - 1] == x && (b + [y])[|b + [y]| - 1] == y;
  }

  /** A path and the same path with such an ending name different objects. */
  lemma MarkedElsewhere(vendor: Vendor, front: string, mark: string)
    requires IsMark(mark)
    ensures ObjectOf(vendor, front) != ObjectOf(vendor, front + mark)
  {
    if vendor.LocalDisk? {
      var at, last := MarkedPlace(vendor.bucket, front, mark);
      SameEnding(at, last, at, last + mark);
    } else {
      assert |front + mark| > |front|;
    }
  }

  /** A name without a slash that is no dots is neat. */
  lemma NeatName(name: string)
    requires '/' !in name && NeatPart(name)
    ensures Neat(name)
  {
    FindExact(name, "", '/');
    assert name + "" == name && Split(name, '/') == [name];
  }

  lemma DoubledSlash(bucket: seq<string>)
    ensures ObjectOf(LocalDisk(bucket), "ab/c") == ObjectOf(LocalDisk(bucket), "ab//c")
  {
    assert ['/'] == "/";
    SplitJoin(["ab", "c"], '/');
    SplitJoin(["ab", "", "c"], '/');
    assert ["ab", "c"][1..] == ["c"] && ["ab", "", "c"][1..] == ["", "c"] && ["", "c"][1..] == ["c"];
    assert Join(["ab", "c"], "/") == "ab/c" && Join(["ab", "", "c"], "/") == "ab//c";
    WalkThree(bucket);
  }

  /** Further spellings on a disk: a dot stays, two dots go up, and a leading slash leaves the bucket. */
  lemma OtherSpellings(bucket: seq<string>, name: string, dir: string)
    requires '/' !in name && NeatPart(name) && '/' !in dir && NeatPart(dir)
    ensures ObjectOf(LocalDisk(bucket), "./" + name) == Place(bucket + [name])
    ensures ObjectOf(LocalDisk(bucket), dir + "/../" + name) == Place(bucket + [name])
    ensures ObjectOf(LocalDisk(bucket), "/" + name) == Place([name])
  {
    DotStays(bucket, name);
    DotsGoUp(bucket, name, dir);
    SlashLeaves(bucket, name);
  }

  lemma DotStays(bucket: seq<string>, name: string)
    requires '/' !in name && NeatPart(name)
    ensures ObjectOf(LocalDisk(bucket), "./" + name) == Place(bucket + [name])
  {
    SplitTwo(".", name);
    assert "./" + name == "." + (['/'] + name);
    WalkTwo(bucket, ".", name);
  }

  lemma SlashLeaves(bucket: seq<string>, name: string)
    requires '/' !in name && NeatPart(name)
    ensures ObjectOf(LocalDisk(bucket), "/" + name) == Place([name])
  {
    SplitTwo("", name);
    assert "/" + name == "" + (['/'] + name);
    WalkTwo([], "", name);
    assert [] + [name] == [name];
  }

  lemma DotsGoUp(bucket: seq<string>, name: string, dir: string)
    requires '/' !in name && NeatPart(name) && '/' !in dir && NeatPart(dir)
    ensures ObjectOf(LocalDisk(bucket), dir + "/../" + name) == Place(bucket + [name])
  {
    var path := dir + "/../" + name;
    assert path == dir + (['/'] + (".." + (['/'] + name)));
    SplitTwo("..", name);
    SplitAt(dir, ".." + (['/'] + name));
    assert path[0] == dir[0] && dir[0] in dir;
    WalkUp(bucket, dir, name);
  }

  lemma SplitTwo(first: string, second: string)
    requires '/' !in first && '/' !in second
    ensures Split(first + (['/'] + second), '/') == [first, second]
  {
    SplitAt(first, second);
    FindExact(second, "", '/');
    assert second + "" == second;
  }

  lemma WalkTwo(at: seq<string>, first: string, second: string)
    ensures Walk(at, [first, second]) == Step(Step(at, first), second)
  {
    assert [first, second][..1] == [first] && [first][..0] == [];
    assert Walk(at, [first]) == Step(Walk(at, []), first);
  }

  lemma WalkUp(bucket: seq<string>, dir: string, name: string)
    requires NeatPart(name) && NeatPart(dir)
    ensures Walk(bucket, [dir] + ["..", name]) == bucket + [name]
  {
    WalkTwo(bucket, dir, "..");
    var parts := [dir] + ["..", name];
    assert parts[..2] == [dir, ".."] && parts[2] == name;
    assert (bucket + [dir])[..|bucket|] == bucket;
  }

  lemma WalkThree(bucket: seq<string>)
    ensures Walk(bucket, ["ab", "c"]) == Walk(bucket, ["ab", "", "c"])
  {
    assert ["ab", "c"][..1] == ["ab"] && ["ab", "", "c"][..2] == ["ab", ""] && ["ab", ""][..1] == ["ab"];
    assert Walk(bucket, ["ab", ""]) == Walk(bucket, ["ab"]);
  }

  // ---- the deletion

  /** The deletion of the name that is this one character goes through, or at least lets the loop go on; `blocked`
      are the characters that name a directory of a local disk at that moment. */
  predicate GoesOn(vendor: Vendor, blocked: set<char>, names: set<ObjectName>, c: char) {
    match vendor
    case Supabase => false
    case AwsS3 => true
    case GoogleCloud => Key([c]) in names
    case LocalDisk(_) => c != '/' && c != '.' && c !in blocked
  }

  /** `delete_file` expects a list of paths and is handed one path: its characters are taken for the paths, up to
      the first that raises an error, which the caller swallows. */
  function Swept(vendor: Vendor, blocked: set<char>, names: set<ObjectName>, path: string): set<ObjectName> {
    if path == "" || !GoesOn(vendor, blocked, names, path[0]) then {}
    else
      var gone := ObjectOf(vendor, [path[0]]);
      {gone} + Swept(vendor, blocked, names - {gone}, path[1..])
  }

  /** The object is that of a single character of the path. */
  predicate NamesOne(vendor: Vendor, x: ObjectName, path: string) {
    exists c | c in path :: (vendor.LocalDisk? ==> c != '/' && c != '.') && x == ObjectOf(vendor, [c])
  }

  lemma {:induction false} SweptCharacters(vendor: Vendor, blocked: set<char>, names: set<ObjectName>, path: string)
    ensures forall x | x in Swept(vendor, blocked, names, path) :: NamesOne(vendor, x, path)
    ensures vendor == Supabase ==> Swept(vendor, blocked, names, path) == {}
    ensures vendor == GoogleCloud && path != "" ==>
              Swept(vendor, blocked, names, path) <= names &&
              (Key([path[0]]) in names <==> Key([path[0]]) in Swept(vendor, blocked, names, path))
    ensures vendor == AwsS3 || (vendor.LocalDisk? && forall c | c in path :: c !in {'/', '.'} && c !in blocked) ==>
              forall c | c in path :: ObjectOf(vendor, [c]) in Swept(vendor, blocked, names, path)
    ensures vendor.LocalDisk? && path != "" && (path[0] in {'/', '.'} || path[0] in blocked) ==>
              Swept(vendor, blocked, names, path) == {}
  {
    if path != "" && GoesOn(vendor, blocked, names, path[0]) {
      var gone := ObjectOf(vendor, [path[0]]);
      SweptCharacters(vendor, blocked, names - {gone}, path[1..]);
      assert forall c :: c in path <==> c == path[0] || c in path[1..];
      assert path[0] in path && NamesOne(vendor, gone, path);
    } else if path != "" {
      assert path[0] in path;
    }
  }

  lemma CharacterPlace(bucket: seq<string>, c: char)
    requires c != '/' && c != '.'
    ensures Neat([c]) && ObjectOf(LocalDisk(bucket), [c]) == Place(bucket + [[c]])
  {
    FindExact([c], "", '/');
    assert [c] + "" == [c] && Split([c], '/') == [[c]];
    NeatPlace(bucket, [c]);
  }

  /** On every storage a path of more characters, neat on a disk, names no object of a single one. */
  lemma LongPathsStay(vendor: Vendor, path: string, from: string)
    requires |path| != 1 && (vendor.LocalDisk? ==> Neat(path))
    ensures !NamesOne(vendor, ObjectOf(vendor, path), from)
  {
    forall c | c in from && (vendor.LocalDisk? ==> c != '/' && c != '.')
        ensures ObjectOf(vendor, path) != ObjectOf(vendor, [c]) {
      if vendor.LocalDisk? { CharacterPlace(vendor.bucket, c); }
      NeatInjective(vendor, path, [c]);
    }
  }

  /** Nor does any path behind an ending that begins with an underscore, neat or not. */
  lemma MarkedStays(vendor: Vendor, front: string, mark: string, from: string)
    requires IsMark(mark)
    ensures !NamesOne(vendor, ObjectOf(vendor, front + mark), from)
  {
    forall c | c in from && (vendor.LocalDisk? ==> c != '/' && c != '.')
      ensures ObjectOf(vendor, front + mark) != ObjectOf(vendor, [c])
    {
      if vendor.LocalDisk? {
        CharacterPlace(vendor.bucket, c);
        var at, last := MarkedPlace(vendor.bucket, front, mark);
        SameEnding(at, last + mark, vendor.bucket, [c]);
      }
    }
  }

  /** What a policy change writes never is the object of a single character. */
  lemma AssignedStays(vendor: Vendor, physical: string, time: nat, from: string)
    ensures !NamesOne(vendor, ObjectOf(vendor, AssignedPath(physical, time)), from)
  {
    var front, mark := AssignedParts(physical, time);
    MarkedStays(vendor, front, mark, from);
  }

  lemma AssignedParts(physical: string, time: nat) returns (front: string, mark: string)
    ensures AssignedPath(physical, time) == front + mark && IsMark(mark)
  {
    var k := ExtensionAt(physical);
    var base, ext := physical[..k], physical[k..];
    front := base[..FindV(base)];
    mark := "_v" + Decimal(time) + ext;
    if k < |physical| { ExtensionShape(physical); }
    DecimalQuiet(time);
    assert front + "_v" + Decimal(time) + ext == front + mark;
  }
}
