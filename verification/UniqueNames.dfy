/** Finding a free name for a pasted item (get_unique_name in views/storage.py). */
module UniqueNames {
  function Digit(d: nat): char
    requires d < 10
  {
    ['0', '1', '2', '3', '4', '5', '6', '7', '8', '9'][d]
  }

  /** A counter as it is written in an f-string. */
  function Decimal(n: nat): string {
    if n < 10 then [Digit(n)] else Decimal(n / 10) + [Digit(n % 10)]
  }

  lemma {:induction false} DecimalInjective(m: nat, n: nat)
    requires Decimal(m) == Decimal(n)
    ensures m == n
  {
    var s := Decimal(m);
    assert s[|s| - 1] == Digit(m % 10) == Digit(n % 10);
    assert m % 10 == n % 10;
    if m < 10 || n < 10 {
      DecimalLength(m);
      DecimalLength(n);
    } else {
      assert Decimal(m / 10) == s[..|s| - 1] == Decimal(n / 10);
      DecimalInjective(m / 10, n / 10);
    }
  }

  lemma DecimalLength(n: nat)
    ensures |Decimal(n)| == 1 <==> n < 10
  {
    if n >= 10 { assert |Decimal(n / 10)| > 0; }
  }

  lemma {:induction false} DecimalQuiet(n: nat)
    ensures Decimal(n) != "" && forall i | 0 <= i < |Decimal(n)| :: '0' <= Decimal(n)[i] <= '9'
  {
    if n >= 10 { DecimalQuiet(n / 10); }
  }

  /** The number that decimal digits stand for. */
  function Value(digits: string): int {
    if digits == "" then 0
    else 10 * Value(digits[..|digits| - 1]) + (digits[|digits| - 1] as int - '0' as int)
  }

  lemma {:induction false} DecimalValue(n: nat)
    ensures Value(Decimal(n)) == n
  {
    if n < 10 {
      assert Decimal(n)[..0] == "" && Digit(n) as int - '0' as int == n;
    } else {
      DecimalValue(n / 10);
      assert Decimal(n)[..|Decimal(n)| - 1] == Decimal(n / 10);
      assert Digit(n % 10) as int - '0' as int == n % 10;
    }
  }

  /** The last position of a dot, or the length when there is none. */
  function LastDot(s: string): nat {
    if s == "" then 0
    else if s[|s| - 1] == '.' then |s| - 1
    else if LastDot(s[..|s| - 1]) == |s| - 1 then |s| else LastDot(s[..|s| - 1])
  }

  lemma {:induction false} LastDotBound(s: string)
    ensures LastDot(s) <= |s| && (LastDot(s) < |s| <==> '.' in s)
    ensures LastDot(s) < |s| ==> s[LastDot(s)] == '.' && '.' !in s[LastDot(s) + 1..]
  {
    if s != "" && s[|s| - 1] != '.' {
      var front := s[..|s| - 1];
      LastDotBound(front);
      assert s == front + [s[|s| - 1]];
      if LastDot(front) < |front| {
        assert s[LastDot(s) + 1..] == front[LastDot(s) + 1..] + [s[|s| - 1]];
      }
    }
  }

  /** `rsplit('.', 1)`, unless the name starts with a dot or has none. */
  function Extension(name: string): string {
    var k := LastDot(name);
    if k < |name| && name[0] != '.' then name[k..] else ""
  }

  function BaseName(name: string): string {
    var k := LastDot(name);
    if k < |name| && name[0] != '.' then name[..k] else name
  }

  /** The name of the `k`-th attempt; the zeroth is the name asked for. */
  function Attempt(name: string, k: nat): string {
    if k == 0 then name else BaseName(name) + " (" + Decimal(k) + ")" + Extension(name)
  }

  function InFolder(folder: string, name: string): string {
    if folder != "" then folder + "/" + name else name
  }

  function Candidate(folder: string, name: string, k: nat): string {
    InFolder(folder, Attempt(name, k))
  }

  lemma NameParts(name: string)
    ensures BaseName(name) + Extension(name) == name
  {
    LastDotBound(name);
  }

  /** Different counters give different names. */
  lemma CandidatesDiffer(folder: string, name: string, i: nat, j: nat)
    requires i != j
    ensures Candidate(folder, name, i) != Candidate(folder, name, j)
  {
    if Candidate(folder, name, i) == Candidate(folder, name, j) {
      InFolderInjective(folder, Attempt(name, i), Attempt(name, j));
      if i == 0 {
        NumberedIsLonger(name, j);
      } else if j == 0 {
        NumberedIsLonger(name, i);
      } else {
        SameNumber(BaseName(name), Decimal(i), Decimal(j), Extension(name));
        DecimalInjective(i, j);
      }
    }
  }

  lemma NumberedIsLonger(name: string, k: nat)
    requires k > 0
    ensures |Attempt(name, k)| > |name|
  {
    NameParts(name);
    assert |BaseName(name)| + |Extension(name)| == |name|;
  }

  lemma SameNumber(base: string, a: string, b: string, ext: string)
    requires base + " (" + a + ")" + ext == base + " (" + b + ")" + ext
    ensures a == b
  {
    var front, back := base + " (", ")" + ext;
    assert front + a + back == base + " (" + a + ")" + ext;
    assert front + b + back == base + " (" + b + ")" + ext;
    MiddleOf(front, a, back, b);
  }

  lemma InFolderInjective(folder: string, a: string, b: string)
    requires InFolder(folder, a) == InFolder(folder, b)
    ensures a == b
  {
    if folder != "" {
      var front := folder + "/";
      assert a == (front + a)[|front|..] && b == (front + b)[|front|..];
    }
  }

  lemma MiddleOf(front: string, a: string, back: string, b: string)
    ensures front + a + back == front + b + back ==> a == b
  {
    if front + a + back == front + b + back {
      var s := front + a + back;
      assert |a| == |b|;
      assert a == s[|front|..|front| + |a|];
      assert b == (front + b + back)[|front|..|front| + |b|];
    }
  }

  /** The first `n` paths tried. */
  function Tried(folder: string, name: string, n: nat): set<string> {
    if n == 0 then {} else Tried(folder, name, n - 1) + {Candidate(folder, name, n - 1)}
  }

  lemma {:induction false} NotTriedYet(folder: string, name: string, n: nat, k: nat)
    requires n <= k
    ensures Candidate(folder, name, k) !in Tried(folder, name, n)
  {
    if n > 0 {
      NotTriedYet(folder, name, n - 1, k);
      CandidatesDiffer(folder, name, n - 1, k);
    }
  }

  /** Base and extension make up the name; the extension runs from the last dot on, and is empty exactly when the name
      has no dot or starts with one. */
  method SplitName(name: string) returns (baseName: string, ext: string)
    ensures baseName + ext == name
    ensures ext == "" <==> '.' !in name || name[0] == '.'
    ensures ext != "" ==> ext[0] == '.' && '.' !in ext[1..]
  {
    LastDotBound(name);
    if '.' in name && name[0] != '.' {
      var k := LastDot(name);
      assert name[k..][1..] == name[k + 1..];
      return name[..k], name[k..];
    }
    return name, "";
  }

  /** No other split has that. */
  lemma SplitUnique(name: string, base: string, ext: string)
    requires base + ext == name
    requires ext == "" <==> '.' !in name || name[0] == '.'
    requires ext != "" ==> ext[0] == '.' && '.' !in ext[1..]
    ensures base == BaseName(name) && ext == Extension(name)
  {
    LastDotBound(name);
    if ext == "" {
      assert base == name;
    } else {
      var k := LastDot(name);
      assert name[|base|] == '.';
      assert forall i | |base| < i < |name| :: name[i] == ext[1..][i - |base| - 1];
      assert forall i | k < i < |name| :: name[i] == name[k + 1..][i - k - 1];
      assert |base| == k;
      assert name[..k] == base && name[k..] == ext;
    }
  }

  /** A numbered name keeps its extension at the end, and the number stands in parentheses before it. */
  lemma AttemptReads(name: string, k: nat)
    requires k > 0
    ensures Extension(Attempt(name, k)) == Extension(name)
    ensures BaseName(Attempt(name, k)) == BaseName(name) + " (" + Decimal(k) + ")" && Value(Decimal(k)) == k
  {
    DecimalValue(k);
    DecimalQuiet(k);
    var mark := " (" + Decimal(k) + ")";
    assert '.' !in mark && BaseName(name) + mark == BaseName(name) + " (" + Decimal(k) + ")";
    MarkedName(name, mark);
  }

  lemma MarkedName(name: string, mark: string)
    requires '.' !in mark && mark != ""
    ensures var marked := BaseName(name) + mark + Extension(name);
            Extension(marked) == Extension(name) && BaseName(marked) == BaseName(name) + mark
  {
    LastDotBound(name);
    var base, ext := BaseName(name) + mark, Extension(name);
    if ext != "" {
      assert ext[1..] == name[LastDot(name) + 1..];
      assert (base + ext)[0] == name[0] && (base + ext)[|base|] == '.';
    } else if '.' in name {
      assert (base + ext)[0] == '.';
    }
    SplitUnique(base + ext, base, ext);
  }

  method NameAndExtension(name: string) returns (baseName: string, ext: string)
    ensures baseName == BaseName(name) && ext == Extension(name)
  {
    baseName, ext := SplitName(name);
    SplitUnique(name, baseName, ext);
  }

  /** The first `k` paths are occupied. */
  predicate AllTaken(folder: string, name: string, live: set<string>, k: nat) {
    forall i | 0 <= i < k :: Candidate(folder, name, i) in live
  }

  /** The loop stops at the least counter whose path is free; what bounds it is the number of occupied
      paths not tried yet. */
  method GetUniqueName(folder: string, name: string, live: set<string>)
      returns (newName: string, newPath: string, ghost k: nat)
    ensures newPath !in live
    ensures newName == Attempt(name, k) && newPath == Candidate(folder, name, k)
    ensures AllTaken(folder, name, live, k)
  {
    var baseName, ext := NameAndExtension(name);
    var counter := 1;
    newName, newPath := AskedFor(folder, name);
    k := 0;
    while newPath in live
      invariant counter == k + 1
      invariant newName == Attempt(name, k) && newPath == Candidate(folder, name, k)
      invariant AllTaken(folder, name, live, k)
      decreases Untried(folder, name, live, k)
    {
      StepShrinks(folder, name, live, k);
      newName, newPath := Numbered(folder, name, baseName, ext, counter);
      counter := counter + 1;
      k := k + 1;
    }
  }

  /** The name asked for and its path. */
  method AskedFor(folder: string, name: string) returns (newName: string, newPath: string)
    ensures newName == Attempt(name, 0) && newPath == Candidate(folder, name, 0)
  {
    newName := name;
    newPath := if folder != "" then folder + "/" + newName else newName;
  }

  /** One turn of the loop: the name and the path that the counter gives. */
  method Numbered(folder: string, name: string, baseName: string, ext: string, counter: nat)
      returns (newName: string, newPath: string)
    requires counter > 0 && baseName == BaseName(name) && ext == Extension(name)
    ensures newName == Attempt(name, counter) && newPath == Candidate(folder, name, counter)
  {
    newName := baseName + " (" + Decimal(counter) + ")" + ext;
    newPath := if folder != "" then folder + "/" + newName else newName;
  }

  /** How many occupied paths are not among the first `k` tried. */
  function Untried(folder: string, name: string, live: set<string>, k: nat): nat {
    |live - Tried(folder, name, k)|
  }

  lemma StepShrinks(folder: string, name: string, live: set<string>, k: nat)
    requires Candidate(folder, name, k) in live
    ensures Untried(folder, name, live, k + 1) < Untried(folder, name, live, k)
  {
    NotTriedYet(folder, name, k, k);
    OneLess(live, Tried(folder, name, k), Candidate(folder, name, k));
  }

  lemma OneLess(live: set<string>, tried: set<string>, x: string)
    requires x in live && x !in tried
    ensures |live - (tried + {x})| < |live - tried|
  {
    assert live - (tried + {x}) == (live - tried) - {x};
  }

  /** The search looks past no more names than there are occupied paths. */
  lemma {:induction false} OccupiedBound(folder: string, name: string, live: set<string>, k: nat)
    requires AllTaken(folder, name, live, k)
    ensures k + Untried(folder, name, live, k) <= |live|
  {
    if k == 0 {
      assert live - {} == live;
    } else {
      OccupiedBound(folder, name, live, k - 1);
      StepShrinks(folder, name, live, k - 1);
    }
  }
}
