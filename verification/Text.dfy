/** Strings as the Python, JavaScript and C++ sides of the program handle them. */
module Text {

  datatype Option<+T> = None | Some(value: T)

  /** The characters `operator>>` skips: isspace in the "C" locale. */
  predicate IsBlank(c: char) {
    c == ' ' || c == '\t' || c == '\n' || c == '\r' || c == '\U{000B}' || c == '\U{000C}'
  }

  function LowerChar(c: char): char {
    if 'A' <= c <= 'Z' then (c as int + 32) as char else c
  }

  function Lower(s: string): string {
    seq(|s|, i requires 0 <= i < |s| => LowerChar(s[i]))
  }

  /** The 26 capitals become small letters. */
  lemma CapitalsLowered()
    ensures Lower("ABCDEFGHIJKLMNOPQRSTUVWXYZ") == "abcdefghijklmnopqrstuvwxyz" && Lower("@[`{_:") == "@[`{_:"
  {}

  /** Python's `lstrip` and `rstrip`, and the blanks `operator>>` skips. */
  function StripLeft(s: string): string {
    if s != "" && IsBlank(s[0]) then StripLeft(s[1..]) else s
  }

  function StripRight(s: string): string {
    if s != "" && IsBlank(s[|s| - 1]) then StripRight(s[..|s| - 1]) else s
  }

  /** Python's `strip`. */
  function Trim(s: string): string {
    StripRight(StripLeft(s))
  }

  predicate AllBlank(s: string) {
    forall i | 0 <= i < |s| :: IsBlank(s[i])
  }

  lemma {:induction false} StripLeftExact(s: string) returns (left: string)
    ensures s == left + StripLeft(s) && AllBlank(left) && (StripLeft(s) == "" || !IsBlank(StripLeft(s)[0]))
  {
    if s != "" && IsBlank(s[0]) {
      left := StripLeftExact(s[1..]);
      left := [s[0]] + left;
    } else {
      left := "";
      assert "" + s == s;
    }
  }

  lemma {:induction false} StripRightExact(s: string) returns (right: string)
    ensures s == StripRight(s) + right && AllBlank(right)
    ensures StripRight(s) == "" || !IsBlank(StripRight(s)[|StripRight(s)| - 1])
  {
    if s != "" && IsBlank(s[|s| - 1]) {
      right := StripRightExact(s[..|s| - 1]);
      right := right + [s[|s| - 1]];
    } else {
      right := "";
      assert s + "" == s;
    }
  }

  /** Trimming takes blanks away at both ends and leaves none there. */
  lemma TrimExact(s: string) returns (left: string, right: string)
    ensures s == left + Trim(s) + right && AllBlank(left) && AllBlank(right)
    ensures Trim(s) != "" ==> !IsBlank(Trim(s)[0]) && !IsBlank(Trim(s)[|Trim(s)| - 1])
  {
    left := StripLeftExact(s);
    right := StripRightExact(StripLeft(s));
    Associative(left, Trim(s), right);
  }

  /** Lower-case word characters: what attribute names and values are made of. */
  predicate IsWordChar(c: char) {
    'a' <= c <= 'z' || '0' <= c <= '9' || c == '_'
  }

  predicate IsWord(s: string) {
    s != "" && forall i | 0 <= i < |s| :: IsWordChar(s[i])
  }

  /** The length of the longest prefix of `s` whose characters all satisfy `p`. */
  function Span(s: string, p: char -> bool): (n: nat)
    ensures n <= |s|
  {
    if s != "" && p(s[0]) then 1 + Span(s[1..], p) else 0
  }

  /** Python's `sep.join(parts)`. */
  function Join(parts: seq<string>, sep: string): string {
    if parts == [] then ""
    else if |parts| == 1 then parts[0]
    else parts[0] + sep + Join(parts[1..], sep)
  }

  /** The first position of `c`, or the length when there is none. */
  function Find(s: string, c: char): (n: nat)
    ensures n <= |s|
  {
    if s == "" || s[0] == c then 0 else 1 + Find(s[1..], c)
  }

  /** Python's `s.split(c)`: always at least one part. */
  function Split(s: string, c: char): seq<string> {
    var n := Find(s, c);
    if n == |s| then [s] else [s[..n]] + Split(s[n + 1..], c)
  }

  lemma {:induction false} FindFirst(s: string, c: char)
    ensures c !in s[..Find(s, c)]
    ensures Find(s, c) < |s| ==> s[Find(s, c)] == c
  {
    if s != "" && s[0] != c {
      FindFirst(s[1..], c);
      assert s[..Find(s, c)] == [s[0]] + s[1..][..Find(s[1..], c)];
    }
  }

  lemma {:induction false} FindExact(run: string, rest: string, c: char)
    requires c !in run
    requires rest == "" || rest[0] == c
    ensures Find(run + rest, c) == |run|
  {
    if run == "" {
      assert run + rest == rest;
    } else {
      assert (run + rest)[1..] == run[1..] + rest;
      FindExact(run[1..], rest, c);
    }
  }

  /** A run of accepted characters ends where the first rejected one stands. */
  lemma {:induction false} SpanExact(run: string, rest: string, p: char -> bool)
    requires forall i | 0 <= i < |run| :: p(run[i])
    requires rest == "" || !p(rest[0])
    ensures Span(run + rest, p) == |run|
  {
    if run == "" {
      assert run + rest == rest;
    } else {
      assert (run + rest)[1..] == run[1..] + rest;
      SpanExact(run[1..], rest, p);
    }
  }

  lemma LowerConcat(a: string, b: string)
    ensures Lower(a + b) == Lower(a) + Lower(b)
  {}

  lemma LowerOfWord(s: string)
    requires forall i | 0 <= i < |s| :: !('A' <= s[i] <= 'Z')
    ensures Lower(s) == s
  {}

  lemma {:induction false} JoinLast(parts: seq<string>, last: string, sep: string)
    requires parts != []
    ensures Join(parts + [last], sep) == Join(parts, sep) + sep + last
  {
    assert (parts + [last])[1..] == parts[1..] + [last];
    if |parts| > 1 { JoinLast(parts[1..], last, sep); }
  }

  /** Splitting what was joined gives the parts back, when none holds the separator. */
  lemma {:induction false} SplitJoin(parts: seq<string>, c: char)
    requires parts != []
    requires forall i | 0 <= i < |parts| :: c !in parts[i]
    ensures Split(Join(parts, [c]), c) == parts
  {
    if |parts| == 1 {
      FindExact(parts[0], "", c);
      assert parts[0] + "" == parts[0];
    } else {
      var rest := Join(parts[1..], [c]);
      FindExact(parts[0], [c] + rest, c);
      assert Join(parts, [c]) == parts[0] + ([c] + rest);
      assert Join(parts, [c])[|parts[0]| + 1..] == rest;
      SplitJoin(parts[1..], c);
    }
  }

  /** Joining what was split gives the string back. */
  lemma {:induction false} JoinSplit(s: string, c: char)
    ensures Split(s, c) != []
    ensures Join(Split(s, c), [c]) == s
    ensures forall i | 0 <= i < |Split(s, c)| :: c !in Split(s, c)[i]
    decreases |s|
  {
    var n := Find(s, c);
    FindFirst(s, c);
    if n < |s| {
      var tail := s[n + 1..];
      JoinSplit(tail, c);
      assert Split(s, c)[1..] == Split(tail, c);
      assert s == s[..n] + [c] + tail;
    }
  }

  /** Two joins agree only if the parts agree, unless a part other than the last holds the separator. */
  lemma {:induction false} JoinInjective(a: seq<string>, b: seq<string>, c: char)
    requires |a| == |b| > 0
    requires forall i | 0 <= i < |a| - 1 :: c !in a[i] && c !in b[i]
    requires Join(a, [c]) == Join(b, [c])
    ensures a == b
  {
    if |a| > 1 {
      var ra, rb := Join(a[1..], [c]), Join(b[1..], [c]);
      assert Join(a, [c]) == a[0] + ([c] + ra);
      assert Join(b, [c]) == b[0] + ([c] + rb);
      FindExact(a[0], [c] + ra, c);
      FindExact(b[0], [c] + rb, c);
      assert a[0] == Join(a, [c])[..|a[0]|] == Join(b, [c])[..|b[0]|] == b[0];
      assert ra == Join(a, [c])[|a[0]| + 1..] == Join(b, [c])[|b[0]| + 1..] == rb;
      JoinInjective(a[1..], b[1..], c);
      assert a == [a[0]] + a[1..];
    }
  }

  function Count(s: string, c: char): nat {
    if s == "" then 0 else (if s[0] == c then 1 else 0) + Count(s[1..], c)
  }

  lemma {:induction false} CountConcat(a: string, b: string, c: char)
    ensures Count(a + b, c) == Count(a, c) + Count(b, c)
  {
    if a == "" {
      assert a + b == b;
    } else {
      assert (a + b)[1..] == a[1..] + b;
      CountConcat(a[1..], b, c);
    }
  }

  lemma {:induction false} CountZero(s: string, c: char)
    ensures Count(s, c) == 0 <==> c !in s
  {
    if s != "" { CountZero(s[1..], c); }
  }

  /** A joined text holds at least the separators it was joined by, and no more exactly when no part holds one. */
  lemma {:induction false} SeparatorsOfJoin(parts: seq<string>, c: char)
    requires parts != []
    ensures Count(Join(parts, [c]), c) >= |parts| - 1
    ensures Count(Join(parts, [c]), c) == |parts| - 1 <==> forall i | 0 <= i < |parts| :: c !in parts[i]
  {
    CountZero(parts[0], c);
    if |parts| > 1 {
      var rest := Join(parts[1..], [c]);
      assert Join(parts, [c]) == parts[0] + ([c] + rest);
      CountConcat(parts[0], [c] + rest, c);
      assert ([c] + rest)[1..] == rest;
      SeparatorsOfJoin(parts[1..], c);
      assert forall i | 0 < i < |parts| :: parts[i] == parts[1..][i - 1];
    }
  }

  /** Two equally long joins agree only if the parts agree, if the parts of one of them hold no separator: the other
      cannot hide one in its parts. */
  lemma JoinOneWay(a: seq<string>, b: seq<string>, c: char)
    requires |a| == |b| > 0 && Join(a, [c]) == Join(b, [c])
    requires forall i | 0 <= i < |b| :: c !in b[i]
    ensures a == b
  {
    SeparatorsOfJoin(a, c);
    SeparatorsOfJoin(b, c);
    JoinInjective(a, b, c);
  }

  /** What stands behind the last separator can be told from the whole. */
  lemma BehindLast(front: string, last: string, front': string, last': string, c: char)
    requires front + [c] + last == front' + [c] + last' && c !in last && c !in last'
    ensures last == last'
  {
    var s := front + [c] + last;
    assert s[|front|] == c && s[|front'|] == c;
    assert forall i | |s| - |last| <= i < |s| :: s[i] == last[i - (|s| - |last|)];
    assert forall i | |s| - |last'| <= i < |s| :: s[i] == last'[i - (|s| - |last'|)];
    assert |front| == |front'|;
    assert last == s[|front| + 1..] == last';
  }

  lemma Associative<T>(a: seq<T>, b: seq<T>, c: seq<T>)
    ensures a + (b + c) == a + b + c
  {}
}
