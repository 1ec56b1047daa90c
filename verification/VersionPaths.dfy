/** The stored paths of a file's versions, told apart: which labels they carry, and when two of them are equal. */
module VersionPaths {
  import opened Text
  import opened UniqueNames
  import opened PhysicalPaths
  import opened StoredObjects

  /** Written at first upload, for a later version, or by a policy change at some time; an object of the third kind
      keeps the version number behind its extension if it was of the second kind before. */
  datatype Label = Plain | Numbered(n: nat) | Stamped(time: nat, tail: Option<nat>)

  function Stem(f: string): string {
    f[..ExtensionAt(f)]
  }

  function Ext(f: string): string {
    f[ExtensionAt(f)..]
  }

  function Marked(n: nat): string {
    "_v" + Decimal(n)
  }

  function Tail(tail: Option<nat>): string {
    if tail.Some? then Marked(tail.value) else ""
  }

  function Render(f: string, l: Label): string {
    match l
    case Plain => f
    case Numbered(n) => f + Marked(n)
    case Stamped(t, tail) => Stem(f) + (Marked(t) + (Ext(f) + Tail(tail)))
  }

  predicate Fits(f: string, l: Label) {
    l.Stamped? && l.tail.Some? ==> Ext(f) != ""
  }

  lemma MarkedQuiet(n: nat)
    ensures Quiet(Marked(n)) && |Marked(n)| > 2
  {
    DecimalQuiet(n);
  }

  lemma StemExt(f: string)
    ensures Stem(f) + Ext(f) == f
    ensures NoV(f) ==> NoV(Stem(f)) && NoV(Ext(f))
  {
    if NoV(f) { NoVParts(f, ExtensionAt(f)); }
  }

  lemma NoVParts(s: string, k: nat)
    requires NoV(s) && k <= |s|
    ensures NoV(s[..k]) && NoV(s[k..])
  {
    forall i | 0 <= i < |s| - k - 1 ensures !(s[k..][i] == '_' && s[k..][i + 1] == 'v') {
      var j := k + i;
      assert !(s[j] == '_' && s[j + 1] == 'v');
    }
  }

  /** A policy change turns every kind of path into the third kind, at the time of the change. */
  lemma AssignedLabel(f: string, l: Label, time: nat) returns (l': Label)
    requires NoV(f) && Fits(f, l)
    ensures l'.Stamped? && l'.time == time && Fits(f, l') && AssignedPath(Render(f, l), time) == Render(f, l')
  {
    match l
    case Plain =>
      l' := Stamped(time, None);
      AssignedPlain(f, time);
    case Numbered(n) =>
      l' := if Ext(f) == "" then Stamped(time, None) else Stamped(time, Some(n));
      AssignedNumbered(f, n, time);
    case Stamped(t, tail) =>
      l' := Stamped(time, tail);
      if Ext(f) == "" {
        StampedBare(f, t);
        StampedBare(f, time);
        AssignedNumbered(f, t, time);
      } else {
        AssignedStamped(f, t, tail, time);
      }
  }

  lemma AssignedPlain(f: string, time: nat)
    requires NoV(f)
    ensures AssignedPath(f, time) == Render(f, Stamped(time, None))
  {
    StemExt(f);
    FindVNone(Stem(f));
    assert Stem(f)[..|Stem(f)|] == Stem(f) && Ext(f) + "" == Ext(f);
    AssignedAt(Stem(f), Ext(f), Stem(f), time);
  }

  /** Without an extension the time stands where a version number would. */
  lemma StampedBare(f: string, t: nat)
    requires Ext(f) == ""
    ensures Render(f, Stamped(t, None)) == f + Marked(t) && Stem(f) == f
  {
    StemExt(f);
    assert Stem(f) + "" == Stem(f) && "" + "" == "" && Marked(t) + "" == Marked(t);
  }

  lemma AssignedNumbered(f: string, n: nat, time: nat)
    requires NoV(f)
    ensures AssignedPath(f + Marked(n), time) ==
            Stem(f) + (Marked(time) + (Ext(f) + if Ext(f) == "" then "" else Marked(n)))
  {
    StemExt(f);
    MarkedQuiet(n);
    ExtensionBehind(f, Marked(n));
    if Ext(f) == "" {
      var p := f + Marked(n);
      FindVAt(f, Decimal(n));
      assert p + "" == p && Stem(f) == f && f <= p;
      AssignedAt(p, "", f, time);
      assert "" + "" == "";
    } else {
      Associative(Stem(f), Ext(f), Marked(n));
      FindVNone(Stem(f));
      AssignedAt(Stem(f), Ext(f) + Marked(n), Stem(f), time);
    }
  }

  lemma AssignedStamped(f: string, t: nat, tail: Option<nat>, time: nat)
    requires NoV(f) && Ext(f) != ""
    ensures AssignedPath(Render(f, Stamped(t, tail)), time) == Render(f, Stamped(time, tail))
  {
    StemExt(f);
    MarkedQuiet(t);
    var base := Stem(f) + Marked(t);
    assert base + (Ext(f) + Tail(tail)) == Render(f, Stamped(t, tail));
    assert base[|base| - 1] == Marked(t)[|Marked(t)| - 1];
    ExtensionMoved(f, base);
    if tail.Some? { MarkedQuiet(tail.value); }
    ExtensionBehind(base + Ext(f), Tail(tail));
    Associative(base, Ext(f), Tail(tail));
    FindVAt(Stem(f), Decimal(t));
    AssignedAt(base, Ext(f) + Tail(tail), Stem(f), time);
  }

  lemma AssignedAt(base: string, rest: string, stem: string, time: nat)
    requires ExtensionAt(base + rest) == |base| && FindV(base) == |stem| && stem <= base
    ensures AssignedPath(base + rest, time) == stem + (Marked(time) + rest)
  {
    AssignedSplit(base + rest, base, rest, time);
    assert base[..FindV(base)] == stem;
    Regrouped(stem, Decimal(time), rest);
  }

  lemma AssignedSplit(physical: string, base: string, rest: string, time: nat)
    requires physical == base + rest && ExtensionAt(physical) == |base|
    ensures AssignedPath(physical, time) == base[..FindV(base)] + "_v" + Decimal(time) + rest
  {
    assert physical[..|base|] == base && physical[|base|..] == rest;
  }

  lemma Regrouped(stem: string, digits: string, rest: string)
    ensures stem + "_v" + digits + rest == stem + (("_v" + digits) + rest)
  {}

  // ---- different versions, different paths

  /** The digits of a mark and what follows can be told apart. */
  lemma MarksDiffer(m: nat, a: string, n: nat, b: string)
    requires Decimal(m) + a == Decimal(n) + b
    requires (a == "" || a[0] == '.') && (b == "" || b[0] == '.')
    ensures m == n && a == b
  {
    DecimalQuiet(m);
    DecimalQuiet(n);
    SpanExact(Decimal(m), a, IsDecimal);
    SpanExact(Decimal(n), b, IsDecimal);
    var s := Decimal(m) + a;
    assert Decimal(m) == s[..|Decimal(m)|] == Decimal(n);
    assert a == s[|Decimal(m)|..] == b;
    DecimalInjective(m, n);
  }

  predicate IsDecimal(c: char) {
    '0' <= c <= '9'
  }

  /** What stands before the first "_v", and what after it. */
  lemma Cut(before: string, after: string, before': string, after': string)
    requires NoV(before) && NoV(before') && before + ("_v" + after) == before' + ("_v" + after')
    ensures before == before' && after == after'
  {
    FindVAt(before, after);
    FindVAt(before', after');
    var s := before + ("_v" + after);
    assert before == s[..|before|] == before';
    assert after == s[|before| + 2..] == after';
  }

  lemma CutNone(f: string, before: string, after: string)
    requires NoV(f)
    ensures f != before + ("_v" + after)
  {
    var s := before + ("_v" + after);
    assert s[|before|] == '_' && s[|before| + 1] == 'v';
  }

  /** The part behind the first "_v" and the part before it. */
  function Front(f: string, l: Label): string {
    if l.Stamped? then Stem(f) else f
  }

  function NumberOf(l: Label): nat
    requires !l.Plain?
  {
    if l.Stamped? then l.time else l.n
  }

  function Rest(f: string, l: Label): string {
    if l.Stamped? then Ext(f) + Tail(l.tail) else ""
  }

  lemma RenderParts(f: string, l: Label)
    requires !l.Plain?
    ensures Render(f, l) == Front(f, l) + ("_v" + (Decimal(NumberOf(l)) + Rest(f, l)))
  {
    if l.Stamped? {
    } else {
      assert Decimal(l.n) + "" == Decimal(l.n);
    }
  }

  lemma FrontNoV(f: string, l: Label)
    requires NoV(f)
    ensures NoV(Front(f, l))
  {
    StemExt(f);
  }

  lemma RestAfterMark(f: string, l: Label)
    requires Fits(f, l)
    ensures Rest(f, l) == "" || Rest(f, l)[0] == '.'
  {
    if l.Stamped? && Ext(f) != "" { ExtensionShape(f); }
  }

  /** Equal paths belong to one file and carry one number. */
  lemma RenderInjective(f: string, l: Label, g: string, m: Label)
    requires NoV(f) && NoV(g) && Fits(f, l) && Fits(g, m) && Render(f, l) == Render(g, m)
    ensures f == g && l.Plain? == m.Plain? && (!l.Plain? ==> NumberOf(l) == NumberOf(m))
  {
    if l.Plain? && !m.Plain? {
      RenderParts(g, m);
      FrontNoV(g, m);
      CutNone(f, Front(g, m), Decimal(NumberOf(m)) + Rest(g, m));
    } else if m.Plain? && !l.Plain? {
      RenderParts(f, l);
      FrontNoV(f, l);
      CutNone(g, Front(f, l), Decimal(NumberOf(l)) + Rest(f, l));
    } else if !l.Plain? {
      RenderParts(f, l);
      RenderParts(g, m);
      FrontNoV(f, l);
      FrontNoV(g, m);
      RestAfterMark(f, l);
      RestAfterMark(g, m);
      Cut(Front(f, l), Decimal(NumberOf(l)) + Rest(f, l), Front(g, m), Decimal(NumberOf(m)) + Rest(g, m));
      MarksDiffer(NumberOf(l), Rest(f, l), NumberOf(m), Rest(g, m));
      SameFile(f, l, g, m);
    }
  }

  lemma SameFile(f: string, l: Label, g: string, m: Label)
    requires NoV(f) && NoV(g) && Fits(f, l) && Fits(g, m) && !l.Plain? && !m.Plain?
    requires Front(f, l) == Front(g, m) && Rest(f, l) == Rest(g, m)
    ensures f == g
  {
    StemExt(f);
    StemExt(g);
    if l.Stamped? && m.Stamped? {
      ExtOfRest(f, l.tail);
      ExtOfRest(g, m.tail);
    } else if l.Stamped? {
      assert Ext(f) == "";
    } else if m.Stamped? {
      assert Ext(g) == "";
    }
  }

  lemma ExtOfRest(f: string, tail: Option<nat>)
    requires NoV(f)
    ensures Ext(f) == (Ext(f) + Tail(tail))[..FindV(Ext(f) + Tail(tail))]
  {
    StemExt(f);
    FindVNone(Ext(f));
    if tail.Some? {
      FindVAt(Ext(f), Decimal(tail.value));
    } else {
      assert Ext(f) + "" == Ext(f);
    }
  }

  // ---- neat paths stay neat

  lemma RenderNeat(f: string, l: Label)
    requires Neat(f)
    ensures Neat(Render(f, l))
  {
    match l
    case Plain =>
    case Numbered(n) =>
      MarkedQuiet(n);
      assert f + "" == f;
      NeatBehind(f, "", Marked(n));
    case Stamped(t, tail) =>
      StemExt(f);
      ExtNoSlash(f);
      MarkedQuiet(t);
      if tail.Some? { MarkedQuiet(tail.value); }
      NeatBehind(Stem(f), Ext(f), Marked(t) + (Ext(f) + Tail(tail)));
  }

  lemma ExtNoSlash(f: string)
    ensures '/' !in Ext(f)
  {
    if ExtensionAt(f) < |f| { ExtensionShape(f); }
  }

  // ---- names that do hold "_v"

  lemma SameNewPath(time: nat)
    ensures AssignedPath("x_v1.txt", time) == AssignedPath("x_v2.txt", time) == "x_v" + Decimal(time) + ".txt"
  {
    NameWithV("1", time);
    NameWithV("2", time);
    assert "x_v" + "1" + ".txt" == "x_v1.txt" && "x_v" + "2" + ".txt" == "x_v2.txt";
  }

  lemma NameWithV(digit: string, time: nat)
    requires Quiet(digit)
    ensures AssignedPath("x_v" + digit + ".txt", time) == "x_v" + Decimal(time) + ".txt"
  {
    var base := "x_v" + digit;
    var path := base + ".txt";
    assert path == base + "." + "txt";
    LastDotBehind(base + ".", "txt");
    LastSlashBehind("", path);
    assert "" + path == path && path[0] == 'x';
    FindVAt("x", digit);
    assert base == "x" + ("_v" + digit);
    assert path[..|base|] == base && path[|base|..] == ".txt" && base[..1] == "x";
    assert "x" + "_v" == "x_v";
  }

  lemma SecondNameOther(time: nat)
    requires time > 2
    ensures AssignedPath("x_v1.txt", time) != "x_v2.txt"
  {
    SameNewPath(time);
    assert "x_v" + "2" + ".txt" == "x_v2.txt" && Decimal(2) == "2";
    MiddleOf("x_v", Decimal(time), ".txt", "2");
    if Decimal(time) == Decimal(2) { DecimalInjective(time, 2); }
  }
}
