/** The definitions of a cat model, and the names the compiler defines for them. */
module CatNames {
  import opened CatExps

  datatype Check = Acyclic | Irreflexive | Empty | NonAcyclic | NonIrreflexive | NonEmpty

  datatype Def =
    | LetDef(bindings: seq<(string, Exp<Ty>)>)
    | TClosure(id: string, exp: Exp<Ty>)
    | RTClosure(id: string, exp: Exp<Ty>)
    | CheckDef(check: Check, exp: Exp<Ty>, optId: CheckId)
    | Other

  datatype CheckId = Given(id: string) | Anonymous

  function Digits(n: nat): string {
    if n < 10 then ["0123456789"[n]] else Digits(n / 10) + ["0123456789"[n % 10]]
  }

  function IdOf(optId: CheckId, i: nat): string { if optId.Given? then optId.id else "anon:" + Digits(i) }

  // ----- names of checks without one

  /** The number that a decimal numeral is read as. */
  function Numeral(s: string): int {
    if s == "" then 0 else 10 * Numeral(s[..|s| - 1]) + (s[|s| - 1] as int - '0' as int)
  }

  lemma {:induction false} DigitsRead(n: nat)
    ensures Numeral(Digits(n)) == n
    decreases n
  {
    if n < 10 {
      assert [Digits(n)[0]][..0] == "";
    } else {
      DigitsRead(n / 10);
      assert Digits(n)[..|Digits(n)| - 1] == Digits(n / 10);
    }
  }

  /** Checks without a name get different ones at different positions, and none that can be given. */
  lemma AnonymousApart(i: nat, j: nat, id: string)
    ensures IdOf(Anonymous, i) == IdOf(Anonymous, j) ==> i == j
    ensures Colonless(id) ==> IdOf(Given(id), j) != IdOf(Anonymous, i)
  {
    var a, b := IdOf(Anonymous, i), IdOf(Anonymous, j);
    assert a[5..] == Digits(i) && b[5..] == Digits(j);
    DigitsRead(i);
    DigitsRead(j);
    assert a[4] == ':';
  }

  // ----- names defined

  /** The names that cat files can give have no colon. */
  predicate Colonless(s: string) { ':' !in s }

  /** The names of helpers start with one of these: one colon, at the end. */
  predicate Prefix(p: string) { p != "" && p[|p| - 1] == ':' && Colonless(p[..|p| - 1]) }

  function CheckPrefixes(check: Check): seq<string> {
    match check
    case Empty => ["check:"]
    case NonEmpty => ["check:", "ne1:", "ne2:"]
    case Irreflexive => ["check:"]
    case NonIrreflexive => ["check:", "some:"]
    case Acyclic => ["check:", "acyclic:"]
    case NonAcyclic => ["check:", "non-acyclic:", "some:"]
  }

  function Prefixed(prefixes: seq<string>, id: string): seq<string> {
    seq(|prefixes|, k requires 0 <= k < |prefixes| => prefixes[k] + id)
  }

  /** The names given by bindings and closures. */
  function Bound(def: Def): seq<string> {
    match def
    case LetDef(bindings) => seq(|bindings|, k requires 0 <= k < |bindings| => bindings[k].0)
    case TClosure(id, _) => [id]
    case RTClosure(id, _) => [id]
    case _ => []
  }

  /** The name given to a check. */
  function Tagged(def: Def): seq<string> { if def.CheckDef? && def.optId.Given? then [def.optId.id] else [] }

  /** The names that definition number `i` makes the compiler define or declare. */
  function NamesOf(def: Def, i: nat): seq<string> {
    match def
    case LetDef(_) => Bound(def)
    case TClosure(id, _) => ["TC:" + id, id]
    case RTClosure(id, _) => ["RTC:" + id, id]
    case CheckDef(check, _, optId) => Prefixed(CheckPrefixes(check), IdOf(optId, i))
    case Other => []
  }

  function AllNames(defs: seq<Def>): seq<string> {
    if defs == [] then [] else AllNames(defs[..|defs| - 1]) + NamesOf(defs[|defs| - 1], |defs| - 1)
  }

  function AllBound(defs: seq<Def>): seq<string> {
    if defs == [] then [] else AllBound(defs[..|defs| - 1]) + Bound(defs[|defs| - 1])
  }

  function AllTagged(defs: seq<Def>): seq<string> {
    if defs == [] then [] else AllTagged(defs[..|defs| - 1]) + Tagged(defs[|defs| - 1])
  }

  predicate Unique(s: seq<string>) { forall i, j | 0 <= i < j < |s| :: s[i] != s[j] }

  predicate Plain(def: Def) { forall x | x in Bound(def) + Tagged(def) :: Colonless(x) }

  /** What a cat file can say: every name it gives is without a colon. */
  predicate PlainNames(defs: seq<Def>) {
    forall i | 0 <= i < |defs| :: Plain(defs[i])
  }

  // ----- telling names apart

  lemma PrefixApart(p: string, i: string, q: string, j: string)
    requires Prefix(p) && Prefix(q) && p + i == q + j
    ensures p == q && i == j
  {
    assert (p + i)[|p| - 1] == ':' && (q + j)[|q| - 1] == ':';
    FirstColon(p, i, |q| - 1);
    FirstColon(q, j, |p| - 1);
    assert (p + i)[..|p|] == p && (q + j)[..|p|] == q;
    assert (p + i)[|p|..] == i && (q + j)[|p|..] == j;
  }

  lemma FirstColon(p: string, i: string, k: nat)
    requires Prefix(p) && k < |p + i| && (p + i)[k] == ':'
    ensures |p| - 1 <= k
  {
    forall m | 0 <= m < |p| - 1 ensures (p + i)[m] != ':' {
      assert (p + i)[m] == p[..|p| - 1][m];
    }
  }

  lemma PrefixesFine()
    ensures Prefix("check:") && Prefix("ne1:") && Prefix("ne2:") && Prefix("some:") && Prefix("acyclic:")
    ensures Prefix("non-acyclic:") && Prefix("TC:") && Prefix("RTC:")
  {
    assert "check:"[..5] == "check" && "ne1:"[..3] == "ne1" && "ne2:"[..3] == "ne2" && "some:"[..4] == "some";
    assert "acyclic:"[..7] == "acyclic" && "non-acyclic:"[..11] == "non-acyclic" && "TC:"[..2] == "TC" && "RTC:"[..3] == "RTC";
  }

  lemma PrefixHasColon(p: string, i: string)
    requires Prefix(p)
    ensures !Colonless(p + i)
  {
    assert (p + i)[|p| - 1] == ':';
  }

  lemma UniqueConcat(a: seq<string>, b: seq<string>)
    ensures Unique(a + b) <==> Unique(a) && Unique(b) && forall x | x in a :: x !in b
  {
    if Unique(a) && Unique(b) && forall x | x in a :: x !in b {
      forall i, j | 0 <= i < j < |a + b| ensures (a + b)[i] != (a + b)[j] {
        if j >= |a| > i { assert a[i] in a && b[j - |a|] in b; }
      }
    }
    if Unique(a + b) {
      forall i, j | 0 <= i < j < |a| ensures a[i] != a[j] {
        assert (a + b)[i] == a[i] && (a + b)[j] == a[j];
      }
      forall i, j | 0 <= i < j < |b| ensures b[i] != b[j] {
        assert (a + b)[|a| + i] == b[i] && (a + b)[|a| + j] == b[j];
      }
      forall i, j | 0 <= i < |a| && 0 <= j < |b| ensures a[i] != b[j] {
        assert (a + b)[i] == a[i] && (a + b)[|a| + j] == b[j];
      }
    }
  }

  // ----- when no name is defined twice

  lemma {:induction false} InAllNames(defs: seq<Def>, x: string)
    ensures x in AllNames(defs) <==> exists i :: 0 <= i < |defs| && x in NamesOf(defs[i], i)
    decreases |defs|
  {
    hide NamesOf;
    if defs != [] {
      var n := |defs| - 1;
      InAllNames(defs[..n], x);
      assert forall i | 0 <= i < n :: defs[..n][i] == defs[i];
      if x in NamesOf(defs[n], n) { assert 0 <= n < |defs|; }
    }
  }

  lemma {:induction false} InAllBound(defs: seq<Def>, x: string)
    ensures x in AllBound(defs) <==> exists i :: 0 <= i < |defs| && x in Bound(defs[i])
    decreases |defs|
  {
    hide Bound;
    if defs != [] {
      var n := |defs| - 1;
      InAllBound(defs[..n], x);
      assert forall i | 0 <= i < n :: defs[..n][i] == defs[i];
      if x in Bound(defs[n]) { assert 0 <= n < |defs|; }
    }
  }

  lemma {:induction false} InAllTagged(defs: seq<Def>, x: string)
    ensures x in AllTagged(defs) <==> exists i :: 0 <= i < |defs| && x in Tagged(defs[i])
    decreases |defs|
  {
    hide Tagged;
    if defs != [] {
      var n := |defs| - 1;
      InAllTagged(defs[..n], x);
      assert forall i | 0 <= i < n :: defs[..n][i] == defs[i];
      if x in Tagged(defs[n]) { assert 0 <= n < |defs|; }
    }
  }

  /** A name without a colon is defined exactly by what gives it. */
  lemma PlainName(def: Def, i: nat, x: string)
    requires Plain(def) && Colonless(x)
    ensures x in NamesOf(def, i) <==> x in Bound(def)
  {
    PrefixesFine();
    if def.TClosure? { PrefixHasColon("TC:", def.id); }
    if def.RTClosure? { PrefixHasColon("RTC:", def.id); }
    if def.CheckDef? {
      forall k | 0 <= k < |CheckPrefixes(def.check)|
        ensures !Colonless(CheckPrefixes(def.check)[k] + IdOf(def.optId, i))
      {
        PrefixHasColon(CheckPrefixes(def.check)[k], IdOf(def.optId, i));
      }
    }
  }

  /** A name with a helper's prefix is defined only by the closure, or the check, of its rest. */
  lemma HelperName(def: Def, i: nat, p: string, id: string)
    requires Plain(def) && Prefix(p) && p + id in NamesOf(def, i)
    ensures p == "TC:" || p == "RTC:" ==> id in Bound(def)
    ensures p != "TC:" && p != "RTC:" ==> def.CheckDef? && IdOf(def.optId, i) == id && p in CheckPrefixes(def.check)
  {
    hide Prefix, Plain, Colonless, IdOf;
    PrefixHasColon(p, id);
    GivenPlain(def);
    if def.CheckDef? {
      CheckHelper(def, i, p, id);
    } else {
      ClosureHelper(def, i, p, id);
    }
  }

  lemma ClosureHelper(def: Def, i: nat, p: string, id: string)
    requires !def.CheckDef? && Prefix(p) && p + id in NamesOf(def, i) && p + id !in Bound(def)
    ensures (p == "TC:" || p == "RTC:") && id in Bound(def)
  {
    PrefixesFine();
    hide Prefix;
    if def.TClosure? { PrefixApart(p, id, "TC:", def.id); }
    if def.RTClosure? { PrefixApart(p, id, "RTC:", def.id); }
  }

  lemma CheckHelper(def: Def, i: nat, p: string, id: string)
    requires def.CheckDef? && Prefix(p) && p + id in NamesOf(def, i)
    ensures p != "TC:" && p != "RTC:" && IdOf(def.optId, i) == id && p in CheckPrefixes(def.check)
  {
    hide Prefix, IdOf;
    NameAt(def, i, p + id);
    hide NamesOf;
    var q :| q in CheckPrefixes(def.check) && p + id == q + IdOf(def.optId, i);
    CheckPrefix(def.check, q);
    PrefixApart(p, id, q, IdOf(def.optId, i));
  }

  lemma NameAt(def: Def, i: nat, x: string)
    requires def.CheckDef? && x in NamesOf(def, i)
    ensures exists p | p in CheckPrefixes(def.check) :: x == p + IdOf(def.optId, i)
  {
  }

  lemma CheckName(def: Def, i: nat)
    requires def.CheckDef?
    ensures "check:" + IdOf(def.optId, i) in NamesOf(def, i)
  {
    assert NamesOf(def, i)[0] == "check:" + IdOf(def.optId, i);
  }

  /** Within one definition no name is defined twice unless it is given twice. */
  lemma OneDefinition(def: Def, i: nat)
    requires Plain(def)
    ensures Unique(NamesOf(def, i)) <==> Unique(Bound(def))
  {
    PrefixesFine();
    match def
    case TClosure(id, _) =>
      PrefixHasColon("TC:", id);
      assert Colonless(id) by { assert id in Bound(def) + Tagged(def); }
    case RTClosure(id, _) =>
      PrefixHasColon("RTC:", id);
      assert Colonless(id) by { assert id in Bound(def) + Tagged(def); }
    case CheckDef(check, _, optId) =>
      var id := IdOf(optId, i);
      forall j, k | 0 <= j < k < |CheckPrefixes(check)| ensures CheckPrefixes(check)[j] + id != CheckPrefixes(check)[k] + id {
        if CheckPrefixes(check)[j] + id == CheckPrefixes(check)[k] + id {
          PrefixApart(CheckPrefixes(check)[j], id, CheckPrefixes(check)[k], id);
        }
      }
    case _ =>
  }

  /** Two definitions share a name exactly if they share one that is given to both. */
  lemma TwoDefinitions(d: Def, i: nat, e: Def, j: nat)
    requires Plain(d) && Plain(e) && i != j
    ensures (exists x :: x in NamesOf(d, i) && x in NamesOf(e, j))
            <==> (exists x :: x in Bound(d) && x in Bound(e)) || (exists x :: x in Tagged(d) && x in Tagged(e))
  {
    if x :| x in Bound(d) && x in Bound(e) {
      assert Colonless(x) by { assert x in Bound(d) + Tagged(d); }
      PlainName(d, i, x);
      PlainName(e, j, x);
    }
    if x :| x in Tagged(d) && x in Tagged(e) {
      CheckName(d, i);
      CheckName(e, j);
    }
    forall x | x in NamesOf(d, i) && x in NamesOf(e, j)
      ensures (exists y :: y in Bound(d) && y in Bound(e)) || (exists y :: y in Tagged(d) && y in Tagged(e))
    {
      SharedName(d, i, e, j, x);
    }
  }

  lemma GivenPlain(def: Def)
    requires Plain(def)
    ensures forall x | x in Bound(def) :: Colonless(x)
    ensures forall x | x in Tagged(def) :: Colonless(x)
  {
    assert forall x | x in Bound(def) :: x in Bound(def) + Tagged(def);
    assert forall x | x in Tagged(def) :: x in Bound(def) + Tagged(def);
  }

  lemma SharedTag(d: Def, i: nat, e: Def, j: nat)
    requires Plain(d) && Plain(e) && i != j && d.CheckDef? && e.CheckDef? && IdOf(d.optId, i) == IdOf(e.optId, j)
    ensures Tagged(d) == Tagged(e) && |Tagged(d)| == 1
  {
    hide IdOf, Colonless;
    GivenPlain(d);
    GivenPlain(e);
    match (d.optId, e.optId)
    case (Given(id), Anonymous) =>
      assert Tagged(d)[0] == id;
      AnonymousApart(j, i, id);
    case (Anonymous, Given(id)) =>
      assert Tagged(e)[0] == id;
      AnonymousApart(i, j, id);
    case (Anonymous, Anonymous) => AnonymousApart(i, j, "");
    case (Given(a), Given(b)) => GivenId(d.optId, i, e.optId, j);
  }

  lemma GivenId(a: CheckId, i: nat, b: CheckId, j: nat)
    requires a.Given? && b.Given? && IdOf(a, i) == IdOf(b, j)
    ensures a == b
  {
  }

  /** The name of a helper of a closure. */
  lemma ClosureName(def: Def, i: nat, x: string)
    requires Plain(def) && !def.CheckDef? && x in NamesOf(def, i) && !Colonless(x)
    ensures def.TClosure? || def.RTClosure?
    ensures x == (if def.TClosure? then "TC:" else "RTC:") + def.id && def.id in Bound(def)
  {
    GivenPlain(def);
  }

  lemma SharedName(d: Def, i: nat, e: Def, j: nat, x: string)
    requires Plain(d) && Plain(e) && i != j && x in NamesOf(d, i) && x in NamesOf(e, j)
    ensures (exists y :: y in Bound(d) && y in Bound(e)) || (exists y :: y in Tagged(d) && y in Tagged(e))
  {
    hide NamesOf, Prefix, Colonless, CheckPrefixes, Plain, Bound, Tagged;
    PrefixesFine();
    if Colonless(x) {
      PlainName(d, i, x);
      PlainName(e, j, x);
    } else if d.CheckDef? {
      NameAt(d, i, x);
      var p :| p in CheckPrefixes(d.check) && x == p + IdOf(d.optId, i);
      CheckPrefix(d.check, p);
      HelperName(e, j, p, IdOf(d.optId, i));
      SharedTag(d, i, e, j);
      assert Tagged(d)[0] in Tagged(d);
    } else {
      ClosureName(d, i, x);
      HelperName(e, j, if d.TClosure? then "TC:" else "RTC:", d.id);
    }
  }

  lemma CheckPrefix(check: Check, p: string)
    requires p in CheckPrefixes(check)
    ensures Prefix(p) && p != "TC:" && p != "RTC:"
  {
    PrefixesFine();
  }

  predicate Common(a: seq<string>, b: seq<string>) { exists x :: x in a && x in b }

  /** The names defined before definition number `n` have one in common with its own exactly if a given
      name is given again. */
  lemma Clash(defs: seq<Def>, n: nat)
    requires PlainNames(defs) && n < |defs|
    ensures Common(AllNames(defs[..n]), NamesOf(defs[n], n))
            <==> Common(AllBound(defs[..n]), Bound(defs[n])) || Common(AllTagged(defs[..n]), Tagged(defs[n]))
  {
    hide NamesOf, Plain, Bound, Tagged, AllNames, AllBound, AllTagged;
    var before, d := defs[..n], defs[n];
    assert forall i | 0 <= i < n :: before[i] == defs[i];
    if x :| x in AllNames(before) && x in NamesOf(d, n) {
      InAllNames(before, x);
      var i :| 0 <= i < n && x in NamesOf(before[i], i);
      TwoDefinitions(before[i], i, d, n);
      if y :| y in Bound(before[i]) && y in Bound(d) {
        InAllBound(before, y);
      } else {
        var y :| y in Tagged(before[i]) && y in Tagged(d);
        InAllTagged(before, y);
      }
    }
    if x :| x in AllBound(before) && x in Bound(d) {
      InAllBound(before, x);
      var i :| 0 <= i < n && x in Bound(before[i]);
      ClashOf(before, i, d);
    }
    if x :| x in AllTagged(before) && x in Tagged(d) {
      InAllTagged(before, x);
      var i :| 0 <= i < n && x in Tagged(before[i]);
      ClashOf(before, i, d);
    }
  }

  lemma ClashOf(before: seq<Def>, i: nat, d: Def)
    requires i < |before| && Plain(before[i]) && Plain(d)
    requires (exists y :: y in Bound(before[i]) && y in Bound(d)) || (exists y :: y in Tagged(before[i]) && y in Tagged(d))
    ensures Common(AllNames(before), NamesOf(d, |before|))
  {
    hide NamesOf, Plain, Bound, Tagged, AllNames;
    TwoDefinitions(before[i], i, d, |before|);
    var x :| x in NamesOf(before[i], i) && x in NamesOf(d, |before|);
    InAllNames(before, x);
  }

  lemma TaggedUnique(def: Def)
    ensures Unique(Tagged(def))
  {
  }

  lemma UniqueSplit(a: seq<string>, b: seq<string>)
    ensures Unique(a + b) <==> Unique(a) && Unique(b) && !Common(a, b)
  {
    UniqueConcat(a, b);
    if x :| x in a && x in b {}
  }

  /** The emitted commands define no name twice exactly if the bindings and closures are given different
      names and the named checks are given different names: checks without one never clash. */
  lemma {:induction false} UniqueExactly(defs: seq<Def>)
    requires PlainNames(defs)
    ensures Unique(AllNames(defs)) <==> Unique(AllBound(defs)) && Unique(AllTagged(defs))
    decreases |defs|
  {
    if defs != [] {
      var n := |defs| - 1;
      assert PlainNames(defs[..n]) && Plain(defs[n]);
      UniqueExactly(defs[..n]);
      Clash(defs, n);
      OneDefinition(defs[n], n);
      TaggedUnique(defs[n]);
      hide NamesOf, Plain, Bound, Tagged, Unique, Common;
      UniqueSplit(AllNames(defs[..n]), NamesOf(defs[n], n));
      UniqueSplit(AllBound(defs[..n]), Bound(defs[n]));
      UniqueSplit(AllTagged(defs[..n]), Tagged(defs[n]));
    }
  }
}
