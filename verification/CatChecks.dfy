/** The checks of a cat model, freed from their helper names: what a solver can satisfy. */
module CatChecks {
  import opened Sexps
  import opened CatExps
  import opened CatModels
  import opened CatNames
  import Closures

  /** The names an expression looks up. */
  function Mentions(e: Exp<Ty>): set<string> {
    match e
    case Empty(_) => {}
    case Id(name, _) => {name}
    case Let(_, x, y, _) => Mentions(x) + Mentions(y)
    case TryWith(x, y, _) => Mentions(x) + Mentions(y)
    case Union(x, y, _) => Mentions(x) + Mentions(y)
    case Inter(x, y, _) => Mentions(x) + Mentions(y)
    case Diff(x, y, _) => Mentions(x) + Mentions(y)
    case Seq(x, y) => Mentions(x) + Mentions(y)
    case Cartesian(x, y) => Mentions(x) + Mentions(y)
    case Compl(x, _) => Mentions(x)
    case Identity(x) => Mentions(x)
    case IdentityUnion(x) => Mentions(x)
    case Inverse(x) => Mentions(x)
    case App(_, x, _) => Mentions(x)
  }

  /** The two interpretations differ at most on the given names. */
  ghost predicate AgreeExcept(m: Interp, m': Interp, names: set<string>) {
    && m.dom == m'.dom
    && (forall c | c !in names :: m.Const(c) == m'.Const(c))
    && (forall r, ty | r !in names :: Declared(m, r, ty) == Declared(m', r, ty))
    && (forall r, x: Event, y: Event | r !in names :: m.Rel(r, x, y) == m'.Rel(r, x, y))
    && (forall r, x: Event | r !in names :: m.Member(r, x) == m'.Member(r, x))
  }

  lemma {:induction false} DenotesAgree(e: Exp<Ty>, m: Interp, m': Interp, names: set<string>, a: Event, b: Event)
    requires AgreeExcept(m, m', names) && Mentions(e) !! names
    ensures InRel(e, m, a, b) == InRel(e, m', a, b) && InSet(e, m, a) == InSet(e, m', a)
    decreases e
  {
    match e
    case TryWith(x, _, _) => DenotesAgree(x, m, m', names, a, b);
    case Union(x, y, _) => BothAgree(e, x, y, m, m', names, a, b);
    case Inter(x, y, _) => BothAgree(e, x, y, m, m', names, a, b);
    case Diff(x, y, _) => BothAgree(e, x, y, m, m', names, a, b);
    case Seq(x, y) =>
      forall c: Event
        ensures (InRel(x, m, a, c) && InRel(y, m, c, b)) == (InRel(x, m', a, c) && InRel(y, m', c, b))
      {
        DenotesAgree(x, m, m', names, a, c);
        DenotesAgree(y, m, m', names, c, b);
      }
    case Cartesian(x, y) =>
      DenotesAgree(x, m, m', names, a, b);
      DenotesAgree(y, m, m', names, b, a);
    case Compl(x, _) => DenotesAgree(x, m, m', names, a, b);
    case Identity(x) => DenotesAgree(x, m, m', names, a, b);
    case IdentityUnion(x) => DenotesAgree(x, m, m', names, a, b);
    case Inverse(x) => DenotesAgree(x, m, m', names, b, a);
    case App(_, x, _) =>
      forall c: Event
        ensures InRel(x, m, c, a) == InRel(x, m', c, a)
      {
        DenotesAgree(x, m, m', names, c, a);
      }
    case _ =>
  }

  lemma {:induction false} BothAgree(e: Exp<Ty>, x: Exp<Ty>, y: Exp<Ty>, m: Interp, m': Interp, names: set<string>,
                                     a: Event, b: Event)
    requires x < e && y < e && AgreeExcept(m, m', names) && Mentions(x) !! names && Mentions(y) !! names
    ensures InRel(x, m, a, b) == InRel(x, m', a, b) && InSet(x, m, a) == InSet(x, m', a)
    ensures InRel(y, m, a, b) == InRel(y, m', a, b) && InSet(y, m, a) == InSet(y, m', a)
    decreases e, 0
  {
    DenotesAgree(x, m, m', names, a, b);
    DenotesAgree(y, m, m', names, a, b);
  }

  lemma DenotedAgree(e: Exp<Ty>, m: Interp, m': Interp, names: set<string>)
    requires AgreeExcept(m, m', names) && Mentions(e) !! names
    ensures Denoted(e, m) == Denoted(e, m')
  {
    forall a: Event, b: Event
      ensures Denotes(e, m, a, b) == Denotes(e, m', a, b)
    {
      DenotesAgree(e, m, m', names, a, b);
    }
  }

  /** `m` with relation `name` set to `r`, whatever it was before. */
  ghost function With(m: Interp, name: string, r: Closures.Relation): Interp {
    m.(rels := m.rels[name := r], sets := m.sets - {name})
  }

  function HelperNames(id: string): set<string> { {"check:" + id, "acyclic:" + id} }

  /** An acyclicity check can be satisfied by choosing its two helper relations exactly when the
      relation it is about has no cycle. */
  lemma AcyclicCheckExact(e: Exp<Ty>, id: string, m: Interp)
    requires WellFormed(m) && Mentions(e) !! HelperNames(id)
    ensures (exists m' :: WellFormed(m') && AgreeExcept(m, m', HelperNames(id)) && CheckHolds(Check.Acyclic, e, id, m'))
            <==> Closures.Acyclic(m.dom, Denoted(e, m))
  {
    var names := HelperNames(id);
    var r := Denoted(e, m);
    Closures.AcyclicExact(m.dom, r);
    if Closures.Acyclic(m.dom, r) {
      AcyclicWitness(e, id, m);
    }
    forall m' | WellFormed(m') && AgreeExcept(m, m', names) && CheckHolds(Check.Acyclic, e, id, m')
      ensures Closures.Acyclic(m.dom, r)
    {
      DenotedAgree(e, m, m', names);
      var t := RelOf(m', "acyclic:" + id);
      assert Closures.Includes(m.dom, r, t) && Closures.Transitive(m.dom, t) && Closures.Irreflexive(m.dom, t);
    }
  }

  lemma WithMeans(m: Interp, name: string, r: Closures.Relation)
    requires WellFormed(m) && forall x, y :: (x, y) in r ==> x in m.dom && y in m.dom
    ensures WellFormed(With(m, name, r)) && AgreeExcept(m, With(m, name, r), {name})
    ensures RelOf(With(m, name, r), name) == r && Declared(With(m, name, r), name, Rel)
    ensures forall n | n != name :: RelOf(With(m, name, r), n) == RelOf(m, n)
  {
    var m' := With(m, name, r);
    assert forall n, x: Event, y: Event | n != name :: m'.Rel(n, x, y) == m.Rel(n, x, y);
    assert forall n, x: Event | n != name :: m'.Member(n, x) == m.Member(n, x);
  }

  lemma AgreeTrans(m1: Interp, m2: Interp, m3: Interp, a: set<string>, b: set<string>)
    requires AgreeExcept(m1, m2, a) && AgreeExcept(m2, m3, b)
    ensures AgreeExcept(m1, m3, a + b)
  {
  }

  lemma AcyclicWitness(e: Exp<Ty>, id: string, m: Interp)
    requires WellFormed(m) && Mentions(e) !! HelperNames(id) && Closures.Acyclic(m.dom, Denoted(e, m))
    ensures exists m' :: WellFormed(m') && AgreeExcept(m, m', HelperNames(id)) && CheckHolds(Check.Acyclic, e, id, m')
  {
    var r := Denoted(e, m);
    var tc := Closures.TransitiveClosure(m.dom, r);
    Closures.LeastClosure(m.dom, r);
    var check, closure := "check:" + id, "acyclic:" + id;
    assert check[0] != closure[0];
    var m1 := With(m, check, r);
    WithMeans(m, check, r);
    var m2 := With(m1, closure, tc);
    WithMeans(m1, closure, tc);
    AgreeTrans(m, m1, m2, {check}, {closure});
    assert {check} + {closure} == HelperNames(id);
    DenotedAgree(e, m, m2, HelperNames(id));
    hide With, AgreeExcept, WellFormed, Denoted, HelperNames, Declared, Closures.Acyclic;
    assert RelOf(m2, check) == r;
    assert Closures.Irreflexive(m.dom, tc) by { IrreflexiveClosure(m.dom, r); }
    assert Named(check, e, m2) by { RelOfNamed(check, e, m2); }
    assert m2.dom == m.dom && ClosedAround(closure, e, m2);
    assert CheckHolds(Check.Acyclic, e, id, m2);
  }

  lemma IrreflexiveClosure(dom: iset<Event>, r: Closures.Relation)
    requires Closures.Acyclic(dom, r)
    ensures Closures.Irreflexive(dom, Closures.TransitiveClosure(dom, r))
  {
  }

  lemma RelOfNamed(name: string, e: Exp<Ty>, m: Interp)
    requires RelOf(m, name) == Denoted(e, m)
    ensures Named(name, e, m)
  {
    assert forall x: Event, y: Event :: m.Rel(name, x, y) == ((x, y) in RelOf(m, name));
  }

  // ----- every kind of check, and all the checks of a model

  /** What the relation has to be for the check to be met. Any transitive relation around it will do for
      a cycle that is asked for, so asking for one is always met. */
  ghost predicate CheckMet(check: Check, dom: iset<Event>, r: Closures.Relation) {
    match check
    case Empty => r == iset{}
    case NonEmpty => exists x, y :: x in dom && y in dom && (x, y) in r
    case Irreflexive => Closures.Irreflexive(dom, r)
    case NonIrreflexive => exists x :: x in dom && (x, x) in r
    case Acyclic => Closures.Acyclic(dom, r)
    case NonAcyclic => true
  }

  function Helpers(check: Check, id: string): set<string> { set x | x in Prefixed(CheckPrefixes(check), id) }

  ghost function WithConst(m: Interp, name: string, x: Event): Interp { m.(consts := m.consts[name := x]) }

  lemma WithConstMeans(m: Interp, name: string, x: Event)
    requires WellFormed(m)
    ensures var m' := WithConst(m, name, x);
            && WellFormed(m') && AgreeExcept(m, m', {name}) && m'.Const(name) == x && m'.dom == m.dom
            && forall n :: RelOf(m', n) == RelOf(m, n)
  {
    var m' := WithConst(m, name, x);
    assert forall n, a: Event, b: Event :: m'.Rel(n, a, b) == m.Rel(n, a, b);
    assert forall n, a: Event :: m'.Member(n, a) == m.Member(n, a);
  }

  /** A way to meet a check: relations and constants for its helpers. */
  ghost predicate Meets(check: Check, e: Exp<Ty>, id: string, m: Interp, m': Interp) {
    WellFormed(m') && AgreeExcept(m, m', Helpers(check, id)) && CheckHolds(check, e, id, m')
  }

  lemma HelpersAre(check: Check, id: string)
    ensures forall p :: p in CheckPrefixes(check) ==> p + id in Helpers(check, id)
  {
    forall p | p in CheckPrefixes(check) ensures p + id in Helpers(check, id) {
      var k :| 0 <= k < |CheckPrefixes(check)| && CheckPrefixes(check)[k] == p;
      assert Prefixed(CheckPrefixes(check), id)[k] == p + id;
    }
  }

  lemma AgreeMore(m: Interp, m': Interp, a: set<string>, b: set<string>)
    requires AgreeExcept(m, m', a) && a <= b
    ensures AgreeExcept(m, m', b)
  {
  }

  lemma DefinedCheck(check: Check, e: Exp<Ty>, id: string, m: Interp, m': Interp)
    requires AgreeExcept(m, m', Helpers(check, id)) && Mentions(e) !! Helpers(check, id)
    requires RelOf(m', "check:" + id) == Denoted(e, m)
    ensures Denoted(e, m') == Denoted(e, m) && Named("check:" + id, e, m')
  {
    DenotedAgree(e, m, m', Helpers(check, id));
    hide Denoted, AgreeExcept, Helpers, RelOf;
    RelOfNamed("check:" + id, e, m');
  }

  lemma DenotedWithin(e: Exp<Ty>, m: Interp)
    ensures forall x, y :: (x, y) in Denoted(e, m) ==> x in m.dom && y in m.dom
  {
  }

  /** Defining the checked relation, and nothing else. */
  lemma DefineCheck(check: Check, e: Exp<Ty>, id: string, m: Interp)
    requires WellFormed(m)
    ensures var m1 := With(m, "check:" + id, Denoted(e, m));
            WellFormed(m1) && AgreeExcept(m, m1, {"check:" + id}) && RelOf(m1, "check:" + id) == Denoted(e, m)
            && "check:" + id in Helpers(check, id) && m1.dom == m.dom
  {
    DenotedWithin(e, m);
    HelpersAre(check, id);
    assert "check:" in CheckPrefixes(check);
    hide Denoted;
    WithMeans(m, "check:" + id, Denoted(e, m));
  }

  lemma MeetPlain(check: Check, e: Exp<Ty>, id: string, m: Interp)
    requires check.Empty? || check.Irreflexive?
    requires WellFormed(m) && Mentions(e) !! Helpers(check, id) && CheckMet(check, m.dom, Denoted(e, m))
    ensures exists m' :: Meets(check, e, id, m, m')
  {
    var m1 := With(m, "check:" + id, Denoted(e, m));
    DefineCheck(check, e, id, m);
    AgreeMore(m, m1, {"check:" + id}, Helpers(check, id));
    DefinedCheck(check, e, id, m, m1);
    hide Denoted, With, Helpers, AgreeExcept, WellFormed;
    assert CheckHolds(check, e, id, m1);
    assert Meets(check, e, id, m, m1);
  }

  lemma MeetNonEmpty(e: Exp<Ty>, id: string, m: Interp, x: Event, y: Event)
    requires WellFormed(m) && Mentions(e) !! Helpers(NonEmpty, id)
    requires x in m.dom && y in m.dom && (x, y) in Denoted(e, m)
    ensures exists m' :: Meets(NonEmpty, e, id, m, m')
  {
    var check, n1, n2 := "check:" + id, "ne1:" + id, "ne2:" + id;
    assert n1[2] != n2[2];
    HelpersAre(NonEmpty, id);
    assert "ne1:" in CheckPrefixes(NonEmpty) && "ne2:" in CheckPrefixes(NonEmpty);
    var m1 := With(m, check, Denoted(e, m));
    DefineCheck(NonEmpty, e, id, m);
    hide Denoted, With, Helpers, AgreeExcept, WellFormed, WithConst, RelOf;
    var m2 := WithConst(m1, n1, x);
    WithConstMeans(m1, n1, x);
    var m3 := WithConst(m2, n2, y);
    WithConstMeans(m2, n2, y);
    AgreeTrans(m, m1, m2, {check}, {n1});
    AgreeTrans(m, m2, m3, {check} + {n1}, {n2});
    AgreeMore(m, m3, {check} + {n1} + {n2}, Helpers(NonEmpty, id));
    DefinedCheck(NonEmpty, e, id, m, m3);
    ConstKept(m2, m3, n1, {n2});
    assert CheckHolds(NonEmpty, e, id, m3);
    assert Meets(NonEmpty, e, id, m, m3);
  }

  lemma ConstKept(m: Interp, m': Interp, name: string, names: set<string>)
    requires AgreeExcept(m, m', names) && name !in names
    ensures m.Const(name) == m'.Const(name)
  {
  }

  lemma MeetNonIrreflexive(e: Exp<Ty>, id: string, m: Interp, x: Event)
    requires WellFormed(m) && Mentions(e) !! Helpers(NonIrreflexive, id)
    requires x in m.dom && (x, x) in Denoted(e, m)
    ensures exists m' :: Meets(NonIrreflexive, e, id, m, m')
  {
    var check, some := "check:" + id, "some:" + id;
    HelpersAre(NonIrreflexive, id);
    assert "some:" in CheckPrefixes(NonIrreflexive);
    var m1 := With(m, check, Denoted(e, m));
    DefineCheck(NonIrreflexive, e, id, m);
    hide Denoted, With, Helpers, AgreeExcept, WellFormed, WithConst, RelOf;
    var m2 := WithConst(m1, some, x);
    WithConstMeans(m1, some, x);
    AgreeTrans(m, m1, m2, {check}, {some});
    AgreeMore(m, m2, {check} + {some}, Helpers(NonIrreflexive, id));
    DefinedCheck(NonIrreflexive, e, id, m, m2);
    assert CheckHolds(NonIrreflexive, e, id, m2);
    assert Meets(NonIrreflexive, e, id, m, m2);
  }

  lemma MeetAcyclic(e: Exp<Ty>, id: string, m: Interp)
    requires WellFormed(m) && Mentions(e) !! Helpers(Check.Acyclic, id) && Closures.Acyclic(m.dom, Denoted(e, m))
    ensures exists m' :: Meets(Check.Acyclic, e, id, m, m')
  {
    HelpersAre(Check.Acyclic, id);
    assert "check:" in CheckPrefixes(Check.Acyclic) && "acyclic:" in CheckPrefixes(Check.Acyclic);
    AcyclicWitness(e, id, m);
    hide Denoted, With, Helpers, AgreeExcept, WellFormed, CheckHolds, Closures.Acyclic;
    var m' :| WellFormed(m') && AgreeExcept(m, m', HelperNames(id)) && CheckHolds(Check.Acyclic, e, id, m');
    AgreeMore(m, m', HelperNames(id), Helpers(Check.Acyclic, id));
    assert Meets(Check.Acyclic, e, id, m, m');
  }

  /** The full relation on the events is transitive and around every relation. */
  ghost function Full(dom: iset<Event>): Closures.Relation { iset x, y | x in dom && y in dom :: (x, y) }

  lemma CycleHelpers(m: Interp, r: Closures.Relation, t: Closures.Relation, check: string, closure: string, some: string,
                     x: Event)
    requires WellFormed(m) && check != closure
    requires (forall a, b :: (a, b) in r ==> a in m.dom && b in m.dom) && (forall a, b :: (a, b) in t ==> a in m.dom && b in m.dom)
    ensures var m3 := WithConst(With(With(m, check, r), closure, t), some, x);
            && WellFormed(m3) && AgreeExcept(m, m3, {check} + {closure} + {some}) && m3.dom == m.dom
            && RelOf(m3, check) == r && RelOf(m3, closure) == t && m3.Const(some) == x
            && (some != closure ==> Declared(m3, closure, Rel))
  {
    var m1 := With(m, check, r);
    WithMeans(m, check, r);
    var m2 := With(m1, closure, t);
    WithMeans(m1, closure, t);
    var m3 := WithConst(m2, some, x);
    WithConstMeans(m2, some, x);
    if some != closure { NameKept(m2, m3, closure, {some}); }
    assert m1.dom == m.dom && m2.dom == m.dom by { SameEvents(m, m1, {check}); SameEvents(m1, m2, {closure}); }
    hide *;
    AgreeTrans(m, m1, m2, {check}, {closure});
    AgreeTrans(m, m2, m3, {check} + {closure}, {some});
  }

  lemma MeetNonAcyclic(e: Exp<Ty>, id: string, m: Interp)
    requires WellFormed(m) && Mentions(e) !! Helpers(NonAcyclic, id)
    ensures exists m' :: Meets(NonAcyclic, e, id, m, m')
  {
    var x :| x in m.dom;
    var check, closure, some := "check:" + id, "non-acyclic:" + id, "some:" + id;
    assert check[0] != closure[0] && some[0] != closure[0];
    HelpersAre(NonAcyclic, id);
    assert "check:" in CheckPrefixes(NonAcyclic) && "non-acyclic:" in CheckPrefixes(NonAcyclic) && "some:" in CheckPrefixes(NonAcyclic);
    DenotedWithin(e, m);
    assert forall a, b :: (a, b) in Full(m.dom) ==> a in m.dom && b in m.dom;
    hide Denoted, With, Helpers, AgreeExcept, WellFormed, WithConst, RelOf, Declared, Full, Closures.Includes,
         Closures.Transitive, Named, CheckHolds, CheckPrefixes;
    CycleHelpers(m, Denoted(e, m), Full(m.dom), check, closure, some, x);
    var m3 := WithConst(With(With(m, check, Denoted(e, m)), closure, Full(m.dom)), some, x);
    AgreeMore(m, m3, {check} + {closure} + {some}, Helpers(NonAcyclic, id));
    DefinedCheck(NonAcyclic, e, id, m, m3);
    FullCloses(closure, e, m3, x);
    CycleAsked(e, id, m3, x);
    assert Meets(NonAcyclic, e, id, m, m3);
  }

  lemma CycleAsked(e: Exp<Ty>, id: string, m: Interp, x: Event)
    requires Named("check:" + id, e, m) && Declared(m, "non-acyclic:" + id, Rel)
    requires Closures.Includes(m.dom, Denoted(e, m), RelOf(m, "non-acyclic:" + id))
    requires Closures.Transitive(m.dom, RelOf(m, "non-acyclic:" + id))
    requires m.Const("some:" + id) == x && x in m.dom && m.Rel("non-acyclic:" + id, x, x)
    ensures CheckHolds(NonAcyclic, e, id, m)
  {
    hide Named, Declared, Denoted, RelOf, Closures.Includes, Closures.Transitive;
  }

  lemma NameKept(m: Interp, m': Interp, name: string, names: set<string>)
    requires AgreeExcept(m, m', names) && name !in names
    ensures Declared(m, name, Rel) == Declared(m', name, Rel)
  {
  }

  lemma FullCloses(closure: string, e: Exp<Ty>, m: Interp, x: Event)
    requires x in m.dom && RelOf(m, closure) == Full(m.dom)
    ensures Closures.Includes(m.dom, Denoted(e, m), RelOf(m, closure)) && Closures.Transitive(m.dom, RelOf(m, closure))
    ensures m.Rel(closure, x, x)
  {
    assert (x, x) in RelOf(m, closure);
  }

  /** A check that holds is met, whatever its helpers are. */
  lemma HoldsMet(check: Check, e: Exp<Ty>, id: string, m: Interp, m': Interp)
    requires Mentions(e) !! Helpers(check, id) && Meets(check, e, id, m, m')
    ensures CheckMet(check, m.dom, Denoted(e, m))
  {
    DenotedAgree(e, m, m', Helpers(check, id));
    hide Denoted, Helpers;
    var r := Denoted(e, m);
    match check
    case Acyclic =>
      Closures.AcyclicExact(m.dom, r);
      var t := RelOf(m', "acyclic:" + id);
      assert Closures.Includes(m.dom, r, t) && Closures.Transitive(m.dom, t) && Closures.Irreflexive(m.dom, t);
    case _ =>
  }

  /** By choosing its helpers a check can be satisfied exactly when the relation it is about meets it. */
  lemma CheckExact(check: Check, e: Exp<Ty>, id: string, m: Interp)
    requires WellFormed(m) && Mentions(e) !! Helpers(check, id)
    ensures (exists m' :: Meets(check, e, id, m, m')) <==> CheckMet(check, m.dom, Denoted(e, m))
  {
    if CheckMet(check, m.dom, Denoted(e, m)) {
      match check {
        case Empty => MeetPlain(check, e, id, m);
        case Irreflexive => MeetPlain(check, e, id, m);
        case NonEmpty =>
          var x, y :| x in m.dom && y in m.dom && (x, y) in Denoted(e, m);
          MeetNonEmpty(e, id, m, x, y);
        case NonIrreflexive =>
          var x :| x in m.dom && (x, x) in Denoted(e, m);
          MeetNonIrreflexive(e, id, m, x);
        case Acyclic => MeetAcyclic(e, id, m);
        case NonAcyclic => MeetNonAcyclic(e, id, m);
      }
    }
    hide Denoted, Helpers, AgreeExcept, CheckHolds, WellFormed;
    forall m' | Meets(check, e, id, m, m') ensures CheckMet(check, m.dom, Denoted(e, m)) {
      HoldsMet(check, e, id, m, m');
    }
  }

  // ----- a whole model

  /** The names of a definition's helpers, if it is a check. */
  function HelpersOf(def: Def, i: nat): set<string> {
    if def.CheckDef? then Helpers(def.check, IdOf(def.optId, i)) else {}
  }

  function AllHelpers(defs: seq<Def>): set<string> {
    if defs == [] then {} else AllHelpers(defs[..|defs| - 1]) + HelpersOf(defs[|defs| - 1], |defs| - 1)
  }

  /** Expressions look up names that a cat file can say. */
  predicate PlainExps(defs: seq<Def>) {
    forall i, e | 0 <= i < |defs| && e in ExpsOf(defs[i]) :: forall x | x in Mentions(e) :: Colonless(x)
  }

  lemma HelpersColon(check: Check, id: string, x: string)
    requires x in Helpers(check, id)
    ensures !Colonless(x)
  {
    var k :| 0 <= k < |CheckPrefixes(check)| && x == CheckPrefixes(check)[k] + id;
    CheckPrefix(check, CheckPrefixes(check)[k]);
    PrefixHasColon(CheckPrefixes(check)[k], id);
  }

  lemma {:induction false} AllHelpersAre(defs: seq<Def>, x: string)
    ensures x in AllHelpers(defs) <==> exists i :: 0 <= i < |defs| && x in HelpersOf(defs[i], i)
    decreases |defs|
  {
    hide HelpersOf;
    if defs != [] {
      var n := |defs| - 1;
      AllHelpersAre(defs[..n], x);
      assert forall i | 0 <= i < n :: defs[..n][i] == defs[i];
      if x in HelpersOf(defs[n], n) { assert 0 <= n < |defs|; }
    }
  }

  lemma AllHelpersColon(defs: seq<Def>)
    ensures forall x | x in AllHelpers(defs) :: !Colonless(x)
  {
    forall x | x in AllHelpers(defs) ensures !Colonless(x) {
      AllHelpersAre(defs, x);
      var i :| 0 <= i < |defs| && x in HelpersOf(defs[i], i);
      HelpersColon(defs[i].check, IdOf(defs[i].optId, i), x);
    }
  }

  lemma {:induction false} TagsApart(defs: seq<Def>, i: nat, j: nat)
    requires i < j < |defs| && Unique(AllTagged(defs))
    ensures !Common(Tagged(defs[i]), Tagged(defs[j]))
    decreases |defs|
  {
    hide Tagged, Unique;
    var n := |defs| - 1;
    UniqueSplit(AllTagged(defs[..n]), Tagged(defs[n]));
    if j < n {
      TagsApart(defs[..n], i, j);
    } else {
      forall x | x in Tagged(defs[i]) ensures x in AllTagged(defs[..n]) {
        assert defs[..n][i] == defs[i];
        InAllTagged(defs[..n], x);
      }
    }
  }

  lemma HelperIsName(def: Def, i: nat, x: string)
    ensures x in HelpersOf(def, i) <==> def.CheckDef? && x in NamesOf(def, i)
    ensures def.CheckDef? ==> Bound(def) == []
  {
  }

  /** Two checks of a model share no helper. */
  lemma HelpersApart(defs: seq<Def>, i: nat, j: nat)
    requires i < j < |defs| && PlainNames(defs) && Unique(AllTagged(defs))
    ensures HelpersOf(defs[i], i) !! HelpersOf(defs[j], j)
  {
    var d, e := defs[i], defs[j];
    assert Plain(d) && Plain(e);
    hide Plain, HelpersOf, NamesOf, Unique, Tagged, Bound;
    TagsApart(defs, i, j);
    forall x ensures !(x in HelpersOf(d, i) && x in HelpersOf(e, j)) {
      HelperIsName(d, i, x);
      HelperIsName(e, j, x);
      if x in NamesOf(d, i) && x in NamesOf(e, j) { SharedName(d, i, e, j, x); }
    }
  }

  lemma RelOfAgree(m: Interp, m': Interp, name: string, names: set<string>)
    requires AgreeExcept(m, m', names) && name !in names
    ensures RelOf(m, name) == RelOf(m', name)
  {
    forall p: (Event, Event) ensures p in RelOf(m, name) <==> p in RelOf(m', name) {
      assert p == (p.0, p.1);
      assert p in RelOf(m, name) <==> m.Rel(name, p.0, p.1);
      assert p in RelOf(m', name) <==> m'.Rel(name, p.0, p.1);
    }
  }

  lemma NamedAgree(name: string, e: Exp<Ty>, m: Interp, m': Interp, names: set<string>)
    requires AgreeExcept(m, m', names) && Mentions(e) !! names && name !in names
    ensures Named(name, e, m) == Named(name, e, m')
  {
    DenotedAgree(e, m, m', names);
    hide Denoted;
  }

  lemma ClosedAgree(t: string, e: Exp<Ty>, m: Interp, m': Interp, names: set<string>)
    requires AgreeExcept(m, m', names) && Mentions(e) !! names && t !in names
    ensures ClosedAround(t, e, m) == ClosedAround(t, e, m')
  {
    DenotedAgree(e, m, m', names);
    RelOfAgree(m, m', t, names);
    hide Denoted, RelOf;
  }

  lemma BindingAgree(b: (string, Exp<Ty>), m: Interp, m': Interp, names: set<string>)
    requires AgreeExcept(m, m', names) && Mentions(b.1) !! names && b.0 !in names
    ensures BindingHolds(b, m) == BindingHolds(b, m')
  {
    forall x: Event, y: Event
      ensures Denotes(b.1, m, x, y) == Denotes(b.1, m', x, y)
    {
      DenotesAgree(b.1, m, m', names, x, y);
    }
    hide Denotes;
  }

  /** A check depends on no names but its own helpers and those its expression mentions. */
  lemma CheckAgree(check: Check, e: Exp<Ty>, id: string, m: Interp, m': Interp, names: set<string>)
    requires AgreeExcept(m, m', names) && Mentions(e) !! names && Helpers(check, id) !! names
    ensures CheckHolds(check, e, id, m) == CheckHolds(check, e, id, m')
  {
    HelpersAre(check, id);
    assert forall k | 0 <= k < |CheckPrefixes(check)| :: CheckPrefixes(check)[k] + id !in names by {
      forall k | 0 <= k < |CheckPrefixes(check)| ensures CheckPrefixes(check)[k] + id !in names {
        assert CheckPrefixes(check)[k] + id in Helpers(check, id);
      }
    }
    assert CheckPrefixes(check)[0] == "check:";
    NamedAgree("check:" + id, e, m, m', names);
    DenotedAgree(e, m, m', names);
    hide Denoted, Helpers, Named, RelOf, ClosedAround;
    match check
    case Empty =>
    case Irreflexive =>
    case NonEmpty => assert CheckPrefixes(check)[1] == "ne1:" && CheckPrefixes(check)[2] == "ne2:";
    case NonIrreflexive => assert CheckPrefixes(check)[1] == "some:";
    case Acyclic =>
      assert CheckPrefixes(check)[1] == "acyclic:";
      ClosedAgree("acyclic:" + id, e, m, m', names);
      RelOfAgree(m, m', "acyclic:" + id, names);
    case NonAcyclic =>
      assert CheckPrefixes(check)[1] == "non-acyclic:" && CheckPrefixes(check)[2] == "some:";
      ClosedAgree("non-acyclic:" + id, e, m, m', names);
  }

  lemma LetAgree(bindings: seq<(string, Exp<Ty>)>, m: Interp, m': Interp, names: set<string>)
    requires AgreeExcept(m, m', names)
    requires forall b | b in bindings :: Mentions(b.1) !! names && b.0 !in names
    ensures LetHolds(bindings, m) == LetHolds(bindings, m')
  {
    hide AgreeExcept, BindingHolds, Mentions;
    forall b | b in bindings ensures BindingHolds(b, m) == BindingHolds(b, m') {
      BindingAgree(b, m, m', names);
    }
  }

  /** The names a definition defines and those its expressions mention are what it depends on. */
  lemma DefAgree(def: Def, i: nat, m: Interp, m': Interp, names: set<string>)
    requires AgreeExcept(m, m', names)
    requires forall e | e in ExpsOf(def) :: Mentions(e) !! names
    requires forall x | x in NamesOf(def, i) :: x !in names
    ensures DefHolds(def, i, m) == DefHolds(def, i, m')
  {
    hide AgreeExcept, Named, ClosedAround, CheckHolds, LetHolds, Mentions, RelOf, Helpers;
    match def
    case LetDef(bindings) =>
      forall b | b in bindings ensures Mentions(b.1) !! names && b.0 !in names {
        var k :| 0 <= k < |bindings| && bindings[k] == b;
        assert ExpsOf(def)[k] == b.1 && NamesOf(def, i)[k] == b.0;
      }
      LetAgree(bindings, m, m', names);
    case TClosure(id, e) =>
      NamedAgree("TC:" + id, e, m, m', names);
      ClosedAgree(id, e, m, m', names);
    case RTClosure(id, e) =>
      NamedAgree("RTC:" + id, e, m, m', names);
      ClosedAgree(id, e, m, m', names);
      RelOfAgree(m, m', id, names);
      SameEvents(m, m', names);
    case CheckDef(check, e, optId) =>
      HelpersNamed(def, i);
      assert ExpsOf(def)[0] == e;
      CheckAgree(check, e, IdOf(optId, i), m, m', names);
    case Other =>
  }

  lemma SameEvents(m: Interp, m': Interp, names: set<string>)
    requires AgreeExcept(m, m', names)
    ensures m.dom == m'.dom
  {
  }

  lemma HelpersNamed(def: Def, i: nat)
    requires def.CheckDef?
    ensures forall x :: x in Helpers(def.check, IdOf(def.optId, i)) <==> x in NamesOf(def, i)
  {
  }

  /** The definitions that are not checks hold, and the first `n` checks do. */
  ghost predicate HoldsUpTo(defs: seq<Def>, n: nat, m: Interp) {
    forall i | 0 <= i < |defs| && (i < n || !defs[i].CheckDef?) :: DefHolds(defs[i], i, m)
  }

  ghost predicate Extends(defs: seq<Def>, n: nat, m: Interp, m': Interp)
    requires n <= |defs|
  {
    WellFormed(m') && AgreeExcept(m, m', AllHelpers(defs[..n])) && HoldsUpTo(defs, n, m')
  }

  predicate PlainModel(defs: seq<Def>) { PlainNames(defs) && PlainExps(defs) && Unique(AllTagged(defs)) }

  /** The helpers of a check are mentioned nowhere and are no names of another definition. */
  lemma Untouched(defs: seq<Def>, n: nat, i: nat)
    requires PlainModel(defs) && n < |defs| && i < |defs| && (i < n || !defs[i].CheckDef?) && defs[n].CheckDef?
    ensures forall x | x in NamesOf(defs[i], i) :: x !in HelpersOf(defs[n], n)
  {
    var d := defs[i];
    assert Plain(d);
    hide Plain, HelpersOf, NamesOf, Bound, Tagged, Unique, PlainNames, PlainExps;
    if d.CheckDef? {
      HelpersApart(defs, i, n);
      forall x | x in NamesOf(d, i) ensures x !in HelpersOf(defs[n], n) {
        HelperIsName(d, i, x);
      }
    } else {
      forall x | x in NamesOf(d, i) ensures x !in HelpersOf(defs[n], n) {
        HelperOther(d, i, defs[n], n, x);
      }
    }
  }

  lemma HelperOther(d: Def, i: nat, e: Def, n: nat, x: string)
    requires Plain(d) && !d.CheckDef? && e.CheckDef? && x in NamesOf(d, i)
    ensures x !in HelpersOf(e, n)
  {
    hide Plain, NamesOf, Colonless, Prefix;
    if x in HelpersOf(e, n) {
      var id := IdOf(e.optId, n);
      HelpersColon(e.check, id, x);
      var k :| 0 <= k < |CheckPrefixes(e.check)| && x == CheckPrefixes(e.check)[k] + id;
      CheckPrefix(e.check, CheckPrefixes(e.check)[k]);
      HelperName(d, i, CheckPrefixes(e.check)[k], id);
    }
  }

  /** Expressions mention no helper. */
  lemma NoHelperMentioned(defs: seq<Def>, i: nat, e: Exp<Ty>, names: set<string>)
    requires PlainExps(defs) && i < |defs| && e in ExpsOf(defs[i])
    requires forall x | x in names :: !Colonless(x)
    ensures Mentions(e) !! names
  {
  }

  lemma HelpersOfColon(def: Def, i: nat)
    ensures forall x | x in HelpersOf(def, i) :: !Colonless(x)
  {
    forall x | x in HelpersOf(def, i) ensures !Colonless(x) {
      HelpersColon(def.check, IdOf(def.optId, i), x);
    }
  }

  lemma AllHelpersStep(defs: seq<Def>, n: nat)
    requires n < |defs|
    ensures AllHelpers(defs[..n + 1]) == AllHelpers(defs[..n]) + HelpersOf(defs[n], n)
  {
    assert defs[..n + 1][..n] == defs[..n];
  }

  /** Choosing the helpers of check number `n` leaves what held before. */
  lemma StillHolds(defs: seq<Def>, n: nat, m1: Interp, m2: Interp)
    requires PlainModel(defs) && n < |defs| && defs[n].CheckDef? && HoldsUpTo(defs, n, m1)
    requires AgreeExcept(m1, m2, HelpersOf(defs[n], n)) && DefHolds(defs[n], n, m2)
    ensures HoldsUpTo(defs, n + 1, m2)
  {
    hide HelpersOf, DefHolds, AgreeExcept, NamesOf, Mentions, Unique, PlainExps, PlainNames, ExpsOf;
    HelpersOfColon(defs[n], n);
    forall i | 0 <= i < |defs| && (i < n || !defs[i].CheckDef?) ensures DefHolds(defs[i], i, m2) {
      Untouched(defs, n, i);
      forall e | e in ExpsOf(defs[i]) ensures Mentions(e) !! HelpersOf(defs[n], n) {
        NoHelperMentioned(defs, i, e, HelpersOf(defs[n], n));
      }
      DefAgree(defs[i], i, m1, m2, HelpersOf(defs[n], n));
    }
  }

  lemma ExtendCheck(defs: seq<Def>, n: nat, next: nat, m: Interp, m1: Interp)
    requires PlainModel(defs) && n < |defs| && next == n + 1 && defs[n].CheckDef? && Extends(defs, n, m, m1)
    requires CheckMet(defs[n].check, m.dom, Denoted(defs[n].exp, m))
    ensures exists m2 :: Extends(defs, next, m, m2)
  {
    var check, e, id := defs[n].check, defs[n].exp, IdOf(defs[n].optId, n);
    assert HelpersOf(defs[n], n) == Helpers(check, id) && ExpsOf(defs[n])[0] == e;
    assert forall m2 :: DefHolds(defs[n], n, m2) == CheckHolds(check, e, id, m2);
    hide HelpersOf, Helpers, DefHolds, CheckHolds, CheckMet, AgreeExcept, Mentions, PlainExps, PlainNames, ExpsOf,
         HoldsUpTo, WellFormed, Denoted, AllHelpers, Unique, IdOf;
    AllHelpersColon(defs[..n]);
    HelpersOfColon(defs[n], n);
    NoHelperMentioned(defs, n, e, AllHelpers(defs[..n]));
    NoHelperMentioned(defs, n, e, HelpersOf(defs[n], n));
    SameEvents(m, m1, AllHelpers(defs[..n]));
    DenotedAgree(e, m, m1, AllHelpers(defs[..n]));
    CheckExact(check, e, id, m1);
    var m2 :| Meets(check, e, id, m1, m2);
    StillHolds(defs, n, m1, m2);
    AllHelpersStep(defs, n);
    AgreeTrans(m, m1, m2, AllHelpers(defs[..n]), Helpers(check, id));
    assert Extends(defs, next, m, m2);
  }

  lemma ExtendStart(defs: seq<Def>, m: Interp)
    requires WellFormed(m) && HoldsUpTo(defs, 0, m)
    ensures Extends(defs, 0, m, m)
  {
    hide HoldsUpTo, WellFormed;
    AgreeSelf(m, AllHelpers(defs[..0]));
  }

  lemma ExtendOther(defs: seq<Def>, n: nat, next: nat, m: Interp, m1: Interp)
    requires n < |defs| && next == n + 1 && !defs[n].CheckDef? && Extends(defs, n, m, m1)
    ensures Extends(defs, next, m, m1)
  {
    hide AgreeExcept, WellFormed, DefHolds, AllHelpers, HelpersOf;
    AllHelpersStep(defs, n);
    NoHelpers(defs[n], n);
  }

  lemma {:induction false} ExtendAll(defs: seq<Def>, n: nat, m: Interp)
    requires PlainModel(defs) && n <= |defs| && WellFormed(m) && HoldsUpTo(defs, 0, m)
    requires forall i | 0 <= i < |defs| && defs[i].CheckDef? :: CheckMet(defs[i].check, m.dom, Denoted(defs[i].exp, m))
    ensures exists m' :: Extends(defs, n, m, m')
    decreases n
  {
    hide *;
    if n == 0 {
      ExtendStart(defs, m);
    } else {
      ExtendAll(defs, n - 1, m);
      var m1 :| Extends(defs, n - 1, m, m1);
      if defs[n - 1].CheckDef? { ExtendCheck(defs, n - 1, n, m, m1); } else { ExtendOther(defs, n - 1, n, m, m1); }
    }
  }

  lemma AgreeSelf(m: Interp, names: set<string>)
    ensures AgreeExcept(m, m, names)
  {
  }

  lemma NoHelpers(def: Def, i: nat)
    requires !def.CheckDef?
    ensures HelpersOf(def, i) == {} && forall s: set<string> :: s + HelpersOf(def, i) == s
  {
  }

  lemma ModelMeets(defs: seq<Def>, m: Interp, m': Interp, i: nat)
    requires PlainModel(defs) && i < |defs| && defs[i].CheckDef?
    requires WellFormed(m') && AgreeExcept(m, m', AllHelpers(defs)) && DefHolds(defs[i], i, m')
    ensures CheckMet(defs[i].check, m.dom, Denoted(defs[i].exp, m))
  {
    var check, e, id := defs[i].check, defs[i].exp, IdOf(defs[i].optId, i);
    assert ExpsOf(defs[i])[0] == e && HelpersOf(defs[i], i) == Helpers(check, id);
    assert CheckHolds(check, e, id, m');
    hide HelpersOf, Helpers, DefHolds, CheckHolds, CheckMet, AgreeExcept, Mentions, PlainExps, PlainNames, ExpsOf,
         WellFormed, Denoted, AllHelpers, Unique;
    AllHelpersColon(defs);
    HelpersOfColon(defs[i], i);
    NoHelperMentioned(defs, i, e, AllHelpers(defs));
    NoHelperMentioned(defs, i, e, HelpersOf(defs[i], i));
    SameEvents(m, m', AllHelpers(defs));
    DenotedAgree(e, m, m', AllHelpers(defs));
    AgreeSelf(m', Helpers(check, id));
    CheckExact(check, e, id, m');
    assert Meets(check, e, id, m', m');
  }

  /** For an interpretation in which the bindings and closures of a model hold: the helpers can be chosen
      so that the whole model holds exactly when each check is met by the relation that its expression
      denotes. Checks do not constrain one another, named or not. */
  lemma ModelChecksExact(defs: seq<Def>, m: Interp)
    requires PlainModel(defs) && WellFormed(m)
    requires forall i | 0 <= i < |defs| && !defs[i].CheckDef? :: DefHolds(defs[i], i, m)
    ensures (exists m' :: WellFormed(m') && AgreeExcept(m, m', AllHelpers(defs)) && ModelHolds(defs, m'))
            <==> forall i | 0 <= i < |defs| && defs[i].CheckDef? ::
                   CheckMet(defs[i].check, m.dom, Denoted(defs[i].exp, m))
  {
    hide AgreeExcept, WellFormed, Denoted, CheckMet, DefHolds, PlainModel, AllHelpers;
    if forall i | 0 <= i < |defs| && defs[i].CheckDef? :: CheckMet(defs[i].check, m.dom, Denoted(defs[i].exp, m)) {
      ExtendAll(defs, |defs|, m);
      var m' :| Extends(defs, |defs|, m, m');
      assert defs[..|defs|] == defs;
      assert ModelHolds(defs, m');
    }
    forall m', i | WellFormed(m') && AgreeExcept(m, m', AllHelpers(defs)) && ModelHolds(defs, m')
                   && 0 <= i < |defs| && defs[i].CheckDef?
      ensures CheckMet(defs[i].check, m.dom, Denoted(defs[i].exp, m))
    {
      ModelMeets(defs, m, m', i);
    }
  }
}
