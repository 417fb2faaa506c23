/** Compiling a whole cat model: the emitted SMT commands, and what they mean. */
module CatModels {
  import opened Sexps
  import opened CatExps
  import opened CatCompiler
  import opened CatNames
  import Closures

  /** The emitted SMT-LIB commands, one constructor per form the compiler prints. */
  datatype Command =
    | DeclareFun(name: string, ty: Ty)
    | AssertDefinition(name: string, ty: Ty, body: Sexp)
    | DefineFun(name: string, body: Sexp)
    | DeclareConst(name: string)
    | AssertEmpty(name: string)
    | AssertIrreflexive(name: string)
    | AssertAt(name: string, ev1: string, ev2: string)
    | AssertIncludes(name: string, closure: string)
    | AssertTransitive(name: string)
    | AssertFieldReflexive(name: string)

  /** Relations and sets relate events of the sort `Event` only, which has at least one. */
  ghost predicate WellFormed(m: Interp) {
    && (exists x :: x in m.dom)
    && (forall r, x, y :: m.Rel(r, x, y) ==> x in m.dom && y in m.dom)
    && (forall r, x :: m.Member(r, x) ==> x in m.dom)
  }

  ghost predicate Declared(m: Interp, name: string, ty: Ty) {
    if ty.Rel? then name in m.rels && name !in m.sets else name in m.sets && name !in m.rels
  }

  ghost function RelOf(m: Interp, name: string): Closures.Relation {
    if name in m.rels then m.rels[name] else iset{}
  }

  function Args(x: Event, y: Event): Env { map[1 := x, 2 := y] }

  ghost predicate CommandHolds(cmd: Command, m: Interp) {
    match cmd
    case DeclareFun(name, ty) => Declared(m, name, ty)
    case AssertDefinition(name, ty, body) =>
      forall x, y | x in m.dom && y in m.dom ::
        (if ty.Rel? then m.Rel(name, x, y) else m.Member(name, x)) == Holds(body, m, Args(x, y))
    case DefineFun(name, body) =>
      forall x, y | x in m.dom && y in m.dom :: m.Rel(name, x, y) == Holds(body, m, Args(x, y))
    case DeclareConst(name) => m.Const(name) in m.dom
    case AssertEmpty(name) => forall x, y | x in m.dom && y in m.dom :: !m.Rel(name, x, y)
    case AssertIrreflexive(name) => Closures.Irreflexive(m.dom, RelOf(m, name))
    case AssertAt(name, ev1, ev2) => m.Rel(name, m.Const(ev1), m.Const(ev2))
    case AssertIncludes(name, closure) => Closures.Includes(m.dom, RelOf(m, name), RelOf(m, closure))
    case AssertTransitive(name) => Closures.Transitive(m.dom, RelOf(m, name))
    case AssertFieldReflexive(name) => Closures.FieldReflexive(m.dom, RelOf(m, name))
  }

  ghost predicate Satisfied(cmds: seq<Command>, m: Interp) { forall c | c in cmds :: CommandHolds(c, m) }

  function NameIn(c: Command): seq<string> { if c.DeclareFun? || c.DefineFun? || c.DeclareConst? then [c.name] else [] }

  /** The names that the commands define or declare, in order. */
  function Introduced(cmds: seq<Command>): seq<string> {
    if cmds == [] then [] else NameIn(cmds[0]) + Introduced(cmds[1..])
  }

  lemma {:induction false} IntroducedConcat(a: seq<Command>, b: seq<Command>)
    ensures Introduced(a + b) == Introduced(a) + Introduced(b)
    decreases |a|
  {
    if a == [] {
      assert a + b == b;
    } else {
      assert (a + b)[0] == a[0] && (a + b)[1..] == a[1..] + b;
      IntroducedConcat(a[1..], b);
      Assoc(NameIn(a[0]), Introduced(a[1..]), Introduced(b));
    }
  }

  lemma Assoc<T>(a: seq<T>, b: seq<T>, c: seq<T>)
    ensures a + (b + c) == a + b + c
  {
  }

  lemma IntroducedOne(c: Command)
    ensures Introduced([c]) == NameIn(c)
  {
    assert [c][1..] == [] && NameIn(c) + [] == NameIn(c);
  }

  lemma IntroducedTwo(c: Command, d: Command)
    ensures Introduced([c, d]) == NameIn(c) + NameIn(d)
  {
    assert [c, d] == [c] + [d];
    IntroducedConcat([c], [d]);
    IntroducedOne(c);
    IntroducedOne(d);
  }

  lemma IntroducedThree(c: Command, d: Command, e: Command)
    ensures Introduced([c, d, e]) == NameIn(c) + NameIn(d) + NameIn(e)
  {
    assert [c, d, e] == [c, d] + [e];
    IntroducedConcat([c, d], [e]);
    IntroducedTwo(c, d);
    IntroducedOne(e);
  }

  // ----- what a cat model asks of an interpretation

  /** The relation a check or closure is about: a set counts as the pairs whose first event is in it. */
  ghost function Denoted(e: Exp<Ty>, m: Interp): Closures.Relation {
    iset x, y | x in m.dom && y in m.dom && Denotes(e, m, x, y) :: (x, y)
  }

  ghost predicate Named(name: string, e: Exp<Ty>, m: Interp) {
    forall x, y | x in m.dom && y in m.dom :: m.Rel(name, x, y) == ((x, y) in Denoted(e, m))
  }

  ghost predicate BindingHolds(b: (string, Exp<Ty>), m: Interp) {
    && Declared(m, b.0, TyOf(b.1))
    && forall x, y | x in m.dom && y in m.dom ::
         (if TyOf(b.1).Rel? then m.Rel(b.0, x, y) else m.Member(b.0, x)) == Denotes(b.1, m, x, y)
  }

  /** `t` names a transitive relation around the denotation of `e`. */
  ghost predicate ClosedAround(t: string, e: Exp<Ty>, m: Interp) {
    && Declared(m, t, Rel)
    && Closures.Includes(m.dom, Denoted(e, m), RelOf(m, t))
    && Closures.Transitive(m.dom, RelOf(m, t))
  }

  ghost predicate CheckHolds(check: Check, e: Exp<Ty>, id: string, m: Interp) {
    var r := Denoted(e, m);
    && Named("check:" + id, e, m)
    && match check
       case Empty => r == iset{}
       case NonEmpty => m.Const("ne1:" + id) in m.dom && m.Const("ne2:" + id) in m.dom
                        && (m.Const("ne1:" + id), m.Const("ne2:" + id)) in r
       case Irreflexive => Closures.Irreflexive(m.dom, r)
       case NonIrreflexive => m.Const("some:" + id) in m.dom
                              && (m.Const("some:" + id), m.Const("some:" + id)) in r
       case Acyclic => ClosedAround("acyclic:" + id, e, m)
                       && Closures.Irreflexive(m.dom, RelOf(m, "acyclic:" + id))
       case NonAcyclic => ClosedAround("non-acyclic:" + id, e, m) && m.Const("some:" + id) in m.dom
                          && m.Rel("non-acyclic:" + id, m.Const("some:" + id), m.Const("some:" + id))
  }

  ghost predicate LetHolds(bindings: seq<(string, Exp<Ty>)>, m: Interp) { forall b | b in bindings :: BindingHolds(b, m) }

  /** Definition number `i` of the model holds in `m`. */
  ghost predicate DefHolds(def: Def, i: nat, m: Interp) {
    match def
    case LetDef(bindings) => LetHolds(bindings, m)
    case TClosure(id, e) => Named("TC:" + id, e, m) && ClosedAround(id, e, m)
    case RTClosure(id, e) =>
      Named("RTC:" + id, e, m) && ClosedAround(id, e, m) && Closures.FieldReflexive(m.dom, RelOf(m, id))
    case CheckDef(check, e, optId) => CheckHolds(check, e, IdOf(optId, i), m)
    case Other => true
  }

  ghost predicate ModelHolds(defs: seq<Def>, m: Interp) {
    forall i | 0 <= i < |defs| :: DefHolds(defs[i], i, m)
  }

  /** The expressions of a definition, in the order they are compiled. */
  function ExpsOf(def: Def): seq<Exp<Ty>> {
    match def
    case LetDef(bindings) => seq(|bindings|, i requires 0 <= i < |bindings| => bindings[i].1)
    case TClosure(_, e) => [e]
    case RTClosure(_, e) => [e]
    case CheckDef(_, e, _) => [e]
    case Other => []
  }

  function Demand(es: seq<Exp<Ty>>): nat {
    if es == [] then 0 else Binders(es[0]) + Demand(es[1..])
  }

  function ModelDemand(defs: seq<Def>): nat {
    if defs == [] then 0 else Demand(ExpsOf(defs[0])) + ModelDemand(defs[1..])
  }

  /** None of the next `n` names is an argument of a toplevel formula. */
  predicate Safe(c: EventId, n: nat) { Spared(Rel, n, 1, 2, c) }

  /** After `used` of the `total` safe names, the next `n` are safe. */
  lemma SafeStep(c: EventId, used: nat, n: nat, total: nat)
    requires Safe(c, total) && used + n <= total
    ensures Safe(Advanced(c, used), n) && Advanced(Advanced(c, used), n) == Advanced(c, used + n)
  {
    hide Spared, Advanced;
    SparedSplit(Rel, used + n, total - used - n, 1, 2, c);
    SparedSplit(Rel, used, n, 1, 2, c);
    AdvancedTwice(c, used, n);
  }

  lemma SafeRoom(e: Exp<Ty>, c: EventId)
    requires Safe(c, Binders(e))
    ensures Room(e, 1, 2, c)
  {
  }

  predicate FineDef(def: Def) {
    && (forall e | e in ExpsOf(def) :: Fine(e))
    && (def.TClosure? || def.RTClosure? ==> TyOf(def.exp) == Rel)
  }

  // ----- the simplified body of a definition

  lemma BodyMeans(e: Exp<Ty>, c: EventId, knownEmpty: set<string>, m: Interp, x: Event, y: Event)
    requires Fine(e) && Safe(c, Binders(e))
    requires WellFormed(m) && AllEmpty(m, knownEmpty)
    ensures CompileToplevel(e, c).r.Ok?
    ensures Holds(Simplify(CompileToplevel(e, c).r.sexp, knownEmpty), m, Args(x, y)) == Denotes(e, m, x, y)
  {
    SafeRoom(e, c);
    ToplevelCorrect(e, c, m, Args(x, y));
    SimplifyPreserves(CompileToplevel(e, c).r.sexp, knownEmpty, m, Args(x, y));
  }

  /** Under the definitions so far, a definition is asserted exactly as the cat model states it, and
      a name whose body simplifies to false is empty. */
  lemma BindingMeans(b: (string, Exp<Ty>), c: EventId, knownEmpty: set<string>, m: Interp)
    requires Fine(b.1) && Safe(c, Binders(b.1))
    requires WellFormed(m) && AllEmpty(m, knownEmpty)
    ensures CompileToplevel(b.1, c).r.Ok?
    ensures var body := Simplify(CompileToplevel(b.1, c).r.sexp, knownEmpty);
            var holds := CommandHolds(DeclareFun(b.0, TyOf(b.1)), m)
                         && CommandHolds(AssertDefinition(b.0, TyOf(b.1), body), m);
            && holds == BindingHolds(b, m)
            && (holds && body.False? ==> AllEmpty(m, knownEmpty + {b.0}))
  {
    var z :| z in m.dom;
    hide Holds, Denotes, CompileToplevel, Simplify, Safe, Fine, WellFormed;
    BodyMeans(b.1, c, knownEmpty, m, z, z);
    var body := Simplify(CompileToplevel(b.1, c).r.sexp, knownEmpty);
    forall x, y | x in m.dom && y in m.dom
      ensures Holds(body, m, Args(x, y)) == Denotes(b.1, m, x, y)
    {
      BodyMeans(b.1, c, knownEmpty, m, x, y);
    }
  }

  lemma NamedMeans(name: string, e: Exp<Ty>, c: EventId, knownEmpty: set<string>, m: Interp)
    requires Fine(e) && Safe(c, Binders(e))
    requires WellFormed(m) && AllEmpty(m, knownEmpty)
    ensures CompileToplevel(e, c).r.Ok?
    ensures CommandHolds(DefineFun(name, Simplify(CompileToplevel(e, c).r.sexp, knownEmpty)), m) == Named(name, e, m)
  {
    var z :| z in m.dom;
    hide Holds, Denotes, CompileToplevel, Simplify, Safe, Fine, WellFormed;
    BodyMeans(e, c, knownEmpty, m, z, z);
    var body := Simplify(CompileToplevel(e, c).r.sexp, knownEmpty);
    forall x, y | x in m.dom && y in m.dom
      ensures Holds(body, m, Args(x, y)) == ((x, y) in Denoted(e, m))
    {
      BodyMeans(e, c, knownEmpty, m, x, y);
    }
  }

  lemma NamedIs(name: string, e: Exp<Ty>, m: Interp)
    requires WellFormed(m) && Named(name, e, m)
    ensures RelOf(m, name) == Denoted(e, m)
  {
    forall p: (Event, Event)
      ensures p in RelOf(m, name) <==> p in Denoted(e, m)
    {
      assert p == (p.0, p.1);
      assert p in RelOf(m, name) <==> m.Rel(name, p.0, p.1);
    }
  }

  /** The commands of a check, after the definition of its `check:` name. */
  function CheckCommands(check: Check, id: string): seq<Command> {
    var name := "check:" + id;
    match check
    case Empty => [AssertEmpty(name)]
    case NonEmpty => [DeclareConst("ne1:" + id), DeclareConst("ne2:" + id), AssertAt(name, "ne1:" + id, "ne2:" + id)]
    case Irreflexive => [AssertIrreflexive(name)]
    case NonIrreflexive => [DeclareConst("some:" + id), AssertAt(name, "some:" + id, "some:" + id)]
    case Acyclic => ClosureCommands(name, "acyclic:" + id) + [AssertIrreflexive("acyclic:" + id)]
    case NonAcyclic =>
      ClosureCommands(name, "non-acyclic:" + id)
      + [DeclareConst("some:" + id), AssertAt("non-acyclic:" + id, "some:" + id, "some:" + id)]
  }

  function ClosureCommands(name: string, closure: string): seq<Command> {
    [DeclareFun(closure, Rel), AssertIncludes(name, closure), AssertTransitive(closure)]
  }

  lemma ClosureIntroduces(name: string, closure: string)
    ensures Introduced(ClosureCommands(name, closure)) == [closure]
  {
    IntroducedThree(DeclareFun(closure, Rel), AssertIncludes(name, closure), AssertTransitive(closure));
  }

  lemma ReflexiveIntroduces(id: string)
    ensures Introduced(ClosureCommands("RTC:" + id, id) + [AssertFieldReflexive(id)]) == [id]
  {
    IntroducedConcat(ClosureCommands("RTC:" + id, id), [AssertFieldReflexive(id)]);
    ClosureIntroduces("RTC:" + id, id);
    IntroducedOne(AssertFieldReflexive(id));
  }

  /** A check defines one name for each of its prefixes. */
  lemma CheckIntroduces(check: Check, id: string)
    ensures ["check:" + id] + Introduced(CheckCommands(check, id)) == Prefixed(CheckPrefixes(check), id)
  {
    var name := "check:" + id;
    match check
    case Empty => IntroducedOne(AssertEmpty(name));
    case Irreflexive => IntroducedOne(AssertIrreflexive(name));
    case NonEmpty =>
      IntroducedThree(DeclareConst("ne1:" + id), DeclareConst("ne2:" + id), AssertAt(name, "ne1:" + id, "ne2:" + id));
    case NonIrreflexive => IntroducedTwo(DeclareConst("some:" + id), AssertAt(name, "some:" + id, "some:" + id));
    case Acyclic =>
      IntroducedConcat(ClosureCommands(name, "acyclic:" + id), [AssertIrreflexive("acyclic:" + id)]);
      ClosureIntroduces(name, "acyclic:" + id);
      IntroducedOne(AssertIrreflexive("acyclic:" + id));
    case NonAcyclic =>
      var at := AssertAt("non-acyclic:" + id, "some:" + id, "some:" + id);
      IntroducedConcat(ClosureCommands(name, "non-acyclic:" + id), [DeclareConst("some:" + id), at]);
      ClosureIntroduces(name, "non-acyclic:" + id);
      IntroducedTwo(DeclareConst("some:" + id), at);
  }

  lemma SatisfiedConcat(a: seq<Command>, b: seq<Command>, m: Interp)
    ensures Satisfied(a + b, m) == (Satisfied(a, m) && Satisfied(b, m))
  {
    assert forall c :: c in a + b <==> c in a || c in b;
  }

  lemma ClosureMeans(name: string, closure: string, e: Exp<Ty>, m: Interp)
    requires WellFormed(m) && Named(name, e, m)
    ensures Satisfied(ClosureCommands(name, closure), m) == ClosedAround(closure, e, m)
  {
    NamedIs(name, e, m);
    var cs := ClosureCommands(name, closure);
    assert Satisfied(cs, m) == (CommandHolds(cs[0], m) && CommandHolds(cs[1], m) && CommandHolds(cs[2], m));
  }

  lemma ReflexiveClosureMeans(id: string, e: Exp<Ty>, m: Interp)
    requires WellFormed(m) && Named("RTC:" + id, e, m)
    ensures Satisfied(ClosureCommands("RTC:" + id, id) + [AssertFieldReflexive(id)], m) ==
            (ClosedAround(id, e, m) && Closures.FieldReflexive(m.dom, RelOf(m, id)))
  {
    ClosureMeans("RTC:" + id, id, e, m);
    SatisfiedConcat(ClosureCommands("RTC:" + id, id), [AssertFieldReflexive(id)], m);
    assert Satisfied([AssertFieldReflexive(id)], m) == CommandHolds(AssertFieldReflexive(id), m);
  }

  lemma CheckMeans(check: Check, id: string, e: Exp<Ty>, m: Interp)
    requires WellFormed(m) && Named("check:" + id, e, m)
    ensures Satisfied(CheckCommands(check, id), m) == CheckHolds(check, e, id, m)
  {
    if check.Acyclic? || check.NonAcyclic? {
      CycleCheckMeans(check, id, e, m);
    } else {
      PlainCheckMeans(check, id, e, m);
    }
  }

  lemma PlainCheckMeans(check: Check, id: string, e: Exp<Ty>, m: Interp)
    requires !check.Acyclic? && !check.NonAcyclic?
    requires WellFormed(m) && Named("check:" + id, e, m)
    ensures Satisfied(CheckCommands(check, id), m) == CheckHolds(check, e, id, m)
  {
    var name := "check:" + id;
    NamedIs(name, e, m);
    var cs := CheckCommands(check, id);
    SatisfiedEach(cs, m);
    hide Named, Denoted, Satisfied, WellFormed;
    match check
    case Empty => EmptyMeans(name, e, m);
    case NonEmpty =>
    case Irreflexive =>
    case NonIrreflexive =>
  }

  lemma SatisfiedEach(cs: seq<Command>, m: Interp)
    requires 0 < |cs| <= 3
    ensures |cs| == 1 ==> Satisfied(cs, m) == CommandHolds(cs[0], m)
    ensures |cs| == 2 ==> Satisfied(cs, m) == (CommandHolds(cs[0], m) && CommandHolds(cs[1], m))
    ensures |cs| == 3 ==> Satisfied(cs, m) == (CommandHolds(cs[0], m) && CommandHolds(cs[1], m) && CommandHolds(cs[2], m))
  {
    hide CommandHolds;
  }

  lemma EmptyMeans(name: string, e: Exp<Ty>, m: Interp)
    requires RelOf(m, name) == Denoted(e, m)
    ensures CommandHolds(AssertEmpty(name), m) <==> Denoted(e, m) == iset{}
  {
    if CommandHolds(AssertEmpty(name), m) {
      forall p: (Event, Event)
        ensures p !in Denoted(e, m)
      {
        assert p == (p.0, p.1);
        assert p in RelOf(m, name) <==> m.Rel(name, p.0, p.1);
      }
    }
  }

  lemma CycleCheckMeans(check: Check, id: string, e: Exp<Ty>, m: Interp)
    requires check.Acyclic? || check.NonAcyclic?
    requires WellFormed(m) && Named("check:" + id, e, m)
    ensures Satisfied(CheckCommands(check, id), m) == CheckHolds(check, e, id, m)
  {
    var name := "check:" + id;
    var closure := (if check.Acyclic? then "acyclic:" else "non-acyclic:") + id;
    var cs := CheckCommands(check, id);
    ClosureMeans(name, closure, e, m);
    SatisfiedConcat(ClosureCommands(name, closure), cs[3..], m);
    assert cs == ClosureCommands(name, closure) + cs[3..];
    hide Named, ClosedAround, Denoted;
    if check.Acyclic? {
      assert cs[3..] == [cs[3]] && Satisfied([cs[3]], m) == CommandHolds(cs[3], m);
    } else {
      assert cs[3..] == [cs[3], cs[4]];
      assert Satisfied([cs[3], cs[4]], m) == (CommandHolds(cs[3], m) && CommandHolds(cs[4], m));
    }
  }

  // ----- the compiler's loop over the definitions

  /** What was emitted says exactly what a predicate on interpretations says, and forces every name
      recorded as known empty to be empty. */
  ghost predicate Says(out: seq<Command>, knownEmpty: set<string>, meaning: Interp -> bool) {
    forall m | WellFormed(m) ::
      Satisfied(out, m) == meaning(m) && (meaning(m) ==> AllEmpty(m, knownEmpty))
  }

  class Compilation {
    var counter: EventId
    var knownEmpty: set<string>
    var output: seq<Command>

    constructor (counter: EventId)
      ensures this.counter == counter && knownEmpty == {} && output == []
    {
      this.counter := counter;
      knownEmpty, output := {}, [];
    }

    /** Compiles and simplifies one expression with the names known to be empty so far. */
    method Body(e: Exp<Ty>) returns (sexp: Sexp)
      requires Fine(e) && Safe(counter, Binders(e))
      modifies this`counter
      ensures CompileToplevel(e, old(counter)).r.Ok?
      ensures sexp == Simplify(CompileToplevel(e, old(counter)).r.sexp, knownEmpty)
      ensures counter == Advanced(old(counter), Binders(e))
    {
      ghost var m := Interp(iset{}, map[], map[], map[]);
      SafeRoom(e, counter);
      ToplevelCorrect(e, counter, m, map[]);
      var out := CompileToplevel(e, counter);
      counter := out.c;
      sexp := Simplify(out.r.sexp, knownEmpty);
    }

    method Define(id: string, e: Exp<Ty>, ghost meaning: Interp -> bool)
      requires Fine(e) && Safe(counter, Binders(e))
      requires Says(output, knownEmpty, meaning)
      modifies this
      ensures counter == Advanced(old(counter), Binders(e))
      ensures Says(output, knownEmpty, m => meaning(m) && BindingHolds((id, e), m))
      ensures Introduced(output) == Introduced(old(output)) + [id]
    {
      hide CommandHolds, BindingHolds, WellFormed, AllEmpty, Introduced, Simplify, CompileToplevel, Advanced, Safe, Fine;
      ghost var c, known, before := counter, knownEmpty, output;
      var sexp := Body(e);
      var cmds := [DeclareFun(id, TyOf(e)), AssertDefinition(id, TyOf(e), sexp)];
      output := output + cmds;
      IntroducedConcat(before, cmds);
      IntroducedTwo(cmds[0], cmds[1]);
      if sexp.False? {
        knownEmpty := knownEmpty + {id};
      }
      forall m | WellFormed(m)
        ensures Satisfied(output, m) == (meaning(m) && BindingHolds((id, e), m))
        ensures meaning(m) && BindingHolds((id, e), m) ==> AllEmpty(m, knownEmpty)
      {
        SatisfiedConcat(before, cmds, m);
        assert Satisfied(cmds, m) == (CommandHolds(cmds[0], m) && CommandHolds(cmds[1], m));
        if meaning(m) { BindingMeans((id, e), c, known, m); }
      }
    }

    /** Defines the helper name `name` as the expression, and appends what is asserted about it. */
    method DefineHelper(name: string, e: Exp<Ty>, cmds: seq<Command>, ghost meaning: Interp -> bool,
                        ghost claim: Interp -> bool)
      requires Fine(e) && Safe(counter, Binders(e))
      requires Says(output, knownEmpty, meaning)
      requires forall m | WellFormed(m) && Named(name, e, m) :: Satisfied(cmds, m) == claim(m)
      modifies this
      ensures counter == Advanced(old(counter), Binders(e))
      ensures Says(output, knownEmpty, m => meaning(m) && Named(name, e, m) && claim(m))
      ensures Introduced(output) == Introduced(old(output)) + ([name] + Introduced(cmds))
    {
      hide CommandHolds, Named, WellFormed, AllEmpty, Introduced, Simplify, CompileToplevel, Advanced, Safe, Fine;
      ghost var c, before := counter, output;
      var sexp := Body(e);
      output := output + ([DefineFun(name, sexp)] + cmds);
      IntroducedConcat(before, [DefineFun(name, sexp)] + cmds);
      IntroducedConcat([DefineFun(name, sexp)], cmds);
      IntroducedOne(DefineFun(name, sexp));
      forall m | WellFormed(m)
        ensures Satisfied(output, m) == (meaning(m) && Named(name, e, m) && claim(m))
        ensures meaning(m) ==> AllEmpty(m, knownEmpty)
      {
        SatisfiedConcat(before, [DefineFun(name, sexp)] + cmds, m);
        SatisfiedConcat([DefineFun(name, sexp)], cmds, m);
        assert Satisfied([DefineFun(name, sexp)], m) == CommandHolds(DefineFun(name, sexp), m);
        if meaning(m) { NamedMeans(name, e, c, knownEmpty, m); }
      }
    }

    method CompileLet(bindings: seq<(string, Exp<Ty>)>, ghost meaning: Interp -> bool)
      requires (forall e | e in ExpsOf(LetDef(bindings)) :: Fine(e))
      requires Safe(counter, Demand(ExpsOf(LetDef(bindings))))
      requires Says(output, knownEmpty, meaning)
      modifies this
      ensures counter == Advanced(old(counter), Demand(ExpsOf(LetDef(bindings))))
      ensures Says(output, knownEmpty, m => meaning(m) && LetHolds(bindings, m))
      ensures Introduced(output) == Introduced(old(output)) + Bound(LetDef(bindings))
    {
      hide *;
      ghost var es := ExpsOf(LetDef(bindings));
      ghost var start := counter;
      LetStart(output, knownEmpty, bindings, start, meaning);
      for i := 0 to |bindings|
        invariant counter == Advanced(start, Demand(es[..i])) && Safe(start, Demand(es))
        invariant Says(output, knownEmpty, m => meaning(m) && LetHolds(bindings[..i], m))
        invariant Introduced(output) == Introduced(old(output)) + Bound(LetDef(bindings[..i]))
      {
        ghost var sofar := m => meaning(m) && LetHolds(bindings[..i], m);
        LetStep(bindings, i);
        DemandStep(es, i);
        SafeStep(start, Demand(es[..i]), Binders(bindings[i].1), Demand(es));
        Define(bindings[i].0, bindings[i].1, sofar);
        LetGrows(output, knownEmpty, bindings, i, meaning, sofar);
      }
      assert bindings[..|bindings|] == bindings;
    }

    /** One iteration of the compiler's loop: definition number `i`. */
    method CompileDef(def: Def, i: nat, ghost meaning: Interp -> bool)
      requires FineDef(def)
      requires Safe(counter, Demand(ExpsOf(def)))
      requires Says(output, knownEmpty, meaning)
      modifies this
      ensures counter == Advanced(old(counter), Demand(ExpsOf(def)))
      ensures Says(output, knownEmpty, m => meaning(m) && DefHolds(def, i, m))
      ensures Introduced(output) == Introduced(old(output)) + NamesOf(def, i)
    {
      hide WellFormed, Named, ClosedAround, LetHolds, Satisfied, Introduced, ClosureCommands, AllEmpty,
           CheckCommands, Fine, RelOf, Closures.FieldReflexive;
      match def {
        case LetDef(bindings) => CompileLet(bindings, meaning);
        case TClosure(id, e) =>
          forall m | WellFormed(m) && Named("TC:" + id, e, m) { ClosureMeans("TC:" + id, id, e, m); }
          ClosureIntroduces("TC:" + id, id);
          DefineHelper("TC:" + id, e, ClosureCommands("TC:" + id, id), meaning, m => ClosedAround(id, e, m));
        case RTClosure(id, e) =>
          var cmds := ClosureCommands("RTC:" + id, id) + [AssertFieldReflexive(id)];
          ghost var claim := m => ClosedAround(id, e, m) && Closures.FieldReflexive(m.dom, RelOf(m, id));
          forall m | WellFormed(m) && Named("RTC:" + id, e, m)
            ensures Satisfied(cmds, m) == claim(m)
          {
            ReflexiveClosureMeans(id, e, m);
          }
          ReflexiveIntroduces(id);
          DefineHelper("RTC:" + id, e, cmds, meaning, claim);
        case CheckDef(check, e, optId) =>
          var id := IdOf(optId, i);
          forall m | WellFormed(m) && Named("check:" + id, e, m) { CheckMeans(check, id, e, m); }
          CheckIntroduces(check, id);
          DefineHelper("check:" + id, e, CheckCommands(check, id), meaning, m => CheckHolds(check, e, id, m));
        case Other =>
      }
    }
  }

  lemma LetStart(out: seq<Command>, known: set<string>, bindings: seq<(string, Exp<Ty>)>, start: EventId,
                 meaning: Interp -> bool)
    requires Says(out, known, meaning) && Safe(start, Demand(ExpsOf(LetDef(bindings))))
    ensures Says(out, known, m => meaning(m) && LetHolds(bindings[..0], m))
    ensures |ExpsOf(LetDef(bindings))| == |bindings| && ExpsOf(LetDef(bindings))[..|bindings|] == ExpsOf(LetDef(bindings))
    ensures start == Advanced(start, Demand(ExpsOf(LetDef(bindings))[..0]))
    ensures Bound(LetDef(bindings[..0])) == []
  {
    assert ExpsOf(LetDef(bindings))[..0] == [];
    hide Satisfied, AllEmpty, WellFormed;
  }

  lemma LetStep(bindings: seq<(string, Exp<Ty>)>, i: nat)
    requires i < |bindings|
    ensures var es := ExpsOf(LetDef(bindings)); |es| == |bindings| && es[i] == bindings[i].1 && es[i] in es
    ensures Bound(LetDef(bindings[..i + 1])) == Bound(LetDef(bindings[..i])) + [bindings[i].0]
  {
  }

  lemma LetGrows(out: seq<Command>, known: set<string>, bindings: seq<(string, Exp<Ty>)>, i: nat,
                 meaning: Interp -> bool, sofar: Interp -> bool)
    requires i < |bindings| && forall m :: sofar(m) == (meaning(m) && LetHolds(bindings[..i], m))
    requires Says(out, known, m => sofar(m) && BindingHolds((bindings[i].0, bindings[i].1), m))
    ensures Says(out, known, m => meaning(m) && LetHolds(bindings[..i + 1], m))
  {
    assert bindings[..i + 1] == bindings[..i] + [bindings[i]];
    hide Satisfied, AllEmpty, BindingHolds, WellFormed;
  }

  lemma {:induction false} DemandStep(es: seq<Exp<Ty>>, i: nat)
    requires i < |es|
    ensures Demand(es[..i + 1]) == Demand(es[..i]) + Binders(es[i])
    ensures Demand(es[..i + 1]) <= Demand(es)
    decreases i
  {
    if i == 0 {
      assert es[..1][1..] == [] && es[..0] == [];
    } else {
      DemandStep(es[1..], i - 1);
      assert es[..i + 1][1..] == es[1..][..i] && es[..i][1..] == es[1..][..i - 1];
    }
  }

  lemma {:induction false} ModelDemandStep(defs: seq<Def>, i: nat)
    requires i < |defs|
    ensures ModelDemand(defs[..i + 1]) == ModelDemand(defs[..i]) + Demand(ExpsOf(defs[i]))
    ensures ModelDemand(defs[..i + 1]) <= ModelDemand(defs)
    decreases i
  {
    if i == 0 {
      assert defs[..1][1..] == [] && defs[..0] == [];
    } else {
      ModelDemandStep(defs[1..], i - 1);
      assert defs[..i + 1][1..] == defs[1..][..i] && defs[..i][1..] == defs[1..][..i - 1];
    }
  }

  lemma ModelSnoc(defs: seq<Def>, i: nat, m: Interp)
    requires i < |defs|
    ensures ModelHolds(defs[..i + 1], m) == (ModelHolds(defs[..i], m) && DefHolds(defs[i], i, m))
  {
  }

  /** Compiling a well-typed model succeeds, and the emitted commands hold in exactly the
      interpretations the model describes, from any state of the counter of fresh names, as long as none
      of the names it gives is an argument of a toplevel formula. */
  method CompileCat(defs: seq<Def>, start: EventId) returns (output: seq<Command>)
    requires forall d | d in defs :: FineDef(d)
    requires Safe(start, ModelDemand(defs))
    ensures forall m | WellFormed(m) :: Satisfied(output, m) <==> ModelHolds(defs, m)
    ensures PlainNames(defs) ==> (Unique(Introduced(output)) <==> Unique(AllBound(defs)) && Unique(AllTagged(defs)))
  {
    hide *;
    var comp := new Compilation(start);
    ModelStart(defs, start);
    for i := 0 to |defs|
      invariant comp.counter == Advanced(start, ModelDemand(defs[..i])) && Safe(start, ModelDemand(defs))
      invariant Says(comp.output, comp.knownEmpty, m => ModelHolds(defs[..i], m))
      invariant Introduced(comp.output) == AllNames(defs[..i])
    {
      ModelDemandStep(defs, i);
      AllNamesStep(defs, i);
      SafeStep(start, ModelDemand(defs[..i]), Demand(ExpsOf(defs[i])), ModelDemand(defs));
      ghost var sofar := m => ModelHolds(defs[..i], m);
      comp.CompileDef(defs[i], i, sofar);
      ModelGrows(comp.output, comp.knownEmpty, defs, i, sofar);
    }
    output := comp.output;
    ModelSaid(output, comp.knownEmpty, defs);
    if PlainNames(defs) { UniqueExactly(defs); }
  }

  lemma AllNamesStep(defs: seq<Def>, i: nat)
    requires i < |defs|
    ensures AllNames(defs[..i + 1]) == AllNames(defs[..i]) + NamesOf(defs[i], i)
  {
    assert defs[..i + 1][..i] == defs[..i];
  }

  lemma ModelStart(defs: seq<Def>, start: EventId)
    requires Safe(start, ModelDemand(defs))
    ensures start == Advanced(start, ModelDemand(defs[..0]))
    ensures Says([], {}, m => ModelHolds(defs[..0], m))
    ensures Introduced([]) == AllNames(defs[..0])
  {
  }

  lemma ModelGrows(out: seq<Command>, known: set<string>, defs: seq<Def>, i: nat, sofar: Interp -> bool)
    requires i < |defs| && forall m :: sofar(m) == ModelHolds(defs[..i], m)
    requires Says(out, known, m => sofar(m) && DefHolds(defs[i], i, m))
    ensures Says(out, known, m => ModelHolds(defs[..i + 1], m))
  {
    var before, after := (m: Interp) => sofar(m) && DefHolds(defs[i], i, m), (m: Interp) => ModelHolds(defs[..i + 1], m);
    assert Says(out, known, before);
    hide Satisfied, AllEmpty, ModelHolds, DefHolds;
    forall m | WellFormed(m)
      ensures Satisfied(out, m) == after(m) && (after(m) ==> AllEmpty(m, known))
    {
      ModelSnoc(defs, i, m);
      assert before(m) == after(m);
    }
  }

  lemma ModelSaid(out: seq<Command>, known: set<string>, defs: seq<Def>)
    requires Says(out, known, m => ModelHolds(defs[..|defs|], m))
    ensures forall m | WellFormed(m) :: Satisfied(out, m) <==> ModelHolds(defs, m)
    ensures defs[..|defs|] == defs
  {
    assert defs[..|defs|] == defs;
    hide Satisfied, ModelHolds;
  }
}
