/** The S-expressions the cat compiler emits, their meaning, and the simplifier. */
module Sexps {

  type EventId = nat
  type Event = nat

  datatype Sexp =
    | True
    | False
    | Var(id: EventId)
    | Literal(name: string)
    | RelApp(rel: string, ev1: EventId, ev2: EventId)
    | SetApp(st: string, ev: EventId)
    | Or(sexps: seq<Sexp>)
    | And(sexps: seq<Sexp>)
    | Not(sexp: Sexp)
    | IfThenElse(cond: Sexp, thn: Sexp, els: Sexp)
    | Eq(lhs: Sexp, rhs: Sexp)
    | Exists(bound: EventId, body: Sexp)
    | Implies(lhs: Sexp, rhs: Sexp)

  /** An SMT interpretation: the events, the named relations and sets, and the named constants. */
  datatype Interp = Interp(
    dom: iset<Event>,
    rels: map<string, iset<(Event, Event)>>,
    sets: map<string, iset<Event>>,
    consts: map<string, Event>)
  {
    ghost predicate Rel(name: string, x: Event, y: Event) { name in rels && (x, y) in rels[name] }

    ghost predicate Member(name: string, x: Event) { name in sets && x in sets[name] }

    function Const(name: string): Event { if name in consts then consts[name] else 0 }
  }

  type Env = map<EventId, Event>

  function Lookup(env: Env, v: EventId): Event { if v in env then env[v] else 0 }

  datatype Value = B(b: bool) | E(event: Event)

  ghost function Eval(s: Sexp, m: Interp, env: Env): Value
    decreases s, 0
  {
    match s
    case True => B(true)
    case False => B(false)
    case Var(id) => E(Lookup(env, id))
    case Literal(name) => E(m.Const(name))
    case RelApp(r, e1, e2) => B(m.Rel(r, Lookup(env, e1), Lookup(env, e2)))
    case SetApp(r, e) => B(m.Member(r, Lookup(env, e)))
    case Or(ss) => B(SomeHolds(ss, m, env))
    case And(ss) => B(AllHold(ss, m, env))
    case Not(x) => B(!Holds(x, m, env))
    case IfThenElse(c, t, e) => if Holds(c, m, env) then Eval(t, m, env) else Eval(e, m, env)
    case Eq(l, r) => B(Eval(l, m, env) == Eval(r, m, env))
    case Exists(v, body) => B(exists x | x in m.dom :: Holds(body, m, env[v := x]))
    case Implies(l, r) => B(Holds(l, m, env) ==> Holds(r, m, env))
  }

  ghost predicate Holds(s: Sexp, m: Interp, env: Env)
    decreases s, 1
  {
    Eval(s, m, env) == B(true)
  }

  ghost predicate AllHold(ss: seq<Sexp>, m: Interp, env: Env)
    decreases ss, 0
  {
    ss == [] || (Holds(ss[0], m, env) && AllHold(ss[1..], m, env))
  }

  ghost predicate SomeHolds(ss: seq<Sexp>, m: Interp, env: Env)
    decreases ss, 0
  {
    ss != [] && (Holds(ss[0], m, env) || SomeHolds(ss[1..], m, env))
  }

  /** The two SMT sorts; the solver accepts no other S-expression. */
  predicate IsBool(s: Sexp)
    decreases s
  {
    match s
    case True => true
    case False => true
    case Var(_) => false
    case Literal(_) => false
    case RelApp(_, _, _) => true
    case SetApp(_, _) => true
    case Or(ss) => AllBool(ss)
    case And(ss) => AllBool(ss)
    case Not(x) => IsBool(x)
    case IfThenElse(c, t, e) => IsBool(c) && IsBool(t) && IsBool(e)
    case Eq(l, r) => (IsBool(l) && IsBool(r)) || (IsEvent(l) && IsEvent(r))
    case Exists(_, body) => IsBool(body)
    case Implies(l, r) => IsBool(l) && IsBool(r)
  }

  predicate AllBool(ss: seq<Sexp>)
    decreases ss
  {
    ss == [] || (IsBool(ss[0]) && AllBool(ss[1..]))
  }

  predicate IsEvent(s: Sexp)
    decreases s
  {
    match s
    case Var(_) => true
    case Literal(_) => true
    case IfThenElse(c, t, e) => IsBool(c) && IsEvent(t) && IsEvent(e)
    case _ => false
  }

  function DropTrue(ss: seq<Sexp>): seq<Sexp>
  {
    if ss == [] then [] else (if ss[0].True? then [] else [ss[0]]) + DropTrue(ss[1..])
  }

  function DropFalse(ss: seq<Sexp>): seq<Sexp>
  {
    if ss == [] then [] else (if ss[0].False? then [] else [ss[0]]) + DropFalse(ss[1..])
  }

  function FlattenAnd(s: Sexp): seq<Sexp> { if s.And? then s.sexps else [s] }

  function FlattenOr(s: Sexp): seq<Sexp> { if s.Or? then s.sexps else [s] }

  function FlatMapAnd(ss: seq<Sexp>): seq<Sexp> {
    if ss == [] then [] else FlattenAnd(ss[0]) + FlatMapAnd(ss[1..])
  }

  function FlatMapOr(ss: seq<Sexp>): seq<Sexp> {
    if ss == [] then [] else FlattenOr(ss[0]) + FlatMapOr(ss[1..])
  }

  function StepAnd(all: seq<Sexp>): Sexp {
    var ss := DropTrue(all);
    if ss == [] then True
    else if |ss| == 1 then ss[0]
    else if exists x | x in ss :: x.False? then False
    else if exists x | x in ss :: x.And? then And(FlatMapAnd(ss))
    else And(ss)
  }

  function StepOr(all: seq<Sexp>): Sexp {
    var ss := DropFalse(all);
    if ss == [] then False
    else if |ss| == 1 then ss[0]
    else if exists x | x in ss :: x.True? then True
    else if exists x | x in ss :: x.Or? then Or(FlatMapOr(ss))
    else Or(ss)
  }

  function SimplificationStep(s: Sexp, knownEmpty: set<string>): Sexp {
    match s
    case RelApp(r, _, _) => if r in knownEmpty then False else s
    case SetApp(r, _) => if r in knownEmpty then False else s
    case And(ss) => StepAnd(ss)
    case Or(ss) => StepOr(ss)
    case IfThenElse(c, t, e) => if c.True? then t else if c.False? then e else s
    case Not(x) => if x.Not? then x.sexp else if x.True? then False else if x.False? then True else s
    case Exists(_, body) => if body.False? then False else if body.True? then True else s
    case _ => s
  }

  /** `simplify`: one simplification step at every node, bottom up. */
  function Simplify(s: Sexp, knownEmpty: set<string>): Sexp
    decreases s, 2
  {
    SimplificationStep(SimplifyChildren(s, knownEmpty), knownEmpty)
  }

  function SimplifyChildren(s: Sexp, knownEmpty: set<string>): Sexp
    decreases s, 1
  {
    match s
    case Not(x) => Not(Simplify(x, knownEmpty))
    case Exists(v, body) => Exists(v, Simplify(body, knownEmpty))
    case Implies(l, r) => Implies(Simplify(l, knownEmpty), Simplify(r, knownEmpty))
    case Eq(l, r) => Eq(Simplify(l, knownEmpty), Simplify(r, knownEmpty))
    case IfThenElse(c, t, e) =>
      IfThenElse(Simplify(c, knownEmpty), Simplify(t, knownEmpty), Simplify(e, knownEmpty))
    case And(ss) => And(SimplifyAll(ss, knownEmpty))
    case Or(ss) => Or(SimplifyAll(ss, knownEmpty))
    case _ => s
  }

  function SimplifyAll(ss: seq<Sexp>, knownEmpty: set<string>): (r: seq<Sexp>)
    decreases ss, 0
  {
    if ss == [] then [] else [Simplify(ss[0], knownEmpty)] + SimplifyAll(ss[1..], knownEmpty)
  }

  /** Every name in the set denotes the empty relation and the empty set. */
  ghost predicate AllEmpty(m: Interp, names: set<string>) {
    forall r | r in names :: (forall x, y :: !m.Rel(r, x, y)) && (forall x :: !m.Member(r, x))
  }

  // ----- one step preserves sort and value

  lemma {:induction false} BoolValue(s: Sexp, m: Interp, env: Env)
    ensures IsBool(s) ==> Eval(s, m, env).B?
    ensures IsEvent(s) ==> Eval(s, m, env).E? && !IsBool(s)
    decreases s
  {
    if s.IfThenElse? {
      BoolValue(s.thn, m, env);
      BoolValue(s.els, m, env);
    }
  }

  lemma {:induction false} AllConcat(a: seq<Sexp>, b: seq<Sexp>, m: Interp, env: Env)
    ensures AllHold(a + b, m, env) == (AllHold(a, m, env) && AllHold(b, m, env))
    ensures SomeHolds(a + b, m, env) == (SomeHolds(a, m, env) || SomeHolds(b, m, env))
    ensures AllBool(a + b) == (AllBool(a) && AllBool(b))
    decreases a
  {
    if a == [] {
      assert a + b == b;
    } else {
      AllConcat(a[1..], b, m, env);
      assert (a + b)[1..] == a[1..] + b;
    }
  }

  lemma Single(x: Sexp, m: Interp, env: Env)
    ensures AllHold([x], m, env) == Holds(x, m, env) == SomeHolds([x], m, env)
    ensures AllBool([x]) == IsBool(x)
    ensures IsBool(x) && x.And? ==> AllBool(x.sexps) && Holds(x, m, env) == AllHold(x.sexps, m, env)
    ensures IsBool(x) && x.Or? ==> AllBool(x.sexps) && Holds(x, m, env) == SomeHolds(x.sexps, m, env)
  {
    assert [x][1..] == [];
  }

  lemma {:induction false} InAll(ss: seq<Sexp>, x: Sexp, m: Interp, env: Env)
    requires x in ss
    ensures AllHold(ss, m, env) ==> Holds(x, m, env)
    ensures Holds(x, m, env) ==> SomeHolds(ss, m, env)
    decreases ss
  {
    if x != ss[0] { InAll(ss[1..], x, m, env); }
  }

  lemma {:induction false} DropTrueValue(ss: seq<Sexp>, m: Interp, env: Env)
    ensures AllHold(DropTrue(ss), m, env) == AllHold(ss, m, env)
    ensures AllBool(ss) ==> AllBool(DropTrue(ss))
    decreases ss
  {
    if ss != [] {
      DropTrueValue(ss[1..], m, env);
      AllConcat(if ss[0].True? then [] else [ss[0]], DropTrue(ss[1..]), m, env);
    }
  }

  lemma {:induction false} DropFalseValue(ss: seq<Sexp>, m: Interp, env: Env)
    ensures SomeHolds(DropFalse(ss), m, env) == SomeHolds(ss, m, env)
    ensures AllBool(ss) ==> AllBool(DropFalse(ss))
    decreases ss
  {
    if ss != [] {
      DropFalseValue(ss[1..], m, env);
      AllConcat(if ss[0].False? then [] else [ss[0]], DropFalse(ss[1..]), m, env);
    }
  }

  lemma {:induction false} FlatAndValue(ss: seq<Sexp>, m: Interp, env: Env)
    requires AllBool(ss)
    ensures AllBool(FlatMapAnd(ss)) && AllHold(FlatMapAnd(ss), m, env) == AllHold(ss, m, env)
    decreases ss
  {
    if ss != [] {
      FlatAndValue(ss[1..], m, env);
      AllConcat(FlattenAnd(ss[0]), FlatMapAnd(ss[1..]), m, env);
      Single(ss[0], m, env);
    }
  }

  lemma {:induction false} FlatOrValue(ss: seq<Sexp>, m: Interp, env: Env)
    requires AllBool(ss)
    ensures AllBool(FlatMapOr(ss)) && SomeHolds(FlatMapOr(ss), m, env) == SomeHolds(ss, m, env)
    decreases ss
  {
    if ss != [] {
      FlatOrValue(ss[1..], m, env);
      AllConcat(FlattenOr(ss[0]), FlatMapOr(ss[1..]), m, env);
      Single(ss[0], m, env);
    }
  }

  lemma StepAndValue(all: seq<Sexp>, m: Interp, env: Env)
    requires AllBool(all)
    ensures IsBool(StepAnd(all)) && Eval(StepAnd(all), m, env) == B(AllHold(all, m, env))
  {
    DropTrueValue(all, m, env);
    var ss := DropTrue(all);
    if |ss| == 1 {
      BoolValue(ss[0], m, env);
    } else if exists x | x in ss :: x.False? {
      var x :| x in ss && x.False?;
      InAll(ss, x, m, env);
    } else {
      FlatAndValue(ss, m, env);
    }
  }

  lemma StepOrValue(all: seq<Sexp>, m: Interp, env: Env)
    requires AllBool(all)
    ensures IsBool(StepOr(all)) && Eval(StepOr(all), m, env) == B(SomeHolds(all, m, env))
  {
    DropFalseValue(all, m, env);
    var ss := DropFalse(all);
    if |ss| == 1 {
      BoolValue(ss[0], m, env);
    } else if exists x | x in ss :: x.True? {
      var x :| x in ss && x.True?;
      InAll(ss, x, m, env);
    } else {
      FlatOrValue(ss, m, env);
    }
  }

  lemma StepValue(s: Sexp, knownEmpty: set<string>, m: Interp, env: Env)
    requires IsBool(s) || IsEvent(s)
    requires AllEmpty(m, knownEmpty) && exists x :: x in m.dom
    ensures IsBool(s) ==> IsBool(SimplificationStep(s, knownEmpty))
    ensures IsEvent(s) ==> IsEvent(SimplificationStep(s, knownEmpty))
    ensures Eval(SimplificationStep(s, knownEmpty), m, env) == Eval(s, m, env)
  {
    match s
    case And(ss) => StepAndValue(ss, m, env);
    case Or(ss) => StepOrValue(ss, m, env);
    case Not(x) =>
      if x.Not? {
        assert IsBool(s) && IsBool(x) && IsBool(x.sexp);
        BoolValue(x.sexp, m, env);
        assert Holds(x, m, env) == !Holds(x.sexp, m, env);
      }
    case IfThenElse(c, t, e) =>
    case Exists(v, body) =>
    case _ =>
  }

  // ----- simplification preserves the value

  /** In every environment, over a non-empty domain where the known names are empty, the simplified
      expression has the sort and the value of the original. */
  lemma {:induction false} SimplifyPreserves(s: Sexp, knownEmpty: set<string>, m: Interp, env: Env)
    requires IsBool(s) || IsEvent(s)
    requires AllEmpty(m, knownEmpty) && exists x :: x in m.dom
    ensures IsBool(s) ==> IsBool(Simplify(s, knownEmpty))
    ensures IsEvent(s) ==> IsEvent(Simplify(s, knownEmpty))
    ensures Eval(Simplify(s, knownEmpty), m, env) == Eval(s, m, env)
    decreases s, 2
  {
    ChildrenPreserve(s, knownEmpty, m, env);
    StepValue(SimplifyChildren(s, knownEmpty), knownEmpty, m, env);
  }

  lemma {:induction false} ChildrenPreserve(s: Sexp, knownEmpty: set<string>, m: Interp, env: Env)
    requires IsBool(s) || IsEvent(s)
    requires AllEmpty(m, knownEmpty) && exists x :: x in m.dom
    ensures IsBool(s) ==> IsBool(SimplifyChildren(s, knownEmpty))
    ensures IsEvent(s) ==> IsEvent(SimplifyChildren(s, knownEmpty))
    ensures Eval(SimplifyChildren(s, knownEmpty), m, env) == Eval(s, m, env)
    decreases s, 1
  {
    hide AllEmpty, SimplificationStep, Simplify;
    match s
    case Not(x) => SimplifyPreserves(x, knownEmpty, m, env);
    case Exists(v, body) => BodyPreserved(v, body, knownEmpty, m, env);
    case Implies(l, r) => PairPreserved(s, l, r, knownEmpty, m, env);
    case Eq(l, r) => PairPreserved(s, l, r, knownEmpty, m, env);
    case IfThenElse(c, t, e) =>
      SimplifyPreserves(c, knownEmpty, m, env);
      PairPreserved(s, t, e, knownEmpty, m, env);
    case And(ss) => AllPreserved(ss, knownEmpty, m, env);
    case Or(ss) => AllPreserved(ss, knownEmpty, m, env);
    case _ =>
  }

  lemma {:induction false} PairPreserved(s: Sexp, l: Sexp, r: Sexp, knownEmpty: set<string>, m: Interp, env: Env)
    requires l < s && r < s && (IsBool(l) || IsEvent(l)) && (IsBool(r) || IsEvent(r))
    requires AllEmpty(m, knownEmpty) && exists x :: x in m.dom
    ensures IsBool(l) ==> IsBool(Simplify(l, knownEmpty))
    ensures IsBool(r) ==> IsBool(Simplify(r, knownEmpty))
    ensures IsEvent(l) ==> IsEvent(Simplify(l, knownEmpty))
    ensures IsEvent(r) ==> IsEvent(Simplify(r, knownEmpty))
    ensures Eval(Simplify(l, knownEmpty), m, env) == Eval(l, m, env)
    ensures Eval(Simplify(r, knownEmpty), m, env) == Eval(r, m, env)
    decreases s, 0
  {
    hide *;
    SimplifyPreserves(l, knownEmpty, m, env);
    SimplifyPreserves(r, knownEmpty, m, env);
  }

  lemma {:induction false} BodyPreserved(v: EventId, body: Sexp, knownEmpty: set<string>, m: Interp, env: Env)
    requires IsBool(body)
    requires AllEmpty(m, knownEmpty) && exists x :: x in m.dom
    ensures IsBool(Simplify(body, knownEmpty))
    ensures Eval(Exists(v, Simplify(body, knownEmpty)), m, env) == Eval(Exists(v, body), m, env)
    decreases body, 3
  {
    hide AllEmpty, IsBool, IsEvent, SimplificationStep, Simplify;
    SimplifyPreserves(body, knownEmpty, m, env);
    forall x | x in m.dom
      ensures Holds(Simplify(body, knownEmpty), m, env[v := x]) <==> Holds(body, m, env[v := x])
    {
      SimplifyPreserves(body, knownEmpty, m, env[v := x]);
    }
  }

  lemma {:induction false} AllPreserved(ss: seq<Sexp>, knownEmpty: set<string>, m: Interp, env: Env)
    requires AllBool(ss)
    requires AllEmpty(m, knownEmpty) && exists x :: x in m.dom
    ensures AllBool(SimplifyAll(ss, knownEmpty))
    ensures AllHold(SimplifyAll(ss, knownEmpty), m, env) == AllHold(ss, m, env)
    ensures SomeHolds(SimplifyAll(ss, knownEmpty), m, env) == SomeHolds(ss, m, env)
    decreases ss, 0
  {
    hide AllEmpty, SimplificationStep, Simplify;
    if ss != [] {
      SimplifyPreserves(ss[0], knownEmpty, m, env);
      AllPreserved(ss[1..], knownEmpty, m, env);
      assert SimplifyAll(ss, knownEmpty)[1..] == SimplifyAll(ss[1..], knownEmpty);
    }
  }

  // ----- nothing is left to simplify

  /** No name known to be empty, no constant under an operator that has a rule for it, no doubled negation,
      no nested or trivial conjunction or disjunction. */
  predicate Normal(s: Sexp, knownEmpty: set<string>)
    decreases s
  {
    match s
    case RelApp(r, _, _) => r !in knownEmpty
    case SetApp(r, _) => r !in knownEmpty
    case And(ss) => |ss| >= 2 && AllNormal(ss, knownEmpty) && forall x | x in ss :: !x.True? && !x.False? && !x.And?
    case Or(ss) => |ss| >= 2 && AllNormal(ss, knownEmpty) && forall x | x in ss :: !x.True? && !x.False? && !x.Or?
    case Not(x) => Normal(x, knownEmpty) && !x.True? && !x.False? && !x.Not?
    case IfThenElse(c, t, e) =>
      Normal(c, knownEmpty) && Normal(t, knownEmpty) && Normal(e, knownEmpty) && !c.True? && !c.False?
    case Eq(l, r) => Normal(l, knownEmpty) && Normal(r, knownEmpty)
    case Exists(_, body) => Normal(body, knownEmpty) && !body.True? && !body.False?
    case Implies(l, r) => Normal(l, knownEmpty) && Normal(r, knownEmpty)
    case _ => true
  }

  predicate AllNormal(ss: seq<Sexp>, knownEmpty: set<string>)
    decreases ss
  {
    ss == [] || (Normal(ss[0], knownEmpty) && AllNormal(ss[1..], knownEmpty))
  }

  lemma {:induction false} NormalEach(ss: seq<Sexp>, knownEmpty: set<string>)
    ensures AllNormal(ss, knownEmpty) <==> forall x | x in ss :: Normal(x, knownEmpty)
    decreases ss
  {
    hide Normal;
    if ss != [] {
      NormalEach(ss[1..], knownEmpty);
      assert AllNormal(ss, knownEmpty) <==> Normal(ss[0], knownEmpty) && AllNormal(ss[1..], knownEmpty);
      assert forall x | x in ss :: x == ss[0] || x in ss[1..];
      assert forall x | x in ss[1..] :: x in ss;
    }
  }

  lemma {:induction false} InDropTrue(ss: seq<Sexp>)
    ensures forall x :: x in DropTrue(ss) <==> x in ss && !x.True?
    ensures (forall x | x in ss :: !x.True?) ==> DropTrue(ss) == ss
    decreases ss
  {
    if ss != [] {
      InDropTrue(ss[1..]);
      assert ss == [ss[0]] + ss[1..];
    }
  }

  lemma {:induction false} InDropFalse(ss: seq<Sexp>)
    ensures forall x :: x in DropFalse(ss) <==> x in ss && !x.False?
    ensures (forall x | x in ss :: !x.False?) ==> DropFalse(ss) == ss
    decreases ss
  {
    if ss != [] {
      InDropFalse(ss[1..]);
      assert ss == [ss[0]] + ss[1..];
    }
  }

  lemma {:induction false} InFlatAnd(ss: seq<Sexp>)
    ensures forall x :: x in FlatMapAnd(ss) <==> exists y :: y in ss && if y.And? then x in y.sexps else x == y
    ensures (forall y | y in ss :: y.And? ==> |y.sexps| >= 1) ==> |FlatMapAnd(ss)| >= |ss|
    decreases ss
  {
    if ss != [] {
      InFlatAnd(ss[1..]);
      assert ss == [ss[0]] + ss[1..];
    }
  }

  lemma {:induction false} InFlatOr(ss: seq<Sexp>)
    ensures forall x :: x in FlatMapOr(ss) <==> exists y :: y in ss && if y.Or? then x in y.sexps else x == y
    ensures (forall y | y in ss :: y.Or? ==> |y.sexps| >= 1) ==> |FlatMapOr(ss)| >= |ss|
    decreases ss
  {
    if ss != [] {
      InFlatOr(ss[1..]);
      assert ss == [ss[0]] + ss[1..];
    }
  }

  lemma PartsAnd(s: Sexp, knownEmpty: set<string>)
    requires s.And?
    ensures Normal(s, knownEmpty) <==>
              |s.sexps| >= 2 && forall x | x in s.sexps :: Normal(x, knownEmpty) && !x.True? && !x.False? && !x.And?
  {
    NormalEach(s.sexps, knownEmpty);
  }

  lemma FlatAndNormal(ss: seq<Sexp>, knownEmpty: set<string>)
    requires |ss| >= 2 && forall x | x in ss :: Normal(x, knownEmpty) && !x.True? && !x.False?
    ensures Normal(And(FlatMapAnd(ss)), knownEmpty)
  {
    hide Normal, FlatMapAnd;
    var flat := FlatMapAnd(ss);
    InFlatAnd(ss);
    forall y | y in ss && y.And? ensures |y.sexps| >= 2 {
      PartsAnd(y, knownEmpty);
    }
    forall x | x in flat ensures Normal(x, knownEmpty) && !x.True? && !x.False? && !x.And? {
      var y :| y in ss && if y.And? then x in y.sexps else x == y;
      if y.And? { PartsAnd(y, knownEmpty); }
    }
    PartsAnd(And(flat), knownEmpty);
  }

  lemma StepAndCases(all: seq<Sexp>)
    ensures var ss := DropTrue(all);
            && (|ss| == 0 ==> StepAnd(all) == True)
            && (|ss| == 1 ==> StepAnd(all) == ss[0])
            && (|ss| >= 2 && (exists x :: x in ss && x.False?) ==> StepAnd(all) == False)
            && (|ss| >= 2 && !(exists x :: x in ss && x.False?) ==>
                  StepAnd(all) == And(FlatMapAnd(ss)) || ((forall x | x in ss :: !x.And?) && StepAnd(all) == And(ss)))
  {
  }

  lemma StepAndNormal(all: seq<Sexp>, knownEmpty: set<string>)
    requires AllNormal(all, knownEmpty)
    ensures Normal(StepAnd(all), knownEmpty)
  {
    assert Normal(True, knownEmpty) && Normal(False, knownEmpty);
    hide *;
    var ss := DropTrue(all);
    InDropTrue(all);
    NormalEach(all, knownEmpty);
    StepAndCases(all);
    if |ss| >= 2 && !(exists x :: x in ss && x.False?) {
      FlatAndNormal(ss, knownEmpty);
      PartsAnd(And(ss), knownEmpty);
    }
  }

  lemma PartsOr(s: Sexp, knownEmpty: set<string>)
    requires s.Or?
    ensures Normal(s, knownEmpty) <==>
              |s.sexps| >= 2 && forall x | x in s.sexps :: Normal(x, knownEmpty) && !x.True? && !x.False? && !x.Or?
  {
    NormalEach(s.sexps, knownEmpty);
  }

  lemma FlatOrNormal(ss: seq<Sexp>, knownEmpty: set<string>)
    requires |ss| >= 2 && forall x | x in ss :: Normal(x, knownEmpty) && !x.True? && !x.False?
    ensures Normal(Or(FlatMapOr(ss)), knownEmpty)
  {
    hide Normal, FlatMapOr;
    var flat := FlatMapOr(ss);
    InFlatOr(ss);
    forall y | y in ss && y.Or? ensures |y.sexps| >= 2 {
      PartsOr(y, knownEmpty);
    }
    forall x | x in flat ensures Normal(x, knownEmpty) && !x.True? && !x.False? && !x.Or? {
      var y :| y in ss && if y.Or? then x in y.sexps else x == y;
      if y.Or? { PartsOr(y, knownEmpty); }
    }
    PartsOr(Or(flat), knownEmpty);
  }

  lemma StepOrCases(all: seq<Sexp>)
    ensures var ss := DropFalse(all);
            && (|ss| == 0 ==> StepOr(all) == False)
            && (|ss| == 1 ==> StepOr(all) == ss[0])
            && (|ss| >= 2 && (exists x :: x in ss && x.True?) ==> StepOr(all) == True)
            && (|ss| >= 2 && !(exists x :: x in ss && x.True?) ==>
                  StepOr(all) == Or(FlatMapOr(ss)) || ((forall x | x in ss :: !x.Or?) && StepOr(all) == Or(ss)))
  {
  }

  lemma StepOrNormal(all: seq<Sexp>, knownEmpty: set<string>)
    requires AllNormal(all, knownEmpty)
    ensures Normal(StepOr(all), knownEmpty)
  {
    assert Normal(True, knownEmpty) && Normal(False, knownEmpty);
    hide *;
    var ss := DropFalse(all);
    InDropFalse(all);
    NormalEach(all, knownEmpty);
    StepOrCases(all);
    if |ss| >= 2 && !(exists x :: x in ss && x.True?) {
      FlatOrNormal(ss, knownEmpty);
      PartsOr(Or(ss), knownEmpty);
    }
  }

  predicate ChildrenNormal(s: Sexp, knownEmpty: set<string>) {
    match s
    case And(ss) => AllNormal(ss, knownEmpty)
    case Or(ss) => AllNormal(ss, knownEmpty)
    case Not(x) => Normal(x, knownEmpty)
    case IfThenElse(c, t, e) => Normal(c, knownEmpty) && Normal(t, knownEmpty) && Normal(e, knownEmpty)
    case Eq(l, r) => Normal(l, knownEmpty) && Normal(r, knownEmpty)
    case Exists(_, body) => Normal(body, knownEmpty)
    case Implies(l, r) => Normal(l, knownEmpty) && Normal(r, knownEmpty)
    case _ => true
  }

  /** The step at a node whose children are in normal form reaches it. */
  lemma StepNormal(s: Sexp, knownEmpty: set<string>)
    requires ChildrenNormal(s, knownEmpty)
    ensures Normal(SimplificationStep(s, knownEmpty), knownEmpty)
  {
    match s
    case And(ss) => StepAndNormal(ss, knownEmpty);
    case Or(ss) => StepOrNormal(ss, knownEmpty);
    case _ =>
  }

  lemma {:induction false} SimplifyNormal(s: Sexp, knownEmpty: set<string>)
    ensures Normal(Simplify(s, knownEmpty), knownEmpty)
    decreases s, 1
  {
    match s {
      case And(ss) => AllSimplifyNormal(ss, knownEmpty);
      case Or(ss) => AllSimplifyNormal(ss, knownEmpty);
      case Not(x) => SimplifyNormal(x, knownEmpty);
      case IfThenElse(c, t, e) =>
        SimplifyNormal(c, knownEmpty);
        SimplifyNormal(t, knownEmpty);
        SimplifyNormal(e, knownEmpty);
      case Eq(l, r) =>
        SimplifyNormal(l, knownEmpty);
        SimplifyNormal(r, knownEmpty);
      case Exists(_, body) => SimplifyNormal(body, knownEmpty);
      case Implies(l, r) =>
        SimplifyNormal(l, knownEmpty);
        SimplifyNormal(r, knownEmpty);
      case _ =>
    }
    hide SimplificationStep, Normal;
    StepNormal(SimplifyChildren(s, knownEmpty), knownEmpty);
  }

  lemma {:induction false} AllSimplifyNormal(ss: seq<Sexp>, knownEmpty: set<string>)
    ensures AllNormal(SimplifyAll(ss, knownEmpty), knownEmpty)
    decreases ss, 0
  {
    hide Normal, Simplify;
    if ss != [] {
      SimplifyNormal(ss[0], knownEmpty);
      AllSimplifyNormal(ss[1..], knownEmpty);
      assert SimplifyAll(ss, knownEmpty)[1..] == SimplifyAll(ss[1..], knownEmpty);
    }
  }

  lemma {:induction false} NormalStays(s: Sexp, knownEmpty: set<string>)
    requires Normal(s, knownEmpty)
    ensures Simplify(s, knownEmpty) == s
    decreases s, 1
  {
    match s
    case And(ss) =>
      AllNormalStay(ss, knownEmpty);
      InDropTrue(ss);
    case Or(ss) =>
      AllNormalStay(ss, knownEmpty);
      InDropFalse(ss);
    case Not(x) => NormalStays(x, knownEmpty);
    case IfThenElse(c, t, e) =>
      NormalStays(c, knownEmpty);
      NormalStays(t, knownEmpty);
      NormalStays(e, knownEmpty);
    case Eq(l, r) =>
      NormalStays(l, knownEmpty);
      NormalStays(r, knownEmpty);
    case Exists(_, body) => NormalStays(body, knownEmpty);
    case Implies(l, r) =>
      NormalStays(l, knownEmpty);
      NormalStays(r, knownEmpty);
    case _ =>
  }

  lemma {:induction false} AllNormalStay(ss: seq<Sexp>, knownEmpty: set<string>)
    requires AllNormal(ss, knownEmpty)
    ensures SimplifyAll(ss, knownEmpty) == ss
    decreases ss, 0
  {
    hide Normal, Simplify;
    if ss != [] {
      NormalStays(ss[0], knownEmpty);
      AllNormalStay(ss[1..], knownEmpty);
    }
  }

  /** One pass is enough: the result is in normal form, and simplifying leaves exactly the normal forms
      as they are. */
  lemma SimplifyExact(s: Sexp, knownEmpty: set<string>)
    ensures Normal(Simplify(s, knownEmpty), knownEmpty)
    ensures Simplify(s, knownEmpty) == s <==> Normal(s, knownEmpty)
    ensures Simplify(Simplify(s, knownEmpty), knownEmpty) == Simplify(s, knownEmpty)
  {
    hide *;
    SimplifyNormal(s, knownEmpty);
    if Normal(s, knownEmpty) { NormalStays(s, knownEmpty); }
    NormalStays(Simplify(s, knownEmpty), knownEmpty);
  }
}
