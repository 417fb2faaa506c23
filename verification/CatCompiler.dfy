/** The compiler from cat expressions to S-expressions, and the proof that it preserves meaning. */
module CatCompiler {
  import opened Sexps
  import opened CatExps

  /** The counter behind fresh event names is a 32-bit word that wraps around. */
  const U32 := 0x1_0000_0000

  const FIRST_FRESH: EventId := 3

  function Next(c: EventId): EventId { (c + 1) % U32 }

  /** `Invalid` is the `None` of the program, `Panic` its abort on an unfinished case. */
  datatype Compiled = Ok(sexp: Sexp) | Invalid | Panic

  /** The state of a compilation: its result so far and the next fresh name. */
  datatype Out = Out(r: Compiled, c: EventId) {
    function Sexp(): Sexp { if r.Ok? then r.sexp else False }

    /** The `?` operator: a failure ends the whole compilation. */
    function Then(next: Out): Out { if r.Ok? then next else this }

    function Build(s: Sexp): Out { if r.Ok? then Out(Ok(s), c) else this }
  }

  /** Compiles `e` to "`ev` is in `e`". */
  function CompileSet(e: Exp<Ty>, ev: EventId, c: EventId): Out {
    match e
    case Empty(_) => Out(Ok(False), c)
    case Id(name, _) => Out(Ok(if name == "emptyset" then False else if name == "_" then True else SetApp(name, ev)), c)
    case TryWith(x, y, _) =>
      var l := CompileSet(x, ev, c);
      if l.r.Invalid? then CompileSet(y, ev, l.c) else l
    case Union(x, y, _) =>
      var l := CompileSet(x, ev, c);
      var r := CompileSet(y, ev, l.c);
      l.Then(r.Build(Or([l.Sexp(), r.Sexp()])))
    case Inter(x, y, _) =>
      var l := CompileSet(x, ev, c);
      var r := CompileSet(y, ev, l.c);
      l.Then(r.Build(And([l.Sexp(), r.Sexp()])))
    case Diff(x, y, _) =>
      var l := CompileSet(x, ev, c);
      var r := CompileSet(y, ev, l.c);
      l.Then(r.Build(And([l.Sexp(), Not(r.Sexp())])))
    case Seq(_, _) => Out(Invalid, c)
    case Cartesian(_, _) => Out(Invalid, c)
    case Compl(x, _) =>
      var l := CompileSet(x, ev, c);
      l.Build(Not(l.Sexp()))
    case Identity(_) => Out(Invalid, c)
    case IdentityUnion(_) => Out(Invalid, c)
    case Inverse(_) => Out(Invalid, c)
    case App(f, x, _) =>
      if f != "range" then Out(Panic, c)
      else
        var l := CompileRel(x, c, ev, Next(c));
        l.Build(Exists(c, l.Sexp()))
    case Let(_, _, _, _) => Out(Panic, c)
  }

  /** Compiles `e` to "(`ev1`, `ev2`) is in `e`". */
  function CompileRel(e: Exp<Ty>, ev1: EventId, ev2: EventId, c: EventId): Out {
    match e
    case Empty(_) => Out(Ok(False), c)
    case Id(name, _) => Out(Ok(if name == "id" then Eq(Var(ev1), Var(ev2)) else RelApp(name, ev1, ev2)), c)
    case TryWith(x, y, _) =>
      var l := CompileRel(x, ev1, ev2, c);
      if l.r.Invalid? then CompileRel(y, ev1, ev2, l.c) else l
    case Union(x, y, _) =>
      var l := CompileRel(x, ev1, ev2, c);
      var r := CompileRel(y, ev1, ev2, l.c);
      l.Then(r.Build(Or([l.Sexp(), r.Sexp()])))
    case Inter(x, y, _) =>
      var l := CompileRel(x, ev1, ev2, c);
      var r := CompileRel(y, ev1, ev2, l.c);
      l.Then(r.Build(And([l.Sexp(), r.Sexp()])))
    case Diff(x, y, _) =>
      var l := CompileRel(x, ev1, ev2, c);
      var r := CompileRel(y, ev1, ev2, l.c);
      l.Then(r.Build(And([l.Sexp(), Not(r.Sexp())])))
    case Seq(x, y) =>
      var l := CompileRel(x, ev1, c, Next(c));
      var r := CompileRel(y, c, ev2, l.c);
      l.Then(r.Build(Exists(c, And([l.Sexp(), r.Sexp()]))))
    case Cartesian(x, y) =>
      var l := CompileSet(x, ev1, c);
      var r := CompileSet(y, ev2, l.c);
      l.Then(r.Build(And([l.Sexp(), r.Sexp()])))
    case Compl(x, _) =>
      var l := CompileRel(x, ev1, ev2, c);
      l.Build(Not(l.Sexp()))
    case Identity(x) =>
      var l := CompileSet(x, ev1, c);
      var r := CompileSet(x, ev2, l.c);
      l.Then(r.Build(And([l.Sexp(), r.Sexp(), Eq(Var(ev1), Var(ev2))])))
    case IdentityUnion(x) =>
      var l := CompileRel(x, ev1, ev2, c);
      l.Build(Or([l.Sexp(), Eq(Var(ev1), Var(ev2))]))
    case Inverse(x) => CompileRel(x, ev2, ev1, c)
    case App(_, _, _) => Out(Ok(False), c)
    case Let(_, _, _, _) => Out(Panic, c)
  }

  function CompileToplevel(e: Exp<Ty>, c: EventId): Out {
    if TyOf(e).Set? then CompileSet(e, 1, c) else CompileRel(e, 1, 2, c)
  }

  // ----- well-typed expressions compile

  /** How many fresh names compiling `e` takes. */
  function Binders(e: Exp<Ty>): nat {
    match e
    case Empty(_) => 0
    case Id(_, _) => 0
    case Let(_, _, _, _) => 0
    case TryWith(x, _, _) => Binders(x)
    case Union(x, y, _) => Binders(x) + Binders(y)
    case Inter(x, y, _) => Binders(x) + Binders(y)
    case Diff(x, y, _) => Binders(x) + Binders(y)
    case Seq(x, y) => 1 + Binders(x) + Binders(y)
    case Cartesian(x, y) => Binders(x) + Binders(y)
    case Compl(x, _) => Binders(x)
    case Identity(x) => 2 * Binders(x)
    case IdentityUnion(x) => Binders(x)
    case Inverse(x) => Binders(x)
    case App(_, x, ty) => if ty.Rel? then 0 else 1 + Binders(x)
  }

  /** The counter after `n` more names, which is also the last of the `n + 1` names drawn next. */
  function Advanced(c: EventId, n: nat): EventId { (c + n) % U32 }

  /** None of the next `n` names is `ev`. */
  predicate Fresh(c: EventId, n: nat, ev: EventId) { forall k: nat | k < n :: Advanced(c, k) != ev }

  /** The next `n` names spare the arguments of an expression of type `ty`; a set has only the first. */
  predicate Spared(ty: Ty, n: nat, ev1: EventId, ev2: EventId, c: EventId) {
    && c < U32 && ev1 < U32 && Fresh(c, n, ev1)
    && (ty.Rel? ==> ev2 < U32 && Fresh(c, n, ev2))
  }

  predicate Room(e: Exp<Ty>, ev1: EventId, ev2: EventId, c: EventId) { Spared(TyOf(e), Binders(e), ev1, ev2, c) }

  lemma AdvancedTwice(c: EventId, a: nat, b: nat)
    ensures Advanced(Advanced(c, a), b) == Advanced(c, a + b)
    ensures Next(c) == Advanced(c, 1) && Advanced(c, a) < U32
  {
  }

  lemma FreshSplit(c: EventId, a: nat, b: nat, ev: EventId)
    requires Fresh(c, a + b, ev)
    ensures Fresh(c, a, ev) && Fresh(Advanced(c, a), b, ev)
  {
    hide Advanced;
    forall k: nat | k < b
      ensures Advanced(Advanced(c, a), k) != ev
    {
      AdvancedTwice(c, a, k);
    }
  }

  lemma FreshJoin(c: EventId, a: nat, b: nat, ev: EventId)
    requires Fresh(c, a, ev) && Fresh(Advanced(c, a), b, ev)
    ensures Fresh(c, a + b, ev)
  {
    hide Advanced;
    forall k: nat | k < a + b
      ensures Advanced(c, k) != ev
    {
      if k >= a {
        AdvancedTwice(c, a, k - a);
      }
    }
  }

  /** With 2^32 names drawn, every name is among them. */
  lemma FreshShort(c: EventId, n: nat, ev: EventId)
    requires c < U32 && ev < U32 && Fresh(c, n, ev)
    ensures n < U32
  {
    var k := if c <= ev then ev - c else ev + U32 - c;
    assert Advanced(c, k) == ev;
  }

  lemma FreshNext(c: EventId, n: nat)
    requires c < U32 && n < U32
    ensures Fresh(Next(c), n, c)
  {
  }

  /** Two operands compiled one after the other share out the room of the whole. */
  lemma SparedSplit(ty: Ty, a: nat, b: nat, ev1: EventId, ev2: EventId, c: EventId)
    requires Spared(ty, a + b, ev1, ev2, c)
    ensures Spared(ty, a, ev1, ev2, c) && Spared(ty, b, ev1, ev2, Advanced(c, a))
  {
    hide Fresh, Advanced;
    AdvancedTwice(c, a, 0);
    FreshSplit(c, a, b, ev1);
    if ty.Rel? { FreshSplit(c, a, b, ev2); }
  }

  /** The rest of the names after one bound event, which then is an argument itself. */
  lemma SparedUnder(ty: Ty, n: nat, ev1: EventId, ev2: EventId, c: EventId)
    requires Spared(ty, 1 + n, ev1, ev2, c)
    ensures c != ev1 && (ty.Rel? ==> c != ev2)
    ensures Spared(Rel, n, c, ev1, Next(c)) && (ty.Rel? ==> Spared(Rel, n, c, ev2, Next(c)))
  {
    assert Advanced(c, 0) == c;
    hide Advanced;
    AdvancedTwice(c, 1, 0);
    FreshShort(c, 1 + n, ev1);
    FreshNext(c, n);
    FreshSplit(c, 1, n, ev1);
    if ty.Rel? { FreshSplit(c, 1, n, ev2); }
  }

  lemma EqValue(ev1: EventId, ev2: EventId, m: Interp, env: Env)
    ensures IsBool(Eq(Var(ev1), Var(ev2)))
    ensures Holds(Eq(Var(ev1), Var(ev2)), m, env) == (Lookup(env, ev1) == Lookup(env, ev2))
  {
    assert Eval(Var(ev1), m, env) == E(Lookup(env, ev1)) && Eval(Var(ev2), m, env) == E(Lookup(env, ev2));
    assert IsEvent(Var(ev1)) && IsEvent(Var(ev2));
  }

  lemma ConnectiveValue(ss: seq<Sexp>, m: Interp, env: Env)
    ensures Holds(And(ss), m, env) == AllHold(ss, m, env) && Holds(Or(ss), m, env) == SomeHolds(ss, m, env)
    ensures IsBool(And(ss)) == AllBool(ss) == IsBool(Or(ss))
  {
  }

  lemma NotValue(s: Sexp, m: Interp, env: Env)
    ensures Holds(Not(s), m, env) == !Holds(s, m, env) && IsBool(Not(s)) == IsBool(s)
  {
  }

  lemma ExistsValue(v: EventId, body: Sexp, m: Interp, env: Env)
    ensures IsBool(Exists(v, body)) == IsBool(body)
    ensures Holds(Exists(v, body), m, env) == exists x | x in m.dom :: HoldsAt(body, v, x, m, env)
  {
    assert forall x :: HoldsAt(body, v, x, m, env) == Holds(body, m, env[v := x]);
  }

  ghost predicate HoldsAt(body: Sexp, v: EventId, x: Event, m: Interp, env: Env) { Holds(body, m, env[v := x]) }

  /** The connectives the compiler builds from its operands, with their sort and value. */
  ghost predicate Connected(l: Sexp, r: Sexp, q: Sexp, m: Interp, env: Env) {
    && IsBool(And([l, r])) && Holds(And([l, r]), m, env) == (Holds(l, m, env) && Holds(r, m, env))
    && IsBool(Or([l, r])) && Holds(Or([l, r]), m, env) == (Holds(l, m, env) || Holds(r, m, env))
    && IsBool(And([l, Not(r)])) && Holds(And([l, Not(r)]), m, env) == (Holds(l, m, env) && !Holds(r, m, env))
    && IsBool(And([l, r, q]))
    && Holds(And([l, r, q]), m, env) == (Holds(l, m, env) && Holds(r, m, env) && Holds(q, m, env))
  }

  lemma Connectives(l: Sexp, r: Sexp, q: Sexp, m: Interp, env: Env)
    requires IsBool(l) && IsBool(r) && IsBool(q)
    ensures Connected(l, r, q, m, env)
  {
    hide IsBool, AllBool, Holds, AllHold, SomeHolds, Eval;
    Single(r, m, env);
    Single(q, m, env);
    Single(Not(r), m, env);
    Single(l, m, env);
    assert [l, r] == [l] + [r] && [r, q] == [r] + [q] && [l, r, q] == [l] + [r, q] && [l, Not(r)] == [l] + [Not(r)];
    AllConcat([l], [r], m, env);
    AllConcat([r], [q], m, env);
    AllConcat([l], [r, q], m, env);
    AllConcat([l], [Not(r)], m, env);
    ConnectiveValue([l, r], m, env);
    ConnectiveValue([l, r, q], m, env);
    ConnectiveValue([l, Not(r)], m, env);
    NotValue(r, m, env);
  }

  function Compile(e: Exp<Ty>, ev1: EventId, ev2: EventId, c: EventId): Out {
    if TyOf(e).Set? then CompileSet(e, ev1, c) else CompileRel(e, ev1, ev2, c)
  }

  /** Compilation succeeds with the expected counter, and the formula holds exactly when the
      arguments are in the denoted set or relation. */
  ghost predicate Correct(e: Exp<Ty>, ev1: EventId, ev2: EventId, c: EventId, m: Interp, env: Env) {
    var out := Compile(e, ev1, ev2, c);
    && out.r.Ok? && out.c == Advanced(c, Binders(e))
    && Means(out.r.sexp, e, Lookup(env, ev1), Lookup(env, ev2), m, env)
  }

  ghost predicate Means(s: Sexp, e: Exp<Ty>, a: Event, b: Event, m: Interp, env: Env) {
    IsBool(s) && Holds(s, m, env) == Denotes(e, m, a, b)
  }

  predicate Fine(e: Exp<Ty>) { Typed(BUILTINS, e) && Supported(e) }

  /** The parts of a well-typed expression are well typed, with the types the operation demands. */
  lemma PartsFine(e: Exp<Ty>)
    requires Fine(e)
    ensures e.TryWith? || e.Compl? || e.IdentityUnion? || e.Inverse? ==> Fine(e.x) && TyOf(e.x) == TyOf(e)
    ensures e.Union? || e.Inter? || e.Diff? ==>
              Fine(e.x) && Fine(e.y) && TyOf(e.x) == TyOf(e) && TyOf(e.y) == TyOf(e)
    ensures e.Seq? ==> Fine(e.x) && Fine(e.y) && TyOf(e.x) == Rel && TyOf(e.y) == Rel
    ensures e.Cartesian? ==> Fine(e.x) && Fine(e.y) && TyOf(e.x) == Set && TyOf(e.y) == Set
    ensures e.Identity? ==> Fine(e.x) && TyOf(e.x) == Set
    ensures e.App? && e.ty.Set? ==> e.fn == "range" && Fine(e.x) && TyOf(e.x) == Rel
    ensures !e.Let?
  {
  }

  /** Compilation preserves meaning: in every interpretation and environment, for every well-typed
      expression the compiler supports, as long as no fresh name is one of the arguments. */
  lemma {:induction false} CompileCorrect(e: Exp<Ty>, ev1: EventId, ev2: EventId, c: EventId, m: Interp, env: Env)
    requires Fine(e) && Room(e, ev1, ev2, c)
    ensures Correct(e, ev1, ev2, c, m, env)
    decreases e, 4
  {
    PartsFine(e);
    match e {
      case Union(_, _, _) => BooleanCorrect(e, ev1, ev2, c, m, env);
      case Inter(_, _, _) => BooleanCorrect(e, ev1, ev2, c, m, env);
      case Diff(_, _, _) => BooleanCorrect(e, ev1, ev2, c, m, env);
      case Cartesian(_, _) => ProductCorrect(e, ev1, ev2, c, m, env);
      case Identity(_) => ProductCorrect(e, ev1, ev2, c, m, env);
      case Seq(_, _) => SeqCorrect(e, ev1, ev2, c, m, env);
      case App(_, _, _) => AppCorrect(e, ev1, ev2, c, m, env);
      case TryWith(_, _, _) => UnaryCorrect(e, ev1, ev2, c, m, env);
      case Compl(_, _) => UnaryCorrect(e, ev1, ev2, c, m, env);
      case IdentityUnion(_) => UnaryCorrect(e, ev1, ev2, c, m, env);
      case Inverse(_) => UnaryCorrect(e, ev1, ev2, c, m, env);
      case Empty(_) =>
      case Id(_, _) => EqValue(ev1, ev2, m, env);
    }
  }

  lemma {:induction false} UnaryCorrect(e: Exp<Ty>, ev1: EventId, ev2: EventId, c: EventId, m: Interp, env: Env)
    requires e.TryWith? || e.Compl? || e.IdentityUnion? || e.Inverse?
    requires Fine(e) && Room(e, ev1, ev2, c)
    ensures Correct(e, ev1, ev2, c, m, env)
    decreases e, 2
  {
    PartsFine(e);
    hide Fine, Typed, Supported, Holds, IsBool, Eval, AllHold, SomeHolds, AllBool, IsEvent, Fresh, Advanced;
    if e.Inverse? {
      CompileCorrect(e.x, ev2, ev1, c, m, env);
    } else {
      CompileCorrect(e.x, ev1, ev2, c, m, env);
      var s := Compile(e.x, ev1, ev2, c).r.sexp;
      NotValue(s, m, env);
      EqValue(ev1, ev2, m, env);
      Connectives(s, Eq(Var(ev1), Var(ev2)), s, m, env);
    }
  }

  /** The formula for two operands joined, and what the join means. */
  function Joined(e: Exp<Ty>, l: Sexp, r: Sexp, ev1: EventId, ev2: EventId): Sexp {
    if e.Union? then Or([l, r])
    else if e.Diff? then And([l, Not(r)])
    else if e.Identity? then And([l, r, Eq(Var(ev1), Var(ev2))])
    else And([l, r])
  }

  ghost predicate Join(e: Exp<Ty>, p: bool, q: bool, same: bool) {
    if e.Union? then p || q else if e.Diff? then p && !q else p && q && (e.Identity? ==> same)
  }

  lemma BooleanUnfolds(e: Exp<Ty>, ev1: EventId, ev2: EventId, c: EventId, m: Interp, a: Event, b: Event)
    requires e.Union? || e.Inter? || e.Diff?
    requires TyOf(e.x) == TyOf(e) && TyOf(e.y) == TyOf(e)
    ensures var l := Compile(e.x, ev1, ev2, c);
            var r := Compile(e.y, ev1, ev2, l.c);
            Compile(e, ev1, ev2, c) == l.Then(r.Build(Joined(e, l.Sexp(), r.Sexp(), ev1, ev2)))
    ensures Denotes(e, m, a, b) == Join(e, Denotes(e.x, m, a, b), Denotes(e.y, m, a, b), a == b)
  {
  }

  lemma ProductUnfolds(e: Exp<Ty>, y: Exp<Ty>, ev1: EventId, ev2: EventId, c: EventId, m: Interp, a: Event, b: Event)
    requires e.Cartesian? || e.Identity?
    requires y == (if e.Cartesian? then e.y else e.x) && TyOf(e.x) == Set && TyOf(y) == Set
    ensures var l := Compile(e.x, ev1, ev2, c);
            var r := Compile(y, ev2, ev1, l.c);
            Compile(e, ev1, ev2, c) == l.Then(r.Build(Joined(e, l.Sexp(), r.Sexp(), ev1, ev2)))
    ensures Denotes(e, m, a, b) == Join(e, Denotes(e.x, m, a, b), Denotes(y, m, b, a), a == b)
  {
  }

  lemma JoinedMeans(e: Exp<Ty>, l: Sexp, r: Sexp, ev1: EventId, ev2: EventId, m: Interp, env: Env)
    requires e.Union? || e.Inter? || e.Diff? || e.Cartesian? || e.Identity?
    requires IsBool(l) && IsBool(r)
    ensures var s := Joined(e, l, r, ev1, ev2);
            && IsBool(s)
            && Holds(s, m, env) ==
               Join(e, Holds(l, m, env), Holds(r, m, env), Lookup(env, ev1) == Lookup(env, ev2))
  {
    hide Holds, IsBool, Eval, AllHold, SomeHolds, AllBool, IsEvent;
    EqValue(ev1, ev2, m, env);
    Connectives(l, r, Eq(Var(ev1), Var(ev2)), m, env);
  }

  lemma {:induction false} BooleanCorrect(e: Exp<Ty>, ev1: EventId, ev2: EventId, c: EventId, m: Interp, env: Env)
    requires e.Union? || e.Inter? || e.Diff?
    requires Fine(e) && Room(e, ev1, ev2, c)
    ensures Correct(e, ev1, ev2, c, m, env)
    decreases e, 2
  {
    PartsFine(e);
    assert Binders(e) == Binders(e.x) + Binders(e.y);
    hide *;
    RoomSplit(e, e.x, e.y, TyOf(e), ev1, ev2, c);
    BooleanUnfolds(e, ev1, ev2, c, m, Lookup(env, ev1), Lookup(env, ev2));
    Operands(e, e.x, e.y, ev1, ev2, ev1, ev2, c, m, env);
    OperandsJoined(e, e.x, e.y, ev1, ev2, ev1, ev2, c, m, env);
  }

  lemma RoomSplit(e: Exp<Ty>, x: Exp<Ty>, y: Exp<Ty>, ty: Ty, ev1: EventId, ev2: EventId, c: EventId)
    requires Room(e, ev1, ev2, c) && Binders(e) == Binders(x) + Binders(y) && TyOf(e) == ty
    ensures Spared(ty, Binders(x), ev1, ev2, c) && Spared(ty, Binders(y), ev1, ev2, Advanced(c, Binders(x)))
    ensures TyOf(x) == ty ==> Room(x, ev1, ev2, c)
    ensures TyOf(y) == ty ==> Room(y, ev1, ev2, Advanced(c, Binders(x)))
  {
    hide Spared, Advanced, Binders, TyOf;
    SparedSplit(ty, Binders(x), Binders(y), ev1, ev2, c);
  }

  /** Correct operands, joined as the compiler joins them, make a correct whole. */
  lemma OperandsJoined(e: Exp<Ty>, x: Exp<Ty>, y: Exp<Ty>, a: EventId, b: EventId, a': EventId, b': EventId,
                       c: EventId, m: Interp, env: Env)
    requires e.Union? || e.Inter? || e.Diff? || e.Cartesian? || e.Identity?
    requires Correct(x, a, b, c, m, env)
    requires var l := Compile(x, a, b, c);
             var r := Compile(y, a', b', l.c);
             && Correct(y, a', b', l.c, m, env) && r.c == Advanced(c, Binders(e))
             && Compile(e, a, b, c) == l.Then(r.Build(Joined(e, l.Sexp(), r.Sexp(), a, b)))
    requires Denotes(e, m, Lookup(env, a), Lookup(env, b)) ==
             Join(e, Denotes(x, m, Lookup(env, a), Lookup(env, b)), Denotes(y, m, Lookup(env, a'), Lookup(env, b')),
                  Lookup(env, a) == Lookup(env, b))
    ensures Correct(e, a, b, c, m, env)
  {
    hide Compile, Denotes, Joined, Join, Holds, IsBool, Advanced, Binders, Lookup;
    var l := Compile(x, a, b, c);
    var r := Compile(y, a', b', l.c);
    JoinedMeans(e, l.r.sexp, r.r.sexp, a, b, m, env);
  }

  lemma {:induction false} ProductCorrect(e: Exp<Ty>, ev1: EventId, ev2: EventId, c: EventId, m: Interp, env: Env)
    requires e.Cartesian? || e.Identity?
    requires Fine(e) && Room(e, ev1, ev2, c)
    ensures Correct(e, ev1, ev2, c, m, env)
    decreases e, 2
  {
    PartsFine(e);
    var y := if e.Cartesian? then e.y else e.x;
    assert Binders(e) == Binders(e.x) + Binders(y) && TyOf(e) == Rel;
    hide *;
    RoomSplit(e, e.x, y, Rel, ev1, ev2, c);
    RoomForSets(e.x, y, ev1, ev2, c);
    ProductUnfolds(e, y, ev1, ev2, c, m, Lookup(env, ev1), Lookup(env, ev2));
    Operands(e, e.x, y, ev1, ev2, ev2, ev1, c, m, env);
    OperandsJoined(e, e.x, y, ev1, ev2, ev2, ev1, c, m, env);
  }

  lemma RoomForSets(x: Exp<Ty>, y: Exp<Ty>, ev1: EventId, ev2: EventId, c: EventId)
    requires TyOf(x) == Set && TyOf(y) == Set
    requires Spared(Rel, Binders(x), ev1, ev2, c) && Spared(Rel, Binders(y), ev1, ev2, Advanced(c, Binders(x)))
    ensures Room(x, ev1, ev2, c) && Room(y, ev2, ev1, Advanced(c, Binders(x)))
  {
  }

  /** Two operands compiled one after the other. */
  lemma {:induction false} Operands(e: Exp<Ty>, x: Exp<Ty>, y: Exp<Ty>, a: EventId, b: EventId,
                                    a': EventId, b': EventId, c: EventId, m: Interp, env: Env)
    requires x < e && y < e && Fine(x) && Fine(y)
    requires Room(x, a, b, c) && Room(y, a', b', Advanced(c, Binders(x)))
    ensures Correct(x, a, b, c, m, env)
    ensures var l := Compile(x, a, b, c);
            Correct(y, a', b', l.c, m, env) && Compile(y, a', b', l.c).c == Advanced(c, Binders(x) + Binders(y))
    decreases e, 1
  {
    hide *;
    assert Correct(x, a, b, c, m, env) && Compile(x, a, b, c).c == Advanced(c, Binders(x)) by {
      CompileCorrect(x, a, b, c, m, env);
      CounterCorrect(x, a, b, c, m, env);
    }
    var l := Compile(x, a, b, c);
    CompileCorrect(y, a', b', l.c, m, env);
    CounterCorrect(y, a', b', l.c, m, env);
    AdvancedTwice(c, Binders(x), Binders(y));
  }

  lemma CounterCorrect(e: Exp<Ty>, ev1: EventId, ev2: EventId, c: EventId, m: Interp, env: Env)
    requires Correct(e, ev1, ev2, c, m, env)
    ensures Compile(e, ev1, ev2, c).c == Advanced(c, Binders(e))
  {
  }

  /** The two halves of a composition, with the fresh event in the middle bound to `z`. */
  lemma {:induction false} SeqBody(e: Exp<Ty>, ev1: EventId, ev2: EventId, c: EventId, z: Event, m: Interp, env: Env)
    requires e.Seq? && Fine(e) && Room(e, ev1, ev2, c)
    ensures var l := CompileRel(e.x, ev1, c, Next(c));
            var r := CompileRel(e.y, c, ev2, l.c);
            var body := And([l.Sexp(), r.Sexp()]);
            && l.r.Ok? && r.r.Ok? && IsBool(body) && r.c == Advanced(c, Binders(e))
            && HoldsAt(body, c, z, m, env) ==
               (InRel(e.x, m, Lookup(env, ev1), z) && InRel(e.y, m, z, Lookup(env, ev2)))
    decreases e, 2
  {
    PartsFine(e);
    assert Binders(e) == 1 + Binders(e.x) + Binders(e.y);
    hide Fine, Holds, IsBool, CompileSet, CompileRel, InSet, InRel, Binders, Fresh, Advanced;
    var n1, n2 := Binders(e.x), Binders(e.y);
    SparedUnder(Rel, n1 + n2, ev1, ev2, c);
    SparedSplit(Rel, n1, n2, c, ev1, Next(c));
    SparedSplit(Rel, n1, n2, c, ev2, Next(c));
    Operands(e, e.x, e.y, ev1, c, c, ev2, Next(c), m, env[c := z]);
    AdvancedTwice(c, 1, n1 + n2);
    var l := CompileRel(e.x, ev1, c, Next(c));
    BothMean(l.Sexp(), CompileRel(e.y, c, ev2, l.c).Sexp(), m, env[c := z]);
  }

  lemma BothMean(l: Sexp, r: Sexp, m: Interp, env: Env)
    requires IsBool(l) && IsBool(r)
    ensures IsBool(And([l, r])) && Holds(And([l, r]), m, env) == (Holds(l, m, env) && Holds(r, m, env))
  {
    hide Holds, IsBool;
    Connectives(l, r, l, m, env);
  }

  lemma {:induction false} SeqCorrect(e: Exp<Ty>, ev1: EventId, ev2: EventId, c: EventId, m: Interp, env: Env)
    requires e.Seq? && Fine(e) && Room(e, ev1, ev2, c)
    ensures Correct(e, ev1, ev2, c, m, env)
    decreases e, 3
  {
    var l := CompileRel(e.x, ev1, c, Next(c));
    var r := CompileRel(e.y, c, ev2, l.c);
    var body := And([l.Sexp(), r.Sexp()]);
    assert Compile(e, ev1, ev2, c) == l.Then(r.Build(Exists(c, body)));
    hide Fine, Typed, Supported, Holds, IsBool, Eval, CompileSet, CompileRel, InSet, HoldsAt, Binders, Compile;
    hide AllHold, SomeHolds, AllBool, IsEvent, Advanced, Fresh, Room;
    forall z: Event
      ensures HoldsAt(body, c, z, m, env) ==
              (InRel(e.x, m, Lookup(env, ev1), z) && InRel(e.y, m, z, Lookup(env, ev2)))
    {
      SeqBody(e, ev1, ev2, c, z, m, env);
    }
    SeqBody(e, ev1, ev2, c, 0, m, env);
    ExistsValue(c, body, m, env);
  }

  lemma {:induction false} AppCorrect(e: Exp<Ty>, ev1: EventId, ev2: EventId, c: EventId, m: Interp, env: Env)
    requires e.App? && Fine(e) && Room(e, ev1, ev2, c)
    ensures Correct(e, ev1, ev2, c, m, env)
    decreases e, 2
  {
    if e.ty.Set? {
      PartsFine(e);
      SparedUnder(Set, Binders(e.x), ev1, ev2, c);
      AdvancedTwice(c, 1, Binders(e.x));
      hide Fine, Typed, Supported, Holds, IsBool, Eval, CompileRel, InRel, AllHold, SomeHolds, AllBool, IsEvent;
      hide Fresh, Advanced;
      var l := CompileRel(e.x, c, ev1, Next(c));
      forall z: Event
        ensures HoldsAt(l.Sexp(), c, z, m, env) == InRel(e.x, m, z, Lookup(env, ev1))
      {
        CompileCorrect(e.x, c, ev1, Next(c), m, env[c := z]);
      }
      CompileCorrect(e.x, c, ev1, Next(c), m, env[c := 0]);
      ExistsValue(c, l.Sexp(), m, env);
      assert Out(Ok(Exists(c, l.Sexp())), l.c) == Compile(e, ev1, ev2, c);
    }
  }

  /** A toplevel expression compiles, and means membership of events 1 and 2. */
  lemma ToplevelCorrect(e: Exp<Ty>, c: EventId, m: Interp, env: Env)
    requires Fine(e) && Room(e, 1, 2, c)
    ensures var out := CompileToplevel(e, c);
            && out.r.Ok? && out.c == Advanced(c, Binders(e))
            && Means(out.r.sexp, e, Lookup(env, 1), Lookup(env, 2), m, env)
  {
    CompileCorrect(e, 1, 2, c, m, env);
  }

  // ----- exactly when a fresh name captures an argument

  /** Every supported expression of the type with at most `n` bound events is compiled correctly. */
  ghost predicate AllCorrect(ty: Ty, n: nat, ev1: EventId, ev2: EventId, c: EventId) {
    forall e, m, env | Fine(e) && TyOf(e) == ty && Binders(e) <= n :: Correct(e, ev1, ev2, c, m, env)
  }

  /** An empty set or relation that takes one fresh name, and one that takes `n`. */
  function Nothing(ty: Ty): Exp<Ty> {
    if ty.Rel? then Exp.Seq(Exp.Empty(Rel), Exp.Empty(Rel)) else App("range", Exp.Empty(Rel), Set)
  }

  function Padding(ty: Ty, n: nat): Exp<Ty> {
    if n == 0 then Exp.Empty(ty) else Union(Padding(ty, n - 1), Nothing(ty), ty)
  }

  lemma NothingFalse(ty: Ty, ev1: EventId, ev2: EventId, c: EventId, m: Interp, env: Env)
    ensures Fine(Nothing(ty)) && TyOf(Nothing(ty)) == ty && Binders(Nothing(ty)) == 1
    ensures var out := Compile(Nothing(ty), ev1, ev2, c);
            out.r.Ok? && out.c == Next(c) && !Holds(out.r.sexp, m, env)
  {
    var out := Compile(Nothing(ty), ev1, ev2, c);
    if ty.Rel? {
      var l := CompileRel(Exp.Empty(Rel), ev1, c, Next(c));
      assert l == Out(Ok(False), Next(c)) == CompileRel(Exp.Empty(Rel), c, ev2, l.c);
      assert out == Out(Ok(Exists(c, And([False, False]))), Next(c));
      forall z: Event
        ensures !HoldsAt(And([False, False]), c, z, m, env)
      {
        TwoMean(False, False, m, env[c := z]);
      }
      ExistsValue(c, And([False, False]), m, env);
    } else {
      assert CompileRel(Exp.Empty(Rel), c, ev1, Next(c)) == Out(Ok(False), Next(c));
      assert out == Out(Ok(Exists(c, False)), Next(c));
      assert forall z: Event :: !HoldsAt(False, c, z, m, env);
      ExistsValue(c, False, m, env);
    }
  }

  lemma TwoMean(l: Sexp, r: Sexp, m: Interp, env: Env)
    ensures Holds(Or([l, r]), m, env) == (Holds(l, m, env) || Holds(r, m, env))
    ensures Holds(And([l, r]), m, env) == (Holds(l, m, env) && Holds(r, m, env))
  {
    assert [l, r] == [l] + [r];
    hide Holds;
    AllConcat([l], [r], m, env);
    Single(l, m, env);
    Single(r, m, env);
    ConnectiveValue([l, r], m, env);
  }

  /** Padding takes its `n` names and is false, in every environment. */
  ghost predicate Passive(p: Exp<Ty>, ty: Ty, n: nat, ev1: EventId, ev2: EventId, c: EventId, m: Interp, env: Env) {
    var out := Compile(p, ev1, ev2, c);
    && Fine(p) && TyOf(p) == ty && Binders(p) == n
    && out.r.Ok? && out.c == Advanced(c, n) && !Holds(out.r.sexp, m, env)
  }

  lemma PaddingParts(ty: Ty, n: nat)
    ensures n == 0 ==> Padding(ty, n) == Exp.Empty(ty)
    ensures n > 0 ==> Padding(ty, n) == Union(Padding(ty, n - 1), Nothing(ty), ty)
  {
  }

  lemma EmptyFalse(ty: Ty, ev1: EventId, ev2: EventId, c: EventId, m: Interp, env: Env)
    requires c < U32
    ensures Passive(Exp.Empty(ty), ty, 0, ev1, ev2, c, m, env)
  {
    assert Compile(Exp.Empty(ty), ev1, ev2, c) == Out(Ok(False), c);
  }

  lemma {:induction false} PaddingFalse(ty: Ty, n: nat, ev1: EventId, ev2: EventId, c: EventId, m: Interp, env: Env)
    requires c < U32
    ensures Passive(Padding(ty, n), ty, n, ev1, ev2, c, m, env)
  {
    hide *;
    PaddingParts(ty, n);
    if n == 0 {
      EmptyFalse(ty, ev1, ev2, c, m, env);
    } else {
      PaddingFalse(ty, n - 1, ev1, ev2, c, m, env);
      NothingFalse(ty, ev1, ev2, Advanced(c, n - 1), m, env);
      AfterPadding(Padding(ty, n - 1), ty, n - 1, Nothing(ty), ev1, ev2, c, m, env);
      AdvancedTwice(c, n - 1, 1);
      AdvancedTwice(Advanced(c, n - 1), 1, 0);
      StillPassive(Padding(ty, n), ty, n, ev1, ev2, c, m, env);
    }
  }

  lemma StillPassive(p: Exp<Ty>, ty: Ty, n: nat, ev1: EventId, ev2: EventId, c: EventId, m: Interp, env: Env)
    requires Fine(p) && TyOf(p) == ty && Binders(p) == n && Compile(p, ev1, ev2, c).r.Ok?
    requires Compile(p, ev1, ev2, c).c == Advanced(c, n) && !Holds(Compile(p, ev1, ev2, c).r.sexp, m, env)
    ensures Passive(p, ty, n, ev1, ev2, c, m, env)
  {
  }

  /** In the union of padding and an expression, the expression starts `n` names later. */
  lemma AfterPadding(p: Exp<Ty>, ty: Ty, n: nat, e: Exp<Ty>, ev1: EventId, ev2: EventId, c: EventId, m: Interp, env: Env)
    requires c < U32 && Passive(p, ty, n, ev1, ev2, c, m, env)
    requires Fine(e) && TyOf(e) == ty && Compile(e, ev1, ev2, Advanced(c, n)).r.Ok?
    ensures var u := Exp.Union(p, e, ty);
            var out := Compile(u, ev1, ev2, c);
            var rest := Compile(e, ev1, ev2, Advanced(c, n));
            && Fine(u) && TyOf(u) == ty && Binders(u) == n + Binders(e)
            && out.r.Ok? && out.c == rest.c && Holds(out.r.sexp, m, env) == Holds(rest.r.sexp, m, env)
  {
    var u := Exp.Union(p, e, ty);
    BooleanUnfolds(u, ev1, ev2, c, m, 0, 0);
    hide Compile, Holds, Advanced;
    TwoMean(Compile(p, ev1, ev2, c).r.sexp, Compile(e, ev1, ev2, Advanced(c, n)).r.sexp, m, env);
  }

  /** The expression whose only bound event is captured if the counter is at an argument. */
  function Victim(ty: Ty): Exp<Ty> {
    if ty.Rel? then Exp.Seq(Id("a", Rel), Id("b", Rel)) else App("range", Id("a", Rel), Set)
  }

  /** 0 is related to 1 by `a`, and 1 to `q` by `b`. */
  ghost function Steps(q: Event): Interp {
    Interp(iset{0, 1}, map["a" := iset{(0, 1)}, "b" := iset{(1, q)}], map[], map[])
  }

  lemma CompositionCaptured(ev1: EventId, ev2: EventId, c: EventId)
    requires c == ev1 || c == ev2
    ensures var q := if ev1 == ev2 then 0 else 2;
            var env := map[ev1 := 0, ev2 := q];
            var out := Compile(Victim(Rel), ev1, ev2, c);
            && Lookup(env, ev1) == 0 && Lookup(env, ev2) == q && InRel(Victim(Rel), Steps(q), 0, q)
            && out.r.Ok? && !Holds(out.r.sexp, Steps(q), env)
  {
    var q := if ev1 == ev2 then 0 else 2;
    var m, env := Steps(q), map[ev1 := 0, ev2 := q];
    assert m.Rel("a", 0, 1) && m.Rel("b", 1, q) && 1 in m.dom;
    assert InRel(Id("a", Rel), m, 0, 1) && InRel(Id("b", Rel), m, 1, q);
    var l, r := RelApp("a", ev1, c), RelApp("b", c, ev2);
    assert CompileRel(Id("a", Rel), ev1, c, Next(c)) == Out(Ok(l), Next(c));
    assert CompileRel(Id("b", Rel), c, ev2, Next(c)) == Out(Ok(r), Next(c));
    assert Compile(Victim(Rel), ev1, ev2, c) == Out(Ok(Exists(c, And([l, r]))), Next(c));
    forall z: Event
      ensures !HoldsAt(And([l, r]), c, z, m, env)
    {
      var env' := env[c := z];
      assert Holds(l, m, env') == m.Rel("a", Lookup(env', ev1), z);
      assert Holds(r, m, env') == m.Rel("b", z, Lookup(env', ev2));
      TwoMean(l, r, m, env');
    }
    ExistsValue(c, And([l, r]), m, env);
  }

  lemma RangeCaptured(ev2: EventId, c: EventId)
    ensures var env := map[c := 1];
            var out := Compile(Victim(Set), c, ev2, c);
            && Lookup(env, c) == 1 && InSet(Victim(Set), Steps(0), 1)
            && out.r.Ok? && !Holds(out.r.sexp, Steps(0), env)
  {
    var m, env := Steps(0), map[c := 1];
    assert 0 in m.dom && m.Rel("a", 0, 1) && InRel(Id("a", Rel), m, 0, 1);
    var l := RelApp("a", c, c);
    assert CompileRel(Id("a", Rel), c, c, Next(c)) == Out(Ok(l), Next(c));
    assert Compile(Victim(Set), c, ev2, c) == Out(Ok(Exists(c, l)), Next(c));
    forall z: Event
      ensures !HoldsAt(l, c, z, m, env)
    {
      assert Holds(l, m, env[c := z]) == m.Rel("a", z, z);
    }
    ExistsValue(c, l, m, env);
  }

  lemma VictimCaptured(ty: Ty, ev1: EventId, ev2: EventId, c: EventId) returns (m: Interp, env: Env)
    requires c == ev1 || (ty.Rel? && c == ev2)
    ensures Fine(Victim(ty)) && TyOf(Victim(ty)) == ty && Binders(Victim(ty)) == 1
    ensures Denotes(Victim(ty), m, Lookup(env, ev1), Lookup(env, ev2))
    ensures var out := Compile(Victim(ty), ev1, ev2, c); out.r.Ok? && !Holds(out.r.sexp, m, env)
  {
    assert Fine(Id("a", Rel)) && Fine(Id("b", Rel));
    if ty.Rel? {
      var q := if ev1 == ev2 then 0 else 2;
      m, env := Steps(q), map[ev1 := 0, ev2 := q];
      CompositionCaptured(ev1, ev2, c);
    } else {
      m, env := Steps(0), map[c := 1];
      RangeCaptured(ev2, c);
    }
  }

  /** With one name among the arguments some expression is compiled to a wrong formula. */
  lemma SomeCaptured(ty: Ty, n: nat, k: nat, ev1: EventId, ev2: EventId, c: EventId)
    requires c < U32 && k < n && (Advanced(c, k) == ev1 || (ty.Rel? && Advanced(c, k) == ev2))
    ensures !AllCorrect(ty, n, ev1, ev2, c)
  {
    hide *;
    var m, env := VictimCaptured(ty, ev1, ev2, Advanced(c, k));
    PaddingFalse(ty, k, ev1, ev2, c, m, env);
    AfterPadding(Padding(ty, k), ty, k, Victim(ty), ev1, ev2, c, m, env);
    WrongFormula(Exp.Union(Padding(ty, k), Victim(ty), ty), n, ev1, ev2, c, m, env);
  }

  lemma WrongFormula(e: Exp<Ty>, n: nat, ev1: EventId, ev2: EventId, c: EventId, m: Interp, env: Env)
    requires e.Union? && TyOf(e.y) == TyOf(e) && Fine(e) && Binders(e) <= n
    requires Denotes(e.y, m, Lookup(env, ev1), Lookup(env, ev2))
    requires Compile(e, ev1, ev2, c).r.Ok? && !Holds(Compile(e, ev1, ev2, c).r.sexp, m, env)
    ensures !AllCorrect(TyOf(e), n, ev1, ev2, c)
  {
    assert Denotes(e, m, Lookup(env, ev1), Lookup(env, ev2));
    hide Denotes, Holds, Compile, Fine, Binders;
    assert !Correct(e, ev1, ev2, c, m, env);
  }

  /** Meaning is preserved for all expressions with at most `n` bound events exactly when none of the
      next `n` names is an argument. */
  lemma CaptureExactly(ty: Ty, n: nat, ev1: EventId, ev2: EventId, c: EventId)
    requires c < U32 && ev1 < U32 && ev2 < U32
    ensures AllCorrect(ty, n, ev1, ev2, c) <==> Spared(ty, n, ev1, ev2, c)
  {
    if Spared(ty, n, ev1, ev2, c) {
      forall e, m, env | Fine(e) && TyOf(e) == ty && Binders(e) <= n
        ensures Correct(e, ev1, ev2, c, m, env)
      {
        SparedSplit(ty, Binders(e), n - Binders(e), ev1, ev2, c);
        CompileCorrect(e, ev1, ev2, c, m, env);
      }
    } else {
      var k: nat :| k < n && (Advanced(c, k) == ev1 || (ty.Rel? && Advanced(c, k) == ev2));
      SomeCaptured(ty, n, k, ev1, ev2, c);
    }
  }

  /** From the first fresh name, the names up to the last, and then 0, are harmless: expressions with as
      many bound events are compiled correctly, and with one more the name 1 captures. */
  lemma CaptureFromStart(ty: Ty, n: nat)
    ensures AllCorrect(ty, n, 1, 2, FIRST_FRESH) <==> n <= U32 - 2
  {
    CaptureExactly(ty, n, 1, 2, FIRST_FRESH);
    assert Advanced(FIRST_FRESH, U32 - 2) == 1;
    if n <= U32 - 2 {
      SparedFromStart(n);
    }
  }

  lemma SparedFromStart(n: nat)
    requires n <= U32 - 2
    ensures Spared(Rel, n, 1, 2, FIRST_FRESH)
  {
  }
}
