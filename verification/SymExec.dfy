/** One step of the symbolic executor, with the solver as an exact satisfiability oracle, beside one
    step of a concrete run of the same instructions. */
module SymExec {
  import opened Wrappers
  import opened Words
  import opened SymLang

  // ----- the solver

  /** What a fork or a branch asserts about a symbol. */
  datatype Cond = Holds(v: Sym) | Fails(v: Sym) | Equals(v: Sym, c: CVal) | Differs(v: Sym, c: CVal)

  /** The solver's trace. Symbols are numbered by the definitions in it; `Copy` is the constant that
      `Monomorphize` declares equal to the symbol it splits on. */
  datatype Def = Declare(ty: Ty) | Define(op: Op, args: seq<Val>, ty: Ty) | CopyOf(v: Sym) | Assert(cond: Cond)

  datatype Solver = Solver(trace: seq<Def>, sorts: seq<Ty>) {
    function Add(d: Def, ty: Ty): Solver { Solver(trace + [d], sorts + [ty]) }

    function AddAssert(cond: Cond): Solver { Solver(trace + [Assert(cond)], sorts) }
  }

  /** A valuation gives a raw number to every unknown, in the order in which a path declares them. */
  type Valuation = imap<nat, nat>

  function Raw(sigma: Valuation, k: nat): nat { if k in sigma then sigma[k] else 0 }

  function Inhabit(ty: Ty, raw: nat): CVal {
    match ty
    case TBool => Bool(raw % 2 == 1)
    case TBits(len) => Bits(len, raw % Pow2(len))
  }

  function ValueIn(v: Val, env: seq<CVal>): CVal {
    match v
    case Concrete(c) => c
    case Symbolic(v) => if v < |env| then env[v] else Poison
  }

  function ValuesIn(vs: seq<Val>, env: seq<CVal>): seq<CVal> {
    if vs == [] then [] else [ValueIn(vs[0], env)] + ValuesIn(vs[1..], env)
  }

  predicate CondHolds(cond: Cond, env: seq<CVal>) {
    cond.v < |env| &&
    match cond
    case Holds(v) => env[v] == Bool(true)
    case Fails(v) => env[v] != Bool(true)
    case Equals(v, c) => env[v] == c
    case Differs(v, c) => env[v] != c
  }

  /** The values of all symbols under a valuation, and the number of unknowns used. */
  datatype Model = Model(env: seq<CVal>, used: nat)

  function ModelOf(trace: seq<Def>, sigma: Valuation): Model {
    if trace == [] then Model([], 0)
    else
      var m := ModelOf(trace[..|trace| - 1], sigma);
      match trace[|trace| - 1]
      case Declare(ty) => Model(m.env + [Inhabit(ty, Raw(sigma, m.used))], m.used + 1)
      case Define(op, args, _) =>
        var r := ApplyOp(op, ValuesIn(args, m.env));
        Model(m.env + [if r.Some? then r.value else Poison], m.used)
      case CopyOf(v) => Model(m.env + [if v < |m.env| then m.env[v] else Poison], m.used)
      case Assert(_) => m
  }

  /** The valuation satisfies every assertion of the trace. */
  predicate Sat(trace: seq<Def>, sigma: Valuation) {
    trace == [] ||
    (Sat(trace[..|trace| - 1], sigma)
     && (trace[|trace| - 1].Assert? ==> CondHolds(trace[|trace| - 1].cond, ModelOf(trace[..|trace| - 1], sigma).env)))
  }

  ghost predicate Satisfiable(s: Solver) { exists sigma :: Sat(s.trace, sigma) }

  /** A value the solver may give for a symbol in a model. */
  ghost predicate ModelValue(s: Solver, v: Sym, c: CVal) {
    exists sigma :: Sat(s.trace, sigma) && v < |ModelOf(s.trace, sigma).env| && ModelOf(s.trace, sigma).env[v] == c
  }

  // ----- symbolic evaluation

  datatype State = State(frame: Frame<Val>, solver: Solver)

  function SortOf(v: Val, s: Solver): Option<Ty> {
    match v
    case Concrete(c) => TypeOf(c)
    case Symbolic(v) => if v < |s.sorts| then Some(s.sorts[v]) else None
  }

  function SortsOf(vs: seq<Val>, s: Solver): Option<seq<Ty>> {
    if vs == [] then Some([])
    else
      var t, ts := SortOf(vs[0], s), SortsOf(vs[1..], s);
      if t.Some? && ts.Some? then Some([t.value] + ts.value) else None
  }

  predicate AllConcrete(vs: seq<Val>) { forall v | v in vs :: v.Concrete? }

  /** A primitive operation: computed on concrete arguments, otherwise a new defined symbol. */
  function SymApply(op: Op, vs: seq<Val>, s: Solver): Result<(Val, Solver), Error> {
    var tys := SortsOf(vs, s);
    if tys.None? || OpType(op, tys.value).None? then Failure(TypeError)
    else if AllConcrete(vs) then
      var r := ApplyOp(op, ValuesIn(vs, []));
      Success((Concrete(if r.Some? then r.value else Poison), s))
    else
      var ty := OpType(op, tys.value).value;
      Success((Symbolic(|s.sorts|), s.Add(Define(op, vs, ty), ty)))
  }

  /** Reads a name; a name read for the first time becomes an unknown of its type. */
  function SymRead(id: Name, st: State): Result<(Val, State), Error> {
    var scope := ReadScope(st.frame, id);
    if scope.None? then Failure(VariableNotFound)
    else
      match ScopeOf(st.frame, scope.value)[id]
      case Inited(v) => Success((v, st))
      case Uninit(ty) =>
        var v := Symbolic(|st.solver.sorts|);
        Success((v, State(SetIn(st.frame, scope.value, id, Inited(v)), st.solver.Add(Declare(ty), ty))))
  }

  function SymEval(e: Exp, st: State): Result<(Val, State), Error>
    decreases e, 0
  {
    match e
    case Id(id) => SymRead(id, st)
    case Lit(c) => Success((Concrete(c), st))
    case Undefined(ty) => Success((Symbolic(|st.solver.sorts|), st.(solver := st.solver.Add(Declare(ty), ty))))
    case Prim(op, args) =>
      var (vs, st1) :- SymEvals(args, st);
      var (v, s) :- SymApply(op, vs, st1.solver);
      Success((v, st1.(solver := s)))
  }

  function SymEvals(es: seq<Exp>, st: State): Result<(seq<Val>, State), Error>
    decreases es, 1
  {
    if es == [] then Success(([], st))
    else
      var (v, st1) :- SymEval(es[0], st);
      var (vs, st2) :- SymEvals(es[1..], st1);
      Success(([v] + vs, st2))
  }

  // ----- one symbolic step

  /** A sibling pushed on the queue: a frozen frame, a checkpoint, and the condition to add. */
  datatype Task = Task(state: State, cond: Cond)

  datatype Next = Run(state: State) | Stop(outcome: Outcome<Val>, solver: Solver)

  datatype Step = Step(next: Next, fork: Option<Task>)

  function Go(st: State): Step { Step(Run(st), None) }

  function Halt(outcome: Outcome<Val>, s: Solver): Step { Step(Stop(outcome, s), None) }

  ghost function SymJump(v: Sym, target: nat, st: State): Step {
    var s := st.solver;
    if SortOf(Symbolic(v), s) != Some(TBool) then Halt(Failed(IllSorted), s)
    else
      var canBeTrue := Satisfiable(s.AddAssert(Holds(v)));
      var canBeFalse := Satisfiable(s.AddAssert(Fails(v)));
      var taken := State(st.frame.(pc := target), s.AddAssert(Holds(v)));
      if canBeTrue && canBeFalse then Step(Run(taken), Some(Task(State(Advance(st.frame), s), Fails(v))))
      else if canBeTrue then Go(taken)
      else if canBeFalse then Go(State(Advance(st.frame), s.AddAssert(Fails(v))))
      else Halt(Dead, s)
  }

  /** The types a split accepts: the given one, or any bit-vector. */
  predicate Takes(mono: Option<Ty>, ty: Option<Ty>) {
    if mono.Some? then ty == mono else ty.Some? && ty.value.TBits?
  }

  /** `choice` is the value the solver's model gives to the symbol. */
  ghost function SymMonomorphize(id: Name, v: Sym, mono: Option<Ty>, st: State, choice: CVal): Step {
    var s := st.solver;
    var sort := SortOf(Symbolic(v), s);
    if !Takes(mono, sort) then Halt(Failed(Unsplittable), s)
    else
      var s1 := s.Add(CopyOf(v), sort.value);
      if !Satisfiable(s1) then Halt(Dead, s1)
      else
        Step(Run(State(Advance(Assign(st.frame, id, Concrete(choice))), s1.AddAssert(Equals(v, choice)))),
             Some(Task(st, Differs(v, choice))))
  }

  function SymCall(prog: Program, dest: Name, f: Name, vs: seq<Val>, st: State): Step
    requires f in prog
  {
    if |vs| > |prog[f].params| then Halt(Failed(Panicked), st.solver) else Go(st.(frame := Enter(st.frame, f, prog[f], dest, vs)))
  }

  function SymReturn(v: Val, st: State): Step {
    if st.frame.stackCall == [] then Halt(Finished(v), st.solver) else Go(st.(frame := Leave(st.frame, v)))
  }

  function SymEnd(st: State): Step {
    if RETURN !in st.frame.vars then Halt(Failed(Panicked), st.solver)
    else
      match st.frame.vars[RETURN]
      case Inited(v) => SymReturn(v, st)
      case Uninit(ty) => SymReturn(Symbolic(|st.solver.sorts|), st.(solver := st.solver.Add(Declare(ty), ty)))
  }

  ghost function SymStep(prog: Program, st: State, choice: CVal): Step {
    var fr := st.frame;
    if fr.fn !in prog || fr.pc >= |prog[fr.fn].instrs| then Halt(Finished(Concrete(Unit)), st.solver)
    else
      match prog[fr.fn].instrs[fr.pc]
      case Decl(v, ty) => Go(st.(frame := Advance(fr.(vars := fr.vars[v := Uninit(ty)]))))
      case Init(v, e) => SymStore(SymEval(e, st), st, v, true)
      case Copy(dest, e) => SymStore(SymEval(e, st), st, dest, false)
      case Primop(dest, op, args) => SymStore(SymEval(Prim(op, args), st), st, dest, false)
      case Goto(target) => Go(st.(frame := fr.(pc := target)))
      case Jump(e, target) =>
        var r := SymEval(e, st);
        if r.Failure? then Halt(Failed(r.error), st.solver)
        else
          var (v, st1) := r.value;
          if v.Symbolic? then SymJump(v.v, target, st1)
          else if v.c.Bool? then Go(st1.(frame := if v.c.b then st1.frame.(pc := target) else Advance(st1.frame)))
          else Halt(Failed(TypeError), st1.solver)
      case Call(dest, f, args) =>
        var r := SymEvals(args, st);
        if f !in prog then Halt(Failed(NoFunction), st.solver)
        else if r.Failure? then Halt(Failed(r.error), st.solver)
        else SymCall(prog, dest, f, r.value.0, r.value.1)
      case End => SymEnd(st)
      case Monomorphize(id, mono) =>
        var r := SymRead(id, st);
        if r.Failure? then Halt(Failed(r.error), st.solver)
        else
          var (v, st1) := r.value;
          if v.Symbolic? then SymMonomorphize(id, v.v, mono, st1, choice) else Go(st1.(frame := Advance(st1.frame)))
      case Arbitrary => SymReturn(Concrete(Poison), st)
      case Exit(cause) => Halt(ExitOutcome(cause), st.solver)
  }

  /** Stores an evaluated expression in a variable or a location, and moves on. */
  function SymStore(r: Result<(Val, State), Error>, st: State, dest: Name, isInit: bool): Step {
    if r.Failure? then Halt(Failed(r.error), st.solver)
    else
      var (v, st1) := r.value;
      var fr := st1.frame;
      Go(st1.(frame := Advance(if isInit then fr.(vars := fr.vars[dest := Inited(v)]) else Assign(fr, dest, v))))
  }

  /** The solver's answer is a value of the symbol in some model, whenever it is asked for one. */
  ghost predicate Admissible(prog: Program, st: State, choice: CVal) {
    var fr := st.frame;
    fr.fn in prog && fr.pc < |prog[fr.fn].instrs| && prog[fr.fn].instrs[fr.pc].Monomorphize? ==>
      var r := SymRead(prog[fr.fn].instrs[fr.pc].id, st);
      r.Success? && r.value.0.Symbolic? && Satisfiable(r.value.1.solver) ==>
        ModelValue(r.value.1.solver, r.value.0.v, choice)
  }

  // ----- the concrete run

  /** A running concrete configuration counts the unknowns it has taken from the valuation. */
  datatype Config = Running(frame: Frame<CVal>, used: nat) | Stopped(outcome: Outcome<CVal>)

  function ConcRead(id: Name, c: Config, sigma: Valuation): Result<(CVal, Config), Error>
    requires c.Running?
    ensures ConcRead(id, c, sigma).Success? ==> ConcRead(id, c, sigma).value.1.Running?
  {
    var scope := ReadScope(c.frame, id);
    if scope.None? then Failure(VariableNotFound)
    else
      match ScopeOf(c.frame, scope.value)[id]
      case Inited(v) => Success((v, c))
      case Uninit(ty) =>
        var v := Inhabit(ty, Raw(sigma, c.used));
        Success((v, Running(SetIn(c.frame, scope.value, id, Inited(v)), c.used + 1)))
  }

  function ConcEval(e: Exp, c: Config, sigma: Valuation): Result<(CVal, Config), Error>
    requires c.Running?
    ensures ConcEval(e, c, sigma).Success? ==> ConcEval(e, c, sigma).value.1.Running?
    decreases e, 0
  {
    match e
    case Id(id) => ConcRead(id, c, sigma)
    case Lit(v) => Success((v, c))
    case Undefined(ty) => Success((Inhabit(ty, Raw(sigma, c.used)), c.(used := c.used + 1)))
    case Prim(op, args) =>
      var (vs, c1) :- ConcEvals(args, c, sigma);
      var r := ApplyOp(op, vs);
      if r.None? then Failure(TypeError) else Success((r.value, c1))
  }

  function ConcEvals(es: seq<Exp>, c: Config, sigma: Valuation): Result<(seq<CVal>, Config), Error>
    requires c.Running?
    ensures ConcEvals(es, c, sigma).Success? ==> ConcEvals(es, c, sigma).value.1.Running?
    decreases es, 1
  {
    if es == [] then Success(([], c))
    else
      var (v, c1) :- ConcEval(es[0], c, sigma);
      var (vs, c2) :- ConcEvals(es[1..], c1, sigma);
      Success(([v] + vs, c2))
  }

  function ConcStore(r: Result<(CVal, Config), Error>, dest: Name, isInit: bool): Config
    requires r.Success? ==> r.value.1.Running?
  {
    if r.Failure? then Stopped(Failed(r.error))
    else
      var (v, c) := r.value;
      c.(frame := Advance(if isInit then c.frame.(vars := c.frame.vars[dest := Inited(v)]) else Assign(c.frame, dest, v)))
  }

  function ConcReturn(v: CVal, c: Config): Config
    requires c.Running?
  {
    if c.frame.stackCall == [] then Stopped(Finished(v)) else c.(frame := Leave(c.frame, v))
  }

  function ConcEnd(c: Config, sigma: Valuation): Config
    requires c.Running?
  {
    if RETURN !in c.frame.vars then Stopped(Failed(Panicked))
    else
      match c.frame.vars[RETURN]
      case Inited(v) => ConcReturn(v, c)
      case Uninit(ty) => ConcReturn(Inhabit(ty, Raw(sigma, c.used)), c.(used := c.used + 1))
  }

  /** One concrete step. Splitting on a variable does nothing to a concrete value. */
  function ConcStep(prog: Program, c: Config, sigma: Valuation): Config
    requires c.Running?
  {
    var fr := c.frame;
    if fr.fn !in prog || fr.pc >= |prog[fr.fn].instrs| then Stopped(Finished(Unit))
    else
      match prog[fr.fn].instrs[fr.pc]
      case Decl(v, ty) => c.(frame := Advance(fr.(vars := fr.vars[v := Uninit(ty)])))
      case Init(v, e) => ConcStore(ConcEval(e, c, sigma), v, true)
      case Copy(dest, e) => ConcStore(ConcEval(e, c, sigma), dest, false)
      case Primop(dest, op, args) => ConcStore(ConcEval(Prim(op, args), c, sigma), dest, false)
      case Goto(target) => c.(frame := fr.(pc := target))
      case Jump(e, target) =>
        var r := ConcEval(e, c, sigma);
        if r.Failure? then Stopped(Failed(r.error))
        else
          var (v, c1) := r.value;
          if v.Bool? then c1.(frame := if v.b then c1.frame.(pc := target) else Advance(c1.frame))
          else Stopped(Failed(TypeError))
      case Call(dest, f, args) =>
        var r := ConcEvals(args, c, sigma);
        if f !in prog then Stopped(Failed(NoFunction))
        else if r.Failure? then Stopped(Failed(r.error))
        else if |r.value.0| > |prog[f].params| then Stopped(Failed(Panicked))
        else r.value.1.(frame := Enter(r.value.1.frame, f, prog[f], dest, r.value.0))
      case End => ConcEnd(c, sigma)
      case Monomorphize(id, mono) =>
        var r := ConcRead(id, c, sigma);
        if r.Failure? then Stopped(Failed(r.error)) else r.value.1.(frame := Advance(r.value.1.frame))
      case Arbitrary => ConcReturn(Poison, c)
      case Exit(cause) => Stopped(ExitOutcome(cause))
  }
}
