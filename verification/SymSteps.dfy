/** One step of the symbolic executor covers one step of every concrete run, in exactly one branch. */
module SymSteps {
  import opened Wrappers
  import opened SymLang
  import opened SymExec
  import opened SymProofs

  /** The state a queued task starts from once its condition is added. */
  function Resumed(t: Task): State { t.state.(solver := t.state.solver.AddAssert(t.cond)) }

  function LastSolver(n: Next): Solver { if n.Run? then n.state.solver else n.solver }

  lemma AssertFacts(s: Solver, cond: Cond, sigma: Valuation)
    requires ValidSolver(s) && cond.v < |s.sorts|
    ensures var s' := s.AddAssert(cond);
            && ValidSolver(s') && Extends(s, s') && s'.sorts == s.sorts
            && Env(s', sigma) == Env(s, sigma) && Used(s', sigma) == Used(s, sigma)
            && (Sat(s'.trace, sigma) <==> Sat(s.trace, sigma) && CondHolds(cond, Env(s, sigma)))
    ensures |Env(s, sigma)| == |s.sorts|
  {
    assert (s.trace + [Assert(cond)])[..|s.trace|] == s.trace;
    ModelTyped(s.trace, s.sorts, sigma);
  }

  /** Whatever a step produces extends the solver it started from and is well formed. */
  ghost predicate Produces(st: State, step: Step) {
    && Extends(st.solver, LastSolver(step.next))
    && (step.next.Run? ==> Valid(step.next.state))
    && (step.next.Stop? ==> ValidSolver(step.next.solver))
    && (step.fork.Some? ==> step.next.Run? && Valid(Resumed(step.fork.value))
                            && Extends(st.solver, Resumed(step.fork.value).solver))
  }

  /** `c` continues as the concrete step `c'` does: it is that configuration, or is about to take it. */
  predicate Continues(prog: Program, c: Config, c': Config, sigma: Valuation) {
    c == c' || (c.Running? && ConcStep(prog, c, sigma) == c')
  }

  /** `c` is right behind a split on a value of a type that the split does not take. */
  predicate Refused(prog: Program, c: Config) {
    c.Running? && c.frame.fn in prog && 0 < c.frame.pc <= |prog[c.frame.fn].instrs| &&
    var i := prog[c.frame.fn].instrs[c.frame.pc - 1];
    i.Monomorphize? && ReadScope(c.frame, i.id).Some? &&
    var u := ScopeOf(c.frame, ReadScope(c.frame, i.id).value)[i.id];
    u.Inited? && !Takes(i.mono, TypeOf(u.value))
  }

  /** Under a valuation of the state before the step, exactly one of the next state and the fork is
      satisfied, and it stands for the concrete step; a halted path has the concrete outcome, or the
      concrete step is the split that the solver refused. */
  ghost predicate Covers(prog: Program, step: Step, c': Config, sigma: Valuation) {
    match step.next
    case Run(st') =>
      var here := Sat(st'.solver.trace, sigma);
      var there := step.fork.Some? && Sat(Resumed(step.fork.value).solver.trace, sigma);
      && here != there
      && (here ==> ConfigOf(st', sigma) == c')
      && (there ==> Continues(prog, ConfigOf(Resumed(step.fork.value), sigma), c', sigma))
    case Stop(o, s) =>
      && step.fork.None? && Sat(s.trace, sigma) && o != Dead
      && if o == Failed(Unsplittable) then Refused(prog, c') else c' == Stopped(ConcOutcome(o, Env(s, sigma)))
  }

  /** The step for one valuation: it produces well-formed states, and covers the concrete step. */
  ghost predicate Simulates(prog: Program, st: State, step: Step, c': Config, sigma: Valuation) {
    Produces(st, step) && (Sat(st.solver.trace, sigma) ==> Covers(prog, step, c', sigma))
  }

  lemma GoSim(prog: Program, st: State, st': State, c': Config, sigma: Valuation)
    requires Valid(st) && Valid(st') && Grown(st.solver, st'.solver, sigma) && ConfigOf(st', sigma) == c'
    ensures Simulates(prog, st, Go(st'), c', sigma)
  {
  }

  lemma StoreSim(prog: Program, st: State, r: Result<(Val, State), Error>, rc: Result<(CVal, Config), Error>, dest: Name, isInit: bool,
                 sigma: Valuation)
    requires Valid(st) && Sim(st, r, rc, sigma)
    ensures rc.Success? ==> rc.value.1.Running?
    ensures Simulates(prog, st, SymStore(r, st, dest, isInit), ConcStore(rc, dest, isInit), sigma)
  {
    if r.Success? {
      var (v, st1) := r.value;
      var env := Env(st1.solver, sigma);
      ModelTyped(st1.solver.trace, st1.solver.sorts, sigma);
      if isInit { BindingsUpdate(st1.frame.vars, dest, Inited(v), env); } else { AssignConc(st1.frame, dest, v, env); }
    }
  }

  /** Whether the symbol is true decides which of its two assertions a valuation satisfies. */
  lemma BranchFacts(s: Solver, v: Sym, sigma: Valuation)
    requires ValidSolver(s) && v < |s.sorts| && s.sorts[v] == TBool
    ensures |Env(s, sigma)| == |s.sorts| && Env(s, sigma)[v].Bool?
    ensures var b := Env(s, sigma)[v].b;
            && (Sat(s.AddAssert(Holds(v)).trace, sigma) <==> Sat(s.trace, sigma) && b)
            && (Sat(s.AddAssert(Fails(v)).trace, sigma) <==> Sat(s.trace, sigma) && !b)
  {
    AssertFacts(s, Holds(v), sigma);
    AssertFacts(s, Fails(v), sigma);
    ModelTyped(s.trace, s.sorts, sigma);
    hide Sat, ModelOf, ValidTrace;
    assert TypeOf(Env(s, sigma)[v]) == Some(TBool);
  }

  /** Asserting a condition on a frame's position keeps what it stands for. */
  lemma AssertedState(st: State, fr: Frame<Val>, cond: Cond, sigma: Valuation)
    requires Valid(st) && cond.v < |st.solver.sorts| && FrameKnown(fr, |st.solver.sorts|)
    ensures var st' := State(fr, st.solver.AddAssert(cond));
            && Valid(st') && Extends(st.solver, st'.solver)
            && ConfigOf(st', sigma) == Running(Conc(fr, Env(st.solver, sigma)), Used(st.solver, sigma))
  {
    AssertFacts(st.solver, cond, sigma);
  }

  /** Where a concrete jump on this value goes. */
  function Branch(v: CVal, target: nat, c: Config): Config
    requires c.Running?
  {
    if v.Bool? then c.(frame := if v.b then c.frame.(pc := target) else Advance(c.frame)) else Stopped(Failed(TypeError))
  }

  lemma JumpSim(prog: Program, st: State, v: Sym, target: nat, sigma: Valuation)
    requires Valid(st) && v < |st.solver.sorts|
    ensures Simulates(prog, st, SymJump(v, target, st),
              Branch(ValueIn(Symbolic(v), Env(st.solver, sigma)), target, ConfigOf(st, sigma)), sigma)
  {
    var s := st.solver;
    var c := ConfigOf(st, sigma);
    if s.sorts[v] == TBool {
      BranchFacts(s, v, sigma);
      AssertedState(st, st.frame.(pc := target), Holds(v), sigma);
      AssertedState(st, Advance(st.frame), Fails(v), sigma);
      assert Conc(st.frame.(pc := target), Env(s, sigma)) == c.frame.(pc := target);
      assert Conc(Advance(st.frame), Env(s, sigma)) == Advance(c.frame);
      if Sat(s.trace, sigma) { BranchSatisfiable(s, v, sigma); }
      hide Sat, ModelOf, ValidTrace, FrameKnown, Conc, ConcStep, TypeOf, Satisfiable, ConfigOf, Env;
    } else {
      ModelTyped(s.trace, s.sorts, sigma);
      assert TypeOf(Env(s, sigma)[v]) != Some(TBool);
      hide Sat, ModelOf, ValidTrace, FrameKnown, Conc, ConcStep, ConfigOf;
    }
  }

  /** The solver finds the side of a valuation satisfiable. */
  lemma BranchSatisfiable(s: Solver, v: Sym, sigma: Valuation)
    ensures Sat(s.AddAssert(Holds(v)).trace, sigma) ==> Satisfiable(s.AddAssert(Holds(v)))
    ensures Sat(s.AddAssert(Fails(v)).trace, sigma) ==> Satisfiable(s.AddAssert(Fails(v)))
  {
  }

  /** The frame of the caller, before the result is assigned. */
  function Popped<V>(fr: Frame<V>): Frame<V>
    requires fr.stackCall != []
  {
    var r := fr.stackCall[|fr.stackCall| - 1];
    var n := |fr.stackVars|;
    Frame(r.fn, r.pc + 1, if n == 0 then fr.vars else fr.stackVars[n - 1], fr.regs, fr.lets,
          if n == 0 then [] else fr.stackVars[..n - 1], fr.stackCall[..|fr.stackCall| - 1])
  }

  lemma PoppedConc(fr: Frame<Val>, env: seq<CVal>)
    requires fr.stackCall != [] && FrameKnown(fr, |env|)
    ensures Conc(Popped(fr), env) == Popped(Conc(fr, env)) && FrameKnown(Popped(fr), |env|)
  {
    hide ConcBindings, BindingsKnown;
    var n := |fr.stackVars|;
    assert n > 0 ==> ConcStack(fr.stackVars[..n - 1], env) == ConcStack(fr.stackVars, env)[..n - 1];
  }

  /** Popping the call stack commutes with giving the symbols their values. */
  lemma LeaveConc(fr: Frame<Val>, v: Val, env: seq<CVal>)
    requires fr.stackCall != [] && FrameKnown(fr, |env|) && Known(v, |env|)
    ensures Conc(Leave(fr, v), env) == Leave(Conc(fr, env), ValueIn(v, env))
    ensures FrameKnown(Leave(fr, v), |env|)
  {
    var dest := fr.stackCall[|fr.stackCall| - 1].dest;
    PoppedConc(fr, env);
    assert Leave(fr, v) == Assign(Popped(fr), dest, v);
    assert Leave(Conc(fr, env), ValueIn(v, env)) == Assign(Popped(Conc(fr, env)), dest, ValueIn(v, env));
    assert dest in fr.lets ==> dest !in fr.regs;
    assert Popped(fr).lets == fr.lets && Popped(fr).regs == fr.regs;
    hide FrameKnown, Conc, Leave, Popped, Assign;
    AssignConc(Popped(fr), dest, v, env);
  }

  lemma ReturnSim(prog: Program, st: State, st': State, v: Val, sigma: Valuation)
    requires Valid(st) && Valid(st') && Grown(st.solver, st'.solver, sigma) && Known(v, |st'.solver.sorts|)
    ensures Simulates(prog, st, SymReturn(v, st'), ConcReturn(ValueIn(v, Env(st'.solver, sigma)), ConfigOf(st', sigma)), sigma)
  {
    var fr := st'.frame;
    ModelTyped(st'.solver.trace, st'.solver.sorts, sigma);
    if fr.stackCall != [] {
      LeaveConc(fr, v, Env(st'.solver, sigma));
      GoSim(prog, st, st'.(frame := Leave(fr, v)), ConfigOf(st'.(frame := Leave(fr, v)), sigma), sigma);
    } else {
      hide ModelOf, ValidTrace, FrameKnown, ConcStep;
    }
    hide Sat, ModelOf, ValidTrace, FrameKnown, ConcStep, Leave;
  }

  lemma EndSim(prog: Program, st: State, sigma: Valuation)
    requires Valid(st)
    ensures Simulates(prog, st, SymEnd(st), ConcEnd(ConfigOf(st, sigma), sigma), sigma)
  {
    var c := ConfigOf(st, sigma);
    EndUnfolds(st, sigma);
    hide Simulates, Sat, ModelOf, ValidTrace, FrameKnown, ConcStep, SymReturn, ConcReturn, Conc, Grown, Env, Used, ConfigOf, SymEnd, ConcEnd;
    if RETURN !in st.frame.vars {
      HaltSim(prog, st, Failed(Panicked), sigma);
    } else if st.frame.vars[RETURN].Uninit? {
      var ty := st.frame.vars[RETURN].ty;
      var st' := DeclaredSim(st, ty, sigma);
      ReturnSim(prog, st, st', Symbolic(|st.solver.sorts|), sigma);
    } else {
      GrownSelf(st.solver, sigma);
      ReturnSim(prog, st, st, st.frame.vars[RETURN].value, sigma);
    }
  }

  /** What the end of a function does, on both sides. */
  lemma EndUnfolds(st: State, sigma: Valuation)
    requires Valid(st)
    ensures var c := ConfigOf(st, sigma);
            var vars := st.frame.vars;
            && c.used == Used(st.solver, sigma)
            && (RETURN !in vars ==> SymEnd(st) == Halt(Failed(Panicked), st.solver)
                                    && ConcEnd(c, sigma) == Stopped(Failed(Panicked)))
            && (RETURN in vars && vars[RETURN].Uninit? ==>
                  && SymEnd(st) == SymReturn(Symbolic(|st.solver.sorts|),
                                             st.(solver := st.solver.Add(Declare(vars[RETURN].ty), vars[RETURN].ty)))
                  && ConcEnd(c, sigma) == ConcReturn(Inhabit(vars[RETURN].ty, Raw(sigma, c.used)), c.(used := c.used + 1)))
            && (RETURN in vars && vars[RETURN].Inited? ==>
                  && Known(vars[RETURN].value, |st.solver.sorts|)
                  && SymEnd(st) == SymReturn(vars[RETURN].value, st)
                  && ConcEnd(c, sigma) == ConcReturn(ValueIn(vars[RETURN].value, Env(st.solver, sigma)), c))
  {
    var vars, env := st.frame.vars, Env(st.solver, sigma);
    if RETURN in vars {
      assert UKnown(vars[RETURN], |st.solver.sorts|);
      assert ConcBindings(vars, env)[RETURN] == ConcU(vars[RETURN], env);
    }
    assert ConfigOf(st, sigma).frame.vars == ConcBindings(vars, env);
    hide Sat, ModelOf, ValidTrace, FrameKnown, ConcStep, SymReturn, ConcReturn, Conc;
  }

  lemma GrownSelf(s: Solver, sigma: Valuation)
    requires ValidSolver(s)
    ensures Grown(s, s, sigma)
  {
  }

  /** A fresh unknown for a result that was never assigned. */
  lemma DeclaredSim(st: State, ty: Ty, sigma: Valuation) returns (st': State)
    requires Valid(st)
    ensures st' == st.(solver := st.solver.Add(Declare(ty), ty))
    ensures Valid(st') && Grown(st.solver, st'.solver, sigma) && |st'.solver.sorts| == |st.solver.sorts| + 1
    ensures ConfigOf(st', sigma) == Running(ConfigOf(st, sigma).frame, Used(st.solver, sigma) + 1)
    ensures ValueIn(Symbolic(|st.solver.sorts|), Env(st'.solver, sigma)) == Inhabit(ty, Raw(sigma, Used(st.solver, sigma)))
  {
    st' := st.(solver := st.solver.Add(Declare(ty), ty));
    DeclareGrows(st.solver, ty, sigma);
    FrameGrows(st.frame, st.solver, st'.solver, sigma);
    hide Sat, ModelOf, ValidTrace, FrameKnown, Conc;
  }

  lemma {:induction false} ParamsConc(vars: Bindings<Val>, params: seq<Name>, args: seq<Val>, env: seq<CVal>)
    requires |args| <= |params| && BindingsKnown(vars, |env|) && forall v | v in args :: Known(v, |env|)
    ensures |ValuesIn(args, env)| == |args|
    ensures ConcBindings(BindParams(vars, params, args), env) == BindParams(ConcBindings(vars, env), params, ValuesIn(args, env))
    ensures BindingsKnown(BindParams(vars, params, args), |env|)
    decreases |args|
  {
    ValuesLength(args, env);
    if args != [] {
      var n := |args| - 1;
      ValuesSnoc(args, env);
      ParamsConc(vars, params[..n], args[..n], env);
      BindingsUpdate(BindParams(vars, params[..n], args[..n]), params[n], Inited(args[n]), env);
    }
  }

  lemma {:induction false} ValuesLength(vs: seq<Val>, env: seq<CVal>)
    ensures |ValuesIn(vs, env)| == |vs|
    ensures forall i | 0 <= i < |vs| :: ValuesIn(vs, env)[i] == ValueIn(vs[i], env)
    decreases vs
  {
    if vs != [] { ValuesLength(vs[1..], env); }
  }

  lemma ValuesSnoc(vs: seq<Val>, env: seq<CVal>)
    requires vs != []
    ensures |ValuesIn(vs, env)| == |vs|
    ensures ValuesIn(vs, env)[..|vs| - 1] == ValuesIn(vs[..|vs| - 1], env)
    ensures ValuesIn(vs, env)[|vs| - 1] == ValueIn(vs[|vs| - 1], env)
  {
    ValuesLength(vs, env);
    ValuesLength(vs[..|vs| - 1], env);
  }

  lemma EnterConc(fr: Frame<Val>, f: Name, fn: Fn, dest: Name, args: seq<Val>, env: seq<CVal>)
    requires |args| <= |fn.params| && FrameKnown(fr, |env|) && forall v | v in args :: Known(v, |env|)
    ensures |ValuesIn(args, env)| == |args|
    ensures Conc(Enter(fr, f, fn, dest, args), env) == Enter(Conc(fr, env), f, fn, dest, ValuesIn(args, env))
    ensures FrameKnown(Enter(fr, f, fn, dest, args), |env|)
  {
    var start: Bindings<Val> := map[RETURN := Uninit(fn.retTy)];
    ParamsConc(start, fn.params, args, env);
    assert ConcBindings(start, env) == map[RETURN := Uninit(fn.retTy)];
    assert ConcStack(fr.stackVars + [fr.vars], env) == ConcStack(fr.stackVars, env) + [ConcBindings(fr.vars, env)];
  }

  // ----- splitting on the value of a symbol

  /** Reading again changes nothing: the first read has stored the value. */
  lemma ReadStays(id: Name, st: State)
    requires SymRead(id, st).Success?
    ensures var (v, st1) := SymRead(id, st).value;
            && SymRead(id, st1) == Success((v, st1)) && st1.frame.pc == st.frame.pc && st1.frame.fn == st.frame.fn
            && ReadScope(st1.frame, id).Some? && ScopeOf(st1.frame, ReadScope(st1.frame, id).value)[id] == Inited(v)
  {
  }

  lemma SameAssign(fr: Frame<CVal>, id: Name, c: CVal)
    requires ReadScope(fr, id).Some? && ScopeOf(fr, ReadScope(fr, id).value)[id] == Inited(c)
    requires id in fr.lets ==> id !in fr.regs
    ensures Assign(fr, id, c) == fr
  {
  }

  /** Fixing a variable to the value its symbol has does not change what the frame stands for. */
  lemma FixedConc(fr: Frame<Val>, id: Name, v: Sym, choice: CVal, env: seq<CVal>)
    requires ReadScope(fr, id).Some? && ScopeOf(fr, ReadScope(fr, id).value)[id] == Inited(Symbolic(v))
    requires FrameKnown(fr, |env|)
    ensures FrameKnown(Assign(fr, id, Concrete(choice)), |env|)
    ensures v < |env| && env[v] == choice ==> Conc(Assign(fr, id, Concrete(choice)), env) == Conc(fr, env)
  {
    assert id in fr.lets ==> id !in fr.regs;
    AssignConc(fr, id, Concrete(choice), env);
    if v < |env| && env[v] == choice {
      assert ReadScope(Conc(fr, env), id) == ReadScope(fr, id);
      assert ScopeOf(Conc(fr, env), ReadScope(fr, id).value)[id] == Inited(choice);
      SameAssign(Conc(fr, env), id, choice);
    }
  }

  function Advanced(c: Config): Config
    requires c.Running?
  {
    c.(frame := Advance(c.frame))
  }

  /** A split: on a valuation of the current path, the continuing side fixes the symbol's own value,
      the queued side excludes it. */
  lemma SplitFacts(st: State, id: Name, v: Sym, choice: CVal, sigma: Valuation)
    requires Valid(st) && SymRead(id, st) == Success((Symbolic(v), st)) && v < |st.solver.sorts|
    ensures var s1 := st.solver.Add(CopyOf(v), st.solver.sorts[v]);
            var here := State(Advance(Assign(st.frame, id, Concrete(choice))), s1.AddAssert(Equals(v, choice)));
            var there := Resumed(Task(st, Differs(v, choice)));
            && Valid(here) && Valid(there) && ValidSolver(s1)
            && Extends(st.solver, here.solver) && Extends(st.solver, there.solver) && Extends(st.solver, s1)
            && (Sat(s1.trace, sigma) <==> Sat(st.solver.trace, sigma))
            && var same := v < |Env(st.solver, sigma)| && Env(st.solver, sigma)[v] == choice;
               && (Sat(here.solver.trace, sigma) <==> Sat(st.solver.trace, sigma) && same)
               && (Sat(there.solver.trace, sigma) <==> Sat(st.solver.trace, sigma) && !same)
               && (same ==> ConfigOf(here, sigma) == Advanced(ConfigOf(st, sigma)))
               && ConfigOf(there, sigma) == ConfigOf(st, sigma)
  {
    var s := st.solver;
    var s1 := s.Add(CopyOf(v), s.sorts[v]);
    CopyGrows(s, v, sigma);
    AssertFacts(s1, Equals(v, choice), sigma);
    AssertFacts(s, Differs(v, choice), sigma);
    FrameGrows(st.frame, s, s1, sigma);
    ReadStays(id, st);
    FixedConc(st.frame, id, v, choice, Env(s1, sigma));
    hide Sat, ModelOf, ValidTrace;
  }

  lemma RefusedSplit(prog: Program, st: State, id: Name, v: Sym, mono: Option<Ty>, sigma: Valuation)
    requires Valid(st) && SymRead(id, st) == Success((Symbolic(v), st)) && v < |st.solver.sorts|
    requires st.frame.fn in prog && st.frame.pc < |prog[st.frame.fn].instrs|
    requires prog[st.frame.fn].instrs[st.frame.pc] == Monomorphize(id, mono)
    requires !Takes(mono, Some(st.solver.sorts[v]))
    ensures Refused(prog, Advanced(ConfigOf(st, sigma)))
  {
    ReadStays(id, st);
    var s := st.solver;
    ModelTyped(s.trace, s.sorts, sigma);
    hide Sat, ModelOf, ValidTrace, SymRead;
    var scope := ReadScope(st.frame, id).value;
    var c := ConfigOf(st, sigma);
    assert ScopeOf(c.frame, scope)[id] == ConcU(ScopeOf(st.frame, scope)[id], Env(s, sigma));
    assert ReadScope(Advanced(c).frame, id) == Some(scope);
  }

  lemma MonoSim(prog: Program, st: State, id: Name, v: Sym, mono: Option<Ty>, choice: CVal, sigma: Valuation)
    requires Valid(st) && SymRead(id, st) == Success((Symbolic(v), st)) && v < |st.solver.sorts|
    requires st.frame.fn in prog && st.frame.pc < |prog[st.frame.fn].instrs|
    requires prog[st.frame.fn].instrs[st.frame.pc] == Monomorphize(id, mono)
    ensures Simulates(prog, st, SymMonomorphize(id, v, mono, st, choice), ConcStep(prog, ConfigOf(st, sigma), sigma), sigma)
  {
    SplitFacts(st, id, v, choice, sigma);
    MonoUnfolds(prog, st, choice, sigma);
    if !Takes(mono, Some(st.solver.sorts[v])) { RefusedSplit(prog, st, id, v, mono, sigma); }
    var c := ConfigOf(st, sigma);
    hide Refused, SymRead, SymStep;
    hide Sat, ModelOf, ValidTrace, FrameKnown, Conc, ConcStep, Env, Used;
    assert Continues(prog, c, Advanced(c), sigma);
    assert ConfigOf(Resumed(Task(st, Differs(v, choice))), sigma) == c;
    hide Continues, ConfigOf;
  }

  // ----- the whole step

  /** A step from a state whose solver has only grown is a step from the earlier state. */
  lemma Rebase(prog: Program, st: State, st1: State, step: Step, c': Config, sigma: Valuation)
    requires Grown(st.solver, st1.solver, sigma) && Simulates(prog, st1, step, c', sigma)
    ensures Simulates(prog, st, step, c', sigma)
  {
    hide Sat, ModelOf, ValidTrace, FrameKnown, Conc, ConcStep, Covers;
  }

  lemma CallSim(prog: Program, st: State, dest: Name, f: Name, r: Result<(seq<Val>, State), Error>, rc: Result<(seq<CVal>, Config), Error>,
                sigma: Valuation)
    requires Valid(st) && f in prog && SimAll(st, r, rc, sigma) && r.Success?
    ensures rc.Success? && rc.value.1.Running?
    ensures Simulates(prog, st, SymCall(prog, dest, f, r.value.0, r.value.1),
              if |rc.value.0| > |prog[f].params| then Stopped(Failed(Panicked))
              else rc.value.1.(frame := Enter(rc.value.1.frame, f, prog[f], dest, rc.value.0)), sigma)
  {
    var (vs, st1) := r.value;
    var env := Env(st1.solver, sigma);
    ModelTyped(st1.solver.trace, st1.solver.sorts, sigma);
    ValuesLength(vs, env);
    if |vs| <= |prog[f].params| {
      EnterConc(st1.frame, f, prog[f], dest, vs, env);
      hide FrameKnown, Enter;
      GoSim(prog, st, st1.(frame := Enter(st1.frame, f, prog[f], dest, vs)),
            ConfigOf(st1.(frame := Enter(st1.frame, f, prog[f], dest, vs)), sigma), sigma);
    }
    hide Sat, ModelOf, ValidTrace, FrameKnown, ConcStep;
  }

  lemma HaltSim(prog: Program, st: State, o: Outcome<Val>, sigma: Valuation)
    requires Valid(st) && o != Dead && o != Failed(Unsplittable)
    ensures Simulates(prog, st, Halt(o, st.solver), Stopped(ConcOutcome(o, Env(st.solver, sigma))), sigma)
  {
  }

  lemma MonoStepSim(prog: Program, st: State, choice: CVal, sigma: Valuation)
    requires Valid(st) && st.frame.fn in prog && st.frame.pc < |prog[st.frame.fn].instrs|
    requires prog[st.frame.fn].instrs[st.frame.pc].Monomorphize?
    ensures Simulates(prog, st, SymStep(prog, st, choice), ConcStep(prog, ConfigOf(st, sigma), sigma), sigma)
  {
    var i := prog[st.frame.fn].instrs[st.frame.pc];
    MonoUnfolds(prog, st, choice, sigma);
    var r := SymRead(i.id, st);
    if r.Failure? {
      HaltSim(prog, st, Failed(r.error), sigma);
    } else {
      var (v, st1) := r.value;
      ReadSim(i.id, st, sigma);
      ReadStays(i.id, st);
      hide Sat, ModelOf, ValidTrace, FrameKnown, SymStep, ConcStep, SymRead, ConcRead, ConfigOf, Env, Used;
      if v.Symbolic? {
        MonoUnfolds(prog, st1, choice, sigma);
        ReadSim(i.id, st1, sigma);
        MonoSim(prog, st1, i.id, v.v, i.mono, choice, sigma);
        Rebase(prog, st, st1, SymMonomorphize(i.id, v.v, i.mono, st1, choice), ConcStep(prog, ConfigOf(st1, sigma), sigma), sigma);
      } else {
        MovedOn(st1, sigma);
        GoSim(prog, st, st1.(frame := Advance(st1.frame)), Advanced(ConfigOf(st1, sigma)), sigma);
      }
    }
    hide Sat, ModelOf, ValidTrace, FrameKnown, Simulates;
  }

  /** What a split does, on both sides. */
  lemma MonoUnfolds(prog: Program, st: State, choice: CVal, sigma: Valuation)
    requires Valid(st) && st.frame.fn in prog && st.frame.pc < |prog[st.frame.fn].instrs|
    requires prog[st.frame.fn].instrs[st.frame.pc].Monomorphize?
    ensures var i := prog[st.frame.fn].instrs[st.frame.pc];
            var r := SymRead(i.id, st);
            && (r.Failure? ==> Ordinary(r.error) && SymStep(prog, st, choice) == Halt(Failed(r.error), st.solver)
                               && ConcStep(prog, ConfigOf(st, sigma), sigma) == Stopped(Failed(r.error)))
            && (r.Success? ==>
                  && SymStep(prog, st, choice) ==
                     (if r.value.0.Symbolic? then SymMonomorphize(i.id, r.value.0.v, i.mono, r.value.1, choice)
                      else Go(r.value.1.(frame := Advance(r.value.1.frame))))
                  && ConcStep(prog, ConfigOf(st, sigma), sigma) == Advanced(ConfigOf(r.value.1, sigma)))
  {
    ReadSim(prog[st.frame.fn].instrs[st.frame.pc].id, st, sigma);
    hide Sat, ModelOf, ValidTrace, FrameKnown, SymRead, ConcRead, SymMonomorphize;
  }

  lemma MovedOn(st: State, sigma: Valuation)
    requires Valid(st)
    ensures Valid(st.(frame := Advance(st.frame))) && ConfigOf(st.(frame := Advance(st.frame)), sigma) == Advanced(ConfigOf(st, sigma))
    ensures Grown(st.solver, st.solver, sigma)
  {
    hide Sat, ModelOf, ValidTrace;
  }

  lemma JumpStepSim(prog: Program, st: State, choice: CVal, sigma: Valuation)
    requires Valid(st) && st.frame.fn in prog && st.frame.pc < |prog[st.frame.fn].instrs|
    requires prog[st.frame.fn].instrs[st.frame.pc].Jump?
    ensures Simulates(prog, st, SymStep(prog, st, choice), ConcStep(prog, ConfigOf(st, sigma), sigma), sigma)
  {
    var i := prog[st.frame.fn].instrs[st.frame.pc];
    EvalSim(i.exp, st, sigma);
    var r := SymEval(i.exp, st);
    if r.Failure? {
      HaltSim(prog, st, Failed(r.error), sigma);
    } else {
      var (v, st1) := r.value;
      var c' := Branch(ValueIn(v, Env(st1.solver, sigma)), i.target, ConfigOf(st1, sigma));
      assert ConcStep(prog, ConfigOf(st, sigma), sigma) == c';
      if v.Symbolic? {
        JumpSim(prog, st1, v.v, i.target, sigma);
        Rebase(prog, st, st1, SymJump(v.v, i.target, st1), c', sigma);
      } else if v.c.Bool? {
        var st' := st1.(frame := if v.c.b then st1.frame.(pc := i.target) else Advance(st1.frame));
        GoSim(prog, st, st', ConfigOf(st', sigma), sigma);
      } else {
        HaltSim(prog, st1, Failed(TypeError), sigma);
        Rebase(prog, st, st1, Halt(Failed(TypeError), st1.solver), c', sigma);
      }
    }
    hide Sat, ModelOf, ValidTrace, FrameKnown, Simulates;
  }

  lemma CallStepSim(prog: Program, st: State, choice: CVal, sigma: Valuation)
    requires Valid(st) && st.frame.fn in prog && st.frame.pc < |prog[st.frame.fn].instrs|
    requires prog[st.frame.fn].instrs[st.frame.pc].Call?
    ensures Simulates(prog, st, SymStep(prog, st, choice), ConcStep(prog, ConfigOf(st, sigma), sigma), sigma)
  {
    var i := prog[st.frame.fn].instrs[st.frame.pc];
    EvalsSim(i.args, st, sigma);
    var r := SymEvals(i.args, st);
    if i.f !in prog {
      HaltSim(prog, st, Failed(NoFunction), sigma);
    } else if r.Failure? {
      HaltSim(prog, st, Failed(r.error), sigma);
    } else {
      CallSim(prog, st, i.dest, i.f, r, ConcEvals(i.args, ConfigOf(st, sigma), sigma), sigma);
    }
    hide Sat, ModelOf, ValidTrace, FrameKnown, Simulates;
  }

  lemma StoreStepSim(prog: Program, st: State, choice: CVal, sigma: Valuation)
    requires Valid(st) && st.frame.fn in prog && st.frame.pc < |prog[st.frame.fn].instrs|
    requires var i := prog[st.frame.fn].instrs[st.frame.pc]; i.Init? || i.Copy? || i.Primop?
    ensures Simulates(prog, st, SymStep(prog, st, choice), ConcStep(prog, ConfigOf(st, sigma), sigma), sigma)
  {
    var i := prog[st.frame.fn].instrs[st.frame.pc];
    var e := if i.Primop? then Prim(i.op, i.args) else i.exp;
    var dest := if i.Init? then i.v else i.dest;
    EvalSim(e, st, sigma);
    StoreSim(prog, st, SymEval(e, st), ConcEval(e, ConfigOf(st, sigma), sigma), dest, i.Init?, sigma);
    hide Sat, ModelOf, ValidTrace, FrameKnown, Simulates, SymEval, ConcEval, SymStore, ConcStore, Conc;
  }

  /** Every step of the symbolic executor, on every valuation of the unknowns: if the valuation
      satisfies the path before, it satisfies exactly one of the path after and the queued sibling,
      and the state there stands for the concrete step; if the path halts, with the concrete outcome. */
  lemma StepSim(prog: Program, st: State, choice: CVal, sigma: Valuation)
    requires Valid(st)
    ensures Simulates(prog, st, SymStep(prog, st, choice), ConcStep(prog, ConfigOf(st, sigma), sigma), sigma)
  {
    var fr := st.frame;
    if fr.fn !in prog || fr.pc >= |prog[fr.fn].instrs| {
      HaltSim(prog, st, Finished(Concrete(Unit)), sigma);
      hide Simulates;
    } else {
      ModelTyped(st.solver.trace, st.solver.sorts, sigma);
      match prog[fr.fn].instrs[fr.pc]
      case Decl(v, ty) => DeclSim(prog, st, v, ty, sigma); hide Simulates;
      case Goto(target) =>
        GoSim(prog, st, st.(frame := fr.(pc := target)), ConfigOf(st.(frame := fr.(pc := target)), sigma), sigma);
        hide Simulates;
      case Init(_, _) => StoreStepSim(prog, st, choice, sigma); hide *;
      case Copy(_, _) => StoreStepSim(prog, st, choice, sigma); hide *;
      case Primop(_, _, _) => StoreStepSim(prog, st, choice, sigma); hide *;
      case Jump(_, _) => JumpStepSim(prog, st, choice, sigma); hide *;
      case Call(_, _, _) => CallStepSim(prog, st, choice, sigma); hide *;
      case Monomorphize(_, _) => MonoStepSim(prog, st, choice, sigma); hide *;
      case End => EndSim(prog, st, sigma); hide Simulates;
      case Arbitrary => ReturnSim(prog, st, st, Concrete(Poison), sigma); hide Simulates;
      case Exit(cause) => HaltSim(prog, st, ExitOutcome(cause), sigma); hide Simulates;
    }
    hide Sat, ModelOf, ValidTrace, FrameKnown, SymEnd, ConcEnd, SymReturn, ConcReturn;
  }

  lemma DeclSim(prog: Program, st: State, v: Name, ty: Ty, sigma: Valuation)
    requires Valid(st)
    ensures var st' := st.(frame := Advance(st.frame.(vars := st.frame.vars[v := Uninit(ty)])));
            var c := ConfigOf(st, sigma);
            Simulates(prog, st, Go(st'), c.(frame := Advance(c.frame.(vars := c.frame.vars[v := Uninit(ty)]))), sigma)
  {
    ModelTyped(st.solver.trace, st.solver.sorts, sigma);
    BindingsUpdate(st.frame.vars, v, Uninit(ty), Env(st.solver, sigma));
  }
}
