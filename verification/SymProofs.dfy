/** The symbolic step simulates the concrete step, under every valuation of the unknowns. */
module SymProofs {
  import opened Wrappers
  import opened Words
  import opened SymLang
  import opened SymExec

  // ----- well-formed solvers and frames

  ghost predicate ValidTrace(trace: seq<Def>, sorts: seq<Ty>)
    decreases |trace|
  {
    if trace == [] then sorts == []
    else
      var p := trace[..|trace| - 1];
      match trace[|trace| - 1]
      case Assert(cond) => cond.v < |sorts| && ValidTrace(p, sorts)
      case Declare(ty) => sorts != [] && sorts[|sorts| - 1] == ty && ValidTrace(p, sorts[..|sorts| - 1])
      case CopyOf(v) =>
        |sorts| > v + 1 && sorts[|sorts| - 1] == sorts[v] && ValidTrace(p, sorts[..|sorts| - 1])
      case Define(op, args, ty) =>
        && sorts != [] && sorts[|sorts| - 1] == ty && ValidTrace(p, sorts[..|sorts| - 1])
        && var tys := SortsOf(args, Solver(p, sorts[..|sorts| - 1]));
           tys.Some? && OpType(op, tys.value) == Some(ty)
  }

  ghost predicate ValidSolver(s: Solver) { ValidTrace(s.trace, s.sorts) }

  /** The values have the sorts the solver records. */
  ghost predicate EnvTyped(env: seq<CVal>, sorts: seq<Ty>) {
    |env| == |sorts| && forall v | 0 <= v < |env| :: TypeOf(env[v]) == Some(sorts[v])
  }

  function Env(s: Solver, sigma: Valuation): seq<CVal> { ModelOf(s.trace, sigma).env }

  function Used(s: Solver, sigma: Valuation): nat { ModelOf(s.trace, sigma).used }

  lemma InhabitTyped(ty: Ty, raw: nat)
    ensures TypeOf(Inhabit(ty, raw)) == Some(ty)
  {
    if ty.TBits? { AndLow(raw, ty.len); }
  }

  lemma {:induction false} ValuesTyped(vs: seq<Val>, s: Solver, env: seq<CVal>)
    requires EnvTyped(env, s.sorts)
    ensures TypesOf(ValuesIn(vs, env)) == SortsOf(vs, s)
    decreases vs
  {
    if vs != [] {
      ValuesTyped(vs[1..], s, env);
      assert ValuesIn(vs, env)[1..] == ValuesIn(vs[1..], env);
    }
  }

  lemma {:induction false} ModelTyped(trace: seq<Def>, sorts: seq<Ty>, sigma: Valuation)
    requires ValidTrace(trace, sorts)
    ensures EnvTyped(ModelOf(trace, sigma).env, sorts)
    decreases |trace|
  {
    if trace != [] {
      var p := trace[..|trace| - 1];
      match trace[|trace| - 1]
      case Assert(_) => ModelTyped(p, sorts, sigma);
      case Declare(ty) =>
        ModelTyped(p, sorts[..|sorts| - 1], sigma);
        InhabitTyped(ty, Raw(sigma, ModelOf(p, sigma).used));
      case CopyOf(v) => ModelTyped(p, sorts[..|sorts| - 1], sigma);
      case Define(op, args, ty) =>
        ModelTyped(p, sorts[..|sorts| - 1], sigma);
        var env := ModelOf(p, sigma).env;
        ValuesTyped(args, Solver(p, sorts[..|sorts| - 1]), env);
        ComputeTyped(op, ValuesIn(args, env));
    }
  }

  lemma Snoc(s: Solver, d: Def, ty: Ty)
    ensures (s.trace + [d])[..|s.trace + [d]| - 1] == s.trace && (s.trace + [d])[|s.trace + [d]| - 1] == d
    ensures (s.sorts + [ty])[..|s.sorts + [ty]| - 1] == s.sorts && (s.sorts + [ty])[|s.sorts + [ty]| - 1] == ty
  {
  }

  predicate Known(v: Val, n: nat) { v.Symbolic? ==> v.v < n }

  predicate UKnown(u: UVal<Val>, n: nat) { u.Inited? ==> Known(u.value, n) }

  predicate BindingsKnown(b: Bindings<Val>, n: nat) { forall k | k in b :: UKnown(b[k], n) }

  /** Every symbol in the frame is one of the first n. */
  predicate FrameKnown(fr: Frame<Val>, n: nat) {
    && BindingsKnown(fr.vars, n) && BindingsKnown(fr.regs, n) && BindingsKnown(fr.lets, n)
    && (forall b | b in fr.stackVars :: BindingsKnown(b, n))
    && fr.regs.Keys !! fr.lets.Keys
  }

  ghost predicate Valid(st: State) { ValidSolver(st.solver) && FrameKnown(st.frame, |st.solver.sorts|) }

  // ----- concretization

  function ConcU(u: UVal<Val>, env: seq<CVal>): UVal<CVal> {
    match u
    case Uninit(ty) => Uninit(ty)
    case Inited(v) => Inited(ValueIn(v, env))
  }

  function ConcBindings(b: Bindings<Val>, env: seq<CVal>): Bindings<CVal> { map k | k in b :: ConcU(b[k], env) }

  function ConcStack(s: seq<Bindings<Val>>, env: seq<CVal>): seq<Bindings<CVal>> {
    seq(|s|, i requires 0 <= i < |s| => ConcBindings(s[i], env))
  }

  function Conc(fr: Frame<Val>, env: seq<CVal>): Frame<CVal> {
    Frame(fr.fn, fr.pc, ConcBindings(fr.vars, env), ConcBindings(fr.regs, env), ConcBindings(fr.lets, env),
          ConcStack(fr.stackVars, env), fr.stackCall)
  }

  function ConcOutcome(o: Outcome<Val>, env: seq<CVal>): Outcome<CVal> {
    match o
    case Finished(v) => Finished(ValueIn(v, env))
    case Exited => Exited
    case Dead => Dead
    case Failed(e) => Failed(if e == IllSorted then TypeError else e)
  }

  /** The errors that evaluating an expression can give. */
  predicate Ordinary(e: Error) { e == TypeError || e == VariableNotFound }

  /** The concrete configuration a symbolic state stands for under a valuation. */
  function ConfigOf(st: State, sigma: Valuation): Config {
    Running(Conc(st.frame, Env(st.solver, sigma)), Used(st.solver, sigma))
  }

  predicate Extends(s: Solver, s': Solver) { s.trace <= s'.trace }

  lemma {:induction false} SatPrefix(t: seq<Def>, t': seq<Def>, sigma: Valuation)
    requires t <= t' && Sat(t', sigma)
    ensures Sat(t, sigma)
    decreases |t'|
  {
    if |t| < |t'| {
      SatPrefix(t, t'[..|t'| - 1], sigma);
    } else {
      assert t == t';
    }
  }

  lemma BindingsGrow(b: Bindings<Val>, env: seq<CVal>, env': seq<CVal>)
    requires BindingsKnown(b, |env|) && env <= env'
    ensures ConcBindings(b, env') == ConcBindings(b, env) && BindingsKnown(b, |env'|)
  {
    forall k | k in b
      ensures ConcU(b[k], env') == ConcU(b[k], env) && UKnown(b[k], |env'|)
    {
      assert UKnown(b[k], |env|);
    }
  }

  /** New symbols do not change what a frame stands for. */
  lemma ConcGrow(fr: Frame<Val>, env: seq<CVal>, env': seq<CVal>)
    requires FrameKnown(fr, |env|) && env <= env'
    ensures Conc(fr, env') == Conc(fr, env) && FrameKnown(fr, |env'|)
  {
    BindingsGrow(fr.vars, env, env');
    BindingsGrow(fr.regs, env, env');
    BindingsGrow(fr.lets, env, env');
    forall i | 0 <= i < |fr.stackVars|
      ensures ConcBindings(fr.stackVars[i], env') == ConcBindings(fr.stackVars[i], env)
      ensures BindingsKnown(fr.stackVars[i], |env'|)
    {
      assert fr.stackVars[i] in fr.stackVars;
      BindingsGrow(fr.stackVars[i], env, env');
    }
  }

  lemma BindingsUpdate(b: Bindings<Val>, k: Name, u: UVal<Val>, env: seq<CVal>)
    ensures ConcBindings(b[k := u], env) == ConcBindings(b, env)[k := ConcU(u, env)]
    ensures BindingsKnown(b, |env|) && UKnown(u, |env|) ==> BindingsKnown(b[k := u], |env|)
  {
  }

  lemma SetInConc(fr: Frame<Val>, scope: Scope, id: Name, u: UVal<Val>, env: seq<CVal>)
    requires FrameKnown(fr, |env|) && UKnown(u, |env|)
    requires (scope == Regs ==> id !in fr.lets) && (scope == Lets ==> id !in fr.regs)
    ensures Conc(SetIn(fr, scope, id, u), env) == SetIn(Conc(fr, env), scope, id, ConcU(u, env))
    ensures FrameKnown(SetIn(fr, scope, id, u), |env|)
  {
    BindingsUpdate(ScopeOf(fr, scope), id, u, env);
  }

  lemma AssignConc(fr: Frame<Val>, id: Name, v: Val, env: seq<CVal>)
    requires FrameKnown(fr, |env|) && Known(v, |env|) && (id in fr.lets ==> id !in fr.regs)
    ensures Conc(Assign(fr, id, v), env) == Assign(Conc(fr, env), id, ValueIn(v, env))
    ensures FrameKnown(Assign(fr, id, v), |env|)
  {
    SetInConc(fr, if id in fr.vars then Vars else if id in fr.lets then Lets else Regs, id, Inited(v), env);
  }

  // ----- the solver grows by definitions

  /** `s'` has more symbols than `s`, and the same valuations satisfy it. */
  ghost predicate Grown(s: Solver, s': Solver, sigma: Valuation) {
    && ValidSolver(s') && Extends(s, s') && Env(s, sigma) <= Env(s', sigma)
    && Sat(s'.trace, sigma) == Sat(s.trace, sigma)
  }

  lemma DeclareGrows(s: Solver, ty: Ty, sigma: Valuation)
    requires ValidSolver(s)
    ensures Grown(s, s.Add(Declare(ty), ty), sigma)
    ensures Env(s.Add(Declare(ty), ty), sigma) == Env(s, sigma) + [Inhabit(ty, Raw(sigma, Used(s, sigma)))]
    ensures Used(s.Add(Declare(ty), ty), sigma) == Used(s, sigma) + 1
    ensures |Env(s, sigma)| == |s.sorts|
  {
    Snoc(s, Declare(ty), ty);
    ModelTyped(s.trace, s.sorts, sigma);
  }

  lemma DefineGrows(s: Solver, op: Op, vs: seq<Val>, ty: Ty, sigma: Valuation)
    requires ValidSolver(s) && SortsOf(vs, s).Some? && OpType(op, SortsOf(vs, s).value) == Some(ty)
    ensures Grown(s, s.Add(Define(op, vs, ty), ty), sigma)
    ensures var r := ApplyOp(op, ValuesIn(vs, Env(s, sigma)));
            r.Some? && Env(s.Add(Define(op, vs, ty), ty), sigma) == Env(s, sigma) + [r.value]
    ensures Used(s.Add(Define(op, vs, ty), ty), sigma) == Used(s, sigma)
    ensures |Env(s, sigma)| == |s.sorts|
  {
    Snoc(s, Define(op, vs, ty), ty);
    ModelTyped(s.trace, s.sorts, sigma);
    ValuesTyped(vs, s, Env(s, sigma));
  }

  lemma CopyGrows(s: Solver, v: Sym, sigma: Valuation)
    requires ValidSolver(s) && v < |s.sorts|
    ensures Grown(s, s.Add(CopyOf(v), s.sorts[v]), sigma)
    ensures |Env(s, sigma)| == |s.sorts|
    ensures Used(s.Add(CopyOf(v), s.sorts[v]), sigma) == Used(s, sigma)
  {
    Snoc(s, CopyOf(v), s.sorts[v]);
    ModelTyped(s.trace, s.sorts, sigma);
  }

  lemma GrownTrans(s: Solver, s1: Solver, s2: Solver, sigma: Valuation)
    requires Grown(s, s1, sigma) && Grown(s1, s2, sigma)
    ensures Grown(s, s2, sigma)
  {
  }

  lemma ValueGrows(v: Val, s: Solver, s': Solver, sigma: Valuation)
    requires ValidSolver(s) && Grown(s, s', sigma) && Known(v, |s.sorts|)
    ensures ValueIn(v, Env(s', sigma)) == ValueIn(v, Env(s, sigma)) && Known(v, |s'.sorts|) && |s.sorts| <= |s'.sorts|
  {
    ModelTyped(s.trace, s.sorts, sigma);
    ModelTyped(s'.trace, s'.sorts, sigma);
  }

  lemma FrameGrows(fr: Frame<Val>, s: Solver, s': Solver, sigma: Valuation)
    requires ValidSolver(s) && Grown(s, s', sigma) && FrameKnown(fr, |s.sorts|)
    ensures Conc(fr, Env(s', sigma)) == Conc(fr, Env(s, sigma)) && FrameKnown(fr, |s'.sorts|)
  {
    ModelTyped(s.trace, s.sorts, sigma);
    ModelTyped(s'.trace, s'.sorts, sigma);
    ConcGrow(fr, Env(s, sigma), Env(s', sigma));
  }

  // ----- expressions

  /** The symbolic result stands for the concrete result. */
  ghost predicate Sim(st: State, r: Result<(Val, State), Error>, rc: Result<(CVal, Config), Error>, sigma: Valuation) {
    match r
    case Failure(e) => rc == Failure(e) && Ordinary(e)
    case Success((v, st')) =>
      && Valid(st') && Grown(st.solver, st'.solver, sigma) && Known(v, |st'.solver.sorts|)
      && rc == Success((ValueIn(v, Env(st'.solver, sigma)), ConfigOf(st', sigma)))
  }

  ghost predicate SimAll(st: State, r: Result<(seq<Val>, State), Error>, rc: Result<(seq<CVal>, Config), Error>, sigma: Valuation) {
    match r
    case Failure(e) => rc == Failure(e) && Ordinary(e)
    case Success((vs, st')) =>
      && Valid(st') && Grown(st.solver, st'.solver, sigma) && (forall v | v in vs :: Known(v, |st'.solver.sorts|))
      && rc == Success((ValuesIn(vs, Env(st'.solver, sigma)), ConfigOf(st', sigma)))
  }

  lemma ReadSim(id: Name, st: State, sigma: Valuation)
    requires Valid(st)
    ensures Sim(st, SymRead(id, st), ConcRead(id, ConfigOf(st, sigma), sigma), sigma)
  {
    var fr, s := st.frame, st.solver;
    var env := Env(s, sigma);
    var scope := ReadScope(fr, id);
    ModelTyped(s.trace, s.sorts, sigma);
    assert ReadScope(Conc(fr, env), id) == scope;
    if scope.Some? {
      var u := ScopeOf(fr, scope.value)[id];
      assert ScopeOf(Conc(fr, env), scope.value)[id] == ConcU(u, env);
      assert UKnown(u, |s.sorts|);
      if u.Uninit? {
        var s' := s.Add(Declare(u.ty), u.ty);
        DeclareGrows(s, u.ty, sigma);
        FrameGrows(fr, s, s', sigma);
        SetInConc(fr, scope.value, id, Inited(Symbolic(|s.sorts|)), Env(s', sigma));
      }
    }
  }

  lemma {:induction false} ConcreteValues(vs: seq<Val>, env: seq<CVal>)
    requires AllConcrete(vs)
    ensures ValuesIn(vs, []) == ValuesIn(vs, env)
    decreases vs
  {
    if vs != [] {
      assert AllConcrete(vs[1..]);
      ConcreteValues(vs[1..], env);
    }
  }

  lemma ApplySim(op: Op, vs: seq<Val>, st: State, sigma: Valuation)
    requires Valid(st)
    ensures var r := SymApply(op, vs, st.solver);
            var rc := ApplyOp(op, ValuesIn(vs, Env(st.solver, sigma)));
            && (r.Failure? ==> r.error == TypeError && rc.None?)
            && (r.Success? ==> Grown(st.solver, r.value.1, sigma) && Known(r.value.0, |r.value.1.sorts|)
                               && Used(r.value.1, sigma) == Used(st.solver, sigma)
                               && rc == Some(ValueIn(r.value.0, Env(r.value.1, sigma))))
  {
    var s := st.solver;
    ModelTyped(s.trace, s.sorts, sigma);
    ValuesTyped(vs, s, Env(s, sigma));
    var tys := SortsOf(vs, s);
    if tys.Some? && OpType(op, tys.value).Some? {
      if AllConcrete(vs) {
        ConcreteValues(vs, Env(s, sigma));
      } else {
        DefineGrows(s, op, vs, OpType(op, tys.value).value, sigma);
      }
    }
  }

  lemma {:induction false} EvalSim(e: Exp, st: State, sigma: Valuation)
    requires Valid(st)
    ensures Sim(st, SymEval(e, st), ConcEval(e, ConfigOf(st, sigma), sigma), sigma)
    decreases e, 0
  {
    match e
    case Id(id) => ReadSim(id, st, sigma);
    case Lit(c) =>
    case Undefined(ty) =>
      DeclareGrows(st.solver, ty, sigma);
      FrameGrows(st.frame, st.solver, st.solver.Add(Declare(ty), ty), sigma);
    case Prim(op, args) =>
      EvalsSim(args, st, sigma);
      var r := SymEvals(args, st);
      if r.Success? {
        var (vs, st1) := r.value;
        ApplySim(op, vs, st1, sigma);
        var ra := SymApply(op, vs, st1.solver);
        if ra.Success? {
          FrameGrows(st1.frame, st1.solver, ra.value.1, sigma);
          GrownTrans(st.solver, st1.solver, ra.value.1, sigma);
        }
      }
  }

  lemma {:induction false} ValuesGrow(vs: seq<Val>, s: Solver, s': Solver, sigma: Valuation)
    requires ValidSolver(s) && Grown(s, s', sigma) && forall v | v in vs :: Known(v, |s.sorts|)
    ensures ValuesIn(vs, Env(s', sigma)) == ValuesIn(vs, Env(s, sigma))
    ensures forall v | v in vs :: Known(v, |s'.sorts|)
    decreases vs
  {
    if vs != [] {
      ValueGrows(vs[0], s, s', sigma);
      ValuesGrow(vs[1..], s, s', sigma);
      assert vs == [vs[0]] + vs[1..];
    }
  }

  lemma {:induction false} EvalsSim(es: seq<Exp>, st: State, sigma: Valuation)
    requires Valid(st)
    ensures SimAll(st, SymEvals(es, st), ConcEvals(es, ConfigOf(st, sigma), sigma), sigma)
    decreases es, 1
  {
    if es != [] {
      EvalSim(es[0], st, sigma);
      var r := SymEval(es[0], st);
      if r.Success? {
        var (v, st1) := r.value;
        EvalsSim(es[1..], st1, sigma);
        var rs := SymEvals(es[1..], st1);
        if rs.Success? {
          var (vs, st2) := rs.value;
          ValueGrows(v, st1.solver, st2.solver, sigma);
          GrownTrans(st.solver, st1.solver, st2.solver, sigma);
          assert ([v] + vs)[1..] == vs;
        }
      }
    }
  }
}
