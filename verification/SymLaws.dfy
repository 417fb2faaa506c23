/** What the steps of the interpreter do to a frame, field by field: the symbolic step and the concrete
    step share their operations on frames, so this is stated without those operations, for both. */
module SymLaws {
  import opened Wrappers
  import opened Words
  import opened SymLang
  import opened SymExec

  // ----- primitive operations

  /** A bit-vector: a length and a number below two to that length. */
  predicate IsWord(c: CVal) { c.Bits? && c.n < Pow2(c.len) }

  predicate TwoBools(cs: seq<CVal>) { |cs| == 2 && cs[0].Bool? && cs[1].Bool? }

  predicate TwoWords(cs: seq<CVal>) { |cs| == 2 && IsWord(cs[0]) && IsWord(cs[1]) && cs[0].len == cs[1].len }

  lemma OneType(cs: seq<CVal>)
    requires |cs| == 1
    ensures TypesOf(cs) == if TypeOf(cs[0]).Some? then Some([TypeOf(cs[0]).value]) else None
  {
    assert cs[1..] == [];
    if TypeOf(cs[0]).Some? { assert [TypeOf(cs[0]).value] + [] == [TypeOf(cs[0]).value]; }
  }

  lemma Types(cs: seq<CVal>)
    ensures |cs| == 1 ==> TypesOf(cs) == if TypeOf(cs[0]).Some? then Some([TypeOf(cs[0]).value]) else None
    ensures |cs| == 2 ==>
              TypesOf(cs) == if TypeOf(cs[0]).Some? && TypeOf(cs[1]).Some?
                             then Some([TypeOf(cs[0]).value, TypeOf(cs[1]).value]) else None
    ensures TypesOf(cs).Some? ==> |TypesOf(cs).value| == |cs|
  {
    if TypesOf(cs).Some? { Arity(cs); }
    if |cs| == 1 {
      OneType(cs);
    } else if |cs| == 2 {
      OneType(cs[1..]);
      if TypeOf(cs[0]).Some? && TypeOf(cs[1]).Some? {
        assert [TypeOf(cs[0]).value] + [TypeOf(cs[1]).value] == [TypeOf(cs[0]).value, TypeOf(cs[1]).value];
      }
    }
  }

  /** The logical operations are defined on booleans only and have their truth tables. */
  lemma LogicExact(cs: seq<CVal>)
    ensures ApplyOp(Not, cs) == if |cs| == 1 && cs[0].Bool? then Some(Bool(!cs[0].b)) else None
    ensures ApplyOp(And, cs) == if TwoBools(cs) then Some(Bool(cs[0].b && cs[1].b)) else None
    ensures ApplyOp(Or, cs) == if TwoBools(cs) then Some(Bool(cs[0].b || cs[1].b)) else None
  {
    Types(cs);
  }

  /** Comparison is between two booleans or two bit-vectors of one length. */
  lemma ComparisonExact(cs: seq<CVal>)
    ensures ApplyOp(Eq, cs) == if TwoBools(cs) || TwoWords(cs) then Some(Bool(cs[0] == cs[1])) else None
    ensures ApplyOp(Neq, cs) == if TwoBools(cs) || TwoWords(cs) then Some(Bool(cs[0] != cs[1])) else None
    ensures ApplyOp(Bvult, cs) == if TwoWords(cs) then Some(Bool(cs[0].n < cs[1].n)) else None
  {
    Types(cs);
  }

  lemma Wraps(a: nat, b: nat, p: nat)
    requires a < p && b < p
    ensures (a + b) % p == if a + b < p then a + b else a + b - p
    ensures (a + p - b) % p == if b <= a then a - b else a + p - b
  {
    DivMod(a + b, p, if a + b < p then 0 else 1, if a + b < p then a + b else a + b - p);
    DivMod(a + p - b, p, if b <= a then 1 else 0, if b <= a then a - b else a + p - b);
  }

  /** The arithmetic operations keep the length and compute modulo two to that length. */
  lemma ArithmeticExact(cs: seq<CVal>)
    ensures ApplyOp(Bvnot, cs).Some? <==> |cs| == 1 && IsWord(cs[0])
    ensures ApplyOp(Bvadd, cs).Some? <==> TwoWords(cs)
    ensures ApplyOp(Bvsub, cs).Some? <==> TwoWords(cs)
    ensures |cs| == 1 && IsWord(cs[0]) ==>
              var r := ApplyOp(Bvnot, cs).value;
              IsWord(r) && r.len == cs[0].len && r.n + cs[0].n + 1 == Pow2(r.len)
    ensures TwoWords(cs) ==>
              var r := ApplyOp(Bvadd, cs).value;
              && IsWord(r) && r.len == cs[0].len
              && (r.n == cs[0].n + cs[1].n || r.n + Pow2(r.len) == cs[0].n + cs[1].n)
    ensures TwoWords(cs) ==>
              var r := ApplyOp(Bvsub, cs).value;
              && IsWord(r) && r.len == cs[0].len
              && (r.n + cs[1].n == cs[0].n || r.n + cs[1].n == cs[0].n + Pow2(r.len))
  {
    Types(cs);
    if TwoWords(cs) {
      hide Pow2;
      Wraps(cs[0].n, cs[1].n, Pow2(cs[0].len));
    }
  }

  /** An unknown of a type can be every value of the type and no other. */
  lemma UnknownExact(ty: Ty, c: CVal)
    ensures (exists raw: nat :: Inhabit(ty, raw) == c) <==> TypeOf(c) == Some(ty)
  {
    if TypeOf(c) == Some(ty) {
      var raw := if c.Bool? then (if c.b then 1 else 0) else c.n;
      if c.Bits? { SmallMod(c.n, Pow2(c.len)); }
      assert Inhabit(ty, raw) == c;
    }
    forall raw: nat ensures TypeOf(Inhabit(ty, raw)) == Some(ty) {
      if ty.TBits? { AndLow(raw, ty.len); }
    }
  }

  // ----- reading

  predicate Bound<V>(fr: Frame<V>, id: Name) { id in fr.vars || id in fr.regs || id in fr.lets }

  /** What a name stands for: the variable if there is one, otherwise the register, otherwise the
      let-binding. */
  ghost predicate Sees<V>(fr: Frame<V>, id: Name, u: UVal<V>) {
    || (id in fr.vars && fr.vars[id] == u)
    || (id !in fr.vars && id in fr.regs && fr.regs[id] == u)
    || (id !in fr.vars && id !in fr.regs && id in fr.lets && fr.lets[id] == u)
  }

  /** The name gets its first value where it is seen, and nothing else changes. */
  ghost predicate Fills<V>(before: Frame<V>, after: Frame<V>, id: Name, v: V) {
    && Sees(after, id, Inited(v))
    && after.fn == before.fn && after.pc == before.pc
    && after.stackVars == before.stackVars && after.stackCall == before.stackCall
    && after.vars == (if id in before.vars then before.vars[id := Inited(v)] else before.vars)
    && after.regs == (if id !in before.vars && id in before.regs then before.regs[id := Inited(v)] else before.regs)
    && after.lets == (if id !in before.vars && id !in before.regs then before.lets[id := Inited(v)] else before.lets)
  }

  /** Reading gives the value the name has; a name without one gets a new unknown of its type. */
  lemma SymReads(id: Name, st: State, u: UVal<Val>)
    ensures SymRead(id, st).Failure? <==> !Bound(st.frame, id)
    ensures SymRead(id, st).Failure? ==> SymRead(id, st).error == VariableNotFound
    ensures Sees(st.frame, id, u) ==>
              var r := SymRead(id, st);
              && r.Success?
              && (u.Inited? ==> r.value == (u.value, st))
              && (u.Uninit? ==>
                    && r.value.0 == Symbolic(|st.solver.sorts|)
                    && Fills(st.frame, r.value.1.frame, id, r.value.0)
                    && r.value.1.solver.trace == st.solver.trace + [Declare(u.ty)]
                    && r.value.1.solver.sorts == st.solver.sorts + [u.ty])
  {
  }

  lemma ConcReads(id: Name, c: Config, sigma: Valuation, u: UVal<CVal>)
    requires c.Running?
    ensures ConcRead(id, c, sigma).Failure? <==> !Bound(c.frame, id)
    ensures ConcRead(id, c, sigma).Failure? ==> ConcRead(id, c, sigma).error == VariableNotFound
    ensures Sees(c.frame, id, u) ==>
              var r := ConcRead(id, c, sigma);
              && r.Success?
              && (u.Inited? ==> r.value == (u.value, c))
              && (u.Uninit? ==>
                    && r.value.0 == Inhabit(u.ty, if c.used in sigma then sigma[c.used] else 0)
                    && Fills(c.frame, r.value.1.frame, id, r.value.0)
                    && r.value.1.used == c.used + 1)
  {
  }

  lemma Assoc<T>(a: seq<T>, b: seq<T>, c: seq<T>)
    ensures a + (b + c) == a + b + c
  {
  }

  /** Arguments are evaluated from left to right, and the first error is the error. */
  lemma {:induction false} SymEvalsInOrder(es: seq<Exp>, e: Exp, st: State)
    ensures SymEvals(es + [e], st) ==
            var r := SymEvals(es, st);
            if r.Failure? then r
            else
              var r1 := SymEval(e, r.value.1);
              if r1.Failure? then Failure(r1.error) else Success((r.value.0 + [r1.value.0], r1.value.1))
    decreases |es|
  {
    if es == [] {
      assert [e][1..] == [] && es + [e] == [e];
      var r := SymEval(e, st);
      if r.Success? { assert [r.value.0] + [] == [] + [r.value.0]; }
    } else {
      assert (es + [e])[0] == es[0] && (es + [e])[1..] == es[1..] + [e];
      var r := SymEval(es[0], st);
      if r.Success? {
        SymEvalsInOrder(es[1..], e, r.value.1);
        var rest := SymEvals(es[1..], r.value.1);
        if rest.Success? {
          var last := SymEval(e, rest.value.1);
          if last.Success? { Assoc([r.value.0], rest.value.0, [last.value.0]); }
        }
      }
    }
  }

  lemma {:induction false} ConcEvalsInOrder(es: seq<Exp>, e: Exp, c: Config, sigma: Valuation)
    requires c.Running?
    ensures ConcEvals(es + [e], c, sigma) ==
            var r := ConcEvals(es, c, sigma);
            if r.Failure? then r
            else
              var r1 := ConcEval(e, r.value.1, sigma);
              if r1.Failure? then Failure(r1.error) else Success((r.value.0 + [r1.value.0], r1.value.1))
    decreases |es|
  {
    if es == [] {
      assert [e][1..] == [] && es + [e] == [e];
      var r := ConcEval(e, c, sigma);
      if r.Success? { assert [r.value.0] + [] == [] + [r.value.0]; }
    } else {
      assert (es + [e])[0] == es[0] && (es + [e])[1..] == es[1..] + [e];
      var r := ConcEval(es[0], c, sigma);
      if r.Success? {
        ConcEvalsInOrder(es[1..], e, r.value.1, sigma);
        var rest := ConcEvals(es[1..], r.value.1, sigma);
        if rest.Success? {
          var last := ConcEval(e, rest.value.1, sigma);
          if last.Success? { Assoc([r.value.0], rest.value.0, [last.value.0]); }
        }
      }
    }
  }

  /** A literal is its value, an undefined value is an unknown of its type, and an operation is that of
      the values of its arguments, where it is defined. */
  lemma ConcExpressions(e: Exp, c: Config, sigma: Valuation)
    requires c.Running?
    ensures e.Id? ==> ConcEval(e, c, sigma) == ConcRead(e.name, c, sigma)
    ensures e.Lit? ==> ConcEval(e, c, sigma) == Success((e.c, c))
    ensures e.Undefined? ==>
              var r := ConcEval(e, c, sigma);
              && r.Success?
              && r.value.0 == Inhabit(e.ty, if c.used in sigma then sigma[c.used] else 0)
              && r.value.1 == Running(c.frame, c.used + 1)
    ensures e.Prim? ==>
              var r, vs := ConcEval(e, c, sigma), ConcEvals(e.args, c, sigma);
              && (vs.Failure? ==> r == Failure(vs.error))
              && (vs.Success? && ApplyOp(e.op, vs.value.0).None? ==> r == Failure(TypeError))
              && (vs.Success? && ApplyOp(e.op, vs.value.0).Some? ==>
                    r == Success((ApplyOp(e.op, vs.value.0).value, vs.value.1)))
  {
    hide ApplyOp, ConcEvals;
  }

  // ----- steps

  /** Past the last instruction a path ends with the unit value. */
  lemma FallsOff(prog: Program, st: State, choice: CVal, c: Config, sigma: Valuation)
    requires c.Running?
    ensures st.frame.fn in prog && st.frame.pc >= |prog[st.frame.fn].instrs| ==>
              SymStep(prog, st, choice) == Step(Stop(Finished(Concrete(Unit)), st.solver), None)
    ensures c.frame.fn in prog && c.frame.pc >= |prog[c.frame.fn].instrs| ==>
              ConcStep(prog, c, sigma) == Stopped(Finished(Unit))
  {
  }

  /** The instruction a frame is at. */
  predicate At<V>(prog: Program, fr: Frame<V>, instr: Instr) {
    fr.fn in prog && fr.pc < |prog[fr.fn].instrs| && prog[fr.fn].instrs[fr.pc] == instr
  }

  /** One instruction on, `id` holds the value: the variable of that name if there is one, otherwise the
      let-binding if there is one, otherwise the register. Nothing else changes. */
  ghost predicate Assigned<V>(before: Frame<V>, after: Frame<V>, id: Name, v: V) {
    && after.fn == before.fn && after.pc == before.pc + 1
    && after.stackVars == before.stackVars && after.stackCall == before.stackCall
    && after.vars == (if id in before.vars then before.vars[id := Inited(v)] else before.vars)
    && after.lets == (if id !in before.vars && id in before.lets then before.lets[id := Inited(v)] else before.lets)
    && after.regs == (if id !in before.vars && id !in before.lets then before.regs[id := Inited(v)] else before.regs)
  }

  /** The variables of a callee: its parameters, the last one for a repeated name, and its result, which
      has no value yet unless a parameter has its name. */
  ghost predicate Parameters<V>(vars: Bindings<V>, fn: Fn, args: seq<V>) {
    && |args| <= |fn.params|
    && (forall i | 0 <= i < |args| && fn.params[i] !in fn.params[i + 1..|args|] ::
          fn.params[i] in vars && vars[fn.params[i]] == Inited(args[i]))
    && (RETURN !in fn.params[..|args|] ==> RETURN in vars && vars[RETURN] == Uninit(fn.retTy))
    && (forall x | x in vars :: x == RETURN || x in fn.params[..|args|])
  }

  /** A callee starts at its first instruction with its parameters, the caller's registers and
      let-bindings, and the caller on the stacks. */
  ghost predicate Called<V>(caller: Frame<V>, callee: Frame<V>, f: Name, fn: Fn, dest: Name, args: seq<V>) {
    && callee.fn == f && callee.pc == 0
    && callee.regs == caller.regs && callee.lets == caller.lets
    && callee.stackVars == caller.stackVars + [caller.vars]
    && callee.stackCall == caller.stackCall + [Return(caller.fn, caller.pc, dest)]
    && Parameters(callee.vars, fn, args)
  }

  /** After a return the variables, the function and the position are those on top of the stacks, the
      registers and let-bindings are the callee's, and the result is assigned as after the call. */
  ghost predicate Returned<V>(callee: Frame<V>, after: Frame<V>, v: V) {
    && callee.stackCall != []
    && var n, m := |callee.stackVars|, |callee.stackCall| - 1;
       var r := callee.stackCall[m];
       Assigned(Frame(r.fn, r.pc, if n == 0 then callee.vars else callee.stackVars[n - 1], callee.regs, callee.lets,
                      if n == 0 then [] else callee.stackVars[..n - 1], callee.stackCall[..m]), after, r.dest, v)
  }

  /** The path goes on alone, from this frame, with nothing added to the solver. */
  ghost predicate Continues(step: Step, s: Solver) { step.fork == None && step.next.Run? && step.next.state.solver == s }

  predicate Stops(step: Step, o: Outcome<Val>, s: Solver) { step == Step(Stop(o, s), None) }

  lemma {:induction false} ParametersBound<V>(fn: Fn, args: seq<V>)
    requires |args| <= |fn.params|
    ensures Parameters(BindParams(map[RETURN := Uninit(fn.retTy)], fn.params, args), fn, args)
  {
    var vars := map[RETURN := Uninit(fn.retTy)];
    var all := BindParams(vars, fn.params, args);
    forall i | 0 <= i < |args| && fn.params[i] !in fn.params[i + 1..|args|]
      ensures fn.params[i] in all && all[fn.params[i]] == Inited(args[i])
    {
      forall j | i < j < |args| ensures fn.params[j] != fn.params[i] {
        assert fn.params[i + 1..|args|][j - i - 1] == fn.params[j];
      }
      ParamsBound(vars, fn.params, args, i, RETURN);
    }
    forall x | x !in fn.params[..|args|]
      ensures (x in all <==> x == RETURN) && (x == RETURN ==> all[x] == Uninit(fn.retTy))
    {
      forall j | 0 <= j < |args| ensures fn.params[j] != x {
        assert fn.params[..|args|][j] == fn.params[j];
      }
      ParamsBound(vars, fn.params, args, |args|, x);
    }
  }

  lemma EnterCalls<V>(fr: Frame<V>, f: Name, fn: Fn, dest: Name, args: seq<V>)
    requires |args| <= |fn.params|
    ensures Called(fr, Enter(fr, f, fn, dest, args), f, fn, dest, args)
  {
    ParametersBound(fn, args);
    hide Parameters, BindParams;
  }

  lemma SymCallStep(prog: Program, st: State, choice: CVal, dest: Name, f: Name, args: seq<Exp>)
    requires At(prog, st.frame, Call(dest, f, args))
    ensures SymStep(prog, st, choice) ==
            var r := SymEvals(args, st);
            if f !in prog then Halt(Failed(NoFunction), st.solver)
            else if r.Failure? then Halt(Failed(r.error), st.solver)
            else SymCall(prog, dest, f, r.value.0, r.value.1)
  {
    hide SymEval, SymEvals, SymRead, SymStore, SymJump, SymMonomorphize, SymEnd, SymReturn, SymCall;
  }

  /** A call fails if there is no such function, then if an argument does, then if there are too many. */
  lemma SymCalls(prog: Program, st: State, choice: CVal, dest: Name, f: Name, args: seq<Exp>)
    requires At(prog, st.frame, Call(dest, f, args))
    ensures var step, r := SymStep(prog, st, choice), SymEvals(args, st);
            && (f !in prog ==> Stops(step, Failed(NoFunction), st.solver))
            && (f in prog && r.Failure? ==> Stops(step, Failed(r.error), st.solver))
            && (f in prog && r.Success? && |r.value.0| > |prog[f].params| ==> Stops(step, Failed(Panicked), r.value.1.solver))
            && (f in prog && r.Success? && |r.value.0| <= |prog[f].params| ==>
                  && Continues(step, r.value.1.solver)
                  && Called(r.value.1.frame, step.next.state.frame, f, prog[f], dest, r.value.0))
  {
    hide SymStep, SymEvals, Called, Enter;
    SymCallStep(prog, st, choice, dest, f, args);
    var r := SymEvals(args, st);
    if f in prog && r.Success? && |r.value.0| <= |prog[f].params| {
      EnterCalls(r.value.1.frame, f, prog[f], dest, r.value.0);
    }
  }

  lemma ConcCalls(prog: Program, c: Config, sigma: Valuation, dest: Name, f: Name, args: seq<Exp>)
    requires c.Running? && At(prog, c.frame, Call(dest, f, args))
    ensures var next, r := ConcStep(prog, c, sigma), ConcEvals(args, c, sigma);
            && (f !in prog ==> next == Stopped(Failed(NoFunction)))
            && (f in prog && r.Failure? ==> next == Stopped(Failed(r.error)))
            && (f in prog && r.Success? && |r.value.0| > |prog[f].params| ==> next == Stopped(Failed(Panicked)))
            && (f in prog && r.Success? && |r.value.0| <= |prog[f].params| ==>
                  && next.Running? && next.used == r.value.1.used
                  && Called(r.value.1.frame, next.frame, f, prog[f], dest, r.value.0))
  {
    hide ConcEval, ConcEvals, ConcRead, ConcStore, ConcEnd, ConcReturn, Called, Enter;
    var r := ConcEvals(args, c, sigma);
    if f in prog && r.Success? && |r.value.0| <= |prog[f].params| {
      EnterCalls(r.value.1.frame, f, prog[f], dest, r.value.0);
    }
  }

  /** The expression and the destination of the instructions that assign. */
  function Source(instr: Instr): Exp
    requires instr.Copy? || instr.Primop?
  {
    if instr.Copy? then instr.exp else Prim(instr.op, instr.args)
  }

  lemma SymAssigns(prog: Program, st: State, choice: CVal, instr: Instr)
    requires (instr.Copy? || instr.Primop?) && At(prog, st.frame, instr)
    ensures var step, r := SymStep(prog, st, choice), SymEval(Source(instr), st);
            && (r.Failure? ==> Stops(step, Failed(r.error), st.solver))
            && (r.Success? ==>
                  && Continues(step, r.value.1.solver)
                  && Assigned(r.value.1.frame, step.next.state.frame, instr.dest, r.value.0))
  {
    hide SymEval, SymEvals, SymRead, SymCall, SymJump, SymMonomorphize, SymEnd, SymReturn;
  }

  lemma ConcAssigns(prog: Program, c: Config, sigma: Valuation, instr: Instr)
    requires c.Running? && (instr.Copy? || instr.Primop?) && At(prog, c.frame, instr)
    ensures var next, r := ConcStep(prog, c, sigma), ConcEval(Source(instr), c, sigma);
            && (r.Failure? ==> next == Stopped(Failed(r.error)))
            && (r.Success? ==>
                  && next.Running? && next.used == r.value.1.used
                  && Assigned(r.value.1.frame, next.frame, instr.dest, r.value.0))
  {
    hide ConcEval, ConcEvals, ConcRead, ConcEnd, ConcReturn, Enter;
  }

  /** The end of a function returns its result, an unknown of its type if it has no value; `Arbitrary`
      returns a poisoned value. Without a caller the path ends. */
  lemma SymReturns(prog: Program, st: State, choice: CVal, instr: Instr)
    requires (instr.End? || instr.Arbitrary?) && At(prog, st.frame, instr)
    ensures var step, fr, n := SymStep(prog, st, choice), st.frame, |st.solver.sorts|;
            if instr.End? && RETURN !in fr.vars then Stops(step, Failed(Panicked), st.solver)
            else
              var unknown := instr.End? && fr.vars[RETURN].Uninit?;
              var v := if instr.Arbitrary? then Concrete(Poison) else if unknown then Symbolic(n) else fr.vars[RETURN].value;
              var s := if unknown then Solver(st.solver.trace + [Declare(fr.vars[RETURN].ty)], st.solver.sorts + [fr.vars[RETURN].ty])
                       else st.solver;
              if fr.stackCall == [] then Stops(step, Finished(v), s)
              else Continues(step, s) && Returned(fr, step.next.state.frame, v)
  {
    hide SymEval, SymEvals, SymRead, SymCall, SymJump, SymMonomorphize, SymStore;
  }

  lemma ConcReturns(prog: Program, c: Config, sigma: Valuation, instr: Instr)
    requires c.Running? && (instr.End? || instr.Arbitrary?) && At(prog, c.frame, instr)
    ensures var next, fr := ConcStep(prog, c, sigma), c.frame;
            if instr.End? && RETURN !in fr.vars then next == Stopped(Failed(Panicked))
            else
              var unknown := instr.End? && fr.vars[RETURN].Uninit?;
              var v := if instr.Arbitrary? then Poison
                       else if unknown then Inhabit(fr.vars[RETURN].ty, if c.used in sigma then sigma[c.used] else 0)
                       else fr.vars[RETURN].value;
              if fr.stackCall == [] then next == Stopped(Finished(v))
              else && next.Running? && next.used == (if unknown then c.used + 1 else c.used)
                   && Returned(fr, next.frame, v)
  {
    hide ConcEval, ConcEvals, ConcRead, ConcStore, Enter;
  }

  /** Only the variables and the position change, to these. */
  ghost predicate Moved<V>(before: Frame<V>, after: Frame<V>, vars: Bindings<V>, pc: nat) {
    && after.vars == vars && after.pc == pc
    && after.fn == before.fn && after.regs == before.regs && after.lets == before.lets
    && after.stackVars == before.stackVars && after.stackCall == before.stackCall
  }

  /** A declaration gives a name a type and no value, an initialisation gives a variable a value, a jump
      goes to its target or on, and an exit ends the path with what it stands for. */
  lemma SymMoves(prog: Program, st: State, choice: CVal, instr: Instr)
    requires At(prog, st.frame, instr)
    ensures var step, fr := SymStep(prog, st, choice), st.frame;
            && (instr.Decl? ==>
                  && Continues(step, st.solver)
                  && Moved(fr, step.next.state.frame, fr.vars[instr.v := Uninit(instr.ty)], fr.pc + 1))
            && (instr.Goto? ==> Continues(step, st.solver) && Moved(fr, step.next.state.frame, fr.vars, instr.target))
            && (instr.Exit? ==>
                  && (instr.cause == ByMatchFailure ==> Stops(step, Failed(MatchFailure), st.solver))
                  && (instr.cause == ByAssertionFailure ==> Stops(step, Failed(AssertionFailure), st.solver))
                  && (instr.cause == Explicit ==> Stops(step, Exited, st.solver)))
    ensures instr.Init? || instr.Jump? ==>
              var step, r := SymStep(prog, st, choice), SymEval(instr.exp, st);
              && (r.Failure? ==> Stops(step, Failed(r.error), st.solver))
              && (r.Success? && instr.Init? ==>
                    var fr := r.value.1.frame;
                    && Continues(step, r.value.1.solver)
                    && Moved(fr, step.next.state.frame, fr.vars[instr.v := Inited(r.value.0)], fr.pc + 1))
              && (r.Success? && instr.Jump? && r.value.0.Concrete? ==>
                    var fr, c := r.value.1.frame, r.value.0.c;
                    && (!c.Bool? ==> Stops(step, Failed(TypeError), r.value.1.solver))
                    && (c.Bool? ==>
                          && Continues(step, r.value.1.solver)
                          && Moved(fr, step.next.state.frame, fr.vars, if c.b then instr.target else fr.pc + 1)))
  {
    hide SymEval, SymEvals, SymRead, SymCall, SymJump, SymMonomorphize, SymEnd, SymReturn;
  }

  lemma ConcMoves(prog: Program, c: Config, sigma: Valuation, instr: Instr)
    requires c.Running? && At(prog, c.frame, instr)
    ensures var next, fr := ConcStep(prog, c, sigma), c.frame;
            && (instr.Decl? ==>
                  && next.Running? && next.used == c.used
                  && Moved(fr, next.frame, fr.vars[instr.v := Uninit(instr.ty)], fr.pc + 1))
            && (instr.Goto? ==> next.Running? && next.used == c.used && Moved(fr, next.frame, fr.vars, instr.target))
            && (instr.Exit? ==>
                  && (instr.cause == ByMatchFailure ==> next == Stopped(Failed(MatchFailure)))
                  && (instr.cause == ByAssertionFailure ==> next == Stopped(Failed(AssertionFailure)))
                  && (instr.cause == Explicit ==> next == Stopped(Exited)))
    ensures instr.Init? || instr.Jump? ==>
              var next, r := ConcStep(prog, c, sigma), ConcEval(instr.exp, c, sigma);
              && (r.Failure? ==> next == Stopped(Failed(r.error)))
              && (r.Success? ==>
                    var fr, v := r.value.1.frame, r.value.0;
                    && (instr.Jump? && !v.Bool? ==> next == Stopped(Failed(TypeError)))
                    && (instr.Init? || v.Bool? ==> next.Running? && next.used == r.value.1.used)
                    && (instr.Init? ==> Moved(fr, next.frame, fr.vars[instr.v := Inited(v)], fr.pc + 1))
                    && (instr.Jump? && v.Bool? ==>
                          Moved(fr, next.frame, fr.vars, if v.b then instr.target else fr.pc + 1)))
  {
    hide ConcEval, ConcEvals, ConcRead, ConcEnd, ConcReturn, Enter;
  }

  /** The trace is this much longer, and the symbols have these sorts. */
  predicate Added(s: Solver, more: seq<Def>, sorts: seq<Ty>, s': Solver) {
    s'.trace == s.trace + more && s'.sorts == s.sorts + sorts
  }

  /** A branch on a symbol goes where it can go: to the target with the symbol true, or on with it false;
      where it can go both ways it takes the first and queues the second, from before the assertion. */
  lemma SymBranches(prog: Program, st: State, choice: CVal, e: Exp, target: nat, st1: State, v: Sym)
    requires At(prog, st.frame, Jump(e, target)) && SymEval(e, st) == Success((Symbolic(v), st1))
    ensures var step, s := SymStep(prog, st, choice), st1.solver;
            var yes, no := Solver(s.trace + [Assert(Holds(v))], s.sorts), Solver(s.trace + [Assert(Fails(v))], s.sorts);
            if v >= |s.sorts| || s.sorts[v] != TBool then Stops(step, Failed(IllSorted), s)
            else
              && (!Satisfiable(yes) && !Satisfiable(no) ==> Stops(step, Dead, s))
              && (Satisfiable(yes) ==>
                    step.next.Run? && step.next.state.solver == yes && Moved(st1.frame, step.next.state.frame, st1.frame.vars, target))
              && (!Satisfiable(yes) && Satisfiable(no) ==>
                    && step.next.Run? && step.next.state.solver == no
                    && Moved(st1.frame, step.next.state.frame, st1.frame.vars, st1.frame.pc + 1))
              && (step.fork.Some? <==> Satisfiable(yes) && Satisfiable(no))
              && (step.fork.Some? ==>
                    && step.fork.value.cond == Fails(v) && step.fork.value.state.solver == s
                    && Moved(st1.frame, step.fork.value.state.frame, st1.frame.vars, st1.frame.pc + 1))
  {
    hide SymEval, Satisfiable;
  }

  /** A split on a value that is known only reads it and moves on. */
  lemma SymKnown(prog: Program, st: State, choice: CVal, instr: Instr)
    requires At(prog, st.frame, instr) && instr.Monomorphize?
    ensures var step, r := SymStep(prog, st, choice), SymRead(instr.id, st);
            && (r.Failure? ==> Stops(step, Failed(r.error), st.solver))
            && (r.Success? && r.value.0.Concrete? ==>
                  var fr := r.value.1.frame;
                  Continues(step, r.value.1.solver) && Moved(fr, step.next.state.frame, fr.vars, fr.pc + 1))
  {
    hide SymRead, Satisfiable, Takes, SortOf, SymMonomorphize;
  }

  /** A split on a symbol is for symbols of the type it names, or of any bit-vector type if it names none.
      It keeps a copy of the symbol, gives the name the chosen value, and queues the rest of the symbol's
      values on the path as it was. */
  lemma SymSplitsOn(prog: Program, st: State, choice: CVal, instr: Instr, st1: State, v: Sym)
    requires At(prog, st.frame, instr) && instr.Monomorphize? && SymRead(instr.id, st) == Success((Symbolic(v), st1))
    ensures var step, s := SymStep(prog, st, choice), st1.solver;
            if v >= |s.sorts| || (instr.mono.Some? && s.sorts[v] != instr.mono.value) || (instr.mono.None? && s.sorts[v].TBool?)
            then Stops(step, Failed(Unsplittable), s)
            else
              var copied := Solver(s.trace + [CopyOf(v)], s.sorts + [s.sorts[v]]);
              if !Satisfiable(copied) then Stops(step, Dead, copied)
              else
                && step.next.Run? && Assigned(st1.frame, step.next.state.frame, instr.id, Concrete(choice))
                && Added(copied, [Assert(Equals(v, choice))], [], step.next.state.solver)
                && step.fork == Some(Task(st1, Differs(v, choice)))
  {
    hide SymEval, SymEvals, SymRead, SymCall, SymJump, SymStore, SymEnd, SymReturn, Satisfiable;
  }

  lemma ConcSplitsOn(prog: Program, c: Config, sigma: Valuation, instr: Instr)
    requires c.Running? && At(prog, c.frame, instr) && instr.Monomorphize?
    ensures var next, r := ConcStep(prog, c, sigma), ConcRead(instr.id, c, sigma);
            && (r.Failure? ==> next == Stopped(Failed(r.error)))
            && (r.Success? ==>
                  var fr := r.value.1.frame;
                  next.Running? && next.used == r.value.1.used && Moved(fr, next.frame, fr.vars, fr.pc + 1))
  {
    hide ConcRead;
  }
}
