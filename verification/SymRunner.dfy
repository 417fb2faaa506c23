/** One worker: its interpreter loop and its queue, updated in place, with a time limit. */
module SymRunner {
  import opened Wrappers
  import opened SymLang
  import opened SymExec
  import opened SymProofs
  import opened SymSteps
  import opened SymTheorems

  /** A step of the pool, and whether it executes an instruction. */
  ghost predicate Moves(prog: Program, p: seq<Item>, p': seq<Item>, executes: bool) {
    exists i: nat, choice: Option<CVal> ::
      && i < |p| && Answer(prog, p[i], choice) && p' == Spliced(p, i, Stepped(prog, p[i], choice))
      && executes == (choice.Some? && AtInstruction(prog, p[i]))
  }

  predicate AtInstruction(prog: Program, item: Item) {
    item.Active? && item.state.frame.fn in prog && item.state.frame.pc < |prog[item.state.frame.fn].instrs|
  }

  function Trues(bs: seq<bool>): nat { if bs == [] then 0 else Trues(bs[..|bs| - 1]) + if bs[|bs| - 1] then 1 else 0 }

  /** A run that notes which steps execute an instruction. */
  ghost predicate Timed(prog: Program, init: State, run: seq<seq<Item>>, executes: seq<bool>) {
    && |run| == |executes| + 1 && run[0] == [Active(init)]
    && forall k | 0 <= k < |executes| :: Moves(prog, run[k], run[k + 1], executes[k])
  }

  /** `items` is the pool of some run in which `spent` instructions were executed. */
  ghost predicate Reaches(prog: Program, init: State, items: seq<Item>, spent: nat) {
    exists run, executes :: Timed(prog, init, run, executes) && run[|run| - 1] == items && Trues(executes) == spent
  }

  lemma ReachStart(prog: Program, init: State)
    ensures Reaches(prog, init, [Active(init)], 0)
  {
    assert Timed(prog, init, [[Active(init)]], []);
  }

  lemma ReachStep(prog: Program, init: State, p: seq<Item>, p': seq<Item>, executes: bool, spent: nat)
    requires Reaches(prog, init, p, spent) && Moves(prog, p, p', executes)
    ensures Reaches(prog, init, p', spent + if executes then 1 else 0)
  {
    var run, es :| Timed(prog, init, run, es) && run[|run| - 1] == p && Trues(es) == spent;
    TimedStep(prog, init, run, es, p', executes);
    TruesSnoc(es, executes);
    hide Moves, Timed, Trues;
    assert (run + [p'])[|run + [p']| - 1] == p';
  }

  lemma TruesSnoc(bs: seq<bool>, b: bool)
    ensures Trues(bs + [b]) == Trues(bs) + if b then 1 else 0
  {
    assert (bs + [b])[..|bs|] == bs;
  }

  lemma TimedStep(prog: Program, init: State, run: seq<seq<Item>>, es: seq<bool>, p': seq<Item>, executes: bool)
    requires Timed(prog, init, run, es) && Moves(prog, run[|run| - 1], p', executes)
    ensures Timed(prog, init, run + [p'], es + [executes])
  {
    var longer, es' := run + [p'], es + [executes];
    hide Moves;
    forall k | 0 <= k < |es'|
      ensures Moves(prog, longer[k], longer[k + 1], es'[k])
    {
      if k < |es| { assert Moves(prog, run[k], run[k + 1], es[k]); }
    }
  }

  lemma ReachedRun(prog: Program, init: State, items: seq<Item>, spent: nat) returns (run: seq<seq<Item>>)
    requires Reaches(prog, init, items, spent)
    ensures IsRun(prog, init, run) && run[|run| - 1] == items
  {
    var run', es :| Timed(prog, init, run', es) && run'[|run'| - 1] == items && Trues(es) == spent;
    run := run';
    forall k: nat | k + 1 < |run|
      ensures PoolStep(prog, run[k], run[k + 1])
    {
      assert Moves(prog, run[k], run[k + 1], es[k]);
    }
  }

  // ----- no step but the limit itself ends in a timeout

  lemma ReadErrors(id: Name, st: State)
    ensures SymRead(id, st).Failure? ==> Ordinary(SymRead(id, st).error)
  {
  }

  lemma {:induction false} EvalErrors(e: Exp, st: State)
    ensures SymEval(e, st).Failure? ==> Ordinary(SymEval(e, st).error)
    decreases e, 0
  {
    match e
    case Id(id) => ReadErrors(id, st);
    case Lit(_) =>
    case Undefined(_) =>
    case Prim(_, args) => EvalsErrors(args, st);
  }

  lemma {:induction false} EvalsErrors(es: seq<Exp>, st: State)
    ensures SymEvals(es, st).Failure? ==> Ordinary(SymEvals(es, st).error)
    decreases es, 1
  {
    if es != [] {
      EvalErrors(es[0], st);
      if SymEval(es[0], st).Success? { EvalsErrors(es[1..], SymEval(es[0], st).value.1); }
    }
  }

  lemma StepInTime(prog: Program, st: State, choice: CVal)
    ensures var n := SymStep(prog, st, choice).next; n.Stop? ==> n.outcome != Failed(Timeout)
  {
    var fr := st.frame;
    if fr.fn in prog && fr.pc < |prog[fr.fn].instrs| {
      match prog[fr.fn].instrs[fr.pc]
      case Init(_, e) => EvalErrors(e, st); hide SymEval;
      case Copy(_, e) => EvalErrors(e, st); hide SymEval;
      case Primop(_, op, args) => EvalErrors(Prim(op, args), st); hide SymEval;
      case Jump(e, _) => EvalErrors(e, st); hide SymEval;
      case Call(_, _, args) => EvalsErrors(args, st); hide SymEvals;
      case Monomorphize(id, _) => ReadErrors(id, st); hide SymRead;
      case _ =>
    }
  }

  ghost predicate HasValue(s: Solver, v: Sym) { exists c :: ModelValue(s, v, c) }

  /** The solver answers satisfiability exactly, and gives a value of the symbol in some model. */
  ghost predicate Oracle(sat: Solver -> bool, pick: (Solver, Sym) -> CVal) {
    && (forall s :: sat(s) <==> Satisfiable(s))
    && (forall s, v: Sym :: HasValue(s, v) ==> ModelValue(s, v, pick(s, v)))
  }

  /** The value the solver gives when `st` is at a split. */
  ghost function Choice(prog: Program, st: State, pick: (Solver, Sym) -> CVal): CVal {
    var fr := st.frame;
    if fr.fn in prog && fr.pc < |prog[fr.fn].instrs| && prog[fr.fn].instrs[fr.pc].Monomorphize? then
      var r := SymRead(prog[fr.fn].instrs[fr.pc].id, st);
      if r.Success? && r.value.0.Symbolic? && SortOf(r.value.0, r.value.1.solver).Some? then
        var (v, st1) := r.value;
        pick(st1.solver.Add(CopyOf(v.v), SortOf(v, st1.solver).value), v.v)
      else Unit
    else Unit
  }

  lemma ChoiceAdmissible(prog: Program, st: State, sat: Solver -> bool, pick: (Solver, Sym) -> CVal)
    requires Valid(st) && Oracle(sat, pick)
    ensures Admissible(prog, st, Choice(prog, st, pick))
  {
    var fr := st.frame;
    if fr.fn in prog && fr.pc < |prog[fr.fn].instrs| && prog[fr.fn].instrs[fr.pc].Monomorphize? {
      var id := prog[fr.fn].instrs[fr.pc].id;
      var r := SymRead(id, st);
      ReadSim(id, st, imap[]);
      if r.Success? && r.value.0.Symbolic? && Satisfiable(r.value.1.solver) {
        CopiedValue(r.value.1.solver, r.value.0.v, pick);
      }
    }
  }

  /** A model of the path with the copied symbol gives a value the symbol has on the path. */
  lemma CopiedValue(s: Solver, v: Sym, pick: (Solver, Sym) -> CVal)
    requires ValidSolver(s) && v < |s.sorts| && Satisfiable(s)
    requires forall s, v: Sym :: HasValue(s, v) ==> ModelValue(s, v, pick(s, v))
    ensures ModelValue(s, v, pick(s.Add(CopyOf(v), s.sorts[v]), v))
  {
    var s1 := s.Add(CopyOf(v), s.sorts[v]);
    var sigma :| Sat(s.trace, sigma);
    CopyGrows(s, v, sigma);
    var c := Env(s1, sigma)[v];
    assert ModelValue(s1, v, c);
    assert HasValue(s1, v);
    var d := pick(s1, v);
    assert ModelValue(s1, v, d);
    var tau :| Sat(s1.trace, tau) && v < |ModelOf(s1.trace, tau).env| && ModelOf(s1.trace, tau).env[v] == d;
    CopyGrows(s, v, tau);
    hide Sat, ModelOf, ValidTrace;
  }

  lemma SatAnswers(sat: Solver -> bool, pick: (Solver, Sym) -> CVal, s: Solver)
    requires Oracle(sat, pick)
    ensures sat(s) <==> Satisfiable(s)
  {
  }

  /** A step at a split. */
  lemma SplitStep(prog: Program, st: State, id: Name, mono: Option<Ty>, pick: (Solver, Sym) -> CVal)
    requires st.frame.fn in prog && st.frame.pc < |prog[st.frame.fn].instrs|
    requires prog[st.frame.fn].instrs[st.frame.pc] == Monomorphize(id, mono)
    ensures var r := SymRead(id, st);
            var step := SymStep(prog, st, Choice(prog, st, pick));
            if r.Failure? then step == Halt(Failed(r.error), st.solver)
            else if r.value.0.Concrete? then step == Go(r.value.1.(frame := Advance(r.value.1.frame)))
            else step == SymMonomorphize(id, r.value.0.v, mono, r.value.1, Choice(prog, st, pick))
                 && (SortOf(r.value.0, r.value.1.solver).Some? ==>
                       Choice(prog, st, pick)
                       == pick(r.value.1.solver.Add(CopyOf(r.value.0.v), SortOf(r.value.0, r.value.1.solver).value), r.value.0.v))
  {
    hide SymRead, SymMonomorphize;
  }

  class Worker {
    const prog: Program
    const sat: Solver -> bool
    const pick: (Solver, Sym) -> CVal
    var frame: Frame<Val>
    var solver: Solver
    var queue: seq<Task>
    var time: nat
    var collected: seq<(Outcome<Val>, Solver)>

    constructor (prog: Program, sat: Solver -> bool, pick: (Solver, Sym) -> CVal, init: State, time: nat)
      ensures this.prog == prog && this.sat == sat && this.pick == pick && this.time == time
      ensures frame == init.frame && solver == init.solver && queue == [] && collected == []
    {
      this.prog, this.sat, this.pick, this.time := prog, sat, pick, time;
      frame, solver, queue, collected := init.frame, init.solver, [], [];
    }

    ghost function Here(): State
      reads this
    {
      State(frame, solver)
    }

    /** The step from `st` has been taken: the worker is where it leads, or it halted. */
    twostate predicate Took(new step: Step, new halted: Option<Outcome<Val>>)
      reads this
    {
      && queue == old(queue) + (if step.fork.Some? then [step.fork.value] else [])
      && time == old(time) && collected == old(collected)
      && step.next == if halted.None? then Run(Here()) else Stop(halted.value, solver)
    }

    method Store(r: Result<(Val, State), Error>, dest: Name, isInit: bool) returns (halted: Option<Outcome<Val>>)
      modifies `frame, `solver
      ensures Took(SymStore(r, old(Here()), dest, isInit), halted)
    {
      if r.Failure? { return Some(Failed(r.error)); }
      var (v, st) := r.value;
      frame, solver := st.frame, st.solver;
      if isInit { frame := frame.(vars := frame.vars[dest := Inited(v)]); } else { frame := Assign(frame, dest, v); }
      frame := frame.(pc := frame.pc + 1);
      halted := None;
    }

    /** Both sides of a branch are tried with the solver; if both can be taken, the false one is queued. */
    method JumpOn(v: Sym, target: nat) returns (halted: Option<Outcome<Val>>)
      requires Oracle(sat, pick)
      modifies `frame, `solver, `queue
      ensures Took(SymJump(v, target, old(Here())), halted)
    {
      if SortOf(Symbolic(v), solver) != Some(TBool) { return Some(Failed(IllSorted)); }
      var canBeTrue := sat(solver.AddAssert(Holds(v)));
      var canBeFalse := sat(solver.AddAssert(Fails(v)));
      halted := None;
      if canBeTrue && canBeFalse {
        queue := queue + [Task(State(frame.(pc := frame.pc + 1), solver), Fails(v))];
        solver := solver.AddAssert(Holds(v));
        frame := frame.(pc := target);
      } else if canBeTrue {
        solver := solver.AddAssert(Holds(v));
        frame := frame.(pc := target);
      } else if canBeFalse {
        solver := solver.AddAssert(Fails(v));
        frame := frame.(pc := frame.pc + 1);
      } else {
        halted := Some(Dead);
      }
    }

    method Jump(exp: Exp, target: nat) returns (halted: Option<Outcome<Val>>)
      requires Oracle(sat, pick)
      requires frame.fn in prog && frame.pc < |prog[frame.fn].instrs|
      requires prog[frame.fn].instrs[frame.pc] == Instr.Jump(exp, target)
      modifies `frame, `solver, `queue
      ensures Took(SymStep(prog, old(Here()), Choice(prog, old(Here()), pick)), halted)
    {
      var r := SymEval(exp, State(frame, solver));
      if r.Failure? { return Some(Failed(r.error)); }
      var (v, st) := r.value;
      frame, solver := st.frame, st.solver;
      if v.Symbolic? {
        halted := JumpOn(v.v, target);
      } else if v.c.Bool? {
        frame := frame.(pc := if v.c.b then target else frame.pc + 1);
        halted := None;
      } else {
        halted := Some(Failed(TypeError));
      }
    }

    /** The variable is fixed to a value from a model, and a task for all other values is queued. */
    method Split(id: Name, mono: Option<Ty>) returns (halted: Option<Outcome<Val>>)
      requires Oracle(sat, pick)
      requires frame.fn in prog && frame.pc < |prog[frame.fn].instrs|
      requires prog[frame.fn].instrs[frame.pc] == Monomorphize(id, mono)
      modifies `frame, `solver, `queue
      ensures Took(SymStep(prog, old(Here()), Choice(prog, old(Here()), pick)), halted)
    {
      SplitStep(prog, Here(), id, mono, pick);
      hide SymStep, Choice, Oracle;
      var r := SymRead(id, State(frame, solver));
      if r.Failure? { return Some(Failed(r.error)); }
      var (v, st) := r.value;
      hide SymRead;
      frame, solver := st.frame, st.solver;
      halted := None;
      if v.Symbolic? {
        var point := solver;
        var sort := SortOf(v, solver);
        if !Takes(mono, sort) { return Some(Failed(Unsplittable)); }
        solver := solver.Add(CopyOf(v.v), sort.value);
        SatAnswers(sat, pick, solver);
        if !sat(solver) { return Some(Dead); }
        var value := pick(solver, v.v);
        queue := queue + [Task(State(frame, point), Differs(v.v, value))];
        solver := solver.AddAssert(Equals(v.v, value));
        frame := Assign(frame, id, Concrete(value));
      }
      frame := frame.(pc := frame.pc + 1);
    }

    method Call(dest: Name, f: Name, args: seq<Exp>) returns (halted: Option<Outcome<Val>>)
      requires frame.fn in prog && frame.pc < |prog[frame.fn].instrs|
      requires prog[frame.fn].instrs[frame.pc] == Instr.Call(dest, f, args)
      modifies `frame, `solver
      ensures Took(SymStep(prog, old(Here()), Choice(prog, old(Here()), pick)), halted)
    {
      if f !in prog { return Some(Failed(NoFunction)); }
      var r := SymEvals(args, State(frame, solver));
      if r.Failure? { return Some(Failed(r.error)); }
      var (vs, st) := r.value;
      frame, solver := st.frame, st.solver;
      if |vs| > |prog[f].params| { return Some(Failed(Panicked)); }
      frame := Enter(frame, f, prog[f], dest, vs);
      halted := None;
    }

    method Return(v: Val) returns (halted: Option<Outcome<Val>>)
      modifies `frame
      ensures Took(SymReturn(v, old(Here())), halted)
    {
      if frame.stackCall == [] { return Some(Finished(v)); }
      frame := Leave(frame, v);
      halted := None;
    }

    method End() returns (halted: Option<Outcome<Val>>)
      modifies `frame, `solver
      ensures Took(SymEnd(old(Here())), halted)
    {
      if RETURN !in frame.vars { return Some(Failed(Panicked)); }
      match frame.vars[RETURN]
      case Inited(v) => halted := Return(v);
      case Uninit(ty) =>
        var v := Symbolic(|solver.sorts|);
        solver := solver.Add(Declare(ty), ty);
        halted := Return(v);
    }

    /** One round of the main loop. */
    method Step() returns (halted: Option<Outcome<Val>>)
      requires Oracle(sat, pick)
      modifies `frame, `solver, `queue
      ensures Took(SymStep(prog, old(Here()), Choice(prog, old(Here()), pick)), halted)
    {
      if frame.fn !in prog || frame.pc >= |prog[frame.fn].instrs| { return Some(Finished(Concrete(Unit))); }
      halted := None;
      match prog[frame.fn].instrs[frame.pc]
      case Decl(v, ty) =>
        frame := frame.(vars := frame.vars[v := Uninit(ty)]);
        frame := frame.(pc := frame.pc + 1);
      case Init(v, e) => halted := Store(SymEval(e, State(frame, solver)), v, true);
      case Copy(dest, e) => halted := Store(SymEval(e, State(frame, solver)), dest, false);
      case Primop(dest, op, args) => halted := Store(SymEval(Prim(op, args), State(frame, solver)), dest, false);
      case Goto(target) => frame := frame.(pc := target);
      case Jump(e, target) => halted := Jump(e, target);
      case Call(dest, f, args) => halted := Call(dest, f, args);
      case End => halted := End();
      case Monomorphize(id, mono) => halted := Split(id, mono);
      case Arbitrary => halted := Return(Concrete(Poison));
      case Exit(cause) => halted := Some(ExitOutcome(cause));
    }

    /** The pool: the queue, the path being run, and what has been collected, newest first. */
    ghost function Pool(current: Item): seq<Item>
      reads this
    {
      Waiting(queue) + [current] + Done(collected)
    }

    ghost function Current(halted: Option<Outcome<Val>>): Item
      reads this
    {
      if halted.None? then Active(Here()) else Collected(halted.value, solver)
    }

    /** One round of the main loop: the limit on time is tested before every instruction, and every
        instruction uses up some of it. */
    method Round(ghost init: State, ghost spent: nat) returns (halted: Option<Outcome<Val>>)
      requires Valid(init) && Oracle(sat, pick) && Reaches(prog, init, Pool(Active(Here())), spent)
      modifies `frame, `solver, `queue, `time
      ensures time <= old(time) && (time == old(time) ==> |queue| == old(|queue|))
      ensures Reaches(prog, init, Pool(Current(halted)), spent + (old(time) - time))
      ensures halted.None? ==> time < old(time)
      ensures halted == Some(Failed(Timeout)) ==> time == 0
    {
      ghost var st := Here();
      RoundMoves(prog, init, queue, st, collected, sat, pick, spent);
      StepInTime(prog, st, Choice(prog, st, pick));
      if frame.fn !in prog || frame.pc >= |prog[frame.fn].instrs| {
        PastEnd(prog, st, Choice(prog, st, pick));
        hide SymStep, Reaches, Oracle, Valid, Choice;
        assert queue + [] == queue;
        return Some(Finished(Concrete(Unit)));
      }
      hide SymStep, Reaches, Oracle, Valid, Choice, Waiting, Done;
      if time == 0 {
        MoveTimeout(prog, init, Waiting(queue), st, Done(collected), spent);
        return Some(Failed(Timeout));
      }
      halted := Step();
      time := time - 1;
    }

    /** Runs the current path to its end, queueing a task at every fork; past the time limit it stops. */
    method RunLoop(ghost init: State, ghost spent: nat) returns (outcome: Outcome<Val>)
      requires Valid(init) && Oracle(sat, pick) && Reaches(prog, init, Pool(Active(Here())), spent)
      modifies `frame, `solver, `queue, `time
      ensures time <= old(time) && (time == old(time) ==> |queue| == old(|queue|))
      ensures Reaches(prog, init, Pool(Collected(outcome, solver)), spent + (old(time) - time))
      ensures outcome == Failed(Timeout) ==> time == 0
    {
      hide Reaches, Oracle, Valid, Pool;
      while true
        invariant time <= old(time) && (time == old(time) ==> |queue| == old(|queue|))
        invariant Reaches(prog, init, Pool(Active(Here())), spent + (old(time) - time))
        decreases time
      {
        var halted := Round(init, spent + (old(time) - time));
        if halted.Some? { return halted.value; }
      }
    }

    /** Runs the current path to its end and collects what it ends in. */
    method Collect(ghost init: State, ghost spent: nat)
      requires Valid(init) && Oracle(sat, pick) && Reaches(prog, init, Pool(Active(Here())), spent)
      modifies this
      ensures time <= old(time) && (time == old(time) ==> |queue| == old(|queue|))
      ensures Reaches(prog, init, Waiting(queue) + Done(collected), spent + (old(time) - time))
      ensures old(InTime(collected)) && time > 0 ==> InTime(collected)
    {
      hide Reaches, Oracle, Valid, Waiting, Done;
      var outcome := RunLoop(init, spent);
      AllDone(queue, (outcome, solver), collected);
      collected := [(outcome, solver)] + collected;
    }

    /** Takes the last task off the queue: its frame and solver, with its condition asserted. */
    method Pop(ghost init: State, ghost spent: nat)
      requires queue != [] && Reaches(prog, init, Waiting(queue) + Done(collected), spent)
      modifies `frame, `solver, `queue
      ensures |queue| < old(|queue|) && Reaches(prog, init, Pool(Active(Here())), spent)
    {
      var n := |queue| - 1;
      var task := queue[n];
      WaitingLast(queue);
      hide Reaches, Waiting, Done;
      MovePop(prog, init, Waiting(queue[..n]), task, Done(collected), spent);
      frame, solver, queue := task.state.frame, task.state.solver, queue[..n];
      solver := solver.AddAssert(task.cond);
      assert Here() == Resumed(task);
    }

    /** Pops tasks until none is left, running each from its checkpoint with its condition asserted.
        What has been collected then partitions the valuations that meet the initial constraints, and
        each is collected with what its concrete run ends in. The time used up is the number of
        instructions executed, and a path runs out of time only if all of it is used up. */
    method Drain(ghost init: State)
      requires Valid(init) && Oracle(sat, pick) && Here() == init && queue == [] && collected == []
      modifies this
      ensures time <= old(time)
      ensures queue == [] && Reaches(prog, init, Done(collected), old(time) - time)
      ensures time > 0 ==> forall b | b in collected :: b.0 != Failed(Timeout)
      ensures forall sigma :: Sat(init.solver.trace, sigma) ==> Partitions(prog, init, Done(collected), sigma)
    {
      ReachStart(prog, init);
      assert Pool(Active(Here())) == [Active(init)];
      hide Reaches, Oracle, Valid, Waiting, Done, Sat, Partitions, Pool, InTime;
      assert InTime(collected);
      Collect(init, 0);
      while queue != []
        invariant time <= old(time) && Reaches(prog, init, Waiting(queue) + Done(collected), old(time) - time)
        invariant time > 0 ==> InTime(collected)
        decreases time, |queue|
      {
        Pop(init, old(time) - time);
        Collect(init, old(time) - time);
      }
      AllPartition(prog, init, queue, collected, old(time) - time);
      if time > 0 { InTimeEach(collected); }
    }
  }

  lemma InTimeEach(collected: seq<(Outcome<Val>, Solver)>)
    requires InTime(collected)
    ensures forall b | b in collected :: b.0 != Failed(Timeout)
  {
  }

  lemma AllPartition(prog: Program, init: State, queue: seq<Task>, collected: seq<(Outcome<Val>, Solver)>, spent: nat)
    requires Valid(init) && queue == [] && Reaches(prog, init, Waiting(queue) + Done(collected), spent)
    ensures Reaches(prog, init, Done(collected), spent)
    ensures forall sigma :: Sat(init.solver.trace, sigma) ==> Partitions(prog, init, Done(collected), sigma)
  {
    assert Waiting(queue) + Done(collected) == Done(collected);
    hide *;
    forall sigma | Sat(init.solver.trace, sigma)
      ensures Partitions(prog, init, Done(collected), sigma)
    {
      DonePartitions(prog, init, collected, sigma, spent);
    }
  }

  /** The valuation is in one collected path, which shows how its concrete run ends. */
  ghost predicate Partitions(prog: Program, init: State, items: seq<Item>, sigma: Valuation) {
    && ExactlyOne(items, sigma)
    && forall b | b in items && b.Collected? && On(b, sigma) ::
         Ended(prog, ConfigOf(init, sigma), b.outcome, Env(b.solver, sigma), sigma)
  }

  predicate InTime(collected: seq<(Outcome<Val>, Solver)>) { forall b | b in collected :: b.0 != Failed(Timeout) }

  lemma DonePartitions(prog: Program, init: State, collected: seq<(Outcome<Val>, Solver)>, sigma: Valuation, spent: nat)
    requires Valid(init) && Reaches(prog, init, Done(collected), spent) && Sat(init.solver.trace, sigma)
    ensures Partitions(prog, init, Done(collected), sigma)
  {
    var run := ReachedRun(prog, init, Done(collected), spent);
    forall b | b in Done(collected)
      ensures b.Collected?
    {
    }
    CollectedExact(prog, init, run, sigma);
    hide IsRun, ExactlyOne, Stops, On, Sat, Valid, ConfigOf, Done;
  }

  lemma AllDone(queue: seq<Task>, result: (Outcome<Val>, Solver), collected: seq<(Outcome<Val>, Solver)>)
    ensures Waiting(queue) + [Collected(result.0, result.1)] + Done(collected) == Waiting(queue) + Done([result] + collected)
  {
    assert Done([result] + collected) == [Collected(result.0, result.1)] + Done(collected);
  }

  lemma WaitingLast(queue: seq<Task>)
    requires queue != []
    ensures Waiting(queue) == Waiting(queue[..|queue| - 1]) + [Queued(queue[|queue| - 1])]
  {
  }

  function Waiting(queue: seq<Task>): seq<Item> {
    seq(|queue|, i requires 0 <= i < |queue| => Queued(queue[i]))
  }

  function Done(collected: seq<(Outcome<Val>, Solver)>): seq<Item> {
    seq(|collected|, i requires 0 <= i < |collected| => Collected(collected[i].0, collected[i].1))
  }

  lemma WaitingMore(queue: seq<Task>, fork: Option<Task>)
    ensures Waiting(queue + (if fork.Some? then [fork.value] else []))
         == Waiting(queue) + (if fork.Some? then [Queued(fork.value)] else [])
  {
  }

  lemma ReachedValid(prog: Program, init: State, items: seq<Item>, i: nat, spent: nat)
    requires Valid(init) && Reaches(prog, init, items, spent) && i < |items|
    ensures ValidItem(items[i])
  {
    var run := ReachedRun(prog, init, items, spent);
    ExactRun(prog, init, run, imap[]);
    assert items[i] in items;
  }

  /** Moving the one path between those before and after it. */
  lemma MoveOne(prog: Program, init: State, waiting: seq<Item>, item: Item, done: seq<Item>, choice: Option<CVal>, spent: nat)
    requires Reaches(prog, init, waiting + [item] + done, spent) && Answer(prog, item, choice)
    ensures Reaches(prog, init, waiting + Stepped(prog, item, choice) + done,
                    spent + if choice.Some? && AtInstruction(prog, item) then 1 else 0)
  {
    var items := waiting + [item] + done;
    hide Stepped, Answer, Reaches, AtInstruction;
    var i := |waiting|;
    assert items[i] == item && items[..i] == waiting && items[i + 1..] == done;
    var items' := waiting + Stepped(prog, item, choice) + done;
    assert items' == Spliced(items, i, Stepped(prog, items[i], choice));
    assert Moves(prog, items, items', choice.Some? && AtInstruction(prog, item));
    ReachStep(prog, init, items, items', choice.Some? && AtInstruction(prog, item), spent);
  }

  lemma RoundMoves(prog: Program, init: State, queue: seq<Task>, st: State, collected: seq<(Outcome<Val>, Solver)>,
                   sat: Solver -> bool, pick: (Solver, Sym) -> CVal, spent: nat)
    requires Valid(init) && Oracle(sat, pick) && Reaches(prog, init, Waiting(queue) + [Active(st)] + Done(collected), spent)
    ensures var step := SymStep(prog, st, Choice(prog, st, pick));
            Reaches(prog, init, Waiting(queue + (if step.fork.Some? then [step.fork.value] else []))
                                + [Continuation(step.next)] + Done(collected),
                    spent + if AtInstruction(prog, Active(st)) then 1 else 0)
  {
    var choice := Choice(prog, st, pick);
    assert Stepped(prog, Active(st), Some(choice)) == ItemsOf(SymStep(prog, st, choice));
    assert Answer(prog, Active(st), Some(choice)) == Admissible(prog, st, choice);
    hide *;
    ActiveAdmissible(prog, init, queue, st, collected, sat, pick, spent);
    MoveOne(prog, init, Waiting(queue), Active(st), Done(collected), Some(choice), spent);
    ForkWaits(queue, SymStep(prog, st, choice), Done(collected));
  }

  lemma ActiveAdmissible(prog: Program, init: State, queue: seq<Task>, st: State, collected: seq<(Outcome<Val>, Solver)>,
                         sat: Solver -> bool, pick: (Solver, Sym) -> CVal, spent: nat)
    requires Valid(init) && Oracle(sat, pick) && Reaches(prog, init, Waiting(queue) + [Active(st)] + Done(collected), spent)
    ensures Admissible(prog, st, Choice(prog, st, pick))
  {
    var items := Waiting(queue) + [Active(st)] + Done(collected);
    assert items[|queue|] == Active(st);
    hide SymStep, Reaches, Oracle, Choice, Admissible, Valid;
    ReachedValid(prog, init, items, |queue|, spent);
    ChoiceAdmissible(prog, st, sat, pick);
  }

  lemma ForkWaits(queue: seq<Task>, step: Step, done: seq<Item>)
    ensures Waiting(queue) + ItemsOf(step) + done
         == Waiting(queue + (if step.fork.Some? then [step.fork.value] else [])) + [Continuation(step.next)] + done
  {
    WaitingMore(queue, step.fork);
    hide Waiting, Continuation;
  }

  lemma PastEnd(prog: Program, st: State, choice: CVal)
    requires st.frame.fn !in prog || st.frame.pc >= |prog[st.frame.fn].instrs|
    ensures SymStep(prog, st, choice) == Halt(Finished(Concrete(Unit)), st.solver)
  {
  }

  lemma MoveTimeout(prog: Program, init: State, waiting: seq<Item>, st: State, done: seq<Item>, spent: nat)
    requires Reaches(prog, init, waiting + [Active(st)] + done, spent)
    ensures Reaches(prog, init, waiting + [Collected(Failed(Timeout), st.solver)] + done, spent)
  {
    MoveOne(prog, init, waiting, Active(st), done, None, spent);
    hide Reaches;
  }

  lemma MovePop(prog: Program, init: State, waiting: seq<Item>, t: Task, done: seq<Item>, spent: nat)
    requires Reaches(prog, init, waiting + [Queued(t)] + done, spent)
    ensures Reaches(prog, init, waiting + [Active(Resumed(t))] + done, spent)
  {
    MoveOne(prog, init, waiting, Queued(t), done, None, spent);
    hide Reaches;
  }
}
