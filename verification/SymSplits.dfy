/** Splitting on the values of one symbol: how often a task that is queued again can split. */
module SymSplits {
  import opened Wrappers
  import opened Words
  import opened SymLang
  import opened SymExec
  import opened SymProofs
  import opened SymSteps

  /** The state in which the task that keeps being queued again by one split starts, after the solver
      has given `choices` in this order; `None` once the split queues nothing. */
  ghost function Requeued(prog: Program, st: State, choices: seq<CVal>): Option<State> {
    if choices == [] then Some(st)
    else
      var n := |choices| - 1;
      var before := Requeued(prog, st, choices[..n]);
      if before.None? || !Admissible(prog, before.value, choices[n]) then None
      else
        var fork := SymStep(prog, before.value, choices[n]).fork;
        if fork.None? then None else Some(Resumed(fork.value))
  }

  ghost predicate AtSplit(prog: Program, st: State, id: Name, mono: Option<Ty>) {
    && st.frame.fn in prog && st.frame.pc < |prog[st.frame.fn].instrs|
    && prog[st.frame.fn].instrs[st.frame.pc] == Monomorphize(id, mono)
  }

  function Excluding(v: Sym, choices: seq<CVal>): seq<Def> {
    seq(|choices|, i requires 0 <= i < |choices| => Assert(Differs(v, choices[i])))
  }

  /** After the splits, the queued state is the first one with every value given so far excluded. */
  ghost predicate Excludes(st1: State, v: Sym, choices: seq<CVal>, last: State) {
    last == State(st1.frame, Solver(st1.solver.trace + Excluding(v, choices), st1.solver.sorts))
  }

  /** The split reads the symbol `v`, after which the state is `st1`. */
  ghost predicate Splits(prog: Program, st: State, id: Name, mono: Option<Ty>, v: Sym, st1: State) {
    && SymRead(id, st) == Success((Symbolic(v), st1)) && SymRead(id, st1) == Success((Symbolic(v), st1))
    && Valid(st1) && v < |st1.solver.sorts| && AtSplit(prog, st1, id, mono)
  }

  lemma SplitForks(prog: Program, st: State, id: Name, mono: Option<Ty>, choice: CVal) returns (v: Sym, st1: State)
    requires Valid(st) && AtSplit(prog, st, id, mono) && SymStep(prog, st, choice).fork.Some?
    requires Admissible(prog, st, choice)
    ensures Splits(prog, st, id, mono, v, st1)
    ensures SymStep(prog, st, choice).fork.value == Task(st1, Differs(v, choice))
    ensures Valid(Resumed(Task(st1, Differs(v, choice))))
    ensures ModelValue(st1.solver, v, choice)
  {
    var sigma: Valuation := imap[];
    ReadSim(id, st, sigma);
    ReadStays(id, st);
    v, st1 := SymRead(id, st).value.0.v, SymRead(id, st).value.1;
    var s1 := st1.solver.Add(CopyOf(v), st1.solver.sorts[v]);
    assert Satisfiable(s1);
    var tau :| Sat(s1.trace, tau);
    CopyGrows(st1.solver, v, tau);
    assert Satisfiable(st1.solver);
    AssertFacts(st1.solver, Differs(v, choice), sigma);
    hide Sat, ModelOf, FrameKnown, ValidTrace;
  }

  lemma ExcludeOne(st1: State, v: Sym, choices: seq<CVal>, last: State)
    requires choices != [] && Excludes(st1, v, choices[..|choices| - 1], last)
    ensures Excludes(st1, v, choices, Resumed(Task(last, Differs(v, choices[|choices| - 1]))))
  {
    assert Excluding(v, choices) == Excluding(v, choices[..|choices| - 1]) + [Assert(Differs(v, choices[|choices| - 1]))];
  }

  /** Queueing the split again only adds exclusions, and each new value was still possible. */
  lemma {:induction false} RequeuedExcludes(prog: Program, st: State, id: Name, mono: Option<Ty>, choices: seq<CVal>)
      returns (v: Sym, st1: State, before: State)
    requires Valid(st) && AtSplit(prog, st, id, mono) && choices != [] && Requeued(prog, st, choices).Some?
    ensures Splits(prog, st, id, mono, v, st1)
    ensures Valid(Requeued(prog, st, choices).value) && Excludes(st1, v, choices, Requeued(prog, st, choices).value)
    ensures Excludes(st1, v, choices[..|choices| - 1], before) && ModelValue(before.solver, v, choices[|choices| - 1])
    decreases |choices|
  {
    var n := |choices| - 1;
    var last := Requeued(prog, st, choices[..n]).value;
    assert Requeued(prog, st, choices).value == Resumed(SymStep(prog, last, choices[n]).fork.value);
    if n == 0 {
      v, st1 := SplitForks(prog, last, id, mono, choices[0]);
      before := st1;
    } else {
      var previous;
      v, st1, previous := RequeuedExcludes(prog, st, id, mono, choices[..n]);
      var w, same := SplitForks(prog, last, id, mono, choices[n]);
      before := last;
      ReadAgain(id, v, st1, last);
    }
    ExcludeOne(st1, v, choices, before);
    hide Excludes, SymStep, SymRead, Valid, ModelValue;
  }

  lemma ReadAgain(id: Name, v: Sym, st1: State, last: State)
    requires SymRead(id, st1) == Success((Symbolic(v), st1)) && last.frame == st1.frame
    ensures SymRead(id, last) == Success((Symbolic(v), last))
  {
  }

  /** The exclusions leave the values of the symbols alone, and rule out exactly the given choices. */
  lemma {:induction false} ExcludedSat(st1: State, v: Sym, choices: seq<CVal>, last: State, sigma: Valuation)
    requires ValidSolver(st1.solver) && v < |st1.solver.sorts| && Excludes(st1, v, choices, last)
    ensures ValidSolver(last.solver) && Env(last.solver, sigma) == Env(st1.solver, sigma)
    ensures |Env(st1.solver, sigma)| == |st1.solver.sorts|
    ensures Sat(last.solver.trace, sigma) <==> Sat(st1.solver.trace, sigma) && Env(st1.solver, sigma)[v] !in choices
    decreases |choices|
  {
    ModelTyped(st1.solver.trace, st1.solver.sorts, sigma);
    if choices == [] {
      assert st1.solver.trace + Excluding(v, []) == st1.solver.trace;
    } else {
      var n := |choices| - 1;
      var before := State(st1.frame, Solver(st1.solver.trace + Excluding(v, choices[..n]), st1.solver.sorts));
      ExcludedSat(st1, v, choices[..n], before, sigma);
      ExcludeOne(st1, v, choices, before);
      AssertFacts(before.solver, Differs(v, choices[n]), sigma);
      assert choices == choices[..n] + [choices[n]];
      hide Sat, ModelOf, ValidTrace;
    }
  }

  /** How many values a type has. */
  function Values(ty: Ty): nat {
    match ty
    case TBool => 2
    case TBits(len) => Pow2(len)
  }

  function IndexOf(c: CVal): nat {
    match c
    case Bool(b) => if b then 1 else 0
    case Bits(_, n) => n
    case _ => 0
  }

  ghost predicate Distinct<T>(s: seq<T>) { forall i, j | 0 <= i < j < |s| :: s[i] != s[j] }

  lemma {:induction false} Pigeonhole(s: seq<nat>, n: nat)
    requires Distinct(s) && forall i | 0 <= i < |s| :: s[i] < n
    ensures |s| <= n
    decreases n
  {
    if n == 0 {
    } else if n - 1 in s {
      var i :| 0 <= i < |s| && s[i] == n - 1;
      var rest := s[..i] + s[i + 1..];
      assert forall j | 0 <= j < |rest| :: rest[j] == s[if j < i then j else j + 1];
      Pigeonhole(rest, n - 1);
    } else {
      Pigeonhole(s, n - 1);
    }
  }

  /** Distinct values of one type are no more than the type has. */
  lemma DistinctBounded(choices: seq<CVal>, ty: Ty)
    requires Distinct(choices) && forall c | c in choices :: TypeOf(c) == Some(ty)
    ensures |choices| <= Values(ty)
  {
    var indices := seq(|choices|, i requires 0 <= i < |choices| => IndexOf(choices[i]));
    forall i, j | 0 <= i < j < |indices|
      ensures indices[i] != indices[j]
    {
      assert choices[i] in choices && choices[j] in choices;
    }
    forall i | 0 <= i < |indices|
      ensures indices[i] < Values(ty)
    {
      assert choices[i] in choices;
    }
    Pigeonhole(indices, Values(ty));
  }

  /** A value given where the earlier ones are excluded is a new one. */
  lemma NewValue(st1: State, v: Sym, choices: seq<CVal>, before: State, c: CVal)
    requires ValidSolver(st1.solver) && v < |st1.solver.sorts| && Excludes(st1, v, choices, before)
    requires ModelValue(before.solver, v, c)
    ensures c !in choices && ModelValue(st1.solver, v, c) && TypeOf(c) == Some(st1.solver.sorts[v])
  {
    var sigma :| Sat(before.solver.trace, sigma) && v < |ModelOf(before.solver.trace, sigma).env|
                 && ModelOf(before.solver.trace, sigma).env[v] == c;
    ExcludedSat(st1, v, choices, before, sigma);
    ModelTyped(st1.solver.trace, st1.solver.sorts, sigma);
    hide Sat, ModelOf, ValidTrace;
  }

  /** A task that a split queues again and again gets a new value of the symbol's type every time, so
      one split of a k-bit symbol queues its task at most 2^k times. */
  lemma {:induction false} RequeueBounded(prog: Program, st: State, id: Name, mono: Option<Ty>, choices: seq<CVal>)
      returns (v: Sym, st1: State)
    requires Valid(st) && AtSplit(prog, st, id, mono) && choices != [] && Requeued(prog, st, choices).Some?
    ensures Splits(prog, st, id, mono, v, st1)
    ensures Distinct(choices) && Possible(st1.solver, v, choices)
    ensures |choices| <= Values(st1.solver.sorts[v])
    decreases |choices|
  {
    var n := |choices| - 1;
    var before;
    assert Requeued(prog, st, choices[..n]).Some?;
    hide Sat, ModelOf, ValidTrace, SymStep, AtSplit, Requeued, Admissible, SymRead, Excludes, ModelValue, FrameKnown;
    hide Distinct, Possible, Values, TypeOf;
    v, st1, before := RequeuedExcludes(prog, st, id, mono, choices);
    NewValue(st1, v, choices[..n], before, choices[n]);
    if n > 0 {
      var w, same := RequeueBounded(prog, st, id, mono, choices[..n]);
    }
    DistinctSnoc(choices);
    PossibleSnoc(st1.solver, v, choices);
    hide *;
    PossibleBounded(st1.solver, v, choices);
  }

  /** The symbol can have each of the values, which are of its sort. */
  ghost predicate Possible(s: Solver, v: Sym, choices: seq<CVal>) {
    v < |s.sorts| && forall c | c in choices :: ModelValue(s, v, c) && TypeOf(c) == Some(s.sorts[v])
  }

  lemma PossibleSnoc(s: Solver, v: Sym, choices: seq<CVal>)
    requires choices != [] && v < |s.sorts|
    requires |choices| > 1 ==> Possible(s, v, choices[..|choices| - 1])
    requires ModelValue(s, v, choices[|choices| - 1]) && TypeOf(choices[|choices| - 1]) == Some(s.sorts[v])
    ensures Possible(s, v, choices)
  {
    hide ModelValue, TypeOf;
    assert choices == choices[..|choices| - 1] + [choices[|choices| - 1]];
  }

  lemma PossibleBounded(s: Solver, v: Sym, choices: seq<CVal>)
    requires Possible(s, v, choices) && Distinct(choices)
    ensures |choices| <= Values(s.sorts[v])
  {
    hide ModelValue, TypeOf, Values;
    DistinctBounded(choices, s.sorts[v]);
  }

  lemma DistinctSnoc<T>(s: seq<T>)
    requires s != []
    ensures Distinct(s) <==> Distinct(s[..|s| - 1]) && s[|s| - 1] !in s[..|s| - 1]
  {
    if Distinct(s[..|s| - 1]) && s[|s| - 1] !in s[..|s| - 1] {
      forall i, j | 0 <= i < j < |s|
        ensures s[i] != s[j]
      {
        if j < |s| - 1 { assert s[..|s| - 1][i] != s[..|s| - 1][j]; } else { assert s[..|s| - 1][i] == s[i]; }
      }
    }
  }

  /** When the queued task at last finds its path dead, the values it split on are exactly the values
      the symbol can have on the path. */
  lemma RequeueExhausts(prog: Program, st: State, id: Name, mono: Option<Ty>, choices: seq<CVal>, any: CVal)
      returns (v: Sym, st1: State)
    requires Valid(st) && AtSplit(prog, st, id, mono) && choices != [] && Requeued(prog, st, choices).Some?
    requires var next := SymStep(prog, Requeued(prog, st, choices).value, any).next; next.Stop? && next.outcome == Dead
    ensures Splits(prog, st, id, mono, v, st1)
    ensures forall c :: c in choices <==> ModelValue(st1.solver, v, c)
  {
    var last := Requeued(prog, st, choices).value;
    var before;
    hide Requeued, Sat, ModelOf, ValidTrace, FrameKnown, Admissible;
    v, st1, before := RequeuedExcludes(prog, st, id, mono, choices);
    var w, same := RequeueBounded(prog, st, id, mono, choices);
    ReadAgain(id, v, st1, last);
    DeadMeans(prog, last, id, mono, v, any);
    hide SymRead, SymStep, Excludes, Satisfiable;
    forall c | ModelValue(st1.solver, v, c)
      ensures c in choices
    {
      Exhausted(st1, v, choices, last, c);
    }
  }

  /** A split is dead only on a path that no valuation satisfies. */
  lemma DeadMeans(prog: Program, st: State, id: Name, mono: Option<Ty>, v: Sym, any: CVal)
    requires Valid(st) && AtSplit(prog, st, id, mono) && SymRead(id, st) == Success((Symbolic(v), st)) && v < |st.solver.sorts|
    requires var next := SymStep(prog, st, any).next; next.Stop? && next.outcome == Dead
    ensures !Satisfiable(st.solver)
  {
    hide Sat, ModelOf, FrameKnown, ValidTrace, SymRead;
    var s1 := st.solver.Add(CopyOf(v), st.solver.sorts[v]);
    assert !Satisfiable(s1);
    forall sigma
      ensures !Sat(st.solver.trace, sigma)
    {
      CopyGrows(st.solver, v, sigma);
      assert !Sat(s1.trace, sigma);
    }
  }

  lemma Exhausted(st1: State, v: Sym, choices: seq<CVal>, last: State, c: CVal)
    requires ValidSolver(st1.solver) && v < |st1.solver.sorts| && Excludes(st1, v, choices, last)
    requires !Satisfiable(last.solver) && ModelValue(st1.solver, v, c)
    ensures c in choices
  {
    hide Sat, ModelOf, ValidTrace, Excludes;
    var sigma :| Sat(st1.solver.trace, sigma) && v < |ModelOf(st1.solver.trace, sigma).env|
                 && ModelOf(st1.solver.trace, sigma).env[v] == c;
    ExcludedSat(st1, v, choices, last, sigma);
    assert !Sat(last.solver.trace, sigma);
  }
}
