/** Whole runs: the queue of paths, under every order of pops and steals. */
module SymTheorems {
  import opened Wrappers
  import opened SymLang
  import opened SymExec
  import opened SymProofs
  import opened SymSteps

  /** A path is a queued task, the state of a worker, or a collected result. */
  datatype Item = Queued(task: Task) | Active(state: State) | Collected(outcome: Outcome<Val>, solver: Solver)

  function Trace(item: Item): seq<Def> {
    match item
    case Queued(t) => Resumed(t).solver.trace
    case Active(st) => st.solver.trace
    case Collected(_, s) => s.trace
  }

  /** The valuation satisfies the path condition. */
  predicate On(item: Item, sigma: Valuation) { Sat(Trace(item), sigma) }

  function Count(items: seq<Item>, sigma: Valuation): nat {
    if items == [] then 0 else (if On(items[0], sigma) then 1 else 0) + Count(items[1..], sigma)
  }

  // ----- steps

  function Continuation(n: Next): Item {
    match n
    case Run(st) => Active(st)
    case Stop(o, s) => Collected(o, s)
  }

  function ItemsOf(step: Step): seq<Item> {
    (if step.fork.Some? then [Queued(step.fork.value)] else []) + [Continuation(step.next)]
  }

  /** What a worker's step turns one path into; `None` stands for running out of time. */
  ghost function Stepped(prog: Program, item: Item, choice: Option<CVal>): seq<Item> {
    match item
    case Queued(t) => [Active(Resumed(t))]
    case Collected(_, _) => [item]
    case Active(st) =>
      if choice.None? then [Collected(Failed(Timeout), st.solver)]
      else ItemsOf(SymStep(prog, st, choice.value))
  }

  ghost predicate Answer(prog: Program, item: Item, choice: Option<CVal>) {
    item.Active? && choice.Some? ==> Admissible(prog, item.state, choice.value)
  }

  function Spliced(items: seq<Item>, i: nat, bs: seq<Item>): seq<Item>
    requires i < |items|
  {
    items[..i] + bs + items[i + 1..]
  }

  /** Any path may be the next one to move: this covers one worker's stack and every schedule of many. */
  ghost predicate PoolStep(prog: Program, p: seq<Item>, p': seq<Item>) {
    exists i: nat, choice: Option<CVal> ::
      i < |p| && Answer(prog, p[i], choice) && p' == Spliced(p, i, Stepped(prog, p[i], choice))
  }

  ghost predicate IsRun(prog: Program, init: State, run: seq<seq<Item>>) {
    && run != [] && run[0] == [Active(init)]
    && forall k: nat :: k + 1 < |run| ==> PoolStep(prog, run[k], run[k + 1])
  }

  // ----- the concrete run

  function RunFor(prog: Program, c: Config, sigma: Valuation, n: nat): Config {
    if n == 0 then c
    else
      var before := RunFor(prog, c, sigma, n - 1);
      if before.Running? then ConcStep(prog, before, sigma) else before
  }

  /** Outcomes that are not outcomes of the program: time ran out, or the solver refused a split. */
  predicate GaveUp(o: Outcome<Val>) { o == Failed(Timeout) || o == Failed(Unsplittable) }

  /** The concrete run from `c` passes through the configuration `d`, or what `d` is about to become. */
  ghost predicate Passes(prog: Program, c: Config, d: Config, sigma: Valuation) {
    exists n: nat :: Continues(prog, d, RunFor(prog, c, sigma, n), sigma)
  }

  ghost predicate Stops(prog: Program, c: Config, o: Outcome<CVal>, sigma: Valuation) {
    exists n: nat :: RunFor(prog, c, sigma, n) == Stopped(o)
  }

  /** The concrete run passes a split on a value of a type that the split does not take. */
  ghost predicate Misused(prog: Program, c: Config, sigma: Valuation) {
    exists n: nat :: Refused(prog, RunFor(prog, c, sigma, n))
  }

  /** A path that ran out of time says nothing; one with a refused split shows the program's misuse of it. */
  ghost predicate Ended(prog: Program, c: Config, o: Outcome<Val>, env: seq<CVal>, sigma: Valuation) {
    && o != Dead
    && (o == Failed(Unsplittable) ==> Misused(prog, c, sigma))
    && (!GaveUp(o) ==> Stops(prog, c, ConcOutcome(o, env), sigma))
  }

  ghost predicate Tracks(prog: Program, init: State, item: Item, sigma: Valuation) {
    match item
    case Queued(t) => Passes(prog, ConfigOf(init, sigma), ConfigOf(Resumed(t), sigma), sigma)
    case Active(st) => Passes(prog, ConfigOf(init, sigma), ConfigOf(st, sigma), sigma)
    case Collected(o, s) => Ended(prog, ConfigOf(init, sigma), o, Env(s, sigma), sigma)
  }

  ghost predicate ValidItem(item: Item) {
    match item
    case Queued(t) => Valid(Resumed(t))
    case Active(st) => Valid(st)
    case Collected(_, s) => ValidSolver(s)
  }

  // ----- one step of one path

  lemma PassesStep(prog: Program, c: Config, d: Config, sigma: Valuation)
    requires d.Running? && Passes(prog, c, d, sigma)
    ensures exists n: nat :: RunFor(prog, c, sigma, n) == ConcStep(prog, d, sigma)
  {
    var n: nat :| Continues(prog, d, RunFor(prog, c, sigma, n), sigma);
    hide ConcStep;
    if d == RunFor(prog, c, sigma, n) {
      assert RunFor(prog, c, sigma, n + 1) == ConcStep(prog, d, sigma);
    }
  }

  /** The step's results for one valuation: as many of them are satisfied as before, and they track the
      concrete run. */
  lemma SteppedOne(prog: Program, init: State, item: Item, choice: Option<CVal>, sigma: Valuation)
    requires ValidItem(item)
    ensures forall b | b in Stepped(prog, item, choice) :: ValidItem(b)
    ensures Count(Stepped(prog, item, choice), sigma) == if On(item, sigma) then 1 else 0
    ensures On(item, sigma) && Tracks(prog, init, item, sigma) ==>
              forall b | b in Stepped(prog, item, choice) && On(b, sigma) :: Tracks(prog, init, b, sigma)
  {
    match item
    case Queued(t) => hide Sat, Passes, Valid;
    case Collected(_, _) => hide Sat, Stops;
    case Active(st) =>
      if choice.None? {
        hide Sat, Passes;
      } else {
        ActiveStepped(prog, init, st, choice.value, sigma);
        hide *;
      }
  }

  lemma ItemsCount(step: Step, sigma: Valuation)
    ensures Count(ItemsOf(step), sigma)
         == (if On(Continuation(step.next), sigma) then 1 else 0)
            + (if step.fork.Some? && On(Queued(step.fork.value), sigma) then 1 else 0)
  {
    hide On;
    var next := Continuation(step.next);
    assert Count([next], sigma) == if On(next, sigma) then 1 else 0 by { assert [next][1..] == []; }
    if step.fork.Some? {
      assert ItemsOf(step)[1..] == [next];
    } else {
      assert ItemsOf(step) == [next];
    }
  }

  /** An unsatisfied path stays unsatisfied. */
  lemma OffStays(prog: Program, st: State, step: Step, c': Config, sigma: Valuation)
    requires Simulates(prog, st, step, c', sigma) && !Sat(st.solver.trace, sigma)
    ensures !Sat(LastSolver(step.next).trace, sigma)
    ensures step.fork.Some? ==> !Sat(Resumed(step.fork.value).solver.trace, sigma)
  {
    if Sat(LastSolver(step.next).trace, sigma) { SatPrefix(st.solver.trace, LastSolver(step.next).trace, sigma); }
    if step.fork.Some? && Sat(Resumed(step.fork.value).solver.trace, sigma) {
      SatPrefix(st.solver.trace, Resumed(step.fork.value).solver.trace, sigma);
    }
  }

  lemma CoveredTracks(prog: Program, init: State, step: Step, c': Config, sigma: Valuation, n: nat)
    requires Covers(prog, step, c', sigma) && RunFor(prog, ConfigOf(init, sigma), sigma, n) == c'
    ensures forall b | b in ItemsOf(step) && On(b, sigma) :: Tracks(prog, init, b, sigma)
  {
    hide RunFor, ConfigOf, Sat, ConcStep, ConcOutcome;
    var next := Continuation(step.next);
    if On(next, sigma) && next.Active? {
      assert Continues(prog, ConfigOf(next.state, sigma), RunFor(prog, ConfigOf(init, sigma), sigma, n), sigma);
    }
    assert On(next, sigma) ==> Tracks(prog, init, next, sigma);
    if step.fork.Some? && On(Queued(step.fork.value), sigma) {
      assert Continues(prog, ConfigOf(Resumed(step.fork.value), sigma), RunFor(prog, ConfigOf(init, sigma), sigma, n), sigma);
      assert Tracks(prog, init, Queued(step.fork.value), sigma);
    }
    hide Tracks;
  }

  lemma ActiveStepped(prog: Program, init: State, st: State, choice: CVal, sigma: Valuation)
    requires Valid(st)
    ensures var bs := ItemsOf(SymStep(prog, st, choice));
            && (forall b | b in bs :: ValidItem(b))
            && Count(bs, sigma) == (if On(Active(st), sigma) then 1 else 0)
            && (On(Active(st), sigma) && Tracks(prog, init, Active(st), sigma) ==>
                  forall b | b in bs && On(b, sigma) :: Tracks(prog, init, b, sigma))
  {
    var step := SymStep(prog, st, choice);
    var c' := ConcStep(prog, ConfigOf(st, sigma), sigma);
    StepSim(prog, st, choice, sigma);
    assert ConfigOf(st, sigma).Running?;
    hide SymStep, ConcStep, Sat, Valid, ConfigOf, ModelOf, Count, Passes, Stops, RunFor, Resumed, ValidSolver;
    assert forall b | b in ItemsOf(step) :: ValidItem(b) by { ItemsValid(st, step); }
    assert Count(ItemsOf(step), sigma) == (if On(Active(st), sigma) then 1 else 0) by {
      SteppedCount(prog, st, step, c', sigma);
    }
    hide ItemsOf, ValidItem, Simulates;
    if Sat(st.solver.trace, sigma) && Tracks(prog, init, Active(st), sigma) {
      PassesStep(prog, ConfigOf(init, sigma), ConfigOf(st, sigma), sigma);
      var n: nat :| RunFor(prog, ConfigOf(init, sigma), sigma, n) == c';
      assert Covers(prog, step, c', sigma) by { SimulatesCovers(prog, st, step, c', sigma); }
      CoveredTracks(prog, init, step, c', sigma, n);
    }
    hide Tracks, Continues;
  }

  lemma SimulatesCovers(prog: Program, st: State, step: Step, c': Config, sigma: Valuation)
    requires Simulates(prog, st, step, c', sigma) && Sat(st.solver.trace, sigma)
    ensures Covers(prog, step, c', sigma)
  {
    hide Produces, Covers, Sat;
  }

  lemma ItemsValid(st: State, step: Step)
    requires Produces(st, step)
    ensures forall b | b in ItemsOf(step) :: ValidItem(b)
  {
    hide Valid, ValidSolver, Resumed;
  }

  lemma SteppedCount(prog: Program, st: State, step: Step, c': Config, sigma: Valuation)
    requires Simulates(prog, st, step, c', sigma)
    ensures Count(ItemsOf(step), sigma) == if On(Active(st), sigma) then 1 else 0
  {
    ItemsCount(step, sigma);
    if !Sat(st.solver.trace, sigma) { OffStays(prog, st, step, c', sigma); }
    hide Count, Sat, Valid, ConfigOf, Continues, Refused, ConcOutcome, Resumed, ValidSolver;
  }

  // ----- the whole pool

  lemma {:induction false} CountConcat(a: seq<Item>, b: seq<Item>, sigma: Valuation)
    ensures Count(a + b, sigma) == Count(a, sigma) + Count(b, sigma)
    decreases a
  {
    hide On;
    if a == [] {
      assert a + b == b;
    } else {
      CountConcat(a[1..], b, sigma);
      assert (a + b)[1..] == a[1..] + b;
    }
  }

  lemma CountSpliced(items: seq<Item>, i: nat, bs: seq<Item>, sigma: Valuation)
    requires i < |items|
    ensures Count(Spliced(items, i, bs), sigma)
         == Count(items, sigma) - (if On(items[i], sigma) then 1 else 0) + Count(bs, sigma)
  {
    assert items == items[..i] + items[i..] && items[i..][1..] == items[i + 1..];
    assert Count(items[i..], sigma) == (if On(items[i], sigma) then 1 else 0) + Count(items[i + 1..], sigma);
    hide On, Count;
    CountConcat(items[..i] + bs, items[i + 1..], sigma);
    CountConcat(items[..i], bs, sigma);
    CountConcat(items[..i], items[i..], sigma);
  }

  lemma {:induction false} CountZero(items: seq<Item>, sigma: Valuation)
    ensures Count(items, sigma) == 0 <==> forall i | 0 <= i < |items| :: !On(items[i], sigma)
    decreases items
  {
    if items != [] {
      hide On;
      CountZero(items[1..], sigma);
      assert forall i | 0 < i < |items| :: items[i] == items[1..][i - 1];
    }
  }

  /** The valuation satisfies one path and no other. */
  ghost predicate ExactlyOne(items: seq<Item>, sigma: Valuation) {
    exists i | 0 <= i < |items| :: OnlyOn(items, i, sigma)
  }

  ghost predicate OnlyOn(items: seq<Item>, i: int, sigma: Valuation)
    requires 0 <= i < |items|
  {
    On(items[i], sigma) && forall j | 0 <= j < |items| && j != i :: !On(items[j], sigma)
  }

  lemma {:induction false} CountOne(items: seq<Item>, sigma: Valuation)
    requires Count(items, sigma) == 1
    ensures ExactlyOne(items, sigma)
    decreases items
  {
    hide On;
    if On(items[0], sigma) {
      CountZero(items[1..], sigma);
      assert forall j | 0 < j < |items| :: items[j] == items[1..][j - 1];
      assert OnlyOn(items, 0, sigma);
    } else {
      CountOne(items[1..], sigma);
      var i :| 0 <= i < |items[1..]| && OnlyOn(items[1..], i, sigma);
      assert forall j | 0 < j < |items| :: items[j] == items[1..][j - 1];
      assert OnlyOn(items, i + 1, sigma);
    }
  }

  /** What holds of the pool for one valuation. */
  ghost predicate Exact(prog: Program, init: State, items: seq<Item>, sigma: Valuation) {
    && (forall b | b in items :: ValidItem(b))
    && Count(items, sigma) == (if Sat(init.solver.trace, sigma) then 1 else 0)
    && (forall b | b in items && On(b, sigma) :: Tracks(prog, init, b, sigma))
  }

  lemma ExactStart(prog: Program, init: State, sigma: Valuation)
    requires Valid(init)
    ensures Exact(prog, init, [Active(init)], sigma)
  {
    assert [Active(init)][1..] == [];
    assert RunFor(prog, ConfigOf(init, sigma), sigma, 0) == ConfigOf(init, sigma);
    assert Continues(prog, ConfigOf(init, sigma), RunFor(prog, ConfigOf(init, sigma), sigma, 0), sigma);
    hide Sat, ModelOf, ConfigOf, Valid, RunFor;
    assert Count([Active(init)], sigma) == if On(Active(init), sigma) then 1 else 0;
  }

  /** Moving any one path keeps the pool exact. */
  lemma ExactStep(prog: Program, init: State, items: seq<Item>, i: nat, choice: Option<CVal>, sigma: Valuation)
    requires Exact(prog, init, items, sigma) && i < |items|
    ensures Exact(prog, init, Spliced(items, i, Stepped(prog, items[i], choice)), sigma)
  {
    var bs := Stepped(prog, items[i], choice);
    assert items[i] in items;
    assert ValidItem(items[i]) && (On(items[i], sigma) ==> Tracks(prog, init, items[i], sigma));
    SplicedIn(items, i, bs);
    hide Stepped, Count, On, Tracks, ValidItem, Sat, Spliced;
    SteppedOne(prog, init, items[i], choice, sigma);
    CountSpliced(items, i, bs, sigma);
    if !On(items[i], sigma) { CountZero(bs, sigma); }
  }

  lemma SplicedIn(items: seq<Item>, i: nat, bs: seq<Item>)
    requires i < |items|
    ensures forall b | b in Spliced(items, i, bs) :: b in items || b in bs
  {
  }

  lemma {:induction false} ExactRun(prog: Program, init: State, run: seq<seq<Item>>, sigma: Valuation)
    requires Valid(init) && IsRun(prog, init, run)
    ensures Exact(prog, init, run[|run| - 1], sigma)
    decreases |run|
  {
    if |run| == 1 {
      ExactStart(prog, init, sigma);
      hide *;
    } else {
      var n := |run| - 1;
      var before := run[..n];
      assert PoolStep(prog, run[n - 1], run[n]);
      assert forall k: nat | k < |before| :: before[k] == run[k];
      ExactRun(prog, init, before, sigma);
      var i: nat, choice: Option<CVal> :|
        i < |run[n - 1]| && Answer(prog, run[n - 1][i], choice)
        && run[n] == Spliced(run[n - 1], i, Stepped(prog, run[n - 1][i], choice));
      ExactStep(prog, init, run[n - 1], i, choice, sigma);
      hide *;
    }
  }

  /** Symbolic execution is exact. At every point of every run, each valuation of the unknowns that
      meets the initial constraints satisfies exactly one queued, running or collected path, and that
      path stands for a configuration of the concrete run under the valuation; a valuation that does
      not meet them satisfies none. */
  lemma SymbolicExact(prog: Program, init: State, run: seq<seq<Item>>, sigma: Valuation)
    requires Valid(init) && IsRun(prog, init, run)
    ensures var items := run[|run| - 1];
            && (Sat(init.solver.trace, sigma) ==> ExactlyOne(items, sigma))
            && (!Sat(init.solver.trace, sigma) ==> forall b | b in items :: !On(b, sigma))
            && (forall b | b in items && On(b, sigma) :: Tracks(prog, init, b, sigma))
  {
    var items := run[|run| - 1];
    ExactRun(prog, init, run, sigma);
    hide Tracks, On, Sat, IsRun, ValidItem;
    if Sat(init.solver.trace, sigma) { CountOne(items, sigma); } else { CountZero(items, sigma); }
  }

  lemma {:induction false} RunStays(prog: Program, c: Config, sigma: Valuation, n: nat, m: nat)
    requires n <= m && RunFor(prog, c, sigma, n).Stopped?
    ensures RunFor(prog, c, sigma, m) == RunFor(prog, c, sigma, n)
    decreases m
  {
    hide ConcStep;
    if n < m { RunStays(prog, c, sigma, n, m - 1); }
  }

  /** When every path has been collected, the concrete run of each valuation that meets the initial
      constraints has an outcome, and it is the one outcome collected for that valuation — unless time ran
      out, or the run passes a split on a value of a type that the split does not take. Dead paths are
      collected for no valuation. */
  lemma CollectedExact(prog: Program, init: State, run: seq<seq<Item>>, sigma: Valuation)
    requires Valid(init) && IsRun(prog, init, run) && Sat(init.solver.trace, sigma)
    requires forall b | b in run[|run| - 1] :: b.Collected?
    ensures ExactlyOne(run[|run| - 1], sigma)
    ensures forall b | b in run[|run| - 1] && On(b, sigma) ::
              Ended(prog, ConfigOf(init, sigma), b.outcome, Env(b.solver, sigma), sigma)
    ensures forall b, o | b in run[|run| - 1] && On(b, sigma) && !GaveUp(b.outcome)
                          && Stops(prog, ConfigOf(init, sigma), o, sigma) ::
              o == ConcOutcome(b.outcome, Env(b.solver, sigma))
  {
    SymbolicExact(prog, init, run, sigma);
    hide On, Sat, IsRun, ExactlyOne, Env, ConfigOf, ConcOutcome, RunFor, Valid, GaveUp;
    var items := run[|run| - 1];
    var c := ConfigOf(init, sigma);
    forall b, o | b in items && On(b, sigma) && !GaveUp(b.outcome) && Stops(prog, c, o, sigma)
      ensures o == ConcOutcome(b.outcome, Env(b.solver, sigma))
    {
      assert Tracks(prog, init, b, sigma);
      var n: nat :| RunFor(prog, c, sigma, n) == Stopped(ConcOutcome(b.outcome, Env(b.solver, sigma)));
      var m: nat :| RunFor(prog, c, sigma, m) == Stopped(o);
      RunStays(prog, c, sigma, if n < m then n else m, if n < m then m else n);
    }
    hide Stops, Ended, Misused;
    forall b | b in items && On(b, sigma)
      ensures Ended(prog, c, b.outcome, Env(b.solver, sigma), sigma)
    {
      assert b.Collected?;
      assert Tracks(prog, init, b, sigma);
    }
  }
}
