/** What extraction makes true of the events: their orders, and which translations can be merged. */
module TraceFacts {
  import opened Wrappers
  import opened Extraction
  import opened Executions
  import opened Translates

  // ----- the orders of the events are the order of the trace

  /** Two events of the execution, by the positions they come from. */
  lemma OrdersFollowTrace(cfg: Config, candidate: Candidate, a: AxEvent, b: AxEvent, smtA: bool, smtB: bool)
    requires Placed(cfg, candidate, a, smtA) && Placed(cfg, candidate, b, smtB)
    ensures InstructionOrder(a, b) <==> a.base[0].tid == b.base[0].tid && a.base[0].po < b.base[0].po
    ensures IntraInstructionOrdered(a, b) <==>
              a.base[0].tid == b.base[0].tid && a.base[0].po == b.base[0].po && a.base[0].eid < b.base[0].eid
  {
    var x, y := a.base[0], b.base[0];
    if x.tid == y.tid && x.po == y.po {
      var cycle := Cycles(candidate[x.tid])[x.po];
      if x.eid < y.eid { KeptMonotone(cfg, cycle, x.eid, y.eid); } else { KeptMonotone(cfg, cycle, y.eid, x.eid); }
    }
  }

  /** How many of the four ways to order two events hold. */
  function Orderings(a: AxEvent, b: AxEvent): nat {
    (if InstructionOrder(a, b) then 1 else 0) + (if InstructionOrder(b, a) then 1 else 0)
    + (if IntraInstructionOrdered(a, b) then 1 else 0) + (if IntraInstructionOrdered(b, a) then 1 else 0)
  }

  /** Of two different events of an extracted execution, instruction order and the order within an
      instruction order those of one thread in exactly one way, that of the trace, and no others. */
  lemma ExtractedOrdered(cfg: Config, candidate: Candidate, smt: seq<AxEvent>, other: seq<AxEvent>, i: nat, j: nat)
    requires Extracted(cfg, candidate, smt, other, |candidate|, 0) && i < |smt + other| && j < |smt + other| && i != j
    ensures var a, b := (smt + other)[i], (smt + other)[j];
            && |a.base| == 1 && |b.base| == 1
            && Orderings(a, b) == (if a.threadId == b.threadId then 1 else 0)
            && (InstructionOrder(a, b) || IntraInstructionOrdered(a, b) <==>
                  a.threadId == b.threadId
                  && (a.base[0].po < b.base[0].po || (a.base[0].po == b.base[0].po && a.base[0].eid < b.base[0].eid)))
  {
    var a, b := (smt + other)[i], (smt + other)[j];
    PlacedIn(cfg, candidate, smt, other, i);
    PlacedIn(cfg, candidate, smt, other, j);
    DifferentPositions(cfg, candidate, smt, other, i, j);
    OrdersFollowTrace(cfg, candidate, a, b, i < |smt|, j < |smt|);
    OrdersFollowTrace(cfg, candidate, b, a, j < |smt|, i < |smt|);
    PlacedThread(cfg, candidate, a, i < |smt|);
    PlacedThread(cfg, candidate, b, j < |smt|);
    hide Extracted, Placed, InstructionOrder, IntraInstructionOrdered;
  }

  lemma PlacedIn(cfg: Config, candidate: Candidate, smt: seq<AxEvent>, other: seq<AxEvent>, i: nat)
    requires Extracted(cfg, candidate, smt, other, |candidate|, 0) && i < |smt + other|
    ensures Placed(cfg, candidate, (smt + other)[i], i < |smt|)
  {
    hide Placed, Complete, Different;
  }

  lemma PlacedThread(cfg: Config, candidate: Candidate, ax: AxEvent, smt: bool)
    requires Placed(cfg, candidate, ax, smt)
    ensures |ax.base| == 1 && ax.threadId == ax.base[0].tid
  {
  }

  lemma DifferentPositions(cfg: Config, candidate: Candidate, smt: seq<AxEvent>, other: seq<AxEvent>, i: nat, j: nat)
    requires Extracted(cfg, candidate, smt, other, |candidate|, 0) && i < |smt + other| && j < |smt + other| && i != j
    ensures var a, b := (smt + other)[i], (smt + other)[j];
            && |a.base| == 1 && |b.base| == 1
            && !(a.base[0].tid == b.base[0].tid && a.base[0].po == b.base[0].po && a.base[0].eid == b.base[0].eid)
  {
    var a, b := (smt + other)[i], (smt + other)[j];
    PlacedIn(cfg, candidate, smt, other, i);
    PlacedIn(cfg, candidate, smt, other, j);
    SamePosition(cfg, candidate, a, b, i < |smt|, j < |smt|);
    hide Placed, Complete, AllPlaced;
    if i < |smt| && j < |smt| {
      assert smt[if i < j then i else j].base != smt[if i < j then j else i].base;
    } else if i >= |smt| && j >= |smt| {
      var k, l := i - |smt|, j - |smt|;
      assert other[if k < l then k else l].base != other[if k < l then l else k].base;
    }
  }

  lemma SamePosition(cfg: Config, candidate: Candidate, a: AxEvent, b: AxEvent, smtA: bool, smtB: bool)
    requires Placed(cfg, candidate, a, smtA) && Placed(cfg, candidate, b, smtB)
    ensures |a.base| == 1 && |b.base| == 1
    ensures a.base[0].tid == b.base[0].tid && a.base[0].po == b.base[0].po && a.base[0].eid == b.base[0].eid ==>
              a.base == b.base && smtA == smtB
  {
    hide Cycles, InSmt, Kept, TranslateAt, InstrOf;
  }

  // ----- a call has one thread

  /** The open calls have numbers from `lo` on, and below the next number. */
  ghost predicate Within(calls: Calls, lo: nat) {
    lo <= calls.count && forall i | 0 <= i < |calls.stack| :: lo <= calls.stack[i].1 < calls.count
  }

  lemma {:induction false} EventsWithin(calls: Calls, cycle: seq<Event>, n: nat, lo: nat)
    requires n <= |cycle| && Within(calls, lo) && AfterEvents(calls, cycle, n).Some?
    ensures Within(AfterEvents(calls, cycle, n).value, lo) && calls.count <= AfterEvents(calls, cycle, n).value.count
    decreases n
  {
    if n > 0 { EventsWithin(calls, cycle, n - 1, lo); }
  }

  lemma {:induction false} CyclesWithin(calls: Calls, cycles: seq<seq<Event>>, n: nat, lo: nat)
    requires 1 <= n <= |cycles| && Within(calls, lo) && AfterCycles(calls, cycles, n).Some?
    ensures Within(AfterCycles(calls, cycles, n).value, lo) && calls.count <= AfterCycles(calls, cycles, n).value.count
    decreases n
  {
    hide Within, AfterEvents;
    if n > 1 {
      CyclesWithin(calls, cycles, n - 1, lo);
      var before := AfterCycles(calls, cycles, n - 1).value;
      EventsWithin(before, cycles[n - 1], |cycles[n - 1]|, lo);
    }
  }

  lemma {:induction false} CyclesGrow(calls: Calls, cycles: seq<seq<Event>>, m: nat, n: nat)
    requires 1 <= m <= n <= |cycles| && Within(calls, 0) && AfterCycles(calls, cycles, n).Some?
    ensures AfterCycles(calls, cycles, m).Some?
    ensures AfterCycles(calls, cycles, m).value.count <= AfterCycles(calls, cycles, n).value.count
    decreases n
  {
    hide Within, AfterEvents;
    if m < n {
      CyclesGrow(calls, cycles, m, n - 1);
      CyclesWithin(calls, cycles, n - 1, 0);
      var before := AfterCycles(calls, cycles, n - 1).value;
      EventsWithin(before, cycles[n - 1], |cycles[n - 1]|, 0);
    }
  }

  lemma {:induction false} EventsGrow(calls: Calls, cycle: seq<Event>, m: nat, n: nat)
    requires m <= n <= |cycle| && AfterEvents(calls, cycle, n).Some?
    ensures AfterEvents(calls, cycle, m).Some?
    ensures AfterEvents(calls, cycle, m).value.count <= AfterEvents(calls, cycle, n).value.count
    decreases n
  {
    if m < n { EventsGrow(calls, cycle, m, n - 1); }
  }

  lemma {:induction false} ThreadsGrow(candidate: Candidate, m: nat, n: nat)
    requires m <= n <= |candidate| && AfterThreads(candidate, n).Some?
    ensures AfterThreads(candidate, m).Some? && AfterThreads(candidate, m).value.stack == []
    ensures AfterThreads(candidate, m).value.count <= AfterThreads(candidate, n).value.count
    decreases n
  {
    hide Cycles, AfterCycles;
    if m < n {
      ThreadsGrow(candidate, m, n - 1);
      ThreadsGrow(candidate, n - 1, n - 1);
      var before := AfterThreads(candidate, n - 1).value;
      var cycles := Cycles(candidate[n - 1]);
      assert Within(before, 0);
      CyclesWithin(before, cycles, |cycles|, 0);
    }
  }

  lemma {:induction false} FirstCallIn(stack: seq<(Name, nat)>, f: Name)
    ensures FirstCall(stack, f).Some? ==> exists i | 0 <= i < |stack| :: stack[i].1 == FirstCall(stack, f).value
    decreases stack
  {
    if stack != [] && stack[0].0 != f {
      FirstCallIn(stack[1..], f);
      if FirstCall(stack[1..], f).Some? {
        var i :| 0 <= i < |stack[1..]| && stack[1..][i].1 == FirstCall(stack[1..], f).value;
        assert stack[i + 1].1 == FirstCall(stack, f).value;
      }
    }
  }

  /** A call made in a thread has a number that no call of another thread has. */
  lemma NumberOfThread(cfg: Config, candidate: Candidate, tid: nat, po: nat, eid: nat)
    requires Balanced(candidate) && TranslateAt(cfg, candidate, tid, po, eid).Some?
    ensures tid < |candidate| && AfterThreads(candidate, tid).Some? && AfterThreads(candidate, tid + 1).Some?
    ensures AfterThreads(candidate, tid).value.count <= TranslateAt(cfg, candidate, tid, po, eid).value
    ensures TranslateAt(cfg, candidate, tid, po, eid).value < AfterThreads(candidate, tid + 1).value.count
  {
    ThreadsGrow(candidate, tid, |candidate|);
    ThreadsGrow(candidate, tid + 1, |candidate|);
    var start := AfterThreads(candidate, tid).value;
    var cycles := Cycles(candidate[tid]);
    var calls := CallsAt(candidate, tid, po).value;
    var n := TranslateAt(cfg, candidate, tid, po, eid).value;
    var now := AfterEvents(calls, cycles[po], eid).value;
    assert FirstCall(now.stack, cfg.translationFunction.value) == Some(n);
    assert AfterThreads(candidate, tid + 1) == AfterCycles(start, cycles, |cycles|);
    hide AfterThreads, Cycles, FirstCall, TranslateAt, Balanced;
    assert Within(start, start.count);
    CyclesWithin(start, cycles, po, start.count);
    CyclesGrow(start, cycles, po + 1, |cycles|);
    assert AfterCycles(start, cycles, po + 1) == AfterEvents(calls, cycles[po], |cycles[po]|);
    hide AfterCycles;
    EventsWithin(calls, cycles[po], eid, start.count);
    EventsGrow(calls, cycles[po], eid, |cycles[po]|);
    hide AfterEvents;
    FirstCallIn(now.stack, cfg.translationFunction.value);
  }

  /** Events of one translation are of one thread. */
  lemma OneThread(cfg: Config, candidate: Candidate, tid: nat, po: nat, eid: nat, tid': nat, po': nat, eid': nat)
    requires Balanced(candidate) && TranslateAt(cfg, candidate, tid, po, eid).Some?
    requires TranslateAt(cfg, candidate, tid, po, eid) == TranslateAt(cfg, candidate, tid', po', eid')
    ensures tid == tid'
  {
    NumberOfThread(cfg, candidate, tid, po, eid);
    NumberOfThread(cfg, candidate, tid', po', eid');
    hide AfterThreads, TranslateAt;
    if tid < tid' { GrowBetween(candidate, tid + 1, tid'); }
    if tid' < tid { GrowBetween(candidate, tid' + 1, tid); }
  }

  lemma GrowBetween(candidate: Candidate, m: nat, n: nat)
    requires Balanced(candidate) && m <= n <= |candidate|
    ensures AfterThreads(candidate, m).Some? && AfterThreads(candidate, n).Some?
    ensures AfterThreads(candidate, m).value.count <= AfterThreads(candidate, n).value.count
  {
    ThreadsGrow(candidate, n, |candidate|);
    ThreadsGrow(candidate, m, n);
  }

  // ----- which executions can be merged

  /** The position gives the solver an event. */
  predicate ToSolver(cfg: Config, candidate: Candidate, tid: nat, po: nat, eid: nat) {
    IsKept(cfg, candidate, tid, po, eid) && InSmt(cfg, Cycles(candidate[tid])[po], eid)
  }

  predicate HasInstr(candidate: Candidate, tid: nat, po: nat) {
    && tid < |candidate| && po < |Cycles(candidate[tid])|
    && InstrOf(Cycles(candidate[tid])[po], |Cycles(candidate[tid])[po]|).Some?
  }

  /** No translation reaches from one cycle into another, or into a cycle without an instruction. */
  ghost predicate Mergeable(cfg: Config, candidate: Candidate) {
    forall tid, po, eid, tid', po', eid' |
      && ToSolver(cfg, candidate, tid, po, eid) && ToSolver(cfg, candidate, tid', po', eid')
      && TranslateAt(cfg, candidate, tid, po, eid).Some?
      && TranslateAt(cfg, candidate, tid, po, eid) == TranslateAt(cfg, candidate, tid', po', eid') ::
      po == po' && HasInstr(candidate, tid, po)
  }

  /** The solver's events of an extracted execution can be merged exactly when no translation reaches
      beyond the cycle of one instruction. */
  lemma MergeableExactly(cfg: Config, candidate: Candidate, smt: seq<AxEvent>, other: seq<AxEvent>)
    requires Balanced(candidate) && Extracted(cfg, candidate, smt, other, |candidate|, 0)
    ensures Consistent(smt) <==> Mergeable(cfg, candidate)
  {
    hide Extracted, Balanced, TranslateAt, ToSolver, HasInstr, Agrees;
    if Mergeable(cfg, candidate) {
      forall i, j | 0 <= i < |smt| && 0 <= j < |smt| && smt[i].translate.Some? && smt[i].translate == smt[j].translate
        ensures Agrees(smt[i], smt[j])
      {
        AgreesByPosition(cfg, candidate, smt, other, i, j);
      }
    }
    if Consistent(smt) {
      forall tid, po, eid, tid', po', eid' |
        && ToSolver(cfg, candidate, tid, po, eid) && ToSolver(cfg, candidate, tid', po', eid')
        && TranslateAt(cfg, candidate, tid, po, eid).Some?
        && TranslateAt(cfg, candidate, tid, po, eid) == TranslateAt(cfg, candidate, tid', po', eid')
        ensures po == po' && HasInstr(candidate, tid, po)
      {
        var i := EventAt(cfg, candidate, smt, other, tid, po, eid);
        var j := EventAt(cfg, candidate, smt, other, tid', po', eid');
        AgreeingPositions(candidate, smt[i], smt[j], tid, po, po');
      }
    }
  }

  lemma AgreeingPositions(candidate: Candidate, a: AxEvent, b: AxEvent, tid: nat, po: nat, po': nat)
    requires Agrees(a, b) && a.instructionIndex == po - 1 && b.instructionIndex == po' - 1
    requires tid < |candidate| && po < |Cycles(candidate[tid])|
    requires a.opcode == InstrOf(Cycles(candidate[tid])[po], |Cycles(candidate[tid])[po]|)
    ensures po == po' && HasInstr(candidate, tid, po)
  {
  }

  /** The event that a position gives the solver. */
  lemma EventAt(cfg: Config, candidate: Candidate, smt: seq<AxEvent>, other: seq<AxEvent>, tid: nat, po: nat, eid: nat)
      returns (i: nat)
    requires Extracted(cfg, candidate, smt, other, |candidate|, 0) && ToSolver(cfg, candidate, tid, po, eid)
    ensures i < |smt| && smt[i].translate == TranslateAt(cfg, candidate, tid, po, eid) && smt[i].instructionIndex == po - 1
    ensures tid < |candidate| && po < |Cycles(candidate[tid])|
    ensures smt[i].opcode == InstrOf(Cycles(candidate[tid])[po], |Cycles(candidate[tid])[po]|)
  {
    hide Cycles, Keeps, InSmt, Different, TranslateAt, InstrOf, Kept;
    var b := Base(tid, po, eid, Cycles(candidate[tid])[po][eid]);
    assert IsKept(cfg, candidate, b.tid, b.po, b.eid) && Before(b, |candidate|, 0);
    assert Recorded(smt, b);
    i :| 0 <= i < |smt| && smt[i].base == [b];
    assert Placed(cfg, candidate, smt[i], true);
  }

  lemma PositionOf(cfg: Config, candidate: Candidate, ax: AxEvent) returns (b: Base)
    requires Placed(cfg, candidate, ax, true)
    ensures ToSolver(cfg, candidate, b.tid, b.po, b.eid) && ax.translate == TranslateAt(cfg, candidate, b.tid, b.po, b.eid)
    ensures ax.threadId == b.tid && ax.instructionIndex == b.po - 1
    ensures b.tid < |candidate| && b.po < |Cycles(candidate[b.tid])|
    ensures ax.opcode == InstrOf(Cycles(candidate[b.tid])[b.po], |Cycles(candidate[b.tid])[b.po]|)
  {
    b := ax.base[0];
  }

  lemma AgreesByPosition(cfg: Config, candidate: Candidate, smt: seq<AxEvent>, other: seq<AxEvent>, i: nat, j: nat)
    requires Balanced(candidate) && Extracted(cfg, candidate, smt, other, |candidate|, 0) && Mergeable(cfg, candidate)
    requires i < |smt| && j < |smt| && smt[i].translate.Some? && smt[i].translate == smt[j].translate
    ensures Agrees(smt[i], smt[j])
  {
    PlacedIn(cfg, candidate, smt, other, i);
    PlacedIn(cfg, candidate, smt, other, j);
    hide Extracted, Placed, Balanced, TranslateAt, ToSolver, Cycles, InstrOf;
    var p := PositionOf(cfg, candidate, smt[i]);
    var q := PositionOf(cfg, candidate, smt[j]);
    OneThread(cfg, candidate, p.tid, p.po, p.eid, q.tid, q.po, q.eid);
    assert p.po == q.po && HasInstr(candidate, p.tid, p.po);
  }
}
