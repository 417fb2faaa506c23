/** The extraction loop, and the rewriting of translation events after it. */
module Executions {
  import opened Wrappers
  import opened Extraction

  /** The calls being executed, each with a number of its own. */
  class CallStack {
    var count: nat
    var stack: seq<(Name, nat)>

    /** Every call has a different number, smaller than the next one given. */
    ghost predicate Valid()
      reads this
    {
      && (forall i | 0 <= i < |stack| :: stack[i].1 < count)
      && (forall i, j | 0 <= i < j < |stack| :: stack[i].1 < stack[j].1)
    }

    function Now(): Calls
      reads this
    {
      Calls(count, stack)
    }

    constructor ()
      ensures Valid() && Now() == Calls(0, [])
    {
      count, stack := 0, [];
    }

    method Push(f: Name)
      requires Valid()
      modifies this
      ensures Valid() && stack == old(stack) + [(f, old(count))] && count == old(count) + 1
    {
      stack := stack + [(f, count)];
      count := count + 1;
    }

    method Pop() returns (f: Option<Name>)
      requires Valid()
      modifies `stack
      ensures Valid()
      ensures old(stack) == [] ==> f == None && stack == []
      ensures old(stack) != [] ==> f == Some(old(stack)[|old(stack)| - 1].0) && stack == old(stack)[..|old(stack)| - 1]
    {
      if stack == [] { return None; }
      var last := stack[|stack| - 1];
      f := Some(last.0);
      stack := stack[..|stack| - 1];
    }

    /** The number of the outermost call of the function. */
    method Contains(f: Name) returns (n: Option<nat>)
      ensures n == FirstCall(stack, f)
      ensures n.None? <==> forall i | 0 <= i < |stack| :: stack[i].0 != f
      ensures n.Some? ==> exists i | 0 <= i < |stack| ::
                stack[i] == (f, n.value) && forall j | 0 <= j < i :: stack[j].0 != f
    {
      for i := 0 to |stack|
        invariant FirstCall(stack[i..], f) == FirstCall(stack, f)
        invariant forall j | 0 <= j < i :: stack[j].0 != f
      {
        assert stack[i..][0] == stack[i] && stack[i..][1..] == stack[i + 1..];
        if stack[i].0 == f { return Some(stack[i].1); }
      }
      n := None;
    }
  }

  datatype CycleEvent = CycleEvent(eid: nat, inProgramOrder: bool, isIfetch: bool, translate: Option<nat>, includeInSmt: bool)

  predicate Flags(cfg: Config, calls: Calls, cycle: seq<Event>, ev: CycleEvent) {
    && ev.eid < |cycle| && Keeps(cfg, cycle, ev.eid)
    && ev.isIfetch == IsFetch(cycle, ev.eid)
    && ev.inProgramOrder == (cycle[ev.eid].Abstract? && cycle[ev.eid].name in cfg.inProgramOrder)
    && (ev.includeInSmt && !(cfg.ignoreIfetch && ev.isIfetch)) == InSmt(cfg, cycle, ev.eid)
    && ev.translate == TranslateIn(cfg, calls, cycle, ev.eid)
  }

  /** The k-th of the kept events is listed at place k. */
  predicate ListedAt(cfg: Config, cycle: seq<Event>, evs: seq<CycleEvent>, eid: nat)
    requires eid < |cycle|
  {
    Kept(cfg, cycle, eid) < |evs| && evs[Kept(cfg, cycle, eid)].eid == eid
  }

  predicate GoodAt(cfg: Config, calls: Calls, cycle: seq<Event>, evs: seq<CycleEvent>, k: nat)
    requires k < |evs|
  {
    Flags(cfg, calls, cycle, evs[k]) && Kept(cfg, cycle, evs[k].eid) == k
  }

  /** The kept events among the first n, in order. */
  ghost predicate Lists(cfg: Config, calls: Calls, cycle: seq<Event>, n: nat, evs: seq<CycleEvent>)
    requires n <= |cycle|
  {
    && |evs| == Kept(cfg, cycle, n)
    && (forall k | 0 <= k < |evs| :: GoodAt(cfg, calls, cycle, evs, k))
    && (forall eid | 0 <= eid < n && Keeps(cfg, cycle, eid) :: ListedAt(cfg, cycle, evs, eid))
  }

  lemma ListsNext(cfg: Config, calls: Calls, cycle: seq<Event>, n: nat, evs: seq<CycleEvent>, more: seq<CycleEvent>)
    requires n < |cycle| && Lists(cfg, calls, cycle, n, evs)
    requires if Keeps(cfg, cycle, n) then |more| == 1 && more[0].eid == n && Flags(cfg, calls, cycle, more[0]) else more == []
    ensures Lists(cfg, calls, cycle, n + 1, evs + more)
  {
    var all := evs + more;
    assert Kept(cfg, cycle, n + 1) == Kept(cfg, cycle, n) + |more|;
    hide Keeps, Flags, Kept, GoodAt, ListedAt;
    forall k | 0 <= k < |all|
      ensures GoodAt(cfg, calls, cycle, all, k)
    {
      if k < |evs| { GoodMore(cfg, calls, cycle, evs, more, k); } else { GoodNew(cfg, calls, cycle, n, evs, more); }
    }
    forall eid | 0 <= eid < n + 1 && Keeps(cfg, cycle, eid)
      ensures ListedAt(cfg, cycle, all, eid)
    {
      if eid < n { ListedMore(cfg, cycle, evs, more, eid); } else { ListedNew(cfg, cycle, n, evs, more); }
    }
  }

  lemma GoodMore(cfg: Config, calls: Calls, cycle: seq<Event>, evs: seq<CycleEvent>, more: seq<CycleEvent>, k: nat)
    requires k < |evs| && GoodAt(cfg, calls, cycle, evs, k)
    ensures GoodAt(cfg, calls, cycle, evs + more, k)
  {
  }

  lemma GoodNew(cfg: Config, calls: Calls, cycle: seq<Event>, n: nat, evs: seq<CycleEvent>, more: seq<CycleEvent>)
    requires n < |cycle| && |evs| == Kept(cfg, cycle, n) && |more| == 1 && more[0].eid == n && Flags(cfg, calls, cycle, more[0])
    ensures GoodAt(cfg, calls, cycle, evs + more, |evs|)
  {
  }

  lemma ListedMore(cfg: Config, cycle: seq<Event>, evs: seq<CycleEvent>, more: seq<CycleEvent>, eid: nat)
    requires eid < |cycle| && ListedAt(cfg, cycle, evs, eid)
    ensures ListedAt(cfg, cycle, evs + more, eid)
  {
  }

  lemma ListedNew(cfg: Config, cycle: seq<Event>, n: nat, evs: seq<CycleEvent>, more: seq<CycleEvent>)
    requires n < |cycle| && |evs| == Kept(cfg, cycle, n) && |more| == 1 && more[0].eid == n
    ensures ListedAt(cfg, cycle, evs + more, n)
  {
  }

  /** What is kept of one event, given the instruction seen so far. */
  function Classify(cfg: Config, event: Event, eid: nat, instr: Option<Opcode>, translate: Option<nat>): seq<CycleEvent> {
    match event
    case WriteReg(reg) =>
      if instr.None? then []
      else if reg in cfg.writeEventRegisters then [CycleEvent(eid, false, false, translate, true)]
      else [CycleEvent(eid, false, false, None, false)]
    case ReadReg(reg) =>
      if instr.None? then []
      else if reg in cfg.readEventRegisters then [CycleEvent(eid, false, false, translate, true)]
      else [CycleEvent(eid, false, false, None, false)]
    case ReadMem(_) => [CycleEvent(eid, false, instr.None?, translate, true)]
    case WriteMem(_, _) => [CycleEvent(eid, false, false, None, true)]
    case Function(_, _) => if cfg.debug && instr.Some? then [CycleEvent(eid, false, false, None, false)] else []
    case Abstract(name, primitive) =>
      if primitive then [CycleEvent(eid, name in cfg.inProgramOrder, false, None, true)] else []
    case Branch => if cfg.debug && instr.Some? then [CycleEvent(eid, false, false, None, false)] else []
    case _ => []
  }

  lemma ClassifyKeeps(cfg: Config, calls: Calls, cycle: seq<Event>, eid: nat, translate: Option<nat>)
    requires eid < |cycle| && AfterEvents(calls, cycle, eid).Some?
    requires translate == if cfg.translationFunction.Some?
                          then FirstCall(AfterEvents(calls, cycle, eid).value.stack, cfg.translationFunction.value) else None
    ensures var more := Classify(cfg, cycle[eid], eid, InstrOf(cycle, eid), translate);
            if Keeps(cfg, cycle, eid) then |more| == 1 && more[0].eid == eid && Flags(cfg, calls, cycle, more[0]) else more == []
  {
    hide InstrOf, AfterEvents, FirstCall;
  }

  /** Reads one cycle: its instruction and, in order, the events to keep, each with the call of the
      translation function it belongs to. It panics only where a return has no matching call. */
  method ReadCycle(cfg: Config, cycle: seq<Event>, callStack: CallStack)
      returns (e: Option<Error>, instr: Option<Opcode>, evs: seq<CycleEvent>)
    requires callStack.Valid()
    modifies callStack
    ensures callStack.Valid()
    ensures e.None? ==> OneInstr(cycle) && instr == InstrOf(cycle, |cycle|)
    ensures e.None? ==> Lists(cfg, old(callStack.Now()), cycle, |cycle|, evs)
    ensures e.None? ==> AfterEvents(old(callStack.Now()), cycle, |cycle|) == Some(callStack.Now())
    ensures e == Some(MultipleInstructionsInCycle) ==> !OneInstr(cycle)
    ensures e == Some(Panicked) ==> AfterEvents(old(callStack.Now()), cycle, |cycle|).None?
  {
    instr, evs := None, [];
    ghost var calls := callStack.Now();
    for eid := 0 to |cycle|
      invariant callStack.Valid() && AfterEvents(calls, cycle, eid) == Some(callStack.Now())
      invariant instr == InstrOf(cycle, eid) && Lists(cfg, calls, cycle, eid, evs)
      invariant forall i | 0 <= i < eid && cycle[i].Instr? :: InstrOf(cycle, i).None?
    {
      var translate := None;
      if cfg.translationFunction.Some? { translate := callStack.Contains(cfg.translationFunction.value); }
      var more := Classify(cfg, cycle[eid], eid, instr, translate);
      ClassifyKeeps(cfg, calls, cycle, eid, translate);
      ListsNext(cfg, calls, cycle, eid, evs, more);
      hide Lists, Classify, Keeps, Flags, ListedAt, GoodAt, FirstCall;
      evs := evs + more;
      if cycle[eid].Instr? {
        if instr.Some? { return Some(MultipleInstructionsInCycle), instr, evs; }
        instr := Some(cycle[eid].opcode);
      } else if cycle[eid].Function? {
        if cycle[eid].call {
          callStack.Push(cycle[eid].name);
        } else {
          var top := callStack.Pop();
          if top != Some(cycle[eid].name) {
            EventsFail(calls, cycle, eid + 1, |cycle|);
            return Some(Panicked), instr, evs;
          }
        }
      }
    }
    e := None;
  }

  // ----- the whole candidate

  /** The axiomatic event made from the k-th kept event of a cycle. */
  function AxOf(instr: Option<Opcode>, tid: nat, po: nat, cycle: seq<Event>, k: nat, ev: CycleEvent): AxEvent
    requires po > 0 && ev.eid < |cycle|
  {
    AxEvent(instr, po - 1, k, ev.inProgramOrder, tid, [Base(tid, po, ev.eid, cycle[ev.eid])], ev.isIfetch, ev.translate)
  }

  /** The event is the one its position in the trace calls for, and went where it belongs. */
  ghost predicate Placed(cfg: Config, candidate: Candidate, ax: AxEvent, smt: bool) {
    && |ax.base| == 1
    && var b := ax.base[0];
       && IsKept(cfg, candidate, b.tid, b.po, b.eid) && Describes(cfg, candidate, ax, b.tid, b.po, b.eid)
       && InSmt(cfg, Cycles(candidate[b.tid])[b.po], b.eid) == smt
  }

  /** The position comes before cycle `po` of thread `tid`. */
  predicate Before(b: Base, tid: nat, po: nat) { b.tid < tid || (b.tid == tid && b.po < po) }

  ghost predicate AllPlaced(cfg: Config, candidate: Candidate, events: seq<AxEvent>, smt: bool, tid: nat, po: nat) {
    forall i | 0 <= i < |events| :: Placed(cfg, candidate, events[i], smt) && Before(events[i].base[0], tid, po)
  }

  ghost predicate Different(events: seq<AxEvent>) {
    forall i, j | 0 <= i < j < |events| :: events[i].base != events[j].base
  }

  ghost predicate Recorded(events: seq<AxEvent>, b: Base) { exists i :: 0 <= i < |events| && events[i].base == [b] }

  /** Every kept event before the given cycle has been recorded. */
  ghost predicate Complete(cfg: Config, candidate: Candidate, smt: seq<AxEvent>, other: seq<AxEvent>, tid: nat, po: nat) {
    forall b: Base | IsKept(cfg, candidate, b.tid, b.po, b.eid) && b.event == Cycles(candidate[b.tid])[b.po][b.eid]
                     && Before(b, tid, po) ::
      Recorded(if InSmt(cfg, Cycles(candidate[b.tid])[b.po], b.eid) then smt else other, b)
  }

  /** The events are exactly those the traces before the given cycle call for, each once. */
  ghost predicate Extracted(cfg: Config, candidate: Candidate, smt: seq<AxEvent>, other: seq<AxEvent>, tid: nat, po: nat) {
    && AllPlaced(cfg, candidate, smt, true, tid, po) && AllPlaced(cfg, candidate, other, false, tid, po)
    && Different(smt) && Different(other) && Complete(cfg, candidate, smt, other, tid, po)
  }

  lemma InitiallyExtracted(cfg: Config, candidate: Candidate)
    ensures Extracted(cfg, candidate, [], [], 0, 0)
  {
  }

  /** The new events of a cycle, split by where they go. */
  ghost predicate FromCycle(cfg: Config, candidate: Candidate, a: seq<AxEvent>, smt: bool, tid: nat, po: nat) {
    && (forall i | 0 <= i < |a| :: Placed(cfg, candidate, a[i], smt) && a[i].base[0].tid == tid && a[i].base[0].po == po)
    && (forall i, j | 0 <= i < j < |a| :: a[i].base != a[j].base)
  }

  ghost predicate CycleComplete(cfg: Config, candidate: Candidate, a: seq<AxEvent>, b: seq<AxEvent>, tid: nat, po: nat)
    requires tid < |candidate| && 0 < po < |Cycles(candidate[tid])|
  {
    var cycle := Cycles(candidate[tid])[po];
    forall eid: nat | eid < |cycle| && Keeps(cfg, cycle, eid) ::
      Recorded(if InSmt(cfg, cycle, eid) then a else b, Base(tid, po, eid, cycle[eid]))
  }

  lemma PlacedMore(cfg: Config, candidate: Candidate, events: seq<AxEvent>, a: seq<AxEvent>, smt: bool, tid: nat, po: nat)
    requires AllPlaced(cfg, candidate, events, smt, tid, po) && Different(events) && FromCycle(cfg, candidate, a, smt, tid, po)
    ensures AllPlaced(cfg, candidate, events + a, smt, tid, po + 1) && Different(events + a)
  {
    hide Placed;
    var all := events + a;
    forall i | 0 <= i < |all|
      ensures Placed(cfg, candidate, all[i], smt) && |all[i].base| == 1 && Before(all[i].base[0], tid, po + 1)
    {
      if i < |events| { PlacedOne(cfg, candidate, events[i], smt); } else { PlacedOne(cfg, candidate, a[i - |events|], smt); }
    }
    forall i, j | 0 <= i < j < |all|
      ensures all[i].base != all[j].base
    {
      if i < |events| <= j {
        PlacedOne(cfg, candidate, events[i], smt);
        PlacedOne(cfg, candidate, a[j - |events|], smt);
      }
    }
  }

  lemma PlacedOne(cfg: Config, candidate: Candidate, ax: AxEvent, smt: bool)
    requires Placed(cfg, candidate, ax, smt)
    ensures |ax.base| == 1
  {
  }

  lemma RecordedMore(events: seq<AxEvent>, a: seq<AxEvent>, b: Base)
    requires Recorded(events, b) || Recorded(a, b)
    ensures Recorded(events + a, b)
  {
    var all := events + a;
    if Recorded(events, b) {
      var i :| 0 <= i < |events| && events[i].base == [b];
      assert all[i].base == [b];
    } else {
      var i :| 0 <= i < |a| && a[i].base == [b];
      assert all[|events| + i].base == [b];
    }
  }

  lemma ExtractedCycle(cfg: Config, candidate: Candidate, smt: seq<AxEvent>, other: seq<AxEvent>, a: seq<AxEvent>, b: seq<AxEvent>,
                       tid: nat, po: nat)
    requires Extracted(cfg, candidate, smt, other, tid, po) && tid < |candidate| && 0 < po < |Cycles(candidate[tid])|
    requires FromCycle(cfg, candidate, a, true, tid, po) && FromCycle(cfg, candidate, b, false, tid, po)
    requires CycleComplete(cfg, candidate, a, b, tid, po)
    ensures Extracted(cfg, candidate, smt + a, other + b, tid, po + 1)
  {
    PlacedMore(cfg, candidate, smt, a, true, tid, po);
    PlacedMore(cfg, candidate, other, b, false, tid, po);
    hide Placed, AllPlaced, FromCycle, Different, Keeps, InSmt, Recorded, Cycles;
    forall c: Base | IsKept(cfg, candidate, c.tid, c.po, c.eid) && c.event == Cycles(candidate[c.tid])[c.po][c.eid]
                     && Before(c, tid, po + 1)
      ensures Recorded(if InSmt(cfg, Cycles(candidate[c.tid])[c.po], c.eid) then smt + a else other + b, c)
    {
      if InSmt(cfg, Cycles(candidate[c.tid])[c.po], c.eid) {
        RecordedMore(smt, a, c);
      } else {
        RecordedMore(other, b, c);
      }
    }
  }

  /** Nothing is kept of the initialisation, nor after the last cycle of a thread. */
  lemma ExtractedThread(cfg: Config, candidate: Candidate, smt: seq<AxEvent>, other: seq<AxEvent>, tid: nat)
    requires tid < |candidate| && Extracted(cfg, candidate, smt, other, tid, |Cycles(candidate[tid])|)
    ensures Extracted(cfg, candidate, smt, other, tid + 1, 0)
  {
    hide Placed, Different, Keeps, InSmt, Recorded, Cycles;
  }

  lemma ExtractedFirst(cfg: Config, candidate: Candidate, smt: seq<AxEvent>, other: seq<AxEvent>, tid: nat)
    requires Extracted(cfg, candidate, smt, other, tid, 0)
    ensures Extracted(cfg, candidate, smt, other, tid, 1)
  {
    hide Placed, Different, Keeps, InSmt, Recorded, Cycles;
  }
}
