/** From the traces of a candidate execution to its axiomatic events. */
module Extraction {
  import opened Wrappers

  type Name = nat
  type Opcode = nat

  /** The events of a trace, as far as extraction looks at them. */
  datatype Event =
    | Cycle
    | WriteReg(reg: Name)
    | ReadReg(reg: Name)
    | Instr(opcode: Opcode)
    | ReadMem(address: Option<nat>)
    | WriteMem(address: Option<nat>, inTable: bool)
    | Function(name: Name, call: bool)
    | Abstract(name: Name, primitive: bool)
    | Branch
    | Other

  datatype Config = Config(
    translationFunction: Option<Name>,
    readEventRegisters: set<Name>,
    writeEventRegisters: set<Name>,
    inProgramOrder: set<Name>,
    debug: bool,
    ignoreIfetch: bool)

  /** An event of the trace, by thread, cycle and position in the cycle. */
  datatype Base = Base(tid: nat, po: nat, eid: nat, event: Event)

  datatype AxEvent = AxEvent(
    opcode: Option<Opcode>,
    instructionIndex: nat,
    intraInstructionIndex: nat,
    inProgramOrder: bool,
    threadId: nat,
    base: seq<Base>,
    isIfetch: bool,
    translate: Option<nat>)

  datatype Error = MultipleInstructionsInCycle | Panicked

  type Candidate = seq<seq<Event>>

  // ----- cycles

  /** The trace cut at its cycle markers: one more piece than there are markers. */
  function Cycles(thread: seq<Event>): (cs: seq<seq<Event>>)
    ensures cs != []
  {
    if thread == [] then [[]]
    else
      var rest := Cycles(thread[1..]);
      if thread[0].Cycle? then [[]] + rest else [[thread[0]] + rest[0]] + rest[1..]
  }

  function Joined(cs: seq<seq<Event>>): seq<Event>
    requires cs != []
  {
    if |cs| == 1 then cs[0] else cs[0] + [Cycle] + Joined(cs[1..])
  }

  /** Cutting loses nothing but the markers, and leaves no marker inside a piece. */
  lemma {:induction false} CutAndJoin(thread: seq<Event>)
    ensures Joined(Cycles(thread)) == thread
    ensures forall c | c in Cycles(thread) :: Cycle !in c
    decreases thread
  {
    if thread != [] {
      CutAndJoin(thread[1..]);
      var rest := Cycles(thread[1..]);
      assert thread == [thread[0]] + thread[1..];
      if thread[0].Cycle? {
        assert ([[]] + rest)[1..] == rest;
        assert [] + [Cycle] + Joined(rest) == thread;
      } else {
        var all := [[thread[0]] + rest[0]] + rest[1..];
        assert all[1..] == rest[1..];
        if |rest| > 1 {
          assert [thread[0]] + rest[0] + [Cycle] + Joined(rest[1..]) == [thread[0]] + (rest[0] + [Cycle] + Joined(rest[1..]));
        }
      }
    }
  }

  /** The first instruction among the first n events of a cycle. */
  function InstrOf(cycle: seq<Event>, n: nat): Option<Opcode>
    requires n <= |cycle|
  {
    if n == 0 then None
    else if InstrOf(cycle, n - 1).Some? then InstrOf(cycle, n - 1)
    else if cycle[n - 1].Instr? then Some(cycle[n - 1].opcode) else None
  }

  predicate OneInstr(cycle: seq<Event>) {
    forall i | 0 <= i < |cycle| && cycle[i].Instr? :: InstrOf(cycle, i).None?
  }

  /** The event at `i` becomes an axiomatic event. */
  predicate Keeps(cfg: Config, cycle: seq<Event>, i: nat)
    requires i < |cycle|
  {
    match cycle[i]
    case WriteReg(_) => InstrOf(cycle, i).Some?
    case ReadReg(_) => InstrOf(cycle, i).Some?
    case ReadMem(_) => true
    case WriteMem(_, _) => true
    case Function(_, _) => cfg.debug && InstrOf(cycle, i).Some?
    case Branch => cfg.debug && InstrOf(cycle, i).Some?
    case Abstract(_, primitive) => primitive
    case _ => false
  }

  predicate IsFetch(cycle: seq<Event>, i: nat)
    requires i < |cycle|
  {
    cycle[i].ReadMem? && InstrOf(cycle, i).None?
  }

  /** The event goes to the solver, and not only to the graph. */
  predicate InSmt(cfg: Config, cycle: seq<Event>, i: nat)
    requires i < |cycle|
  {
    match cycle[i]
    case WriteReg(reg) => reg in cfg.writeEventRegisters
    case ReadReg(reg) => reg in cfg.readEventRegisters
    case ReadMem(_) => !(cfg.ignoreIfetch && IsFetch(cycle, i))
    case WriteMem(_, _) => true
    case Abstract(_, _) => true
    case _ => false
  }

  /** How many of the first n events are kept. */
  function Kept(cfg: Config, cycle: seq<Event>, n: nat): nat
    requires n <= |cycle|
  {
    if n == 0 then 0 else Kept(cfg, cycle, n - 1) + if Keeps(cfg, cycle, n - 1) then 1 else 0
  }

  lemma {:induction false} KeptMonotone(cfg: Config, cycle: seq<Event>, m: nat, n: nat)
    requires m <= n <= |cycle|
    ensures Kept(cfg, cycle, m) <= Kept(cfg, cycle, n)
    ensures m < n && Keeps(cfg, cycle, m) ==> Kept(cfg, cycle, m) < Kept(cfg, cycle, n)
    decreases n
  {
    if m < n { KeptMonotone(cfg, cycle, m, n - 1); }
  }

  // ----- calls

  /** The calls being executed, the outermost first, each with its number, and the next number. */
  datatype Calls = Calls(count: nat, stack: seq<(Name, nat)>)

  /** What an event does to the calls; a return that is not from the innermost call is none. */
  function AfterEvent(calls: Calls, event: Event): Option<Calls> {
    if !event.Function? then Some(calls)
    else if event.call then Some(Calls(calls.count + 1, calls.stack + [(event.name, calls.count)]))
    else if calls.stack == [] || calls.stack[|calls.stack| - 1].0 != event.name then None
    else Some(calls.(stack := calls.stack[..|calls.stack| - 1]))
  }

  function AfterEvents(calls: Calls, cycle: seq<Event>, n: nat): Option<Calls>
    requires n <= |cycle|
  {
    if n == 0 then Some(calls)
    else
      var before := AfterEvents(calls, cycle, n - 1);
      if before.None? then None else AfterEvent(before.value, cycle[n - 1])
  }

  /** The calls before cycle n; the first cycle is initialisation and is not looked at. */
  function AfterCycles(calls: Calls, cycles: seq<seq<Event>>, n: nat): Option<Calls>
    requires 1 <= n <= |cycles|
  {
    if n == 1 then Some(calls)
    else
      var before := AfterCycles(calls, cycles, n - 1);
      if before.None? then None else AfterEvents(before.value, cycles[n - 1], |cycles[n - 1]|)
  }

  /** The calls after n threads; numbers go on from thread to thread, open calls do not. */
  function AfterThreads(candidate: Candidate, n: nat): Option<Calls>
    requires n <= |candidate|
  {
    if n == 0 then Some(Calls(0, []))
    else
      var before := AfterThreads(candidate, n - 1);
      if before.None? then None
      else
        var cycles := Cycles(candidate[n - 1]);
        var after := AfterCycles(before.value, cycles, |cycles|);
        if after.Some? && after.value.stack == [] then after else None
  }

  /** In every thread each return is from the innermost call, and every call returns. */
  predicate Balanced(candidate: Candidate) { AfterThreads(candidate, |candidate|).Some? }

  /** The number of the outermost call of the function. */
  function FirstCall(stack: seq<(Name, nat)>, f: Name): Option<nat> {
    if stack == [] then None else if stack[0].0 == f then Some(stack[0].1) else FirstCall(stack[1..], f)
  }

  /** The events that can belong to a translation. */
  predicate Translates(cfg: Config, event: Event) {
    match event
    case WriteReg(reg) => reg in cfg.writeEventRegisters
    case ReadReg(reg) => reg in cfg.readEventRegisters
    case ReadMem(_) => true
    case _ => false
  }

  /** The call of the translation function that event `i` of a cycle belongs to. */
  function TranslateIn(cfg: Config, calls: Calls, cycle: seq<Event>, i: nat): Option<nat>
    requires i < |cycle|
  {
    var now := AfterEvents(calls, cycle, i);
    if cfg.translationFunction.Some? && now.Some? && Translates(cfg, cycle[i])
    then FirstCall(now.value.stack, cfg.translationFunction.value) else None
  }

  function CallsAt(candidate: Candidate, tid: nat, po: nat): Option<Calls>
    requires tid < |candidate| && 0 < po <= |Cycles(candidate[tid])|
  {
    var before := AfterThreads(candidate, tid);
    if before.None? then None else AfterCycles(before.value, Cycles(candidate[tid]), po)
  }

  function TranslateAt(cfg: Config, candidate: Candidate, tid: nat, po: nat, eid: nat): Option<nat> {
    if tid < |candidate| && 0 < po < |Cycles(candidate[tid])| && eid < |Cycles(candidate[tid])[po]| then
      var calls := CallsAt(candidate, tid, po);
      if calls.None? then None else TranslateIn(cfg, calls.value, Cycles(candidate[tid])[po], eid)
    else None
  }

  lemma {:induction false} EventsFail(calls: Calls, cycle: seq<Event>, m: nat, n: nat)
    requires m <= n <= |cycle| && AfterEvents(calls, cycle, m).None?
    ensures AfterEvents(calls, cycle, n).None?
    decreases n
  {
    if m < n { EventsFail(calls, cycle, m, n - 1); }
  }

  lemma {:induction false} CyclesFail(calls: Calls, cycles: seq<seq<Event>>, m: nat, n: nat)
    requires 1 <= m <= n <= |cycles| && AfterCycles(calls, cycles, m).None?
    ensures AfterCycles(calls, cycles, n).None?
    decreases n
  {
    if m < n { CyclesFail(calls, cycles, m, n - 1); }
  }

  lemma {:induction false} ThreadsFail(candidate: Candidate, m: nat, n: nat)
    requires m <= n <= |candidate| && AfterThreads(candidate, m).None?
    ensures AfterThreads(candidate, n).None?
    decreases n
  {
    hide Cycles, AfterCycles;
    if m < n { ThreadsFail(candidate, m, n - 1); }
  }

  // ----- what the axiomatic events are

  /** The position of a kept event: cycles count from one, the first piece is initialisation. */
  predicate IsKept(cfg: Config, candidate: Candidate, tid: nat, po: nat, eid: nat) {
    && tid < |candidate| && 0 < po < |Cycles(candidate[tid])| && eid < |Cycles(candidate[tid])[po]|
    && Keeps(cfg, Cycles(candidate[tid])[po], eid)
  }

  /** The axiomatic event is the one for this position of the trace. */
  predicate Describes(cfg: Config, candidate: Candidate, ax: AxEvent, tid: nat, po: nat, eid: nat)
    requires IsKept(cfg, candidate, tid, po, eid)
  {
    var cycle := Cycles(candidate[tid])[po];
    && ax.base == [Base(tid, po, eid, cycle[eid])]
    && ax.opcode == InstrOf(cycle, |cycle|)
    && ax.instructionIndex == po - 1 && ax.threadId == tid
    && ax.intraInstructionIndex == Kept(cfg, cycle, eid)
    && ax.isIfetch == IsFetch(cycle, eid)
    && ax.inProgramOrder == (cycle[eid].Abstract? && cycle[eid].name in cfg.inProgramOrder)
    && ax.translate == TranslateAt(cfg, candidate, tid, po, eid)
  }

  /** The instruction of every cycle of the thread but the first. */
  function Opcodes(thread: seq<Event>): seq<Option<Opcode>> {
    var cs := Cycles(thread);
    seq(|cs| - 1, k requires 0 <= k < |cs| - 1 => InstrOf(cs[k + 1], |cs[k + 1]|))
  }

  /** The event's opcode is the one recorded for its thread and instruction. */
  predicate Aligned(ax: AxEvent, threadOpcodes: seq<seq<Option<Opcode>>>) {
    && ax.threadId < |threadOpcodes| && ax.instructionIndex < |threadOpcodes[ax.threadId]|
    && threadOpcodes[ax.threadId][ax.instructionIndex] == ax.opcode
  }

  ghost predicate AllAligned(events: seq<AxEvent>, threadOpcodes: seq<seq<Option<Opcode>>>) {
    forall ax | ax in events :: Aligned(ax, threadOpcodes)
  }

  predicate SamePlace(a: AxEvent, b: AxEvent) {
    a.threadId == b.threadId && a.instructionIndex == b.instructionIndex && a.intraInstructionIndex == b.intraInstructionIndex
  }

  /** No two events have the same thread, instruction and position within it. */
  ghost predicate UniquePlaces(events: seq<AxEvent>) {
    forall i, j | 0 <= i < j < |events| :: !SamePlace(events[i], events[j])
  }

  // ----- orders

  predicate InstructionOrder(a: AxEvent, b: AxEvent) { a.instructionIndex < b.instructionIndex && a.threadId == b.threadId }

  predicate IntraInstructionOrdered(a: AxEvent, b: AxEvent) {
    a.instructionIndex == b.instructionIndex && a.threadId == b.threadId && a.intraInstructionIndex < b.intraInstructionIndex
  }
}
