/** The execution of a candidate: building it, and rewriting its translation events. */
module ExecutionInfos {
  import opened Wrappers
  import opened Extraction
  import opened Executions
  import opened Translates
  import opened TableReads

  // ----- what extraction gives

  function AllOpcodes(candidate: Candidate): seq<seq<Option<Opcode>>> {
    seq(|candidate|, t requires 0 <= t < |candidate| => Opcodes(candidate[t]))
  }

  lemma PlacedAligned(cfg: Config, candidate: Candidate, ax: AxEvent, smt: bool)
    requires Placed(cfg, candidate, ax, smt)
    ensures Aligned(ax, AllOpcodes(candidate))
  {
  }

  /** Two events at one place come from one position of the trace. */
  lemma PlaceIsPosition(cfg: Config, candidate: Candidate, a: AxEvent, b: AxEvent, smtA: bool, smtB: bool)
    requires Placed(cfg, candidate, a, smtA) && Placed(cfg, candidate, b, smtB) && SamePlace(a, b)
    ensures a.base == b.base && smtA == smtB
  {
    var x, y := a.base[0], b.base[0];
    var cycle := Cycles(candidate[x.tid])[x.po];
    if x.eid < y.eid { KeptMonotone(cfg, cycle, x.eid, y.eid); }
    if y.eid < x.eid { KeptMonotone(cfg, cycle, y.eid, x.eid); }
  }

  /** Extracted events are aligned with the opcodes, and no two are at the same place. */
  lemma ExtractedSound(cfg: Config, candidate: Candidate, smt: seq<AxEvent>, other: seq<AxEvent>, tid: nat, po: nat)
    requires Extracted(cfg, candidate, smt, other, tid, po)
    ensures AllAligned(smt + other, AllOpcodes(candidate)) && UniquePlaces(smt + other)
  {
    var all := smt + other;
    hide Placed, Complete, Aligned, AllOpcodes, SamePlace;
    forall ax | ax in all
      ensures Aligned(ax, AllOpcodes(candidate))
    {
      var i :| 0 <= i < |all| && all[i] == ax;
      PlacedAligned(cfg, candidate, ax, i < |smt|);
    }
    forall i, j | 0 <= i < j < |all|
      ensures !SamePlace(all[i], all[j])
    {
      if SamePlace(all[i], all[j]) {
        PlaceIsPosition(cfg, candidate, all[i], all[j], i < |smt|, j < |smt|);
      }
    }
  }

  class ExecutionInfo {
    var smtEvents: seq<AxEvent>
    var otherEvents: seq<AxEvent>
    var threadOpcodes: seq<seq<Option<Opcode>>>

    constructor ()
    {
      smtEvents, otherEvents, threadOpcodes := [], [], [];
    }

    /** Adds the events of one cycle, numbering them in order. */
    method Emit(cfg: Config, instr: Option<Opcode>, tid: nat, po: nat, cycle: seq<Event>, evs: seq<CycleEvent>)
      requires po > 0 && Within(cycle, evs)
      modifies `smtEvents, `otherEvents
      ensures smtEvents == old(smtEvents) + Routed(cfg, instr, tid, po, cycle, evs, |evs|, true)
      ensures otherEvents == old(otherEvents) + Routed(cfg, instr, tid, po, cycle, evs, |evs|, false)
    {
      for iio := 0 to |evs|
        invariant smtEvents == old(smtEvents) + Routed(cfg, instr, tid, po, cycle, evs, iio, true)
        invariant otherEvents == old(otherEvents) + Routed(cfg, instr, tid, po, cycle, evs, iio, false)
      {
        var ev := evs[iio];
        var ax := AxOf(instr, tid, po, cycle, iio, ev);
        if ev.includeInSmt && !(cfg.ignoreIfetch && ev.isIfetch) {
          smtEvents := smtEvents + [ax];
        } else {
          otherEvents := otherEvents + [ax];
        }
        RoutedNext(cfg, instr, tid, po, cycle, evs, iio);
        hide Routed, AxOf, GoesToSmt;
      }
    }

    /** Builds the execution. It succeeds exactly when no cycle has two instructions and calls and returns
        balance in every thread. It then holds, once each, exactly the events that the traces call for,
        and for every cycle its instruction. */
    method From(cfg: Config, candidate: Candidate) returns (e: Option<Error>)
      requires smtEvents == [] && otherEvents == [] && threadOpcodes == []
      modifies this
      ensures e.None? ==> Extracted(cfg, candidate, smtEvents, otherEvents, |candidate|, 0)
      ensures e.None? ==> threadOpcodes == AllOpcodes(candidate)
      ensures e.None? ==> AllAligned(smtEvents + otherEvents, threadOpcodes) && UniquePlaces(smtEvents + otherEvents)
      ensures e.None? <==> Balanced(candidate) && SingleInstrs(candidate)
      ensures e == Some(MultipleInstructionsInCycle) ==> !SingleInstrs(candidate)
      ensures e == Some(Panicked) ==> !Balanced(candidate)
    {
      var callStack := new CallStack();
      InitiallyExtracted(cfg, candidate);
      hide Extracted, Cycles, InstrOf, Opcodes, UniquePlaces, AllAligned, AfterCycles;
      for tid := 0 to |candidate|
        invariant callStack.Valid() && fresh(callStack) && AfterThreads(candidate, tid) == Some(callStack.Now())
        invariant callStack.stack == []
        invariant Extracted(cfg, candidate, smtEvents, otherEvents, tid, 0)
        invariant |threadOpcodes| == tid && forall t | 0 <= t < tid :: threadOpcodes[t] == Opcodes(candidate[t])
        invariant forall t | 0 <= t < tid :: SingleIn(candidate[t])
      {
        e := ReadThread(cfg, candidate, tid, callStack);
        if e.Some? {
          if e.value.Panicked? { ThreadsFail(candidate, tid + 1, |candidate|); }
          return;
        }
        if callStack.stack != [] {
          ThreadsFail(candidate, tid + 1, |candidate|);
          return Some(Panicked);
        }
      }
      ExtractedSound(cfg, candidate, smtEvents, otherEvents, |candidate|, 0);
      assert threadOpcodes == AllOpcodes(candidate);
      e := None;
    }

    method ReadThread(cfg: Config, candidate: Candidate, tid: nat, callStack: CallStack) returns (e: Option<Error>)
      requires tid < |candidate| && callStack.Valid() && Extracted(cfg, candidate, smtEvents, otherEvents, tid, 0)
      requires AfterThreads(candidate, tid) == Some(callStack.Now())
      modifies this, callStack
      ensures callStack.Valid()
      ensures e.None? ==> Extracted(cfg, candidate, smtEvents, otherEvents, tid + 1, 0)
      ensures e.None? ==> threadOpcodes == old(threadOpcodes) + [Opcodes(candidate[tid])]
      ensures e.None? ==> SingleIn(candidate[tid]) && CallsAt(candidate, tid, |Cycles(candidate[tid])|) == Some(callStack.Now())
      ensures e == Some(MultipleInstructionsInCycle) ==> !SingleIn(candidate[tid])
      ensures e == Some(Panicked) ==> CallsAt(candidate, tid, |Cycles(candidate[tid])|).None?
    {
      var cycles := Cycles(candidate[tid]);
      var opcodes: seq<Option<Opcode>> := [];
      ghost var start := callStack.Now();
      ExtractedFirst(cfg, candidate, smtEvents, otherEvents, tid);
      ThreadStarts(start, cycles);
      hide Extracted, InstrOf, Cycles, OneInstr, AfterThreads, AfterEvents, AfterCycles, ReadTo;
      for po := 1 to |cycles|
        invariant callStack.Valid() && threadOpcodes == old(threadOpcodes)
        invariant ReadTo(start, cycles, po, opcodes, callStack.Now())
        invariant Extracted(cfg, candidate, smtEvents, otherEvents, tid, po)
      {
        ghost var calls := callStack.Now();
        ReadToCalls(start, cycles, po, opcodes, calls);
        var instr;
        e, instr := ReadOne(cfg, candidate, tid, po, callStack);
        CycleFails(start, cycles, po, calls);
        if e.Some? { return; }
        ReadNext(start, cycles, po, opcodes, calls, instr, callStack.Now());
        opcodes := opcodes + [instr];
      }
      ThreadRead(start, candidate[tid], opcodes, callStack.Now());
      threadOpcodes := threadOpcodes + [opcodes];
      ExtractedThread(cfg, candidate, smtEvents, otherEvents, tid);
      e := None;
    }

    /** Reads one cycle and adds its events. */
    method ReadOne(cfg: Config, candidate: Candidate, tid: nat, po: nat, callStack: CallStack)
        returns (e: Option<Error>, instr: Option<Opcode>)
      requires tid < |candidate| && 0 < po < |Cycles(candidate[tid])| && callStack.Valid()
      requires CallsAt(candidate, tid, po) == Some(callStack.Now()) && Extracted(cfg, candidate, smtEvents, otherEvents, tid, po)
      modifies `smtEvents, `otherEvents, callStack
      ensures callStack.Valid()
      ensures var cycle := Cycles(candidate[tid])[po];
              && (e.None? ==> OneInstr(cycle) && instr == InstrOf(cycle, |cycle|))
              && (e.None? ==> AfterEvents(old(callStack.Now()), cycle, |cycle|) == Some(callStack.Now()))
              && (e == Some(MultipleInstructionsInCycle) ==> !OneInstr(cycle))
              && (e == Some(Panicked) ==> AfterEvents(old(callStack.Now()), cycle, |cycle|).None?)
      ensures e.None? ==> Extracted(cfg, candidate, smtEvents, otherEvents, tid, po + 1)
    {
      var cycle := Cycles(candidate[tid])[po];
      hide Extracted, InstrOf, Cycles, OneInstr, CallsAt, AfterEvents, Routed;
      ghost var calls := callStack.Now();
      var evs;
      e, instr, evs := ReadCycle(cfg, cycle, callStack);
      if e.Some? { return; }
      ListsWithin(cfg, calls, cycle, evs);
      EmittedExtracted(cfg, candidate, smtEvents, otherEvents, tid, po, calls, evs);
      Emit(cfg, instr, tid, po, cycle, evs);
    }

    /** The addresses of writes to the tables among the solver's events; stops at one that is not
        concrete. */
    method WriteAddresses() returns (writes: Option<set<nat>>)
      ensures writes.Some? ==> WriteSet(smtEvents, writes.value)
      ensures writes.None? ==> !AllConcrete(smtEvents)
    {
      var found: set<nat> := {};
      for i := 0 to |smtEvents|
        invariant forall k, b | 0 <= k < i && b in smtEvents[k].base && IsTableWrite(b) ::
                    b.event.address.Some? && b.event.address.value in found
        invariant forall a | a in found :: WritesTo(smtEvents, a)
      {
        var base := smtEvents[i].base;
        for j := 0 to |base|
          invariant forall k, b | 0 <= k < i && b in smtEvents[k].base && IsTableWrite(b) ::
                      b.event.address.Some? && b.event.address.value in found
          invariant forall k | 0 <= k < j && IsTableWrite(base[k]) ::
                      base[k].event.address.Some? && base[k].event.address.value in found
          invariant forall a | a in found :: WritesTo(smtEvents, a)
        {
          if IsTableWrite(base[j]) {
            assert smtEvents[i] in smtEvents && base[j] in smtEvents[i].base;
            if base[j].event.address.None? { return None; }
            found := found + {base[j].event.address.value};
          }
        }
      }
      writes := Some(found);
    }

    /** The translations with an event that reads something that could change. */
    method InterestingIds(writes: set<nat>, updated: set<nat>, initial: nat -> nat) returns (ids: Option<set<nat>>)
      ensures ids.Some? ==> forall id :: id in ids.value <==> InterestingTranslation(smtEvents, id, writes, updated, initial)
      ensures ids.Some? ==> forall ax | ax in smtEvents && ax.translate.Some? && SingleRead(ax) :: ax.base[0].event.address.Some?
      ensures ids.None? ==> !AllConcrete(smtEvents)
    {
      var found: set<nat> := {};
      for i := 0 to |smtEvents|
        invariant forall id | id in found :: InterestingTranslation(smtEvents, id, writes, updated, initial)
        invariant forall k | 0 <= k < i && smtEvents[k].translate.Some? && SingleRead(smtEvents[k]) ::
                    && smtEvents[k].base[0].event.address.Some?
                    && (CanChange(smtEvents[k].base[0].event.address.value, writes, updated, initial) ==>
                          smtEvents[k].translate.value in found)
      {
        var ax := smtEvents[i];
        if ax.translate.Some? && SingleRead(ax) {
          assert ax in smtEvents;
          if ax.base[0].event.address.None? { return None; }
          if CanChange(ax.base[0].event.address.value, writes, updated, initial) { found := found + {ax.translate.value}; }
        }
      }
      forall id | InterestingTranslation(smtEvents, id, writes, updated, initial)
        ensures id in found
      {
        var ax :| ax in smtEvents && ax.translate == Some(id) && SingleRead(ax) && ax.base[0].event.address.Some?
                  && CanChange(ax.base[0].event.address.value, writes, updated, initial);
        var k :| 0 <= k < |smtEvents| && smtEvents[k] == ax;
      }
      ids := Some(found);
    }

    /** Whether one event stays; `None` if its address is not concrete. */
    method StaysHere(ax: AxEvent, writes: set<nat>, ids: set<nat>, updated: set<nat>, initial: nat -> nat, entire: bool)
        returns (keep: Option<bool>)
      requires ax in smtEvents
      requires entire ==> forall id :: id in ids <==> InterestingTranslation(smtEvents, id, writes, updated, initial)
      ensures keep.Some? ==> keep.value == Stays(smtEvents, ax, writes, updated, initial, entire)
      ensures keep.Some? && !entire && ax.translate.Some? && SingleRead(ax) ==> ax.base[0].event.address.Some?
      ensures keep.None? ==> !AllConcrete(smtEvents)
    {
      if entire { return Some(ax.translate.None? || ax.translate.value in ids); }
      if ax.translate.None? || !SingleRead(ax) { return Some(true); }
      if ax.base[0].event.address.None? { return None; }
      keep := Some(CanChange(ax.base[0].event.address.value, writes, updated, initial));
    }

    /** The events in two parts. */
    method Divide(writes: set<nat>, ids: set<nat>, updated: set<nat>, initial: nat -> nat, entire: bool)
        returns (ok: bool, interesting: seq<AxEvent>, uninteresting: seq<AxEvent>)
      requires entire ==> forall id :: id in ids <==> InterestingTranslation(smtEvents, id, writes, updated, initial)
      ensures !ok ==> !AllConcrete(smtEvents)
      ensures ok && !entire ==>
                forall ax | ax in smtEvents && ax.translate.Some? && SingleRead(ax) :: ax.base[0].event.address.Some?
      ensures ok ==> multiset(interesting) + multiset(uninteresting) == multiset(smtEvents)
      ensures ok ==> forall ax | ax in interesting :: Stays(smtEvents, ax, writes, updated, initial, entire)
      ensures ok ==> forall ax | ax in uninteresting :: !Stays(smtEvents, ax, writes, updated, initial, entire)
    {
      interesting, uninteresting := [], [];
      for i := 0 to |smtEvents|
        invariant multiset(interesting) + multiset(uninteresting) == multiset(smtEvents[..i])
        invariant forall ax | ax in interesting :: Stays(smtEvents, ax, writes, updated, initial, entire)
        invariant forall ax | ax in uninteresting :: !Stays(smtEvents, ax, writes, updated, initial, entire)
        invariant !entire ==> forall ax | ax in smtEvents[..i] && ax.translate.Some? && SingleRead(ax) :: ax.base[0].event.address.Some?
      {
        hide Stays, AllConcrete, InterestingTranslation;
        var ax := smtEvents[i];
        assert smtEvents[..i + 1] == smtEvents[..i] + [ax];
        var keep := StaysHere(ax, writes, ids, updated, initial, entire);
        if keep.None? { return false, interesting, uninteresting; }
        if keep.value { interesting := interesting + [ax]; } else { uninteresting := uninteresting + [ax]; }
      }
      assert smtEvents[..|smtEvents|] == smtEvents;
      ok := true;
    }

    /** Moves the translation events that only see the initial state away from the solver: nothing is lost,
        and what stays is exactly what could see something else, with its whole translation if asked. */
    method RemoveUninterestingTranslates(updated: set<nat>, initial: nat -> nat, keepEntireTranslation: bool) returns (ok: bool)
      modifies `smtEvents, `otherEvents
      ensures ok <==> AllConcrete(old(smtEvents))
      ensures ok ==> Divided(old(smtEvents), old(otherEvents), smtEvents, otherEvents, updated, initial, keepEntireTranslation)
      ensures ok ==> Sifted(old(smtEvents), old(otherEvents), smtEvents, otherEvents, updated, initial, keepEntireTranslation)
      ensures ok ==> multiset(smtEvents + otherEvents) == multiset(old(smtEvents + otherEvents))
      ensures ok ==> forall opcodes :: AllAligned(old(smtEvents + otherEvents), opcodes) ==> AllAligned(smtEvents + otherEvents, opcodes)
      ensures ok && UniquePlaces(old(smtEvents + otherEvents)) ==> UniquePlaces(smtEvents + otherEvents)
    {
      var writes := WriteAddresses();
      if writes.None? { return false; }
      var ids := Some({});
      if keepEntireTranslation {
        ids := InterestingIds(writes.value, updated, initial);
        if ids.None? { return false; }
      }
      var interesting, uninteresting;
      ok, interesting, uninteresting := Divide(writes.value, ids.value, updated, initial, keepEntireTranslation);
      if !ok { return; }
      assert AllConcrete(smtEvents);
      hide Stays, InterestingTranslation, WriteSet, AllConcrete, AllAligned, UniquePlaces, Sifted;
      smtEvents := interesting;
      otherEvents := otherEvents + uninteresting;
      assert DividedBy(old(smtEvents), old(otherEvents), smtEvents, otherEvents, updated, initial, keepEntireTranslation,
                       writes.value, uninteresting);
      SiftedBy(old(smtEvents), old(otherEvents), smtEvents, otherEvents, updated, initial, keepEntireTranslation,
               writes.value, uninteresting);
      SameEventsAll(old(smtEvents + otherEvents), smtEvents + otherEvents);
    }

    /** Gathers the translation events by identifier, in the order in which they come; the others are
        kept as they are. Stops at a translation that is not from one instruction. */
    method Gather() returns (ok: bool, retained: seq<AxEvent>, groups: seq<Merged>, ghost kept: seq<nat>, ghost at: seq<nat>)
      ensures ok ==> Gathered(smtEvents, |smtEvents|, retained, kept, groups, at)
      ensures !ok ==> !Consistent(smtEvents)
    {
      retained, groups, kept, at := [], [], [], [];
      GatheredStart(smtEvents);
      hide Gathered, Consistent, Join, StartGroup;
      for n := 0 to |smtEvents|
        invariant Gathered(smtEvents, n, retained, kept, groups, at)
      {
        var ax := smtEvents[n];
        if ax.translate.None? {
          GatheredRetained(smtEvents, n, retained, kept, groups, at);
          retained, kept := retained + [ax], kept + [n];
        } else {
          if ax.opcode.None? {
            Inconsistent(smtEvents, n, n);
            return false, retained, groups, kept, at;
          }
          var i := Find(groups, ax.translate.value);
          if i == |groups| {
            GatheredNew(smtEvents, n, retained, kept, groups, at);
            groups, at := groups + [Join(StartGroup(ax), ax)], at + [n];
          } else if !Belongs(ax, groups[i]) {
            GatheredAt(smtEvents, n, retained, kept, groups, at, i);
            Inconsistent(smtEvents, at[i], n);
            return false, retained, groups, kept, at;
          } else {
            GatheredAt(smtEvents, n, retained, kept, groups, at, i);
            GatheredJoin(smtEvents, n, retained, kept, groups, at, i);
            at := at[i := if ax.intraInstructionIndex < groups[i].intraInstructionIndex then n else at[i]];
            groups := groups[i := Join(groups[i], ax)];
          }
        }
      }
      ok := true;
    }

    /** Merges the events of every translation into one. It succeeds exactly when each translation is from
        one instruction that has an opcode; then no base event is lost or added, the other events are as
        they were, each translation is one event at the place of the first of its own, and alignment and
        unique places are kept. */
    method MergeTranslations() returns (ok: bool)
      modifies `smtEvents
      ensures ok <==> Consistent(old(smtEvents))
      ensures ok ==> BaseBag(smtEvents) == BaseBag(old(smtEvents)) && MergedInto(old(smtEvents), smtEvents)
      ensures ok ==> forall opcodes :: AllAligned(old(smtEvents + otherEvents), opcodes) ==> AllAligned(smtEvents + otherEvents, opcodes)
      ensures ok && UniquePlaces(old(smtEvents + otherEvents)) ==> UniquePlaces(smtEvents + otherEvents)
    {
      var retained, groups;
      ghost var kept, at;
      hide *;
      ok, retained, groups, kept, at := Gather();
      if !ok { return; }
      GatheredConsistent(smtEvents, retained, kept, groups, at);
      WholesStart(groups, []);
      ghost var events := smtEvents;
      smtEvents := retained;
      ghost var wholes: seq<AxEvent> := [];
      for g := 0 to |groups|
        invariant smtEvents == retained + wholes && WholesOf(groups[..g], wholes)
        invariant otherEvents == old(otherEvents)
      {
        var sorted := SortByIndex(groups[g].events);
        var merged := Whole(groups[g].(events := sorted));
        WholesNext(groups, g, wholes, sorted);
        smtEvents := smtEvents + [merged];
        wholes := wholes + [merged];
      }
      assert groups[..|groups|] == groups;
      MergedAll(events, retained, kept, groups, at, wholes, otherEvents);
      ok := true;
    }
  }

  method Find(groups: seq<Merged>, id: nat) returns (i: nat)
    ensures i <= |groups| && (i < |groups| ==> groups[i].id == id)
    ensures i == |groups| ==> forall g | 0 <= g < |groups| :: groups[g].id != id
  {
    i := 0;
    while i < |groups| && groups[i].id != id
      invariant i <= |groups| && forall g | 0 <= g < i :: groups[g].id != id
    {
      i := i + 1;
    }
  }

  lemma Inconsistent(events: seq<AxEvent>, i: nat, j: nat)
    requires i < |events| && j < |events| && events[i].translate.Some? && events[i].translate == events[j].translate
    requires !Agrees(events[i], events[j])
    ensures !Consistent(events)
  {
  }

  lemma GatheredAt(events: seq<AxEvent>, n: nat, retained: seq<AxEvent>, kept: seq<nat>, groups: seq<Merged>, at: seq<nat>, i: nat)
    requires n < |events| && Gathered(events, n, retained, kept, groups, at) && i < |groups|
    ensures i < |at| && at[i] < n && AtGroup(events[at[i]], groups[i])
  {
  }

  lemma GatheredConsistent(events: seq<AxEvent>, retained: seq<AxEvent>, kept: seq<nat>, groups: seq<Merged>, at: seq<nat>)
    requires Gathered(events, |events|, retained, kept, groups, at)
    ensures Consistent(events)
  {
    hide BaseBag, GroupsBag, KeptFrom, AllRetained, Grouped;
    forall i, j | 0 <= i < |events| && 0 <= j < |events| && events[i].translate.Some? && events[i].translate == events[j].translate
      ensures Agrees(events[i], events[j])
    {
      assert Grouped(events[i], groups) && Grouped(events[j], groups);
      hide AllGrouped;
      GroupedAgree(events, groups, at, events[i], events[j]);
    }
  }

  lemma GroupedAgree(events: seq<AxEvent>, groups: seq<Merged>, at: seq<nat>, a: AxEvent, b: AxEvent)
    requires GroupsFrom(events, |events|, groups, at) && Grouped(a, groups) && Grouped(b, groups) && a.translate == b.translate
    ensures Agrees(a, b)
  {
    var g :| 0 <= g < |groups| && Belongs(a, groups[g]);
    var h :| 0 <= h < |groups| && Belongs(b, groups[h]);
    assert groups[g].id == groups[h].id;
    hide AtGroup;
  }

  lemma MergedAll(events: seq<AxEvent>, retained: seq<AxEvent>, kept: seq<nat>, groups: seq<Merged>, at: seq<nat>, wholes: seq<AxEvent>,
                  other: seq<AxEvent>)
    requires Gathered(events, |events|, retained, kept, groups, at) && WholesOf(groups, wholes)
    ensures var merged := retained + wholes;
            && BaseBag(merged) == BaseBag(events) && MergedInto(events, merged)
            && (forall opcodes :: AllAligned(events + other, opcodes) ==> AllAligned(merged + other, opcodes))
            && (UniquePlaces(events + other) ==> UniquePlaces(merged + other))
  {
    assert events[..|events|] == events;
    BagConcat(retained, wholes);
    WholesBag(groups, wholes);
    MergedPlaces(events, retained, kept, groups, at, wholes);
    MergedSound(events, retained + wholes, kept + at, other);
    MergedOnce(events, retained, kept, groups, at, wholes);
    hide AllFilled, BaseBag, GroupsBag, KeptFrom, GroupsFrom, Grouped, WholesOf, UniquePlaces, AllAligned, MergedInto, FromPlaces;
  }

  ghost predicate DividedBy(smt: seq<AxEvent>, other: seq<AxEvent>, smt': seq<AxEvent>, other': seq<AxEvent>, updated: set<nat>,
                            initial: nat -> nat, entire: bool, writes: set<nat>, removed: seq<AxEvent>) {
    && WriteSet(smt, writes) && other' == other + removed && multiset(smt') + multiset(removed) == multiset(smt)
    && (forall ax | ax in smt' :: Stays(smt, ax, writes, updated, initial, entire))
    && (forall ax | ax in removed :: !Stays(smt, ax, writes, updated, initial, entire))
  }

  /** The solver's events have been divided into those that stay and those that are moved. */
  ghost predicate Divided(smt: seq<AxEvent>, other: seq<AxEvent>, smt': seq<AxEvent>, other': seq<AxEvent>, updated: set<nat>,
                          initial: nat -> nat, entire: bool) {
    exists writes, removed :: DividedBy(smt, other, smt', other', updated, initial, entire, writes, removed)
  }

  /** What is moved away is of no interest and what stays is of interest: in terms of what reads could see. */
  ghost predicate Sifted(smt: seq<AxEvent>, other: seq<AxEvent>, smt': seq<AxEvent>, other': seq<AxEvent>, updated: set<nat>,
                         initial: nat -> nat, entire: bool) {
    && other <= other'
    && (forall ax | ax in smt' :: !Uninteresting(smt, updated, initial, entire, ax))
    && (forall ax | ax in other'[|other|..] :: Uninteresting(smt, updated, initial, entire, ax))
  }

  lemma SiftedBy(smt: seq<AxEvent>, other: seq<AxEvent>, smt': seq<AxEvent>, other': seq<AxEvent>, updated: set<nat>,
                 initial: nat -> nat, entire: bool, writes: set<nat>, removed: seq<AxEvent>)
    requires DividedBy(smt, other, smt', other', updated, initial, entire, writes, removed) && AllConcrete(smt)
    ensures Sifted(smt, other, smt', other', updated, initial, entire)
  {
    hide Stays, Uninteresting, WriteSet, AllConcrete;
    assert other'[|other|..] == removed;
    forall ax | ax in smt' || ax in removed
      ensures Stays(smt, ax, writes, updated, initial, entire) <==> !Uninteresting(smt, updated, initial, entire, ax)
    {
      assert ax in multiset(smt') + multiset(removed);
      assert ax in multiset(smt);
      RemovalExact(smt, ax, writes, updated, initial, entire);
    }
  }

  lemma SameEventsAll(a: seq<AxEvent>, b: seq<AxEvent>)
    requires multiset(a) == multiset(b)
    ensures forall opcodes :: AllAligned(a, opcodes) ==> AllAligned(b, opcodes)
    ensures UniquePlaces(a) ==> UniquePlaces(b)
  {
    forall opcodes | AllAligned(a, opcodes)
      ensures AllAligned(b, opcodes)
    {
      SameEvents(a, b, opcodes);
    }
    SameEvents(a, b, []);
  }

  /** The cycles of the thread, but for the first, have one instruction at most. */
  predicate SingleIn(thread: seq<Event>) {
    var cycles := Cycles(thread);
    forall k | 1 <= k < |cycles| :: OneInstr(cycles[k])
  }

  predicate SingleInstrs(candidate: Candidate) { forall t | 0 <= t < |candidate| :: SingleIn(candidate[t]) }

  /** The cycles before n have been read: their instructions and the calls they leave. */
  ghost predicate ReadTo(start: Calls, cycles: seq<seq<Event>>, n: nat, opcodes: seq<Option<Opcode>>, now: Calls)
    requires 1 <= n <= |cycles|
  {
    && AfterCycles(start, cycles, n) == Some(now)
    && |opcodes| == n - 1 && (forall k | 0 <= k < n - 1 :: opcodes[k] == InstrOf(cycles[k + 1], |cycles[k + 1]|))
    && forall k | 1 <= k < n :: OneInstr(cycles[k])
  }

  lemma ThreadStarts(start: Calls, cycles: seq<seq<Event>>)
    requires cycles != []
    ensures ReadTo(start, cycles, 1, [], start)
  {
  }

  lemma ReadToCalls(start: Calls, cycles: seq<seq<Event>>, n: nat, opcodes: seq<Option<Opcode>>, now: Calls)
    requires 1 <= n <= |cycles| && ReadTo(start, cycles, n, opcodes, now)
    ensures AfterCycles(start, cycles, n) == Some(now)
  {
  }

  lemma ReadNext(start: Calls, cycles: seq<seq<Event>>, n: nat, opcodes: seq<Option<Opcode>>, now: Calls, instr: Option<Opcode>,
                 after: Calls)
    requires 1 <= n < |cycles| && ReadTo(start, cycles, n, opcodes, now)
    requires OneInstr(cycles[n]) && instr == InstrOf(cycles[n], |cycles[n]|)
    requires AfterEvents(now, cycles[n], |cycles[n]|) == Some(after)
    ensures ReadTo(start, cycles, n + 1, opcodes + [instr], after)
  {
    hide OneInstr, InstrOf, AfterEvents;
  }

  /** A cycle with two instructions, or a return without a matching call, is one of the thread. */
  lemma CycleFails(start: Calls, cycles: seq<seq<Event>>, n: nat, now: Calls)
    requires 1 <= n < |cycles| && AfterCycles(start, cycles, n) == Some(now)
    ensures AfterEvents(now, cycles[n], |cycles[n]|).None? ==> AfterCycles(start, cycles, |cycles|).None?
    ensures !OneInstr(cycles[n]) ==> !(forall k | 1 <= k < |cycles| :: OneInstr(cycles[k]))
  {
    hide OneInstr, AfterEvents;
    if AfterEvents(now, cycles[n], |cycles[n]|).None? { CyclesFail(start, cycles, n + 1, |cycles|); }
  }

  lemma ThreadRead(start: Calls, thread: seq<Event>, opcodes: seq<Option<Opcode>>, now: Calls)
    requires ReadTo(start, Cycles(thread), |Cycles(thread)|, opcodes, now)
    ensures opcodes == Opcodes(thread) && SingleIn(thread) && AfterCycles(start, Cycles(thread), |Cycles(thread)|) == Some(now)
  {
    hide Cycles, OneInstr, InstrOf, AfterCycles;
  }

  /** Adding what a cycle is routed to keeps the record exact. */
  lemma EmittedExtracted(cfg: Config, candidate: Candidate, smt: seq<AxEvent>, other: seq<AxEvent>, tid: nat, po: nat,
                         calls: Calls, evs: seq<CycleEvent>)
    requires tid < |candidate| && 0 < po < |Cycles(candidate[tid])| && Extracted(cfg, candidate, smt, other, tid, po)
    requires CallsAt(candidate, tid, po) == Some(calls)
    requires var cycle := Cycles(candidate[tid])[po]; Lists(cfg, calls, cycle, |cycle|, evs) && Within(cycle, evs)
    ensures var cycle := Cycles(candidate[tid])[po];
            Extracted(cfg, candidate, smt + Routed(cfg, InstrOf(cycle, |cycle|), tid, po, cycle, evs, |evs|, true),
                      other + Routed(cfg, InstrOf(cycle, |cycle|), tid, po, cycle, evs, |evs|, false), tid, po + 1)
  {
    hide *;
    var cycle := Cycles(candidate[tid])[po];
    RoutedFacts(cfg, candidate, tid, po, calls, evs, true);
    RoutedFacts(cfg, candidate, tid, po, calls, evs, false);
    RoutedComplete(cfg, candidate, tid, po, calls, evs);
    ExtractedCycle(cfg, candidate, smt, other, Routed(cfg, InstrOf(cycle, |cycle|), tid, po, cycle, evs, |evs|, true),
                   Routed(cfg, InstrOf(cycle, |cycle|), tid, po, cycle, evs, |evs|, false), tid, po);
  }

  predicate GoesToSmt(cfg: Config, ev: CycleEvent) { ev.includeInSmt && !(cfg.ignoreIfetch && ev.isIfetch) }

  predicate Within(cycle: seq<Event>, evs: seq<CycleEvent>) { forall k | 0 <= k < |evs| :: evs[k].eid < |cycle| }

  lemma ListsWithin(cfg: Config, calls: Calls, cycle: seq<Event>, evs: seq<CycleEvent>)
    requires Lists(cfg, calls, cycle, |cycle|, evs)
    ensures Within(cycle, evs)
  {
    forall k | 0 <= k < |evs|
      ensures evs[k].eid < |cycle|
    {
      assert GoodAt(cfg, calls, cycle, evs, k);
    }
  }

  /** Of the first n kept events, those that go one way, in order. */
  function Routed(cfg: Config, instr: Option<Opcode>, tid: nat, po: nat, cycle: seq<Event>, evs: seq<CycleEvent>, n: nat, smt: bool):
      seq<AxEvent>
    requires po > 0 && n <= |evs| && Within(cycle, evs)
  {
    if n == 0 then []
    else
      Routed(cfg, instr, tid, po, cycle, evs, n - 1, smt)
      + if GoesToSmt(cfg, evs[n - 1]) == smt then [AxOf(instr, tid, po, cycle, n - 1, evs[n - 1])] else []
  }

  lemma RoutedNext(cfg: Config, instr: Option<Opcode>, tid: nat, po: nat, cycle: seq<Event>, evs: seq<CycleEvent>, n: nat)
    requires po > 0 && n < |evs| && Within(cycle, evs)
    ensures forall smt :: Routed(cfg, instr, tid, po, cycle, evs, n + 1, smt)
              == Routed(cfg, instr, tid, po, cycle, evs, n, smt)
                 + if GoesToSmt(cfg, evs[n]) == smt then [AxOf(instr, tid, po, cycle, n, evs[n])] else []
    ensures GoesToSmt(cfg, evs[n]) <==> evs[n].includeInSmt && !(cfg.ignoreIfetch && evs[n].isIfetch)
  {
  }

  predicate RoutedOne(cfg: Config, instr: Option<Opcode>, tid: nat, po: nat, cycle: seq<Event>, evs: seq<CycleEvent>, n: nat,
                      smt: bool, ax: AxEvent)
    requires po > 0 && n <= |evs| && Within(cycle, evs)
  {
    var k := ax.intraInstructionIndex;
    k < n && GoesToSmt(cfg, evs[k]) == smt && ax == AxOf(instr, tid, po, cycle, k, evs[k])
  }

  ghost predicate RoutedAll(cfg: Config, instr: Option<Opcode>, tid: nat, po: nat, cycle: seq<Event>, evs: seq<CycleEvent>, n: nat,
                            smt: bool, a: seq<AxEvent>)
    requires po > 0 && n <= |evs| && Within(cycle, evs)
  {
    && (forall i | 0 <= i < |a| :: RoutedOne(cfg, instr, tid, po, cycle, evs, n, smt, a[i]))
    && (forall i, j | 0 <= i < j < |a| :: a[i].intraInstructionIndex < a[j].intraInstructionIndex)
    && (forall k: nat | k < n && GoesToSmt(cfg, evs[k]) == smt :: Recorded(a, Base(tid, po, evs[k].eid, cycle[evs[k].eid])))
  }

  lemma {:induction false} RoutedEach(cfg: Config, instr: Option<Opcode>, tid: nat, po: nat, cycle: seq<Event>, evs: seq<CycleEvent>,
                                      n: nat, smt: bool)
    requires po > 0 && n <= |evs| && Within(cycle, evs)
    ensures RoutedAll(cfg, instr, tid, po, cycle, evs, n, smt, Routed(cfg, instr, tid, po, cycle, evs, n, smt))
    decreases n
  {
    if n > 0 {
      RoutedEach(cfg, instr, tid, po, cycle, evs, n - 1, smt);
      var before := Routed(cfg, instr, tid, po, cycle, evs, n - 1, smt);
      RoutedSnoc(cfg, instr, tid, po, cycle, evs, n - 1, smt, before);
      hide RoutedAll;
    }
  }

  lemma RoutedSnoc(cfg: Config, instr: Option<Opcode>, tid: nat, po: nat, cycle: seq<Event>, evs: seq<CycleEvent>,
                   n: nat, smt: bool, a: seq<AxEvent>)
    requires po > 0 && n < |evs| && Within(cycle, evs) && RoutedAll(cfg, instr, tid, po, cycle, evs, n, smt, a)
    ensures RoutedAll(cfg, instr, tid, po, cycle, evs, n + 1, smt,
                      a + if GoesToSmt(cfg, evs[n]) == smt then [AxOf(instr, tid, po, cycle, n, evs[n])] else [])
  {
    var ax := AxOf(instr, tid, po, cycle, n, evs[n]);
    var more := if GoesToSmt(cfg, evs[n]) == smt then [ax] else [];
    var all := a + more;
    forall i | 0 <= i < |all|
      ensures RoutedOne(cfg, instr, tid, po, cycle, evs, n + 1, smt, all[i])
    {
      if i < |a| { assert RoutedOne(cfg, instr, tid, po, cycle, evs, n, smt, a[i]); }
    }
    forall i, j | 0 <= i < j < |all|
      ensures all[i].intraInstructionIndex < all[j].intraInstructionIndex
    {
      assert RoutedOne(cfg, instr, tid, po, cycle, evs, n, smt, a[i]);
    }
    forall k: nat | k < n + 1 && GoesToSmt(cfg, evs[k]) == smt
      ensures Recorded(all, Base(tid, po, evs[k].eid, cycle[evs[k].eid]))
    {
      if k == n { assert more[0].base == [Base(tid, po, evs[k].eid, cycle[evs[k].eid])]; }
      RecordedMore(a, more, Base(tid, po, evs[k].eid, cycle[evs[k].eid]));
    }
  }

  /** The events that go one way are those their positions call for, each once. */
  lemma RoutedFacts(cfg: Config, candidate: Candidate, tid: nat, po: nat, calls: Calls, evs: seq<CycleEvent>, smt: bool)
    requires tid < |candidate| && 0 < po < |Cycles(candidate[tid])|
    requires CallsAt(candidate, tid, po) == Some(calls)
    requires var cycle := Cycles(candidate[tid])[po]; Lists(cfg, calls, cycle, |cycle|, evs) && Within(cycle, evs)
    ensures var cycle := Cycles(candidate[tid])[po];
            FromCycle(cfg, candidate, Routed(cfg, InstrOf(cycle, |cycle|), tid, po, cycle, evs, |evs|, smt), smt, tid, po)
  {
    var cycle := Cycles(candidate[tid])[po];
    var a := Routed(cfg, InstrOf(cycle, |cycle|), tid, po, cycle, evs, |evs|, smt);
    RoutedEach(cfg, InstrOf(cycle, |cycle|), tid, po, cycle, evs, |evs|, smt);
    hide Cycles, Routed, Kept, Keeps, InSmt, InstrOf, CallsAt, TranslateIn;
    forall i | 0 <= i < |a|
      ensures Placed(cfg, candidate, a[i], smt) && a[i].base[0].tid == tid && a[i].base[0].po == po
    {
      assert RoutedOne(cfg, InstrOf(cycle, |cycle|), tid, po, cycle, evs, |evs|, smt, a[i]);
      assert GoodAt(cfg, calls, cycle, evs, a[i].intraInstructionIndex);
    }
    forall i, j | 0 <= i < j < |a|
      ensures a[i].base != a[j].base
    {
      assert RoutedOne(cfg, InstrOf(cycle, |cycle|), tid, po, cycle, evs, |evs|, smt, a[i]);
      assert RoutedOne(cfg, InstrOf(cycle, |cycle|), tid, po, cycle, evs, |evs|, smt, a[j]);
      assert GoodAt(cfg, calls, cycle, evs, a[i].intraInstructionIndex);
      assert GoodAt(cfg, calls, cycle, evs, a[j].intraInstructionIndex);
    }
  }

  lemma RoutedComplete(cfg: Config, candidate: Candidate, tid: nat, po: nat, calls: Calls, evs: seq<CycleEvent>)
    requires tid < |candidate| && 0 < po < |Cycles(candidate[tid])|
    requires CallsAt(candidate, tid, po) == Some(calls)
    requires var cycle := Cycles(candidate[tid])[po]; Lists(cfg, calls, cycle, |cycle|, evs) && Within(cycle, evs)
    ensures var cycle := Cycles(candidate[tid])[po];
            CycleComplete(cfg, candidate, Routed(cfg, InstrOf(cycle, |cycle|), tid, po, cycle, evs, |evs|, true),
                          Routed(cfg, InstrOf(cycle, |cycle|), tid, po, cycle, evs, |evs|, false), tid, po)
  {
    var cycle := Cycles(candidate[tid])[po];
    RoutedEach(cfg, InstrOf(cycle, |cycle|), tid, po, cycle, evs, |evs|, true);
    RoutedEach(cfg, InstrOf(cycle, |cycle|), tid, po, cycle, evs, |evs|, false);
    hide Cycles, Routed, Kept, Keeps, InSmt, InstrOf, Recorded;
    forall eid: nat | eid < |cycle| && Keeps(cfg, cycle, eid)
      ensures Recorded(Routed(cfg, InstrOf(cycle, |cycle|), tid, po, cycle, evs, |evs|, InSmt(cfg, cycle, eid)),
                       Base(tid, po, eid, cycle[eid]))
    {
      assert ListedAt(cfg, cycle, evs, eid);
      var k := Kept(cfg, cycle, eid);
      assert GoodAt(cfg, calls, cycle, evs, k);
      assert GoesToSmt(cfg, evs[k]) == InSmt(cfg, cycle, eid);
    }
  }
}
