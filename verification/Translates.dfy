/** What merging and removing translation events keep. */
module Translates {
  import opened Wrappers
  import opened Extraction

  /** All base events, with their number. */
  function BaseBag(events: seq<AxEvent>): multiset<Base> {
    if events == [] then multiset{} else BaseBag(events[..|events| - 1]) + multiset(events[|events| - 1].base)
  }

  lemma {:induction false} BagConcat(a: seq<AxEvent>, b: seq<AxEvent>)
    ensures BaseBag(a + b) == BaseBag(a) + BaseBag(b)
    decreases |b|
  {
    if b == [] {
      assert a + b == a;
    } else {
      var n := |b| - 1;
      hide *;
      BagConcat(a, b[..n]);
      BagOf(a + b, a + b[..n], b[n]);
      BagOf(b, b[..n], b[n]);
      AddAssoc(BaseBag(a), BaseBag(b[..n]), multiset(b[n].base));
    }
  }

  lemma BagOf(all: seq<AxEvent>, events: seq<AxEvent>, ax: AxEvent)
    requires |all| == |events| + 1 && all[..|events|] == events && all[|events|] == ax
    ensures BaseBag(all) == BaseBag(events) + multiset(ax.base)
  {
  }

  lemma AddAssoc(a: multiset<Base>, b: multiset<Base>, c: multiset<Base>)
    ensures (a + b) + c == a + (b + c)
  {
  }

  // ----- removing

  /** The read of a translation event that could see something other than the initial state. */
  predicate CanChange(address: nat, writes: set<nat>, updated: set<nat>, initial: nat -> nat) {
    address in writes || address in updated || initial(address) == 0
  }

  predicate IsTableWrite(b: Base) { b.event.WriteMem? && b.event.inTable }

  /** One of the events writes to the tables at this address. */
  ghost predicate WritesTo(events: seq<AxEvent>, a: nat) {
    exists ax, b :: ax in events && b in ax.base && IsTableWrite(b) && b.event.address == Some(a)
  }

  /** Every write to the tables has a concrete address, and these are the addresses. */
  ghost predicate WriteSet(events: seq<AxEvent>, writes: set<nat>) {
    && (forall ax, b | ax in events && b in ax.base && IsTableWrite(b) :: b.event.address.Some? && b.event.address.value in writes)
    && (forall a | a in writes :: WritesTo(events, a))
  }

  predicate SingleRead(ax: AxEvent) { |ax.base| == 1 && ax.base[0].event.ReadMem? }

  /** The events that stay for the solver. */
  predicate Interesting(ax: AxEvent, writes: set<nat>, updated: set<nat>, initial: nat -> nat) {
    ax.translate.Some? && SingleRead(ax) && ax.base[0].event.address.Some? ==>
      CanChange(ax.base[0].event.address.value, writes, updated, initial)
  }

  /** A translation with an event that reads something that could change. */
  ghost predicate InterestingTranslation(events: seq<AxEvent>, id: nat, writes: set<nat>, updated: set<nat>, initial: nat -> nat) {
    exists ax :: ax in events && ax.translate == Some(id) && SingleRead(ax) && ax.base[0].event.address.Some?
                 && CanChange(ax.base[0].event.address.value, writes, updated, initial)
  }

  /** The event stays, in either mode. */
  ghost predicate Stays(events: seq<AxEvent>, ax: AxEvent, writes: set<nat>, updated: set<nat>, initial: nat -> nat, entire: bool) {
    if entire then ax.translate.None? || InterestingTranslation(events, ax.translate.value, writes, updated, initial)
    else Interesting(ax, writes, updated, initial)
  }

  /** Every address that removal looks at is concrete. */
  ghost predicate AllConcrete(events: seq<AxEvent>) {
    && (forall ax, b | ax in events && b in ax.base && IsTableWrite(b) :: b.event.address.Some?)
    && forall ax | ax in events && ax.translate.Some? && SingleRead(ax) :: ax.base[0].event.address.Some?
  }

  /** Alignment and unique places are properties of which events there are, not of where they are kept. */
  lemma SameEvents(a: seq<AxEvent>, b: seq<AxEvent>, threadOpcodes: seq<seq<Option<Opcode>>>)
    requires multiset(a) == multiset(b)
    ensures AllAligned(a, threadOpcodes) ==> AllAligned(b, threadOpcodes)
    ensures UniquePlaces(a) ==> UniquePlaces(b)
  {
    forall ax | ax in b
      ensures ax in a
    {
      assert ax in multiset(b);
    }
    if UniquePlaces(a) {
      forall i, j | 0 <= i < j < |b|
        ensures !SamePlace(b[i], b[j])
      {
        UniqueIn(a, b, i, j);
      }
    }
  }

  lemma UniqueIn(a: seq<AxEvent>, b: seq<AxEvent>, i: nat, j: nat)
    requires multiset(a) == multiset(b) && UniquePlaces(a) && i < j < |b|
    ensures !SamePlace(b[i], b[j])
  {
    if b[i] == b[j] {
      Twice(b, i, j);
      OnceOnly(a, b[i]);
    } else {
      assert b[i] in multiset(b) && b[j] in multiset(b);
      var m :| 0 <= m < |a| && a[m] == b[i];
      var n :| 0 <= n < |a| && a[n] == b[j];
    }
  }

  lemma Twice<T>(s: seq<T>, i: nat, j: nat)
    requires i < j < |s| && s[i] == s[j]
    ensures multiset(s)[s[i]] >= 2
  {
    assert s == s[..i] + [s[i]] + s[i + 1..j] + [s[j]] + s[j + 1..];
  }

  lemma {:induction false} OnceOnly(a: seq<AxEvent>, ax: AxEvent)
    requires UniquePlaces(a)
    ensures multiset(a)[ax] <= 1
    decreases a
  {
    if a != [] {
      var n := |a| - 1;
      OnceOnly(a[..n], ax);
      assert a == a[..n] + [a[n]];
      if a[n] == ax {
        assert forall i | 0 <= i < n :: !SamePlace(a[i], a[n]);
        assert ax !in a[..n];
      }
    }
  }

  // ----- merging

  /** The translation events with one identifier, as they are gathered. */
  datatype Merged = Merged(
    id: nat,
    opcode: Opcode,
    instructionIndex: nat,
    intraInstructionIndex: nat,
    threadId: nat,
    events: seq<(nat, Base)>)

  function Taken(events: seq<(nat, Base)>): seq<Base> {
    seq(|events|, i requires 0 <= i < |events| => events[i].1)
  }

  function TakenBag(events: seq<(nat, Base)>): multiset<Base> { multiset(Taken(events)) }

  function GroupsBag(groups: seq<Merged>): multiset<Base> {
    if groups == [] then multiset{} else GroupsBag(groups[..|groups| - 1]) + TakenBag(groups[|groups| - 1].events)
  }

  /** The event is where the group will be. */
  predicate AtGroup(ax: AxEvent, g: Merged) {
    && ax.translate == Some(g.id) && ax.opcode == Some(g.opcode) && ax.instructionIndex == g.instructionIndex
    && ax.intraInstructionIndex == g.intraInstructionIndex && ax.threadId == g.threadId
  }

  /** The whole translation as one event. */
  function Whole(g: Merged): AxEvent {
    AxEvent(Some(g.opcode), g.instructionIndex, g.intraInstructionIndex, false, g.threadId, Taken(g.events), false, Some(g.id))
  }

  predicate Ordered(events: seq<(nat, Base)>) { forall i, j | 0 <= i < j < |events| :: events[i].0 <= events[j].0 }

  /** The place of an event, behind those of the same position. */
  method PlaceFor(sorted: seq<(nat, Base)>, x: (nat, Base)) returns (k: nat)
    requires Ordered(sorted)
    ensures k <= |sorted|
    ensures forall j | 0 <= j < k :: sorted[j].0 <= x.0
    ensures forall j | k <= j < |sorted| :: sorted[j].0 > x.0
  {
    k := |sorted|;
    while k > 0 && sorted[k - 1].0 > x.0
      invariant 0 <= k <= |sorted| && forall j | k <= j < |sorted| :: sorted[j].0 > x.0
    {
      k := k - 1;
    }
  }

  /** The events of one position, in order. */
  function AtPosition(events: seq<(nat, Base)>, p: nat): seq<(nat, Base)> {
    if events == [] then []
    else
      var n := |events| - 1;
      AtPosition(events[..n], p) + if events[n].0 == p then [events[n]] else []
  }

  /** Events of one position are in the order they were in. */
  ghost predicate Stable(events: seq<(nat, Base)>, sorted: seq<(nat, Base)>) {
    forall p :: AtPosition(sorted, p) == AtPosition(events, p)
  }

  /** Sorts by position within the instruction, keeping the order within a position. */
  method SortByIndex(events: seq<(nat, Base)>) returns (sorted: seq<(nat, Base)>)
    ensures Ordered(sorted) && TakenBag(sorted) == TakenBag(events) && multiset(sorted) == multiset(events)
    ensures Stable(events, sorted)
  {
    sorted := [];
    for i := 0 to |events|
      invariant SortOf(events[..i], sorted)
    {
      var k := PlaceFor(sorted, events[i]);
      SortNext(events, i, sorted, k);
      hide SortOf, Ordered, Stable;
      sorted := sorted[..k] + [events[i]] + sorted[k..];
    }
    assert events[..|events|] == events;
  }

  /** The same events in order. */
  ghost predicate SortOf(events: seq<(nat, Base)>, sorted: seq<(nat, Base)>) {
    Ordered(sorted) && multiset(sorted) == multiset(events) && TakenBag(sorted) == TakenBag(events) && Stable(events, sorted)
  }

  lemma {:induction false} AtConcat(a: seq<(nat, Base)>, b: seq<(nat, Base)>, p: nat)
    ensures AtPosition(a + b, p) == AtPosition(a, p) + AtPosition(b, p)
    decreases |b|
  {
    if b == [] {
      assert a + b == a;
    } else {
      var n := |b| - 1;
      assert (a + b)[..|a| + n] == a + b[..n] && (a + b)[|a| + n] == b[n];
      AtConcat(a, b[..n], p);
    }
  }

  lemma {:induction false} NoneAt(events: seq<(nat, Base)>, p: nat)
    requires forall j | 0 <= j < |events| :: events[j].0 != p
    ensures AtPosition(events, p) == []
    decreases |events|
  {
    if events != [] { NoneAt(events[..|events| - 1], p); }
  }

  lemma AtOne(x: (nat, Base), p: nat)
    ensures AtPosition([x], p) == if x.0 == p then [x] else []
  {
    assert [x][..0] == [];
  }

  /** An event placed behind those of its position and before all of higher ones comes last of its own. */
  lemma StableInsert(sorted: seq<(nat, Base)>, k: nat, x: (nat, Base), p: nat)
    requires k <= |sorted| && forall j | k <= j < |sorted| :: sorted[j].0 > x.0
    ensures AtPosition(sorted[..k] + [x] + sorted[k..], p) == AtPosition(sorted, p) + AtPosition([x], p)
  {
    hide *;
    var a, b := sorted[..k], sorted[k..];
    assert sorted == a + b;
    AtOne(x, p);
    if p == x.0 { NoneAt(b, p); }
    AtConcat(a, b, p);
    AtConcat(a, [x], p);
    AtConcat(a + [x], b, p);
    Past(AtPosition(a, p), AtPosition(b, p), AtPosition([x], p));
  }

  lemma Past<T>(a: seq<T>, b: seq<T>, c: seq<T>)
    requires b == [] || c == []
    ensures a + c + b == a + b + c
  {
  }

  lemma StableNext(events: seq<(nat, Base)>, i: nat, sorted: seq<(nat, Base)>, k: nat)
    requires i < |events| && Stable(events[..i], sorted) && k <= |sorted|
    requires forall j | k <= j < |sorted| :: sorted[j].0 > events[i].0
    ensures Stable(events[..i + 1], sorted[..k] + [events[i]] + sorted[k..])
  {
    assert events[..i + 1] == events[..i] + [events[i]];
    hide AtPosition;
    forall p: nat ensures AtPosition(sorted[..k] + [events[i]] + sorted[k..], p) == AtPosition(events[..i + 1], p) {
      StableInsert(sorted, k, events[i], p);
      AtConcat(events[..i], [events[i]], p);
    }
  }

  lemma SortNext(events: seq<(nat, Base)>, i: nat, sorted: seq<(nat, Base)>, k: nat)
    requires i < |events| && SortOf(events[..i], sorted) && k <= |sorted|
    requires forall j | 0 <= j < k :: sorted[j].0 <= events[i].0
    requires forall j | k <= j < |sorted| :: sorted[j].0 > events[i].0
    ensures SortOf(events[..i + 1], sorted[..k] + [events[i]] + sorted[k..])
  {
    OrderedInsert(sorted, k, events[i]);
    InsertBag(sorted, k, events[i]);
    TakenInsert(sorted, k, events[i]);
    TakenSnoc(events, i);
    StableNext(events, i, sorted, k);
    hide TakenBag, Ordered, Stable;
  }

  lemma OrderedInsert(sorted: seq<(nat, Base)>, k: nat, x: (nat, Base))
    requires Ordered(sorted) && k <= |sorted|
    requires (forall j | 0 <= j < k :: sorted[j].0 <= x.0) && (forall j | k <= j < |sorted| :: sorted[j].0 > x.0)
    ensures Ordered(sorted[..k] + [x] + sorted[k..])
  {
  }

  lemma TakenSnoc(events: seq<(nat, Base)>, i: nat)
    requires i < |events|
    ensures multiset(events[..i + 1]) == multiset(events[..i]) + multiset{events[i]}
    ensures TakenBag(events[..i + 1]) == TakenBag(events[..i]) + multiset{events[i].1}
  {
    assert events[..i + 1] == events[..i] + [events[i]];
    TakenConcat(events[..i], [events[i]]);
    assert Taken([events[i]]) == [events[i].1];
  }

  lemma InsertBag<T>(s: seq<T>, k: nat, x: T)
    requires k <= |s|
    ensures multiset(s[..k] + [x] + s[k..]) == multiset(s) + multiset{x}
  {
    assert s == s[..k] + s[k..];
  }

  lemma TakenInsert(s: seq<(nat, Base)>, k: nat, x: (nat, Base))
    requires k <= |s|
    ensures TakenBag(s[..k] + [x] + s[k..]) == TakenBag(s) + multiset{x.1}
  {
    assert Taken(s[..k] + [x] + s[k..]) == Taken(s)[..k] + [x.1] + Taken(s)[k..];
    InsertBag(Taken(s), k, x.1);
  }

  lemma TakenConcat(a: seq<(nat, Base)>, b: seq<(nat, Base)>)
    ensures Taken(a + b) == Taken(a) + Taken(b) && TakenBag(a + b) == TakenBag(a) + TakenBag(b)
  {
    assert Taken(a + b) == Taken(a) + Taken(b);
  }

  lemma {:induction false} GroupsUpdate(groups: seq<Merged>, i: nat, g: Merged)
    requires i < |groups|
    ensures GroupsBag(groups[i := g]) + TakenBag(groups[i].events) == GroupsBag(groups) + TakenBag(g.events)
    decreases |groups|
  {
    hide TakenBag;
    var n := |groups| - 1;
    var after := groups[i := g];
    assert GroupsBag(after) == GroupsBag(after[..n]) + TakenBag(after[n].events);
    if i < n {
      GroupsUpdate(groups[..n], i, g);
      assert after[..n] == groups[..n][i := g];
      Swap(GroupsBag(after[..n]), GroupsBag(groups[..n]), TakenBag(groups[n].events), TakenBag(groups[i].events), TakenBag(g.events));
    } else {
      assert after[..n] == groups[..n];
    }
  }

  lemma Swap(a: multiset<Base>, b: multiset<Base>, c: multiset<Base>, d: multiset<Base>, e: multiset<Base>)
    requires a + d == b + e
    ensures (a + c) + d == (b + c) + e
  {
    assert (a + c) + d == (a + d) + c;
    assert (b + c) + e == (b + e) + c;
  }

  /** Events of one translation come from one instruction, which has an opcode. */
  predicate Agrees(a: AxEvent, b: AxEvent) {
    a.opcode.Some? && a.opcode == b.opcode && a.instructionIndex == b.instructionIndex && a.threadId == b.threadId
  }

  ghost predicate Consistent(events: seq<AxEvent>) {
    forall i, j | 0 <= i < |events| && 0 <= j < |events| && events[i].translate.Some?
                  && events[i].translate == events[j].translate :: Agrees(events[i], events[j])
  }

  /** The event belongs to the group. */
  predicate Belongs(ax: AxEvent, g: Merged) {
    && ax.translate == Some(g.id) && ax.opcode == Some(g.opcode) && ax.instructionIndex == g.instructionIndex
    && ax.threadId == g.threadId
  }

  /** Gathering the first n events: each group is at the place of one of its events, each kept event is
      itself, and no base event is lost. */
  ghost predicate Gathered(events: seq<AxEvent>, n: nat, retained: seq<AxEvent>, kept: seq<nat>, groups: seq<Merged>, at: seq<nat>)
    requires n <= |events|
  {
    && KeptFrom(events, n, retained, kept) && GroupsFrom(events, n, groups, at)
    && AllGrouped(events, n, groups) && AllRetained(events, n, retained) && AllFilled(events, n, groups)
    && BaseBag(retained) + GroupsBag(groups) == BaseBag(events[..n])
  }

  /** The base events of a translation, each with its position in the instruction. */
  function TaggedOf(events: seq<AxEvent>, id: nat): seq<(nat, Base)> {
    if events == [] then []
    else
      var ax := events[|events| - 1];
      TaggedOf(events[..|events| - 1], id) + if ax.translate == Some(id) then Tagged(ax) else []
  }

  /** The group holds the base events of its translation, and is at the place of the first of them. */
  ghost predicate Filled(events: seq<AxEvent>, n: nat, g: Merged)
    requires n <= |events|
  {
    && g.events == TaggedOf(events[..n], g.id)
    && forall k | 0 <= k < n && events[k].translate == Some(g.id) :: g.intraInstructionIndex <= events[k].intraInstructionIndex
  }

  ghost predicate AllFilled(events: seq<AxEvent>, n: nat, groups: seq<Merged>)
    requires n <= |events|
  {
    forall g | 0 <= g < |groups| :: Filled(events, n, groups[g])
  }

  /** An event of another translation, or of none, leaves the group as it is. */
  lemma FilledOther(events: seq<AxEvent>, n: nat, g: Merged)
    requires n < |events| && Filled(events, n, g) && events[n].translate != Some(g.id)
    ensures Filled(events, n + 1, g)
  {
    assert events[..n + 1][..n] == events[..n];
    assert TaggedOf(events[..n], g.id) + [] == TaggedOf(events[..n], g.id);
  }

  lemma FilledJoin(events: seq<AxEvent>, n: nat, g: Merged)
    requires n < |events| && Filled(events, n, g) && events[n].translate == Some(g.id)
    ensures Filled(events, n + 1, Join(g, events[n]))
  {
    assert events[..n + 1][..n] == events[..n];
  }

  lemma {:induction false} NothingTagged(events: seq<AxEvent>, id: nat)
    requires forall k | 0 <= k < |events| :: events[k].translate != Some(id)
    ensures TaggedOf(events, id) == []
    decreases |events|
  {
    if events != [] { NothingTagged(events[..|events| - 1], id); }
  }

  lemma FilledNew(events: seq<AxEvent>, n: nat, groups: seq<Merged>)
    requires n < |events| && events[n].translate.Some? && events[n].opcode.Some? && AllGrouped(events, n, groups)
    requires forall g | 0 <= g < |groups| :: groups[g].id != events[n].translate.value
    ensures Filled(events, n + 1, Join(StartGroup(events[n]), events[n]))
  {
    var id := events[n].translate.value;
    forall k | 0 <= k < n
      ensures events[k].translate != Some(id)
    {
      assert events[k].translate.Some? ==> Grouped(events[k], groups);
    }
    NothingTagged(events[..n], id);
    FilledJoin(events, n, StartGroup(events[n]));
  }

  lemma AllFilledOther(events: seq<AxEvent>, n: nat, groups: seq<Merged>, i: nat)
    requires n < |events| && AllFilled(events, n, groups) && i <= |groups|
    requires forall g | 0 <= g < |groups| && g != i :: events[n].translate != Some(groups[g].id)
    ensures forall g | 0 <= g < |groups| && g != i :: Filled(events, n + 1, groups[g])
  {
    hide Filled;
    forall g | 0 <= g < |groups| && g != i
      ensures Filled(events, n + 1, groups[g])
    {
      FilledOther(events, n, groups[g]);
    }
  }

  lemma AllFilledNew(events: seq<AxEvent>, n: nat, groups: seq<Merged>)
    requires n < |events| && events[n].translate.Some? && events[n].opcode.Some?
    requires AllGrouped(events, n, groups) && AllFilled(events, n, groups)
    requires forall g | 0 <= g < |groups| :: groups[g].id != events[n].translate.value
    ensures AllFilled(events, n + 1, groups + [Join(StartGroup(events[n]), events[n])])
  {
    hide Filled, Join, StartGroup;
    FilledNew(events, n, groups);
    AllFilledOther(events, n, groups, |groups|);
  }

  lemma AllFilledJoin(events: seq<AxEvent>, n: nat, groups: seq<Merged>, i: nat)
    requires n < |events| && i < |groups| && AllFilled(events, n, groups) && events[n].translate == Some(groups[i].id)
    requires forall g | 0 <= g < |groups| && g != i :: events[n].translate != Some(groups[g].id)
    ensures AllFilled(events, n + 1, groups[i := Join(groups[i], events[n])])
  {
    hide Filled, Join;
    FilledJoin(events, n, groups[i]);
    AllFilledOther(events, n, groups, i);
  }

  ghost predicate AllGrouped(events: seq<AxEvent>, n: nat, groups: seq<Merged>)
    requires n <= |events|
  {
    forall k | 0 <= k < n && events[k].translate.Some? :: Grouped(events[k], groups)
  }

  /** The events of no translation, in order. */
  function Untranslated(events: seq<AxEvent>): seq<AxEvent> {
    if events == [] then []
    else
      Untranslated(events[..|events| - 1])
      + if events[|events| - 1].translate.None? then [events[|events| - 1]] else []
  }

  ghost predicate AllRetained(events: seq<AxEvent>, n: nat, retained: seq<AxEvent>)
    requires n <= |events|
  {
    retained == Untranslated(events[..n])
  }

  ghost predicate KeptFrom(events: seq<AxEvent>, n: nat, retained: seq<AxEvent>, kept: seq<nat>)
    requires n <= |events|
  {
    && |kept| == |retained|
    && (forall k | 0 <= k < |retained| :: kept[k] < n && events[kept[k]] == retained[k] && retained[k].translate.None?)
    && (forall k, l | 0 <= k < l < |kept| :: kept[k] < kept[l])
  }

  ghost predicate GroupsFrom(events: seq<AxEvent>, n: nat, groups: seq<Merged>, at: seq<nat>)
    requires n <= |events|
  {
    && |at| == |groups|
    && (forall g | 0 <= g < |groups| :: at[g] < n && AtGroup(events[at[g]], groups[g]))
    && (forall g, h | 0 <= g < h < |groups| :: groups[g].id != groups[h].id)
  }

  ghost predicate Grouped(ax: AxEvent, groups: seq<Merged>) { exists g :: 0 <= g < |groups| && Belongs(ax, groups[g]) }

  function Tagged(ax: AxEvent): seq<(nat, Base)> {
    seq(|ax.base|, i requires 0 <= i < |ax.base| => (ax.intraInstructionIndex, ax.base[i]))
  }

  /** The base events of a translation are those of its events, one event after the other, each with the
      position of its event. */
  lemma TaggedExactly(events: seq<AxEvent>, ax: AxEvent, id: nat)
    ensures TaggedOf([], id) == []
    ensures var t, t' := TaggedOf(events, id), TaggedOf(events + [ax], id);
            && (ax.translate != Some(id) ==> t' == t)
            && (ax.translate == Some(id) ==>
                  && |t'| == |t| + |ax.base| && t'[..|t|] == t
                  && forall k | 0 <= k < |ax.base| :: t'[|t| + k] == (ax.intraInstructionIndex, ax.base[k]))
  {
    assert (events + [ax])[..|events|] == events;
  }

  function StartGroup(ax: AxEvent): Merged
    requires ax.translate.Some? && ax.opcode.Some?
  {
    Merged(ax.translate.value, ax.opcode.value, ax.instructionIndex, ax.intraInstructionIndex, ax.threadId, [])
  }

  /** Adds an event to its group, whose place is that of its first event. */
  function Join(g: Merged, ax: AxEvent): Merged {
    g.(events := g.events + Tagged(ax),
       intraInstructionIndex := if ax.intraInstructionIndex < g.intraInstructionIndex then ax.intraInstructionIndex
                                else g.intraInstructionIndex)
  }

  lemma JoinBag(g: Merged, ax: AxEvent)
    ensures TakenBag(Join(g, ax).events) == TakenBag(g.events) + multiset(ax.base)
  {
    TakenConcat(g.events, Tagged(ax));
    assert Taken(Tagged(ax)) == ax.base;
  }

  lemma GatheredStart(events: seq<AxEvent>)
    ensures Gathered(events, 0, [], [], [], [])
  {
  }

  lemma RetainedMore(events: seq<AxEvent>, n: nat, retained: seq<AxEvent>, more: seq<AxEvent>)
    requires n < |events| && AllRetained(events, n, retained)
    requires more == if events[n].translate.None? then [events[n]] else []
    ensures AllRetained(events, n + 1, retained + more)
  {
    assert events[..n + 1][..n] == events[..n];
  }

  lemma KeptOne(events: seq<AxEvent>, n: nat, retained: seq<AxEvent>, kept: seq<nat>)
    requires n < |events| && KeptFrom(events, n, retained, kept) && events[n].translate.None?
    ensures KeptFrom(events, n + 1, retained + [events[n]], kept + [n])
  {
  }

  lemma GroupsStay(events: seq<AxEvent>, n: nat, groups: seq<Merged>, at: seq<nat>)
    requires n < |events| && GroupsFrom(events, n, groups, at) && AllGrouped(events, n, groups) && events[n].translate.None?
    ensures GroupsFrom(events, n + 1, groups, at) && AllGrouped(events, n + 1, groups)
  {
    hide AtGroup, Grouped;
  }

  lemma RetainedBag(events: seq<AxEvent>, n: nat, retained: seq<AxEvent>, groups: seq<Merged>)
    requires n < |events| && BaseBag(retained) + GroupsBag(groups) == BaseBag(events[..n])
    ensures BaseBag(retained + [events[n]]) + GroupsBag(groups) == BaseBag(events[..n + 1])
  {
    assert events[..n + 1][..n] == events[..n];
    assert (retained + [events[n]])[..|retained|] == retained;
    hide GroupsBag;
    Add3(BaseBag(retained), GroupsBag(groups), multiset(events[n].base));
  }

  lemma GatheredRetained(events: seq<AxEvent>, n: nat, retained: seq<AxEvent>, kept: seq<nat>, groups: seq<Merged>, at: seq<nat>)
    requires n < |events| && Gathered(events, n, retained, kept, groups, at) && events[n].translate.None?
    ensures Gathered(events, n + 1, retained + [events[n]], kept + [n], groups, at)
  {
    hide AtGroup, Grouped, GroupsBag, BaseBag, KeptFrom, GroupsFrom, AllGrouped, AllRetained, Filled;
    AllFilledOther(events, n, groups, |groups|);
    RetainedMore(events, n, retained, [events[n]]);
    KeptOne(events, n, retained, kept);
    GroupsStay(events, n, groups, at);
    RetainedBag(events, n, retained, groups);
  }

  lemma Add3(a: multiset<Base>, b: multiset<Base>, c: multiset<Base>)
    ensures (a + c) + b == (a + b) + c && a + (b + c) == (a + b) + c
  {
  }

  lemma GatheredNew(events: seq<AxEvent>, n: nat, retained: seq<AxEvent>, kept: seq<nat>, groups: seq<Merged>, at: seq<nat>)
    requires n < |events| && Gathered(events, n, retained, kept, groups, at)
    requires events[n].translate.Some? && events[n].opcode.Some?
    requires forall g | 0 <= g < |groups| :: groups[g].id != events[n].translate.value
    ensures Gathered(events, n + 1, retained, kept, groups + [Join(StartGroup(events[n]), events[n])], at + [n])
    ensures Belongs(events[n], Join(StartGroup(events[n]), events[n]))
  {
    assert Belongs(events[n], Join(StartGroup(events[n]), events[n]));
    hide Join, StartGroup, BaseBag, GroupsBag, Belongs, KeptFrom, GroupsFrom, AllGrouped, AllRetained, Grouped, Filled;
    hide AllFilled;
    AllFilledNew(events, n, groups);
    NewBag(events, n, retained, groups);
    NewGroup(events, n, groups, at);
    KeptMore(events, n, retained, kept);
    RetainedMore(events, n, retained, []);
    assert retained + [] == retained;
    GroupedMore(events, n, groups, groups + [Join(StartGroup(events[n]), events[n])]);
    GroupedHere(events, n, groups + [Join(StartGroup(events[n]), events[n])], |groups|);
  }

  lemma KeptMore(events: seq<AxEvent>, n: nat, retained: seq<AxEvent>, kept: seq<nat>)
    requires n < |events| && KeptFrom(events, n, retained, kept)
    ensures KeptFrom(events, n + 1, retained, kept)
  {
  }

  lemma NewBag(events: seq<AxEvent>, n: nat, retained: seq<AxEvent>, groups: seq<Merged>)
    requires n < |events| && events[n].translate.Some? && events[n].opcode.Some?
    requires BaseBag(retained) + GroupsBag(groups) == BaseBag(events[..n])
    ensures BaseBag(retained) + GroupsBag(groups + [Join(StartGroup(events[n]), events[n])]) == BaseBag(events[..n + 1])
  {
    var ax := events[n];
    var g := Join(StartGroup(ax), ax);
    JoinBag(StartGroup(ax), ax);
    assert TakenBag([]) == multiset{};
    assert events[..n + 1][..n] == events[..n];
    assert (groups + [g])[..|groups|] == groups;
    assert GroupsBag(groups + [g]) == GroupsBag(groups) + multiset(ax.base);
    assert BaseBag(events[..n + 1]) == BaseBag(events[..n]) + multiset(ax.base);
    hide *;
    Add3(BaseBag(retained), GroupsBag(groups), multiset(ax.base));
  }

  lemma NewGroup(events: seq<AxEvent>, n: nat, groups: seq<Merged>, at: seq<nat>)
    requires n < |events| && events[n].translate.Some? && events[n].opcode.Some? && GroupsFrom(events, n, groups, at)
    requires forall g | 0 <= g < |groups| :: groups[g].id != events[n].translate.value
    ensures GroupsFrom(events, n + 1, groups + [Join(StartGroup(events[n]), events[n])], at + [n])
  {
    var g := Join(StartGroup(events[n]), events[n]);
    assert AtGroup(events[n], g) && g.id == events[n].translate.value;
    hide AtGroup, Join, StartGroup;
  }

  lemma GroupedMore(events: seq<AxEvent>, n: nat, groups: seq<Merged>, all: seq<Merged>)
    requires n <= |events| && AllGrouped(events, n, groups) && |groups| <= |all|
    requires forall g | 0 <= g < |groups| :: SameGroup(groups[g], all[g])
    ensures AllGrouped(events, n, all)
  {
    forall k | 0 <= k < n && events[k].translate.Some?
      ensures Grouped(events[k], all)
    {
      assert Grouped(events[k], groups);
      var g :| 0 <= g < |groups| && Belongs(events[k], groups[g]);
      assert SameGroup(groups[g], all[g]);
      assert Belongs(events[k], all[g]);
    }
  }

  predicate SameGroup(g: Merged, h: Merged) {
    g.id == h.id && g.opcode == h.opcode && g.instructionIndex == h.instructionIndex && g.threadId == h.threadId
  }

  lemma GatheredJoin(events: seq<AxEvent>, n: nat, retained: seq<AxEvent>, kept: seq<nat>, groups: seq<Merged>, at: seq<nat>, i: nat)
    requires n < |events| && Gathered(events, n, retained, kept, groups, at) && i < |groups| && Belongs(events[n], groups[i])
    ensures Gathered(events, n + 1, retained, kept, groups[i := Join(groups[i], events[n])],
                     at[i := if events[n].intraInstructionIndex < groups[i].intraInstructionIndex then n else at[i]])
  {
    hide Join, BaseBag, GroupsBag, Belongs, KeptFrom, GroupsFrom, AllGrouped, AllRetained, AllFilled;
    JoinedFilled(events, n, groups, at, i);
    JoinedGrouped(events, n, groups, i);
    JoinedBag(events, n, retained, groups, i);
    JoinedGroups(events, n, groups, at, i);
    JoinedRetained(events, n, retained, kept, groups[i]);
  }

  lemma JoinedRetained(events: seq<AxEvent>, n: nat, retained: seq<AxEvent>, kept: seq<nat>, g: Merged)
    requires n < |events| && KeptFrom(events, n, retained, kept) && AllRetained(events, n, retained) && Belongs(events[n], g)
    ensures KeptFrom(events, n + 1, retained, kept) && AllRetained(events, n + 1, retained)
  {
    hide KeptFrom, AllRetained;
    KeptMore(events, n, retained, kept);
    RetainedMore(events, n, retained, []);
    assert retained + [] == retained;
  }

  lemma JoinedFilled(events: seq<AxEvent>, n: nat, groups: seq<Merged>, at: seq<nat>, i: nat)
    requires n < |events| && i < |groups| && GroupsFrom(events, n, groups, at) && Belongs(events[n], groups[i])
    requires AllFilled(events, n, groups)
    ensures AllFilled(events, n + 1, groups[i := Join(groups[i], events[n])])
  {
    hide Join, Belongs, GroupsFrom, AllFilled;
    OnlyGroup(events, n, groups, at, i);
    AllFilledJoin(events, n, groups, i);
  }

  lemma JoinedGrouped(events: seq<AxEvent>, n: nat, groups: seq<Merged>, i: nat)
    requires n < |events| && i < |groups| && AllGrouped(events, n, groups) && Belongs(events[n], groups[i])
    ensures AllGrouped(events, n + 1, groups[i := Join(groups[i], events[n])])
  {
    var all := groups[i := Join(groups[i], events[n])];
    assert SameGroup(groups[i], all[i]) && Belongs(events[n], all[i]);
    assert forall g | 0 <= g < |groups| :: SameGroup(groups[g], all[g]);
    hide Join, Belongs, AllGrouped, SameGroup;
    GroupedMore(events, n, groups, all);
    GroupedHere(events, n, all, i);
  }

  lemma OnlyGroup(events: seq<AxEvent>, n: nat, groups: seq<Merged>, at: seq<nat>, i: nat)
    requires n < |events| && i < |groups| && GroupsFrom(events, n, groups, at) && Belongs(events[n], groups[i])
    ensures events[n].translate == Some(groups[i].id)
    ensures forall g | 0 <= g < |groups| && g != i :: events[n].translate != Some(groups[g].id)
  {
    hide AtGroup;
    forall g | 0 <= g < |groups| && g != i
      ensures groups[g].id != groups[i].id
    {
      assert groups[if g < i then g else i].id != groups[if g < i then i else g].id;
    }
  }

  lemma JoinedGroups(events: seq<AxEvent>, n: nat, groups: seq<Merged>, at: seq<nat>, i: nat)
    requires n < |events| && i < |groups| && GroupsFrom(events, n, groups, at) && Belongs(events[n], groups[i])
    ensures GroupsFrom(events, n + 1, groups[i := Join(groups[i], events[n])],
                       at[i := if events[n].intraInstructionIndex < groups[i].intraInstructionIndex then n else at[i]])
  {
    var g := Join(groups[i], events[n]);
    var place := if events[n].intraInstructionIndex < groups[i].intraInstructionIndex then n else at[i];
    assert AtGroup(events[place], g) && g.id == groups[i].id;
    hide AtGroup, Join;
  }

  lemma GroupedHere(events: seq<AxEvent>, n: nat, groups: seq<Merged>, i: nat)
    requires n < |events| && AllGrouped(events, n, groups) && i < |groups| && Belongs(events[n], groups[i])
    ensures AllGrouped(events, n + 1, groups)
  {
    assert Grouped(events[n], groups);
  }

  lemma JoinedBag(events: seq<AxEvent>, n: nat, retained: seq<AxEvent>, groups: seq<Merged>, i: nat)
    requires n < |events| && i < |groups| && BaseBag(retained) + GroupsBag(groups) == BaseBag(events[..n])
    ensures BaseBag(retained) + GroupsBag(groups[i := Join(groups[i], events[n])]) == BaseBag(events[..n + 1])
  {
    var g := Join(groups[i], events[n]);
    JoinBag(groups[i], events[n]);
    GroupsUpdate(groups, i, g);
    assert events[..n + 1][..n] == events[..n];
    assert BaseBag(events[..n + 1]) == BaseBag(events[..n]) + multiset(events[n].base);
    hide Join, TakenBag, GroupsBag, BaseBag;
    Cancel(BaseBag(retained), GroupsBag(groups[i := g]), GroupsBag(groups), TakenBag(groups[i].events), multiset(events[n].base));
  }

  lemma Cancel(r: multiset<Base>, x: multiset<Base>, y: multiset<Base>, t: multiset<Base>, c: multiset<Base>)
    requires x + t == y + (t + c)
    ensures r + x == (r + y) + c
  {
    forall b
      ensures x[b] == y[b] + c[b]
    {
      assert (x + t)[b] == (y + (t + c))[b];
    }
  }

  /** The groups after sorting, as events. */
  ghost predicate WholesOf(groups: seq<Merged>, wholes: seq<AxEvent>) {
    && |wholes| == |groups|
    && forall g | 0 <= g < |groups| :: WholeOf(groups[g], wholes[g])
  }

  /** The group's base events in order of position within the instruction. */
  ghost predicate WholeOf(g: Merged, ax: AxEvent) {
    exists sorted :: SortOf(g.events, sorted) && ax == Whole(g.(events := sorted))
  }

  lemma WholesStart(groups: seq<Merged>, wholes: seq<AxEvent>)
    ensures WholesOf(groups[..0], [])
    ensures WholesOf(groups, wholes) ==> |wholes| == |groups|
  {
  }

  lemma WholesNext(groups: seq<Merged>, g: nat, wholes: seq<AxEvent>, sorted: seq<(nat, Base)>)
    requires g < |groups| && WholesOf(groups[..g], wholes)
    requires Ordered(sorted) && multiset(sorted) == multiset(groups[g].events) && TakenBag(sorted) == TakenBag(groups[g].events)
    requires Stable(groups[g].events, sorted)
    ensures WholesOf(groups[..g + 1], wholes + [Whole(groups[g].(events := sorted))])
  {
    assert WholeOf(groups[g], Whole(groups[g].(events := sorted)));
    hide WholeOf, Whole;
  }

  lemma {:induction false} WholesBag(groups: seq<Merged>, wholes: seq<AxEvent>)
    requires WholesOf(groups, wholes)
    ensures BaseBag(wholes) == GroupsBag(groups)
    decreases |groups|
  {
    if groups != [] {
      assert WholeOf(groups[|groups| - 1], wholes[|groups| - 1]);
      WholesBag(groups[..|groups| - 1], wholes[..|groups| - 1]);
    }
  }

  /** Every event after merging is at the place of an event before it, and no two at that of the same. */
  ghost predicate FromPlaces(events: seq<AxEvent>, merged: seq<AxEvent>, src: seq<nat>) {
    && |src| == |merged|
    && (forall k | 0 <= k < |merged| :: src[k] < |events| && SamePlace(merged[k], events[src[k]])
                                        && merged[k].opcode == events[src[k]].opcode)
    && (forall k, l | 0 <= k < l < |src| :: src[k] != src[l])
  }

  lemma WholeAt(g: Merged, ax: AxEvent, from: AxEvent)
    requires WholeOf(g, ax) && AtGroup(from, g)
    ensures SamePlace(ax, from) && ax.opcode == from.opcode && ax.translate == from.translate == Some(g.id)
  {
  }

  lemma GroupAt(events: seq<AxEvent>, n: nat, groups: seq<Merged>, at: seq<nat>, wholes: seq<AxEvent>, g: nat)
    requires n <= |events| && GroupsFrom(events, n, groups, at) && WholesOf(groups, wholes) && g < |groups|
    ensures |at| == |wholes| == |groups| && at[g] < n && SamePlace(wholes[g], events[at[g]])
    ensures wholes[g].opcode == events[at[g]].opcode && wholes[g].translate == events[at[g]].translate == Some(groups[g].id)
  {
    assert WholeOf(groups[g], wholes[g]);
    WholeAt(groups[g], wholes[g], events[at[g]]);
  }

  lemma MergedPlaces(events: seq<AxEvent>, retained: seq<AxEvent>, kept: seq<nat>, groups: seq<Merged>, at: seq<nat>, wholes: seq<AxEvent>)
    requires KeptFrom(events, |events|, retained, kept) && GroupsFrom(events, |events|, groups, at) && WholesOf(groups, wholes)
    ensures FromPlaces(events, retained + wholes, kept + at)
  {
    var n := |kept|;
    forall k | 0 <= k < |retained + wholes|
      ensures (kept + at)[k] < |events| && SamePlace((retained + wholes)[k], events[(kept + at)[k]])
              && (retained + wholes)[k].opcode == events[(kept + at)[k]].opcode
    {
      if k >= n { GroupAt(events, |events|, groups, at, wholes, k - n); }
      hide GroupsFrom, WholesOf;
    }
    forall k, l | 0 <= k < l < |kept + at|
      ensures (kept + at)[k] != (kept + at)[l]
    {
      if l >= n {
        GroupAt(events, |events|, groups, at, wholes, l - n);
        if k >= n { GroupAt(events, |events|, groups, at, wholes, k - n); }
      }
    }
  }

  /** Merging keeps alignment and unique places. */
  lemma MergedSound(events: seq<AxEvent>, merged: seq<AxEvent>, src: seq<nat>, other: seq<AxEvent>)
    requires FromPlaces(events, merged, src)
    ensures forall opcodes :: AllAligned(events + other, opcodes) ==> AllAligned(merged + other, opcodes)
    ensures UniquePlaces(events + other) ==> UniquePlaces(merged + other)
  {
    forall opcodes | AllAligned(events + other, opcodes)
      ensures AllAligned(merged + other, opcodes)
    {
      forall ax | ax in merged + other
        ensures Aligned(ax, opcodes)
      {
        if ax in merged {
          var k :| 0 <= k < |merged| && merged[k] == ax;
          assert events[src[k]] in events + other;
        } else {
          assert ax in events + other;
        }
      }
    }
    if UniquePlaces(events + other) {
      forall i, j | 0 <= i < j < |merged + other|
        ensures !SamePlace((merged + other)[i], (merged + other)[j])
      {
        var before := events + other;
        var m := if i < |merged| then src[i] else |events| + i - |merged|;
        var n := if j < |merged| then src[j] else |events| + j - |merged|;
        assert m != n;
        assert !SamePlace(before[if m < n then m else n], before[if m < n then n else m]);
      }
    }
  }

  /** The event is its whole translation: all its base events, in the order of their positions, at the
      place of the first event, with its opcode. */
  ghost predicate IsTranslation(events: seq<AxEvent>, ax: AxEvent) {
    && ax.translate.Some? && !ax.isIfetch && !ax.inProgramOrder
    && (exists sorted :: SortOf(TaggedOf(events, ax.translate.value), sorted) && ax.base == Taken(sorted))
    && (exists k :: 0 <= k < |events| && IsFirst(events, k, ax))
  }

  /** Event `k` is the first of the translation, and `ax` is where it is. */
  ghost predicate IsFirst(events: seq<AxEvent>, k: int, ax: AxEvent)
    requires 0 <= k < |events|
  {
    && events[k].translate == ax.translate && SamePlace(ax, events[k]) && ax.opcode == events[k].opcode
    && forall l | 0 <= l < |events| && events[l].translate == ax.translate ::
         ax.intraInstructionIndex <= events[l].intraInstructionIndex
  }

  lemma WholeTranslation(events: seq<AxEvent>, g: Merged, ax: AxEvent, k: nat)
    requires Filled(events, |events|, g) && WholeOf(g, ax) && k < |events| && AtGroup(events[k], g)
    ensures IsTranslation(events, ax)
  {
    assert events[..|events|] == events;
    hide Ordered, TakenBag, TaggedOf, Taken;
    WholeAt(g, ax, events[k]);
    assert IsFirst(events, k, ax);
  }

  /** One event for each translation. */
  ghost predicate Wholes(before: seq<AxEvent>, wholes: seq<AxEvent>) {
    && (forall i | 0 <= i < |wholes| :: IsTranslation(before, wholes[i]))
    && (forall i, j | 0 <= i < j < |wholes| :: wholes[i].translate != wholes[j].translate)
    && (forall k | 0 <= k < |before| && before[k].translate.Some? :: Represented(wholes, before[k].translate))
  }

  ghost predicate Represented(wholes: seq<AxEvent>, id: Option<nat>) {
    exists i :: 0 <= i < |wholes| && wholes[i].translate == id
  }

  /** After merging come the untranslated events as they were, and then the translations. */
  ghost predicate MergedInto(before: seq<AxEvent>, after: seq<AxEvent>) {
    exists wholes :: after == Untranslated(before) + wholes && Wholes(before, wholes)
  }

  lemma MergedOnce(events: seq<AxEvent>, retained: seq<AxEvent>, kept: seq<nat>, groups: seq<Merged>, at: seq<nat>, wholes: seq<AxEvent>)
    requires Gathered(events, |events|, retained, kept, groups, at) && WholesOf(groups, wholes)
    ensures MergedInto(events, retained + wholes)
  {
    assert retained == Untranslated(events) by { assert events[..|events|] == events; }
    hide Wholes;
    GroupsWhole(events, groups, at, wholes);
  }

  lemma GroupsWhole(events: seq<AxEvent>, groups: seq<Merged>, at: seq<nat>, wholes: seq<AxEvent>)
    requires GroupsFrom(events, |events|, groups, at) && AllGrouped(events, |events|, groups)
    requires AllFilled(events, |events|, groups) && WholesOf(groups, wholes)
    ensures Wholes(events, wholes)
  {
    WholesStart(groups, wholes);
    hide GroupsFrom, WholesOf, AllGrouped, AllFilled, IsTranslation;
    forall i | 0 <= i < |wholes|
      ensures IsTranslation(events, wholes[i])
    {
      EachTranslation(events, groups, at, wholes, i);
    }
    forall i, j | 0 <= i < j < |wholes|
      ensures wholes[i].translate != wholes[j].translate
    {
      GroupsDiffer(events, groups, at, wholes, i, j);
    }
    forall k | 0 <= k < |events| && events[k].translate.Some?
      ensures Represented(wholes, events[k].translate)
    {
      var g := GroupFor(events, groups, k);
      GroupAt(events, |events|, groups, at, wholes, g);
    }
  }

  lemma EachTranslation(events: seq<AxEvent>, groups: seq<Merged>, at: seq<nat>, wholes: seq<AxEvent>, g: nat)
    requires GroupsFrom(events, |events|, groups, at) && AllFilled(events, |events|, groups) && WholesOf(groups, wholes)
    requires g < |wholes|
    ensures IsTranslation(events, wholes[g])
  {
    assert WholeOf(groups[g], wholes[g]);
    hide IsTranslation, WholeOf, Filled, AtGroup;
    WholeTranslation(events, groups[g], wholes[g], at[g]);
  }

  lemma GroupsDiffer(events: seq<AxEvent>, groups: seq<Merged>, at: seq<nat>, wholes: seq<AxEvent>, g: nat, h: nat)
    requires GroupsFrom(events, |events|, groups, at) && WholesOf(groups, wholes) && g < h < |groups|
    ensures |wholes| == |groups| && wholes[g].translate != wholes[h].translate
  {
    GroupAt(events, |events|, groups, at, wholes, g);
    GroupAt(events, |events|, groups, at, wholes, h);
  }

  lemma GroupFor(events: seq<AxEvent>, groups: seq<Merged>, k: nat) returns (g: nat)
    requires AllGrouped(events, |events|, groups) && k < |events| && events[k].translate.Some?
    ensures g < |groups| && events[k].translate == Some(groups[g].id)
  {
    assert Grouped(events[k], groups);
    g :| 0 <= g < |groups| && Belongs(events[k], groups[g]);
  }
}
