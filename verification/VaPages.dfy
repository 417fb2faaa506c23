/** Reconstructing a virtual address from the descriptor addresses a translation reads. */
module VaPages {
  import opened Wrappers
  import opened Words
  import opened Addresses
  import opened PageTables
  import opened PageWalk

  /** A memory event of a translation: its region and, if concrete, its address. */
  datatype BaseEvent = ReadMem(region: string, address: Option<nat>) | OtherEvent

  datatype VaPageResult = Page(va: nat) | NotAWalk | OutOfBounds

  predicate IsStage1Read(ev: BaseEvent) { ev.ReadMem? && ev.region == "stage 1" }

  function TableIndex(address: nat): nat { Shr(BitAnd(address, 0xFFF), 3) }

  /** The addresses of the stage 1 reads, in order. */
  function Stage1Reads(events: seq<BaseEvent>): seq<Option<nat>> {
    if events == [] then []
    else (if IsStage1Read(events[0]) then [events[0].address] else []) + Stage1Reads(events[1..])
  }

  predicate Concrete(found: seq<Option<nat>>, n: nat) { n <= |found| && forall i | 0 <= i < n :: found[i].Some? }

  /** The page of four concrete reads. */
  function PageOf(found: seq<Option<nat>>): nat
    requires |found| == 4 && Concrete(found, 4)
  {
    TableIndexBound(found[0].value);
    TableIndexBound(found[1].value);
    TableIndexBound(found[2].value);
    TableIndexBound(found[3].value);
    FromIndices(TableIndex(found[0].value), TableIndex(found[1].value), TableIndex(found[2].value),
                TableIndex(found[3].value), 0)
  }

  /** Exactly four concrete reads have a page; a fifth one leaves the array of indices. */
  function VaPageOf(found: seq<Option<nat>>): VaPageResult {
    if |found| == 4 && Concrete(found, 4) then Page(PageOf(found))
    else if Concrete(found, 5) then OutOfBounds
    else NotAWalk
  }

  function Flatten(events: seq<seq<BaseEvent>>): seq<BaseEvent> {
    if events == [] then [] else events[0] + Flatten(events[1..])
  }

  lemma TableIndexBound(address: nat)
    ensures TableIndex(address) < 512
  {
    Powers();
    AndLow(address, 12);
  }

  lemma Assoc<T>(a: seq<T>, b: seq<T>, c: seq<T>)
    ensures a + (b + c) == (a + b) + c
  {
  }

  lemma {:induction false} ReadsConcat(a: seq<BaseEvent>, b: seq<BaseEvent>)
    ensures Stage1Reads(a + b) == Stage1Reads(a) + Stage1Reads(b)
    decreases a
  {
    if a == [] {
      assert a + b == b;
    } else {
      ReadsConcat(a[1..], b);
      assert (a + b)[1..] == a[1..] + b && (a + b)[0] == a[0];
      var here := if IsStage1Read(a[0]) then [a[0].address] else [];
      assert Stage1Reads(a + b) == here + Stage1Reads(a[1..] + b) && Stage1Reads(a) == here + Stage1Reads(a[1..]);
      hide *;
      Assoc(here, Stage1Reads(a[1..]), Stage1Reads(b));
    }
  }

  /** An event that is not a memory read of region "stage 1" leaves no mark, wherever it stands; one that
      is adds its address, at its place. */
  lemma ReadsInsert(a: seq<BaseEvent>, ev: BaseEvent, b: seq<BaseEvent>)
    ensures !ev.ReadMem? || ev.region != "stage 1" ==> Stage1Reads(a + [ev] + b) == Stage1Reads(a + b)
    ensures ev.ReadMem? && ev.region == "stage 1" ==>
              Stage1Reads(a + [ev] + b) == Stage1Reads(a) + [ev.address] + Stage1Reads(b)
  {
    assert [ev][1..] == [];
    assert Stage1Reads([ev]) == if ev.ReadMem? && ev.region == "stage 1" then [ev.address] else [];
    hide *;
    ReadsConcat(a + [ev], b);
    ReadsConcat(a, [ev]);
    ReadsConcat(a, b);
  }

  /** The reads of region "stage 1" are those at the given places, and read the given addresses. */
  ghost predicate ReadsAt(events: seq<BaseEvent>, at: seq<nat>, addresses: seq<nat>) {
    && |at| == |addresses|
    && (forall i, j | 0 <= i < j < |at| :: at[i] < at[j])
    && (forall i | 0 <= i < |at| :: at[i] < |events| && events[at[i]] == ReadMem("stage 1", Some(addresses[i])))
    && (forall k | 0 <= k < |events| && k !in at :: !events[k].ReadMem? || events[k].region != "stage 1")
  }

  lemma {:induction false} NoReads(events: seq<BaseEvent>)
    requires forall k | 0 <= k < |events| :: !events[k].ReadMem? || events[k].region != "stage 1"
    ensures Stage1Reads(events) == []
    decreases events
  {
    if events != [] { NoReads(events[1..]); }
  }

  /** Before the last of the places are the others, and after it no read. */
  lemma LastRead(events: seq<BaseEvent>, at: seq<nat>, addresses: seq<nat>, n: nat)
    requires ReadsAt(events, at, addresses) && |at| == n + 1
    ensures at[n] < |events| && events[at[n]] == ReadMem("stage 1", Some(addresses[n]))
    ensures ReadsAt(events[..at[n]], at[..n], addresses[..n])
    ensures Stage1Reads(events[at[n] + 1..]) == []
  {
    var k := at[n];
    var after := events[k + 1..];
    assert forall j | k < j < |events| :: j !in at;
    assert forall j | 0 <= j < k && j !in at[..n] :: j !in at;
    assert forall j | 0 <= j < |after| :: after[j] == events[k + 1 + j];
    hide Stage1Reads;
    NoReads(after);
  }

  function Known(addresses: seq<nat>): seq<Option<nat>> {
    if addresses == [] then [] else Known(addresses[..|addresses| - 1]) + [Some(addresses[|addresses| - 1])]
  }

  /** Whatever other events there are in between, the addresses found are those read, in order. */
  lemma {:induction false} ReadsFound(events: seq<BaseEvent>, at: seq<nat>, addresses: seq<nat>)
    requires ReadsAt(events, at, addresses)
    ensures Stage1Reads(events) == Known(addresses)
    decreases |at|
  {
    if at == [] {
      NoReads(events);
    } else {
      var n := |at| - 1;
      LastRead(events, at, addresses, n);
      var before, ev, after := events[..at[n]], events[at[n]], events[at[n] + 1..];
      assert events == before + [ev] + after;
      ReadsFound(before, at[..n], addresses[..n]);
      assert Known(addresses) == Known(addresses[..n]) + [Some(addresses[n])];
      hide *;
      ReadsInsert(before, ev, after);
      NothingAfter(Stage1Reads(before) + [ev.address]);
    }
  }

  lemma NothingAfter<T>(a: seq<T>)
    ensures a + [] == a
  {
  }

  lemma KnownFour(a0: nat, a1: nat, a2: nat, a3: nat)
    ensures Known([a0, a1, a2, a3]) == [Some(a0), Some(a1), Some(a2), Some(a3)]
  {
    var a, b, c := [a0], [a0, a1], [a0, a1, a2];
    assert [a0, a1, a2, a3][..3] == c && c[..2] == b && b[..1] == a && a[..0] == [];
    assert Known(a) == [Some(a0)];
    assert Known(b) == [Some(a0), Some(a1)];
    assert Known(c) == [Some(a0), Some(a1), Some(a2)];
  }

  lemma {:induction false} FlattenConcat(a: seq<seq<BaseEvent>>, b: seq<seq<BaseEvent>>)
    ensures Flatten(a + b) == Flatten(a) + Flatten(b)
    decreases a
  {
    if a == [] {
      assert a + b == b;
    } else {
      FlattenConcat(a[1..], b);
      assert (a + b)[1..] == a[1..] + b && (a + b)[0] == a[0];
      assert Flatten(a + b) == a[0] + Flatten(a[1..] + b) && Flatten(a) == a[0] + Flatten(a[1..]);
      hide *;
      Assoc(a[0], Flatten(a[1..]), Flatten(b));
    }
  }

  /** The reads of the first i events and the first k base events of the next one, and of all of them. */
  lemma ReadsSplit(events: seq<seq<BaseEvent>>, i: nat, k: nat)
    requires i < |events| && k < |events[i]|
    ensures var before := Stage1Reads(Flatten(events[..i]) + events[i][..k]);
            var here := if IsStage1Read(events[i][k]) then [events[i][k].address] else [];
            && Stage1Reads(Flatten(events[..i]) + events[i][..k + 1]) == before + here
            && before + here <= Stage1Reads(Flatten(events))
  {
    var before := Flatten(events[..i]) + events[i][..k];
    var here := [events[i][k]];
    var rest := events[i][k + 1..] + Flatten(events[i + 1..]);
    assert Stage1Reads(here) == (if IsStage1Read(events[i][k]) then [events[i][k].address] else []) by {
      assert here[1..] == [];
    }
    hide Stage1Reads;
    ReadsConcat(before, here);
    assert before + here == Flatten(events[..i]) + events[i][..k + 1];
    assert events == events[..i] + events[i..] && events[i..][1..] == events[i + 1..];
    FlattenConcat(events[..i], events[i..]);
    assert events[i] == events[i][..k] + here + events[i][k + 1..];
    assert Flatten(events) == before + here + rest;
    ReadsConcat(before + here, rest);
  }

  lemma ReadsNextEvent(events: seq<seq<BaseEvent>>, i: nat)
    requires i < |events|
    ensures Flatten(events[..i + 1]) == Flatten(events[..i]) + events[i]
  {
    assert events[..i + 1] == events[..i] + [events[i]];
    FlattenConcat(events[..i], [events[i]]);
    FlattenOne(events[i]);
  }

  /** The reads seen so far are concrete, and these are their indices. */
  predicate Indexed(found: seq<Option<nat>>, level: nat, indices: seq<nat>) {
    && |found| == level <= 4 && |indices| == 4 && Concrete(found, level)
    && forall j | 0 <= j < level :: indices[j] == TableIndex(found[j].value)
  }

  /** What the next read, the first that is not among those seen, means for the outcome. */
  lemma IndexedNext(found: seq<Option<nat>>, seen: seq<Option<nat>>, address: Option<nat>, level: nat, indices: seq<nat>)
    requires Indexed(seen, level, indices)
    ensures |indices| == 4 && level <= 4
    ensures seen + [address] <= found && address.None? ==> !(|found| == 4 && Concrete(found, 4)) && !Concrete(found, 5)
    ensures seen + [address] <= found && address.Some? && level == 4 ==> Concrete(found, 5) && |found| > 4
    ensures address.Some? && level < 4 ==>
              Indexed(seen + [address], level + 1, indices[level := TableIndex(address.value)])
  {
    hide TableIndex;
    if seen + [address] <= found {
      assert forall j | 0 <= j < level :: found[j] == seen[j];
      assert found[level] == address;
    }
  }

  /** The page of the translation whose events are given: there is one exactly when the stage 1 reads are
      four and all concrete. */
  method VaPage(events: seq<seq<BaseEvent>>) returns (r: VaPageResult)
    ensures var found := Stage1Reads(Flatten(events));
            && (r.Page? <==> |found| == 4 && Concrete(found, 4))
            && (r.Page? ==> r.va == PageOf(found))
            && (r.OutOfBounds? <==> Concrete(found, 5))
  {
    var indices: seq<nat> := [0, 0, 0, 0];
    var level := 0;
    ghost var found := Stage1Reads(Flatten(events));
    for i := 0 to |events|
      invariant Indexed(Stage1Reads(Flatten(events[..i])), level, indices)
    {
      var base := events[i];
      assert Flatten(events[..i]) + base[..0] == Flatten(events[..i]);
      for k := 0 to |base|
        invariant Indexed(Stage1Reads(Flatten(events[..i]) + base[..k]), level, indices)
      {
        var ev := base[k];
        ReadsSplit(events, i, k);
        hide Flatten, Stage1Reads, TableIndex, Indexed;
        ghost var seen := Stage1Reads(Flatten(events[..i]) + base[..k]);
        if IsStage1Read(ev) {
          IndexedNext(found, seen, ev.address, level, indices);
          if ev.address.None? {
            return NotAWalk;
          }
          if level == 4 {
            return OutOfBounds;
          }
          indices := indices[level := TableIndex(ev.address.value)];
          level := level + 1;
        }
      }
      ReadsNextEvent(events, i);
      assert base[..|base|] == base;
    }
    assert events[..|events|] == events;
    if level != 4 {
      return NotAWalk;
    }
    TableIndexBound(found[0].value);
    TableIndexBound(found[1].value);
    TableIndexBound(found[2].value);
    TableIndexBound(found[3].value);
    return Page(FromIndices(indices[0], indices[1], indices[2], indices[3], 0));
  }

  lemma FourReads(events: seq<BaseEvent>, at: seq<nat>, a0: nat, a1: nat, a2: nat, a3: nat)
    requires ReadsAt(events, at, [a0, a1, a2, a3])
    ensures TableIndex(a0) < 512 && TableIndex(a1) < 512 && TableIndex(a2) < 512 && TableIndex(a3) < 512
    ensures VaPageOf(Stage1Reads(events)) ==
            Page(FromIndices(TableIndex(a0), TableIndex(a1), TableIndex(a2), TableIndex(a3), 0))
  {
    TableIndexBound(a0);
    TableIndexBound(a1);
    TableIndexBound(a2);
    TableIndexBound(a3);
    hide TableIndex, FromIndices, Stage1Reads, ReadsAt, Known;
    ReadsFound(events, at, [a0, a1, a2, a3]);
    KnownFour(a0, a1, a2, a3);
  }

  lemma IndexOfEntry(base: nat, ix: nat, va: nat, level: nat)
    requires base % 4096 == 0 && base + 4096 * (ix + 1) <= WORD && level <= 3
    ensures TableIndex(EntryAddress(base + 4096 * ix, va, level)) == LevelIndex(va, level)
  {
    IndexValue(va, level);
    hide BitAnd, Shr, LevelIndex;
    EntryValue(base, ix, LevelIndex(va, level));
  }

  lemma ClearOffset(va: nat)
    requires va < 0x1_0000_0000_0000
    ensures LevelIndex(va, 0) < 512 && LevelIndex(va, 1) < 512 && LevelIndex(va, 2) < 512 && LevelIndex(va, 3) < 512
    ensures FromIndices(LevelIndex(va, 0), LevelIndex(va, 1), LevelIndex(va, 2), LevelIndex(va, 3), 0) == va / 4096 * 4096
  {
    IndexValue(va, 0);
    IndexValue(va, 1);
    IndexValue(va, 2);
    IndexValue(va, 3);
    hide LevelIndex, FromIndices;
    FromIndicesValue(LevelIndex(va, 0), LevelIndex(va, 1), LevelIndex(va, 2), LevelIndex(va, 3), 0);
    DivDiv(va, 0x1000, 512, 0x20_0000);
    DivDiv(va, 0x20_0000, 512, 0x4000_0000);
    DivDiv(va, 0x4000_0000, 512, 0x80_0000_0000);
    QuotientBound(va, 0x80_0000_0000, 512);
    SmallMod(va / 0x80_0000_0000, 512);
  }

  lemma Ancestors(f: Frozen, at: Places, root: nat, ixs: seq<nat>)
    requires Forest(f.base, f.tables, at) && |ixs| == 4
    requires Node(root, []) in at && Node(root, ixs[..3]) in at
    ensures Node(root, ixs[..1]) in at && Node(root, ixs[..2]) in at && at[Node(root, [])] == root
  {
    assert ixs[..3][..2] == ixs[..2] && ixs[..2][..1] == ixs[..1];
    assert Parent(Node(root, ixs[..3])) == Node(root, ixs[..2]) && Parent(Node(root, ixs[..2])) == Node(root, ixs[..1]);
    PlacedOf(f.base, f.tables, at, Node(root, ixs[..3]));
    PlacedOf(f.base, f.tables, at, Node(root, ixs[..2]));
    PlacedOf(f.base, f.tables, at, Node(root, []));
  }

  lemma FlattenOne(events: seq<BaseEvent>)
    ensures Flatten([events]) == events
  {
    assert [events][1..] == [] && events + [] == events;
  }

  lemma IndexAt(f: Frozen, at: Places, n: Node, va: nat, level: nat)
    requires Forest(f.base, f.tables, at) && n in at && level <= 3
    ensures TableIndex(EntryAddress(f.base + 4096 * at[n], va, level)) == LevelIndex(va, level)
  {
    assert f.base % 4096 == 0;
    hide Forest, TableIndex, EntryAddress, LevelIndex;
    ForestRange(f, at, n, 0);
    IndexOfEntry(f.base, at[n], va, level);
  }

  /** Every translation that reads the four descriptors of the walk, with any other events in between and
      however its events are grouped, has the page of `va`: `va` with its low 12 bits cleared. */
  ghost predicate Recovers(w: Option<Walk>, va: nat) {
    w.Some? && forall events: seq<seq<BaseEvent>>, at ::
      ReadsAt(Flatten(events), at, [w.value.l0pte, w.value.l1pte, w.value.l2pte, w.value.l3pte]) ==>
        VaPageOf(Stage1Reads(Flatten(events))) == Page(va / 4096 * 4096)
  }

  /** The walk reads the entries of the address in the four tables on its way. */
  ghost predicate DescriptorsOf(f: Frozen, at: Places, root: nat, va: nat, w: Walk) {
    var n0, n1, n2, n3 := Node(root, []), Node(root, Indices(va)[..1]), Node(root, Indices(va)[..2]), Node(root, Indices(va)[..3]);
    && n0 in at && n1 in at && n2 in at && n3 in at
    && w.l0pte == EntryAddress(f.base + 4096 * at[n0], va, 0)
    && w.l1pte == EntryAddress(f.base + 4096 * at[n1], va, 1)
    && w.l2pte == EntryAddress(f.base + 4096 * at[n2], va, 2)
    && w.l3pte == EntryAddress(f.base + 4096 * at[n3], va, 3)
  }

  lemma Described(f: Frozen, at: Places, root: nat, va: nat, w: Walk)
    requires Node(root, []) in at && Node(root, Indices(va)[..1]) in at
    requires Node(root, Indices(va)[..2]) in at && Node(root, Indices(va)[..3]) in at
    requires at[Node(root, [])] == root
    requires w.l0pte == EntryAddress(f.base + 4096 * root, va, 0)
    requires w.l1pte == EntryAddress(f.base + 4096 * at[Node(root, Indices(va)[..1])], va, 1)
    requires w.l2pte == EntryAddress(f.base + 4096 * at[Node(root, Indices(va)[..2])], va, 2)
    requires w.l3pte == EntryAddress(f.base + 4096 * at[Node(root, Indices(va)[..3])], va, 3)
    ensures DescriptorsOf(f, at, root, va, w)
  {
    hide EntryAddress, Indices;
  }

  lemma EntryFound(f: Frozen, at: Places, root: nat, va: nat, w: Option<Walk>)
    requires Node(root, []) in at && Node(root, Indices(va)[..3]) in at
    requires Finds(f, at, Node(root, []), va, w)
    ensures w.Some? && w.value.l3pte == EntryAddress(f.base + 4096 * at[Node(root, Indices(va)[..3])], va, 3)
  {
    hide EntryAddress, EntryAt, LevelIndex;
  }

  lemma WalkDescriptors(f: Frozen, at: Places, root: nat, va: nat)
    requires Forest(f.base, f.tables, at) && Node(root, []) in at && Node(root, Indices(va)[..3]) in at
    ensures InitialWalk(va, f.base + 4096 * root, f).Some?
    ensures DescriptorsOf(f, at, root, va, InitialWalk(va, f.base + 4096 * root, f).value)
  {
    Ancestors(f, at, root, Indices(va));
    hide *;
    WalkReads(f, at, root, va);
    var w := InitialWalk(va, f.base + 4096 * root, f);
    EntryFound(f, at, root, va, w);
    Described(f, at, root, va, w.value);
  }

  lemma PageRecovered(f: Frozen, at: Places, root: nat, va: nat, w: Walk, events: seq<BaseEvent>, places: seq<nat>)
    requires Forest(f.base, f.tables, at) && DescriptorsOf(f, at, root, va, w) && va < 0x1_0000_0000_0000
    requires ReadsAt(events, places, [w.l0pte, w.l1pte, w.l2pte, w.l3pte])
    ensures VaPageOf(Stage1Reads(events)) == Page(va / 4096 * 4096)
  {
    hide Forest, LevelIndex, EntryAddress, TableIndex, VaPageOf, Stage1Reads, FromIndices, ReadsAt;
    IndexAt(f, at, Node(root, []), va, 0);
    IndexAt(f, at, Node(root, Indices(va)[..1]), va, 1);
    IndexAt(f, at, Node(root, Indices(va)[..2]), va, 2);
    IndexAt(f, at, Node(root, Indices(va)[..3]), va, 3);
    FourReads(events, places, w.l0pte, w.l1pte, w.l2pte, w.l3pte);
    ClearOffset(va);
  }

  /** The four addresses recorded by a walk that reaches level 3 give back the page walked. */
  lemma VaPageInverts(f: Frozen, at: Places, root: nat, va: nat)
    requires Forest(f.base, f.tables, at) && Node(root, []) in at && Node(root, Indices(va)[..3]) in at
    requires va < 0x1_0000_0000_0000
    ensures Recovers(InitialWalk(va, f.base + 4096 * root, f), va)
  {
    hide InitialWalk, Forest, VaPageOf, Stage1Reads, ReadsAt, Flatten, DescriptorsOf;
    WalkDescriptors(f, at, root, va);
    var w := InitialWalk(va, f.base + 4096 * root, f).value;
    forall events: seq<seq<BaseEvent>>, places | ReadsAt(Flatten(events), places, [w.l0pte, w.l1pte, w.l2pte, w.l3pte])
      ensures VaPageOf(Stage1Reads(Flatten(events))) == Page(va / 4096 * 4096)
    {
      PageRecovered(f, at, root, va, w, Flatten(events), places);
    }
  }
}
