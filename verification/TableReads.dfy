/** What a translation could see in the page tables: the initial descriptors and what is written over them. */
module TableReads {
  import opened Wrappers
  import opened Extraction
  import opened Translates

  /** The descriptor at this address after the writes, in their order. */
  function SeenAt(initial: nat -> nat, writes: seq<(nat, nat)>, a: nat): nat {
    if writes == [] then initial(a)
    else
      var w := writes[|writes| - 1];
      if w.0 == a then w.1 else SeenAt(initial, writes[..|writes| - 1], a)
  }

  /** The descriptor at this address can change: the setup says so or an event writes to the tables there. */
  ghost predicate Writable(events: seq<AxEvent>, updated: set<nat>, a: nat) {
    a in updated
    || exists ax, b :: ax in events && b in ax.base && b.event.WriteMem? && b.event.inTable && b.event.address == Some(a)
  }

  ghost predicate Possible(events: seq<AxEvent>, updated: set<nat>, writes: seq<(nat, nat)>) {
    forall k | 0 <= k < |writes| :: Writable(events, updated, writes[k].0)
  }

  /** Whatever is written, a read of this address sees the initial descriptor, and that is not zero. */
  ghost predicate Fixed(events: seq<AxEvent>, updated: set<nat>, initial: nat -> nat, a: nat) {
    initial(a) != 0 && forall writes | Possible(events, updated, writes) :: SeenAt(initial, writes, a) == initial(a)
  }

  /** The event is a single read of a known address by a translation. */
  predicate TableRead(ax: AxEvent) {
    ax.translate.Some? && |ax.base| == 1 && ax.base[0].event.ReadMem? && ax.base[0].event.address.Some?
  }

  ghost predicate FixedRead(events: seq<AxEvent>, updated: set<nat>, initial: nat -> nat, ax: AxEvent)
    requires TableRead(ax)
  {
    Fixed(events, updated, initial, ax.base[0].event.address.value)
  }

  /** The event is of no interest to the solver: it is a read that sees its initial, non-zero descriptor
      whatever is written or, when translations are kept whole, all such reads of its translation do. */
  ghost predicate Uninteresting(events: seq<AxEvent>, updated: set<nat>, initial: nat -> nat, entire: bool, ax: AxEvent) {
    if entire then
      ax.translate.Some? && forall r | r in events && r.translate == ax.translate && TableRead(r) :: FixedRead(events, updated, initial, r)
    else TableRead(ax) && FixedRead(events, updated, initial, ax)
  }

  lemma {:induction false} SeesInitial(events: seq<AxEvent>, updated: set<nat>, initial: nat -> nat, writes: seq<(nat, nat)>, a: nat)
    requires Possible(events, updated, writes) && !Writable(events, updated, a)
    ensures SeenAt(initial, writes, a) == initial(a)
    decreases |writes|
  {
    if writes != [] {
      var n := |writes| - 1;
      assert Writable(events, updated, writes[n].0);
      SeesInitial(events, updated, initial, writes[..n], a);
    }
  }

  /** A descriptor is fixed exactly if it is not zero and nothing can write it. */
  lemma FixedExactly(events: seq<AxEvent>, updated: set<nat>, initial: nat -> nat, a: nat)
    ensures Fixed(events, updated, initial, a) <==> initial(a) != 0 && !Writable(events, updated, a)
  {
    hide Writable;
    if Writable(events, updated, a) {
      var w := [(a, initial(a) + 1)];
      assert Possible(events, updated, w);
      assert SeenAt(initial, w, a) == initial(a) + 1;
    } else {
      forall writes | Possible(events, updated, writes) ensures SeenAt(initial, writes, a) == initial(a) {
        SeesInitial(events, updated, initial, writes, a);
      }
    }
  }

  lemma CanChangeExactly(events: seq<AxEvent>, writes: set<nat>, updated: set<nat>, initial: nat -> nat, a: nat)
    requires WriteSet(events, writes)
    ensures CanChange(a, writes, updated, initial) <==> !Fixed(events, updated, initial, a)
  {
    FixedExactly(events, updated, initial, a);
    hide Fixed;
    assert a in writes ==> WritesTo(events, a);
  }

  /** Removal moves exactly the events that are of no interest. */
  lemma RemovalExact(events: seq<AxEvent>, ax: AxEvent, writes: set<nat>, updated: set<nat>, initial: nat -> nat, entire: bool)
    requires WriteSet(events, writes) && AllConcrete(events) && ax in events
    ensures Stays(events, ax, writes, updated, initial, entire) <==> !Uninteresting(events, updated, initial, entire, ax)
  {
    forall r | r in events && TableRead(r)
      ensures CanChange(r.base[0].event.address.value, writes, updated, initial) <==> !FixedRead(events, updated, initial, r)
    {
      CanChangeExactly(events, writes, updated, initial, r.base[0].event.address.value);
    }
    hide CanChange, WriteSet, Fixed;
  }
}
