/** Transitive closures over a domain of events, and the axioms the cat compiler emits for them. */
module Closures {
  import opened Sexps

  type Relation = iset<(Event, Event)>

  /** There is a path from x to y of n + 1 edges through the domain. */
  ghost predicate Reach(dom: iset<Event>, r: Relation, x: Event, y: Event, n: nat)
    decreases n
  {
    if n == 0 then (x, y) in r else exists z | z in dom :: (x, z) in r && Reach(dom, r, z, y, n - 1)
  }

  ghost predicate Connected(dom: iset<Event>, r: Relation, x: Event, y: Event) {
    exists n: nat :: Reach(dom, r, x, y, n)
  }

  /** The least transitive relation containing `r`. */
  ghost function TransitiveClosure(dom: iset<Event>, r: Relation): Relation {
    iset x, y | x in dom && y in dom && Connected(dom, r, x, y) :: (x, y)
  }

  ghost predicate Includes(dom: iset<Event>, r: Relation, t: Relation) {
    forall x, y | x in dom && y in dom :: (x, y) in r ==> (x, y) in t
  }

  ghost predicate Transitive(dom: iset<Event>, t: Relation) {
    forall x, y, z | x in dom && y in dom && z in dom :: (x, y) in t && (y, z) in t ==> (x, z) in t
  }

  /** The emitted reflexivity axiom speaks only of events some pair already relates. */
  ghost predicate FieldReflexive(dom: iset<Event>, t: Relation) {
    forall x, y | x in dom && y in dom :: (x, y) in t ==> (x, x) in t && (y, y) in t
  }

  ghost predicate Irreflexive(dom: iset<Event>, t: Relation) { forall x | x in dom :: (x, x) !in t }

  ghost predicate Acyclic(dom: iset<Event>, r: Relation) { forall x | x in dom :: !Connected(dom, r, x, x) }

  lemma {:induction false} ReachConcat(dom: iset<Event>, r: Relation, x: Event, y: Event, z: Event, m: nat, n: nat)
    requires y in dom && Reach(dom, r, x, y, m) && Reach(dom, r, y, z, n)
    ensures Reach(dom, r, x, z, m + n + 1)
    decreases m
  {
    if m > 0 {
      var w :| w in dom && (x, w) in r && Reach(dom, r, w, y, m - 1);
      ReachConcat(dom, r, w, y, z, m - 1, n);
    }
  }

  lemma {:induction false} ReachWithin(dom: iset<Event>, r: Relation, t: Relation, x: Event, y: Event, n: nat)
    requires x in dom && y in dom && Includes(dom, r, t) && Transitive(dom, t) && Reach(dom, r, x, y, n)
    ensures (x, y) in t
    decreases n
  {
    if n > 0 {
      var z :| z in dom && (x, z) in r && Reach(dom, r, z, y, n - 1);
      ReachWithin(dom, r, t, z, y, n - 1);
    }
  }

  /** The closure satisfies the emitted inclusion and transitivity axioms, and every relation that
      satisfies them contains it. */
  lemma LeastClosure(dom: iset<Event>, r: Relation)
    ensures Includes(dom, r, TransitiveClosure(dom, r)) && Transitive(dom, TransitiveClosure(dom, r))
    ensures forall t | Includes(dom, r, t) && Transitive(dom, t) :: Includes(dom, TransitiveClosure(dom, r), t)
  {
    var tc := TransitiveClosure(dom, r);
    assert forall x, y | x in dom && y in dom && (x, y) in r :: Reach(dom, r, x, y, 0);
    forall x, y, z | x in dom && y in dom && z in dom && (x, y) in tc && (y, z) in tc
      ensures (x, z) in tc
    {
      var m: nat :| Reach(dom, r, x, y, m);
      var n: nat :| Reach(dom, r, y, z, n);
      ReachConcat(dom, r, x, y, z, m, n);
    }
    forall t, x, y | Includes(dom, r, t) && Transitive(dom, t) && x in dom && y in dom && (x, y) in tc
      ensures (x, y) in t
    {
      var n: nat :| Reach(dom, r, x, y, n);
      ReachWithin(dom, r, t, x, y, n);
    }
  }

  /** The emitted acyclicity axioms have a model exactly when the relation has no cycle. */
  lemma AcyclicExact(dom: iset<Event>, r: Relation)
    ensures (exists t :: Includes(dom, r, t) && Transitive(dom, t) && Irreflexive(dom, t)) <==> Acyclic(dom, r)
  {
    var tc := TransitiveClosure(dom, r);
    LeastClosure(dom, r);
    if Acyclic(dom, r) {
      assert Includes(dom, r, tc) && Transitive(dom, tc) && Irreflexive(dom, tc);
    }
    forall t, x | Includes(dom, r, t) && Transitive(dom, t) && Irreflexive(dom, t) && x in dom
      ensures !Connected(dom, r, x, x)
    {
      assert Includes(dom, tc, t);
    }
  }

  ghost predicate InField(dom: iset<Event>, r: Relation, x: Event) {
    exists y | y in dom :: (x, y) in r || (y, x) in r
  }

  /** What the emitted reflexive-transitive axioms force: the closure, reflexive on its field. */
  ghost function FieldClosure(dom: iset<Event>, r: Relation): Relation {
    iset x, y | x in dom && y in dom && (Connected(dom, r, x, y) || (x == y && InField(dom, r, x))) :: (x, y)
  }

  ghost predicate ReflexiveAxioms(dom: iset<Event>, r: Relation, t: Relation) {
    Includes(dom, r, t) && FieldReflexive(dom, t) && Transitive(dom, t)
  }

  lemma {:induction false} EndsInField(dom: iset<Event>, r: Relation, x: Event, y: Event, n: nat)
    requires x in dom && y in dom && Reach(dom, r, x, y, n)
    ensures InField(dom, r, x) && InField(dom, r, y)
    decreases n
  {
    if n > 0 {
      var z :| z in dom && (x, z) in r && Reach(dom, r, z, y, n - 1);
      EndsInField(dom, r, z, y, n - 1);
    }
  }

  lemma LeastFieldClosure(dom: iset<Event>, r: Relation)
    ensures ReflexiveAxioms(dom, r, FieldClosure(dom, r))
    ensures forall t | ReflexiveAxioms(dom, r, t) :: Includes(dom, FieldClosure(dom, r), t)
  {
    var tc, fc := TransitiveClosure(dom, r), FieldClosure(dom, r);
    LeastClosure(dom, r);
    forall x, y | x in dom && y in dom && (x, y) in fc
      ensures (x, x) in fc && (y, y) in fc
    {
      if Connected(dom, r, x, y) {
        var n: nat :| Reach(dom, r, x, y, n);
        EndsInField(dom, r, x, y, n);
      }
    }
    forall x, y, z | x in dom && y in dom && z in dom && (x, y) in fc && (y, z) in fc
      ensures (x, z) in fc
    {
      assert (x, y) in tc || x == y;
      assert (y, z) in tc || y == z;
    }
    forall t, x, y | ReflexiveAxioms(dom, r, t) && x in dom && y in dom && (x, y) in fc
      ensures (x, y) in t
    {
      assert Includes(dom, tc, t);
    }
  }

  /** The axioms pin down the full reflexive-transitive closure from below exactly when every event
      is related to something; an isolated event need not be related to itself. */
  lemma ReflexiveEverywhere(dom: iset<Event>, r: Relation)
    ensures (forall t | ReflexiveAxioms(dom, r, t) :: forall x | x in dom :: (x, x) in t)
            <==> (forall x | x in dom :: InField(dom, r, x))
  {
    var fc := FieldClosure(dom, r);
    LeastFieldClosure(dom, r);
    if forall x | x in dom :: InField(dom, r, x) {
      forall t, x | ReflexiveAxioms(dom, r, t) && x in dom
        ensures (x, x) in t
      {
        assert Includes(dom, fc, t) && (x, x) in fc;
      }
    }
    if x :| x in dom && !InField(dom, r, x) {
      assert (x, x) !in fc by {
        if n: nat :| Reach(dom, r, x, x, n) {
          EndsInField(dom, r, x, x, n);
          assert false;
        }
      }
    }
  }
}
