/** Enumerating the reads-from relations a memory model allows, by blocking each one found. */
module Exhaustive {
  import opened EventRels

  type Pair = (string, string)

  /** A reads-from relation over the events of a candidate. */
  type Rel = set<Pair>

  /** What is asserted after finding a relation: some pair of it must go. */
  type Clause = seq<Pair>

  predicate Satisfies(m: Rel, clause: Clause) { exists p :: p in clause && p !in m }

  predicate Admits(clauses: seq<Clause>, m: Rel) { forall c | c in clauses :: Satisfies(m, c) }

  function PairsOf(clause: Clause): Rel { set p | p in clause }

  /** Blocking a relation blocks exactly the relations that contain it; the empty one blocks all. */
  lemma ClauseBlocks(clause: Clause, m: Rel)
    ensures Satisfies(m, clause) <==> !(PairsOf(clause) <= m)
  {
    if !(PairsOf(clause) <= m) {
      var p :| p in PairsOf(clause) && p !in m;
      assert p in clause;
    }
  }

  /** What the callback is given: a model with its relation, or no model. */
  datatype Report = Found(rf: Rel) | NoModel

  /** Reads the whole relation out of a model, pair by pair. */
  method InterpretRel(events: seq<string>, m: Rel) returns (rel: seq<Pair>)
    requires forall i, j | 0 <= i < j < |events| :: events[i] != events[j]
    ensures PairsOf(rel) == set p | p in m && p.0 in events && p.1 in events
  {
    rel := [];
    var pairs := new Pairs(events);
    while true
      invariant pairs.Valid() && pairs.slice == events
      invariant forall p | p in rel :: p in m && p.0 in events && p.1 in events
      invariant forall i: nat, j: nat | pairs.Done(i, j) && (events[i], events[j]) in m :: (events[i], events[j]) in rel
      decreases |events| - pairs.row, |events| - pairs.col
    {
      var item, i, j := pairs.Next();
      if item.None? { break; }
      if item.value in m { rel := rel + [item.value]; }
    }
  }

  // ----- runs of the enumeration

  predicate Blocked(found: seq<Rel>, m: Rel) { exists r :: r in found && r <= m }

  /** The relations found so far, each allowed and not blocked by the earlier ones: what an exact solver
      can have answered. */
  ghost predicate IsRun(allowed: set<Rel>, found: seq<Rel>) {
    forall i | 0 <= i < |found| :: found[i] in allowed && !Blocked(found[..i], found[i])
  }

  /** The solver has no answer left. */
  ghost predicate Finished(allowed: set<Rel>, found: seq<Rel>) { forall m | m in allowed :: Blocked(found, m) }

  /** No allowed relation contains another. */
  ghost predicate Antichain(allowed: set<Rel>) { forall a, b | a in allowed && b in allowed && a <= b :: a == b }

  function Elements(found: seq<Rel>): set<Rel> { set r | r in found }

  /** Nothing found contains anything found earlier. */
  lemma NoneRepeats(allowed: set<Rel>, found: seq<Rel>, i: nat, j: nat)
    requires IsRun(allowed, found) && i < j < |found|
    ensures !(found[i] <= found[j])
  {
    assert !Blocked(found[..j], found[j]);
    assert found[..j][i] == found[i] && found[i] in found[..j];
  }

  lemma {:induction false} RunSize(allowed: set<Rel>, found: seq<Rel>)
    requires IsRun(allowed, found)
    ensures |Elements(found)| == |found| <= |allowed| && Elements(found) <= allowed
    decreases found
  {
    if found != [] {
      var n := |found| - 1;
      assert forall i | 0 <= i < n :: found[..n][..i] == found[..i];
      RunSize(allowed, found[..n]);
      assert !Blocked(found[..n], found[n]);
      assert Elements(found) == Elements(found[..n]) + {found[n]};
      SetSize(Elements(found), allowed);
    }
  }

  lemma {:induction false} SetSize<T>(a: set<T>, b: set<T>)
    requires a <= b
    ensures |a| <= |b|
  {
    if a != {} {
      var x :| x in a;
      SetSize(a - {x}, b - {x});
    }
  }

  /** A finished run has found a part of every allowed relation. */
  lemma FinishedAntichain(allowed: set<Rel>, found: seq<Rel>)
    requires IsRun(allowed, found) && Finished(allowed, found) && Antichain(allowed)
    ensures Elements(found) == allowed && |found| == |allowed|
  {
    forall m | m in allowed
      ensures m in found
    {
      assert Blocked(found, m);
      var r :| r in found && r <= m;
      var i :| 0 <= i < |found| && found[i] == r;
      assert found[i] in allowed;
    }
    RunSize(allowed, found);
  }

  /** Any run can be carried on to a finished one. */
  lemma {:induction false} CanFinish(allowed: set<Rel>, found: seq<Rel>) returns (all: seq<Rel>)
    requires IsRun(allowed, found)
    ensures found <= all && IsRun(allowed, all) && Finished(allowed, all)
    decreases |allowed| - |found|
  {
    if Finished(allowed, found) {
      all := found;
    } else {
      var m :| m in allowed && !Blocked(found, m);
      var more := found + [m];
      MoreRun(allowed, found, m);
      RunSize(allowed, more);
      all := CanFinish(allowed, more);
    }
  }

  /** Whatever the solver answers, every allowed relation is found — exactly when none of them contains
      another. */
  lemma CompleteExactly(allowed: set<Rel>)
    ensures Antichain(allowed) <==>
              forall found | IsRun(allowed, found) && Finished(allowed, found) :: Elements(found) == allowed
  {
    if Antichain(allowed) {
      forall found | IsRun(allowed, found) && Finished(allowed, found)
        ensures Elements(found) == allowed
      {
        FinishedAntichain(allowed, found);
      }
    } else {
      var a, b :| a in allowed && b in allowed && a <= b && a != b;
      assert [a][..0] == [];
      assert IsRun(allowed, [a]);
      var found := CanFinish(allowed, [a]);
      assert found[0] == a;
      forall i | 0 <= i < |found|
        ensures found[i] != b
      {
        if i > 0 { NoneRepeats(allowed, found, 0, i); }
      }
    }
  }

  // ----- the loop

  function Relations(clauses: seq<Clause>): seq<Rel> {
    seq(|clauses|, i requires 0 <= i < |clauses| => PairsOf(clauses[i]))
  }

  lemma AdmitsExactly(clauses: seq<Clause>, m: Rel)
    ensures Admits(clauses, m) <==> !Blocked(Relations(clauses), m)
  {
    forall c | c in clauses
      ensures PairsOf(c) in Relations(clauses)
    {
      var i :| 0 <= i < |clauses| && clauses[i] == c;
      assert Relations(clauses)[i] == PairsOf(c);
    }
    if !Admits(clauses, m) {
      var c :| c in clauses && !Satisfies(m, c);
      ClauseBlocks(c, m);
    }
    if Blocked(Relations(clauses), m) {
      var r :| r in Relations(clauses) && r <= m;
      var i :| 0 <= i < |clauses| && Relations(clauses)[i] == r;
      ClauseBlocks(clauses[i], m);
    }
  }

  function Reports(found: seq<Rel>): seq<Report> { seq(|found|, i requires 0 <= i < |found| => Found(found[i])) }

  /** Asks for a model that no earlier clause rules out, reports it and blocks it, until there is none. The
      callback is told that there is no model only if the first answer is that. */
  method Exhaust(events: seq<string>, allowed: set<Rel>, callback: Report -> bool)
      returns (ghost found: seq<Rel>, reports: seq<Report>, ok: bool)
    requires forall i, j | 0 <= i < j < |events| :: events[i] != events[j]
    requires forall m, p | m in allowed && p in m :: p.0 in events && p.1 in events
    ensures IsRun(allowed, found)
    ensures reports == if allowed == {} then [NoModel] else Reports(found)
    ensures ok ==> Finished(allowed, found) && forall r | r in reports :: callback(r)
    ensures !ok ==> reports != [] && !callback(reports[|reports| - 1])
    ensures ok && Antichain(allowed) ==> Elements(found) == allowed && |found| == |allowed|
  {
    var negated: seq<Clause> := [];
    var firstRun := true;
    reports, found := [], [];
    while true
      invariant found == Relations(negated) && IsRun(allowed, found)
      invariant reports == Reports(found) && (firstRun <==> found == [])
      invariant forall r | r in reports :: callback(r)
      decreases |allowed| - |found|
    {
      forall m
        ensures Admits(negated, m) <==> !Blocked(found, m)
      {
        AdmitsExactly(negated, m);
      }
      if m :| m in allowed && Admits(negated, m) {
        var rf := InterpretRel(events, m);
        assert PairsOf(rf) == m;
        MoreRun(allowed, found, m);
        negated := negated + [rf];
        found := found + [m];
        reports := reports + [Found(m)];
        if !callback(Found(m)) { return found, reports, false; }
        firstRun := false;
        RunSize(allowed, found);
      } else if !firstRun {
        if Antichain(allowed) { FinishedAntichain(allowed, found); }
        return found, reports, true;
      } else {
        forall m
          ensures m !in allowed
        {
          assert !Blocked([], m);
        }
        return found, [NoModel], callback(NoModel);
      }
    }
  }

  lemma MoreRun(allowed: set<Rel>, found: seq<Rel>, m: Rel)
    requires IsRun(allowed, found) && m in allowed && !Blocked(found, m)
    ensures IsRun(allowed, found + [m])
  {
    var more := found + [m];
    forall i | 0 <= i < |more|
      ensures more[i] in allowed && !Blocked(more[..i], more[i])
    {
      if i < |found| {
        assert more[..i] == found[..i] && found[i] in allowed && !Blocked(found[..i], found[i]);
      } else {
        assert more[..i] == found;
      }
    }
  }
}
