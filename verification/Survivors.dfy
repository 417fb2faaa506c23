/** Which registers stay touched: chains whose overwritten registers survive. */
module Survivors {
  import opened Wrappers
  import opened Footprints

  /** The registers that start to count just before a position. */
  type Starts = map<int, set<RegisterField>>

  function StartsAt(starts: Starts, i: int): set<RegisterField> { if i in starts then starts[i] else {} }

  /** A chain of definitions and uses from one of the starts. */
  ghost predicate Route(p: Thread, starts: Starts, lo: int, hi: int, hops: seq<Hop>) {
    && hops != [] && lo <= hops[0].since <= hi && hops[0].reg in StartsAt(starts, hops[0].since)
    && Chain(p, {hops[0].reg}, hops[0].since, hi, hops)
  }

  /** A register of the chain is overwritten only by instructions that use a surviving register. */
  ghost predicate Spared(p: Thread, starts: Starts, lo: int, hi: int, hops: seq<Hop>)
    decreases hi - lo, 0
  {
    forall i, j | 0 <= i < |hops| && hops[i].since <= j < Until(hops, i, hi) && lo <= j < hi && WritesAt(p, j, hops[i].reg) ::
      Active(p, starts, lo, j)
  }

  /** A surviving chain leads to the register. */
  ghost predicate Survives(p: Thread, starts: Starts, lo: int, hi: int, r: RegisterField)
    decreases hi - lo, 1
  {
    exists hops: seq<Hop> ::
      Route(p, starts, lo, hi, hops) && hops[|hops| - 1].reg == r && Spared(p, starts, lo, hi, hops)
  }

  /** Instruction `k` uses a surviving register to define another. */
  ghost predicate Active(p: Thread, starts: Starts, lo: int, k: int)
    decreases k - lo, 2
  {
    exists a, w :: Survives(p, starts, lo, k, a) && LinkAt(p, k, a, w)
  }

  // ----- one instruction

  function AdvancedAt(p: Thread, i: int, touched: set<RegisterField>): set<RegisterField> {
    if 0 <= i < |p| && p[i].Some? then Advanced(p[i].value, touched) else touched
  }

  /** A register is touched afterwards if it is linked to from a touched one, or was touched and is not
      written, or is written by an instruction that links some touched register. */
  ghost predicate TouchedAfter(p: Thread, k: int, touched: set<RegisterField>, r: RegisterField) {
    || (exists a :: a in touched && LinkAt(p, k, a, r))
    || (r in touched && (!WritesAt(p, k, r) || exists a, w :: a in touched && LinkAt(p, k, a, w)))
  }

  lemma AdvancedExact(p: Thread, k: int, touched: set<RegisterField>, r: RegisterField)
    ensures r in AdvancedAt(p, k, touched) <==> TouchedAfter(p, k, touched, r)
  {
    if 0 <= k < |p| && p[k].Some? {
      var fp := p[k].value;
      FlowLinks(fp, touched);
      assert forall a, w :: LinkAt(p, k, a, w) <==> Link(fp, a, w);
      hide Flow, Link;
      if Flow(fp, touched) == {} {
        assert forall a, w | a in touched && Link(fp, a, w) :: w in Flow(fp, touched);
      } else {
        var w :| w in Flow(fp, touched);
      }
    }
  }

  lemma FlowLinks(fp: Footprint, touched: set<RegisterField>)
    ensures forall w :: w in Flow(fp, touched) <==> exists a :: a in touched && Link(fp, a, w)
  {
    forall w
      ensures w in Flow(fp, touched) <==> exists a :: a in touched && Link(fp, a, w)
    {
      if w in Flow(fp, touched) { var a := FlowFrom(fp, touched, w); }
      if a :| a in touched && Link(fp, a, w) { FlowInto(fp, touched, a, w); }
    }
  }

  // ----- the sets are exactly what surviving chains reach

  /** What counts before instruction `hi`, with the starts on the way. */
  function Flowing(p: Thread, starts: Starts, lo: int, hi: int): set<RegisterField>
    decreases hi - lo
  {
    if lo >= hi then StartsAt(starts, lo)
    else AdvancedAt(p, hi - 1, Flowing(p, starts, lo, hi - 1)) + StartsAt(starts, hi)
  }

  lemma RouteStarts(p: Thread, starts: Starts, lo: int, hi: int, r: RegisterField)
    requires lo <= hi && r in StartsAt(starts, hi)
    ensures Survives(p, starts, lo, hi, r)
  {
    var hops := [Hop(r, hi)];
    assert Chain(p, {r}, hi, hi, hops);
    assert Route(p, starts, lo, hi, hops);
    assert Spared(p, starts, lo, hi, hops);
  }

  lemma RouteStays(p: Thread, starts: Starts, lo: int, hi: int, hops: seq<Hop>)
    requires lo < hi && Route(p, starts, lo, hi - 1, hops)
    ensures Route(p, starts, lo, hi, hops)
  {
    LastHop(p, {hops[0].reg}, hops[0].since, hi - 1, hops);
    hide LinkAt;
  }

  lemma RouteExtends(p: Thread, starts: Starts, lo: int, hi: int, hops: seq<Hop>, r: RegisterField)
    requires lo < hi && Route(p, starts, lo, hi - 1, hops) && LinkAt(p, hi - 1, hops[|hops| - 1].reg, r)
    ensures Route(p, starts, lo, hi, hops + [Hop(r, hi)])
  {
    LastHop(p, {hops[0].reg}, hops[0].since, hi - 1, hops);
    ChainExtends(p, {hops[0].reg}, hops[0].since, hi, hops, r);
    hide LinkAt, Chain;
  }

  lemma RouteBound(p: Thread, starts: Starts, lo: int, hi: int, hops: seq<Hop>)
    requires Route(p, starts, lo, hi, hops)
    ensures forall i | 0 <= i < |hops| :: lo <= hops[i].since <= hi
  {
    forall i | 0 <= i < |hops|
      ensures lo <= hops[i].since
    {
      Increasing(hops, 0, i);
    }
    hide LinkAt;
  }

  lemma SparedStays(p: Thread, starts: Starts, lo: int, hi: int, hops: seq<Hop>)
    requires lo < hi && Route(p, starts, lo, hi - 1, hops) && Spared(p, starts, lo, hi - 1, hops)
    requires WritesAt(p, hi - 1, hops[|hops| - 1].reg) ==> Active(p, starts, lo, hi - 1)
    ensures Spared(p, starts, lo, hi, hops)
  {
    RouteBound(p, starts, lo, hi - 1, hops);
    hide Active, WritesAt, Route;
    forall i, j | 0 <= i < |hops| && hops[i].since <= j < Until(hops, i, hi) && lo <= j < hi && WritesAt(p, j, hops[i].reg)
      ensures Active(p, starts, lo, j)
    {
      if j < hi - 1 { assert j < Until(hops, i, hi - 1); } else { assert i == |hops| - 1; }
    }
  }

  lemma SparedExtends(p: Thread, starts: Starts, lo: int, hi: int, hops: seq<Hop>, r: RegisterField)
    requires lo < hi && Route(p, starts, lo, hi - 1, hops) && Spared(p, starts, lo, hi - 1, hops)
    ensures Spared(p, starts, lo, hi, hops + [Hop(r, hi)])
  {
    RouteBound(p, starts, lo, hi - 1, hops);
    var longer := hops + [Hop(r, hi)];
    hide Active, WritesAt, Route;
    forall i, j | 0 <= i < |longer| && longer[i].since <= j < Until(longer, i, hi) && lo <= j < hi && WritesAt(p, j, longer[i].reg)
      ensures Active(p, starts, lo, j)
    {
      if i < |hops| {
        assert longer[i] == hops[i] && (i + 1 < |hops| ==> longer[i + 1] == hops[i + 1]);
        assert j < Until(hops, i, hi - 1);
      }
    }
  }

  /** One instruction later a surviving chain goes on as the touched registers do. */
  lemma SurvivesNext(p: Thread, starts: Starts, lo: int, hi: int, a: RegisterField, r: RegisterField)
    requires lo < hi && Survives(p, starts, lo, hi - 1, a)
    requires LinkAt(p, hi - 1, a, r) || (a == r && (WritesAt(p, hi - 1, r) ==> Active(p, starts, lo, hi - 1)))
    ensures Survives(p, starts, lo, hi, r)
  {
    var hops: seq<Hop> :|
      Route(p, starts, lo, hi - 1, hops) && hops[|hops| - 1].reg == a && Spared(p, starts, lo, hi - 1, hops);
    hide Route, Spared, Active, WritesAt;
    if LinkAt(p, hi - 1, a, r) {
      RouteExtends(p, starts, lo, hi, hops, r);
      SparedExtends(p, starts, lo, hi, hops, r);
      Witness(p, starts, lo, hi, hops + [Hop(r, hi)]);
    } else {
      RouteStays(p, starts, lo, hi, hops);
      SparedStays(p, starts, lo, hi, hops);
      Witness(p, starts, lo, hi, hops);
    }
  }

  lemma Witness(p: Thread, starts: Starts, lo: int, hi: int, hops: seq<Hop>)
    requires Route(p, starts, lo, hi, hops) && Spared(p, starts, lo, hi, hops)
    ensures hops != [] && Survives(p, starts, lo, hi, hops[|hops| - 1].reg)
  {
    hide Spared;
  }

  /** A surviving chain one instruction earlier: it starts here, or its last step is one of those above. */
  lemma SurvivesBefore(p: Thread, starts: Starts, lo: int, hi: int, hops: seq<Hop>) returns (a: RegisterField)
    requires lo < hi && Route(p, starts, lo, hi, hops) && Spared(p, starts, lo, hi, hops)
    ensures var r := hops[|hops| - 1].reg;
            || r in StartsAt(starts, hi)
            || (Survives(p, starts, lo, hi - 1, a)
                && (LinkAt(p, hi - 1, a, r) || (a == r && (WritesAt(p, hi - 1, r) ==> Active(p, starts, lo, hi - 1)))))
  {
    RouteBound(p, starts, lo, hi, hops);
    var n := |hops| - 1;
    a := hops[if n > 0 && hops[n].since == hi then n - 1 else n].reg;
    hide Spared, Survives, Active, WritesAt, LinkAt;
    if hops[n].since < hi {
      SurvivesIdle(p, starts, lo, hi, hops);
    } else if n > 0 {
      SurvivesLinked(p, starts, lo, hi, hops);
    }
  }

  /** Nothing happens to the chain at the last instruction. */
  lemma SurvivesIdle(p: Thread, starts: Starts, lo: int, hi: int, hops: seq<Hop>)
    requires lo < hi && Route(p, starts, lo, hi, hops) && Spared(p, starts, lo, hi, hops)
    requires hops[|hops| - 1].since < hi
    ensures var r := hops[|hops| - 1].reg;
            Survives(p, starts, lo, hi - 1, r) && (WritesAt(p, hi - 1, r) ==> Active(p, starts, lo, hi - 1))
  {
    var n := |hops| - 1;
    RouteBound(p, starts, lo, hi, hops);
    LastHop(p, {hops[0].reg}, hops[0].since, hi, hops);
    hide Active, WritesAt, Survives, LinkAt;
    assert Until(hops, n, hi) == hi;
    SparedBefore(p, starts, lo, hi, hops, hops);
    Witness(p, starts, lo, hi - 1, hops);
  }

  /** The last instruction makes the last step of the chain. */
  lemma SurvivesLinked(p: Thread, starts: Starts, lo: int, hi: int, hops: seq<Hop>)
    requires lo < hi && Route(p, starts, lo, hi, hops) && Spared(p, starts, lo, hi, hops)
    requires |hops| > 1 && hops[|hops| - 1].since == hi
    ensures Survives(p, starts, lo, hi - 1, hops[|hops| - 2].reg)
    ensures LinkAt(p, hi - 1, hops[|hops| - 2].reg, hops[|hops| - 1].reg)
  {
    var n := |hops| - 1;
    var before := hops[..n];
    LastHop(p, {hops[0].reg}, hops[0].since, hi, hops);
    Increasing(hops, 0, n);
    hide Active, WritesAt, Survives, LinkAt, Spared;
    assert LinkAt(p, hops[n].since - 1, hops[n - 1].reg, hops[n].reg);
    SparedBefore(p, starts, lo, hi, hops, before);
    Witness(p, starts, lo, hi - 1, before);
  }

  lemma SparedBefore(p: Thread, starts: Starts, lo: int, hi: int, hops: seq<Hop>, before: seq<Hop>)
    requires hops != [] && Spared(p, starts, lo, hi, hops)
    requires before == hops || (before == hops[..|hops| - 1] && hops[|hops| - 1].since == hi)
    ensures Spared(p, starts, lo, hi - 1, before)
  {
    hide WritesAt, Active;
    forall i, j | 0 <= i < |before| && before[i].since <= j < Until(before, i, hi - 1) && lo <= j < hi - 1
                  && WritesAt(p, j, before[i].reg)
      ensures Active(p, starts, lo, j)
    {
      assert before[i] == hops[i] && j < Until(hops, i, hi);
    }
  }

  /** Touched is exactly what surviving chains reach. */
  lemma {:induction false} FlowingExact(p: Thread, starts: Starts, lo: int, hi: int, r: RegisterField)
    requires lo <= hi
    ensures r in Flowing(p, starts, lo, hi) <==> Survives(p, starts, lo, hi, r)
    decreases hi - lo
  {
    if r in StartsAt(starts, hi) {
      RouteStarts(p, starts, lo, hi, r);
    } else if lo == hi {
      if Survives(p, starts, lo, hi, r) {
        var hops: seq<Hop> :| Route(p, starts, lo, hi, hops) && hops[|hops| - 1].reg == r && Spared(p, starts, lo, hi, hops);
        RouteBound(p, starts, lo, hi, hops);
        LastHop(p, {hops[0].reg}, hops[0].since, hi, hops);
      }
    } else {
      var k := hi - 1;
      forall a
        ensures a in Flowing(p, starts, lo, k) <==> Survives(p, starts, lo, k, a)
      {
        FlowingExact(p, starts, lo, k, a);
      }
      FlowingStep(p, starts, lo, k, hi, r);
    }
  }

  lemma FlowingStep(p: Thread, starts: Starts, lo: int, k: int, hi: int, r: RegisterField)
    requires lo <= k == hi - 1 && r !in StartsAt(starts, hi)
    requires forall a :: a in Flowing(p, starts, lo, k) <==> Survives(p, starts, lo, k, a)
    ensures r in Flowing(p, starts, lo, hi) <==> Survives(p, starts, lo, hi, r)
  {
    var t := Flowing(p, starts, lo, k);
    AdvancedExact(p, k, t, r);
    assert r in Flowing(p, starts, lo, hi) <==> TouchedAfter(p, k, t, r);
    assert (exists a, w :: a in t && LinkAt(p, k, a, w)) <==> Active(p, starts, lo, k);
    hide Flowing, LinkAt, WritesAt, Active, AdvancedAt, Survives;
    if TouchedAfter(p, k, t, r) {
      if a :| a in t && LinkAt(p, k, a, r) {
        SurvivesNext(p, starts, lo, hi, a, r);
      } else {
        SurvivesNext(p, starts, lo, hi, r, r);
      }
    }
    if Survives(p, starts, lo, hi, r) {
      var hops := Surviving(p, starts, lo, hi, r);
      var a := SurvivesBefore(p, starts, lo, hi, hops);
      assert a in t;
    }
  }

  lemma Surviving(p: Thread, starts: Starts, lo: int, hi: int, r: RegisterField) returns (hops: seq<Hop>)
    requires Survives(p, starts, lo, hi, r)
    ensures Route(p, starts, lo, hi, hops) && hops[|hops| - 1].reg == r && Spared(p, starts, lo, hi, hops)
  {
    hide Spared;
    hops :| Route(p, starts, lo, hi, hops) && hops[|hops| - 1].reg == r && Spared(p, starts, lo, hi, hops);
  }

  // ----- the two sets of the analysis

  lemma {:induction false} TouchedFlows(p: Thread, seeds: set<RegisterField>, lo: int, hi: int)
    requires lo <= hi
    ensures Touched(p, seeds, lo, hi) == Flowing(p, map[lo := seeds], lo, hi)
    decreases hi - lo
  {
    hide Advanced;
    if lo < hi { TouchedFlows(p, seeds, lo, hi - 1); }
  }

  /** The touched set is exactly the registers that surviving chains from the seeds reach. */
  lemma TouchedExact(p: Thread, seeds: set<RegisterField>, lo: int, hi: int, r: RegisterField)
    requires lo <= hi
    ensures r in Touched(p, seeds, lo, hi) <==> Survives(p, map[lo := seeds], lo, hi, r)
  {
    TouchedFlows(p, seeds, lo, hi);
    FlowingExact(p, map[lo := seeds], lo, hi, r);
  }
}
