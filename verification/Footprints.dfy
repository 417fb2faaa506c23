/** Which registers an instruction can affect before a later one: chains of definitions and uses, and
    the sets the analysis computes for them. */
module Footprints {
  import opened Wrappers

  type Name = nat

  /** A register with the path to a part of it. */
  type RegisterField = (Name, seq<nat>)

  type Opcode = nat

  datatype Footprint = Footprint(
    writeDataTaints: set<RegisterField>,
    memAddrTaints: set<RegisterField>,
    branchAddrTaints: set<RegisterField>,
    regReads: set<RegisterField>,
    regWrites: set<RegisterField>,
    writesTainted: set<RegisterField>,
    writesIgnored: set<(Option<Name>, Name)>,
    pickDeps: map<Name, set<RegisterField>>,
    isStore: bool,
    isLoad: bool,
    isBranch: bool,
    isExclusive: bool,
    isSystemRegisterWrite: bool)

  /** The footprints along one thread; an instruction that was not executed has none. */
  type Thread = seq<Option<Footprint>>

  predicate Ignored(fp: Footprint, r: RegisterField, w: RegisterField) {
    (None, w.0) in fp.writesIgnored || (Some(r.0), w.0) in fp.writesIgnored
  }

  /** The instruction uses `r` and defines `w`, and the pair is tracked. */
  predicate Link(fp: Footprint, r: RegisterField, w: RegisterField) {
    r in fp.regReads && w in fp.regWrites && !Ignored(fp, r, w)
  }

  predicate LinkAt(p: Thread, k: int, r: RegisterField, w: RegisterField) {
    0 <= k < |p| && p[k].Some? && Link(p[k].value, r, w)
  }

  predicate WritesAt(p: Thread, k: int, r: RegisterField) { 0 <= k < |p| && p[k].Some? && r in p[k].value.regWrites }

  // ----- chains of definitions and uses

  /** A register, defined just before position `since`. */
  datatype Hop = Hop(reg: RegisterField, since: int)

  /** A chain that starts in `seeds` before position `lo` and uses instructions before `hi`. */
  ghost predicate Chain(p: Thread, seeds: set<RegisterField>, lo: int, hi: int, hops: seq<Hop>) {
    && hops != [] && hops[0].reg in seeds && hops[0].since == lo
    && (forall i | 0 < i < |hops| ::
          hops[i - 1].since < hops[i].since <= hi && LinkAt(p, hops[i].since - 1, hops[i - 1].reg, hops[i].reg))
  }

  /** Where the register of a hop has been used by the next one, or the end. */
  function Until(hops: seq<Hop>, i: nat, hi: int): int
    requires i < |hops|
  {
    if i + 1 < |hops| then hops[i + 1].since - 1 else hi
  }

  /** No register of the chain is written between its definition and its use. */
  ghost predicate Unbroken(p: Thread, hi: int, hops: seq<Hop>) {
    forall i, j | 0 <= i < |hops| && hops[i].since <= j < Until(hops, i, hi) :: !WritesAt(p, j, hops[i].reg)
  }

  ghost predicate Reaches(p: Thread, seeds: set<RegisterField>, lo: int, hi: int, r: RegisterField) {
    exists hops: seq<Hop> :: Chain(p, seeds, lo, hi, hops) && hops[|hops| - 1].reg == r
  }

  ghost predicate ReachesUnbroken(p: Thread, seeds: set<RegisterField>, lo: int, hi: int, r: RegisterField) {
    exists hops: seq<Hop> :: Chain(p, seeds, lo, hi, hops) && Unbroken(p, hi, hops) && hops[|hops| - 1].reg == r
  }

  // ----- the sets

  /** What the instruction newly touches. */
  function Flow(fp: Footprint, touched: set<RegisterField>): set<RegisterField> {
    set r, w | r in touched && w in fp.regWrites && Link(fp, r, w) :: w
  }

  /** Overwritten registers are dropped only by an instruction that newly touches nothing. */
  function Advanced(fp: Footprint, touched: set<RegisterField>): set<RegisterField> {
    if Flow(fp, touched) == {} then touched - fp.regWrites else touched + Flow(fp, touched)
  }

  function Touched(p: Thread, seeds: set<RegisterField>, lo: int, hi: int): set<RegisterField>
    decreases hi - lo
  {
    if lo >= hi then seeds
    else
      var t := Touched(p, seeds, lo, hi - 1);
      if 0 <= hi - 1 < |p| && p[hi - 1].Some? then Advanced(p[hi - 1].value, t) else t
  }

  /** The same without dropping anything. */
  function Spread(p: Thread, seeds: set<RegisterField>, lo: int, hi: int): set<RegisterField>
    decreases hi - lo
  {
    if lo >= hi then seeds
    else
      var t := Spread(p, seeds, lo, hi - 1);
      if 0 <= hi - 1 < |p| && p[hi - 1].Some? then t + Flow(p[hi - 1].value, t) else t
  }

  lemma FlowFrom(fp: Footprint, touched: set<RegisterField>, w: RegisterField) returns (r: RegisterField)
    requires w in Flow(fp, touched)
    ensures r in touched && Link(fp, r, w)
  {
    r :| r in touched && w in fp.regWrites && Link(fp, r, w);
  }

  lemma FlowInto(fp: Footprint, touched: set<RegisterField>, r: RegisterField, w: RegisterField)
    requires r in touched && Link(fp, r, w)
    ensures w in Flow(fp, touched)
  {
  }

  /** A chain ends at its last hop, or its last link is the last instruction. */
  lemma LastHop(p: Thread, seeds: set<RegisterField>, lo: int, hi: int, hops: seq<Hop>)
    requires Chain(p, seeds, lo, hi, hops) && lo <= hi
    ensures lo <= hops[|hops| - 1].since <= hi
    ensures lo == hi ==> |hops| == 1
    ensures hops[|hops| - 1].since < hi ==> Chain(p, seeds, lo, hi - 1, hops)
    ensures lo < hi == hops[|hops| - 1].since ==> |hops| > 1 && Chain(p, seeds, lo, hi - 1, hops[..|hops| - 1])
  {
    Increasing(hops, 0, |hops| - 1);
    if |hops| > 1 { assert hops[|hops| - 2].since < hops[|hops| - 1].since; }
    forall i | 0 < i < |hops|
      ensures hops[i].since <= hops[|hops| - 1].since && (i < |hops| - 1 ==> hops[i].since < hops[|hops| - 1].since)
    {
      Increasing(hops, i, |hops| - 1);
    }
  }

  lemma {:induction false} Increasing(hops: seq<Hop>, i: nat, j: nat)
    requires i <= j < |hops| && forall k | 0 < k < |hops| :: hops[k - 1].since < hops[k].since
    ensures hops[i].since <= hops[j].since && (i < j ==> hops[i].since < hops[j].since)
    decreases j
  {
    if i < j { Increasing(hops, i, j - 1); }
  }

  /** The set without dropping is exactly what chains reach when overwrites are ignored. */
  lemma {:induction false} SpreadExact(p: Thread, seeds: set<RegisterField>, lo: int, hi: int, r: RegisterField)
    requires lo <= hi
    ensures r in Spread(p, seeds, lo, hi) <==> Reaches(p, seeds, lo, hi, r)
    decreases hi - lo
  {
    if r in Spread(p, seeds, lo, hi) { SpreadSound(p, seeds, lo, hi, r); }
    if Reaches(p, seeds, lo, hi, r) {
      var hops: seq<Hop> :| Chain(p, seeds, lo, hi, hops) && hops[|hops| - 1].reg == r;
      SpreadComplete(p, seeds, lo, hi, hops);
    }
  }

  lemma ChainExtends(p: Thread, seeds: set<RegisterField>, lo: int, hi: int, hops: seq<Hop>, r: RegisterField)
    requires Chain(p, seeds, lo, hi - 1, hops) && hops[|hops| - 1].since < hi && LinkAt(p, hi - 1, hops[|hops| - 1].reg, r)
    ensures Chain(p, seeds, lo, hi, hops + [Hop(r, hi)])
  {
    hide LinkAt;
    var longer := hops + [Hop(r, hi)];
    forall i | 0 < i < |longer|
      ensures longer[i - 1].since < longer[i].since <= hi && LinkAt(p, longer[i].since - 1, longer[i - 1].reg, longer[i].reg)
    {
      if i < |hops| {
        assert longer[i] == hops[i] && longer[i - 1] == hops[i - 1];
      } else {
        assert longer[i] == Hop(r, hi) && longer[i - 1] == hops[|hops| - 1];
      }
    }
  }

  lemma {:induction false} SpreadSound(p: Thread, seeds: set<RegisterField>, lo: int, hi: int, r: RegisterField)
    requires lo <= hi && r in Spread(p, seeds, lo, hi)
    ensures Reaches(p, seeds, lo, hi, r)
    decreases hi - lo
  {
    if lo == hi {
      assert Chain(p, seeds, lo, hi, [Hop(r, lo)]);
    } else {
      var t := Spread(p, seeds, lo, hi - 1);
      var a := r;
      if r !in t { a := FlowFrom(p[hi - 1].value, t, r); }
      SpreadSound(p, seeds, lo, hi - 1, a);
      var hops: seq<Hop> :| Chain(p, seeds, lo, hi - 1, hops) && hops[|hops| - 1].reg == a;
      LastHop(p, seeds, lo, hi - 1, hops);
      if r in t {
        assert Chain(p, seeds, lo, hi, hops);
      } else {
        ChainExtends(p, seeds, lo, hi, hops, r);
        assert Chain(p, seeds, lo, hi, hops + [Hop(r, hi)]);
      }
    }
  }

  lemma {:induction false} SpreadComplete(p: Thread, seeds: set<RegisterField>, lo: int, hi: int, hops: seq<Hop>)
    requires lo <= hi && Chain(p, seeds, lo, hi, hops)
    ensures hops[|hops| - 1].reg in Spread(p, seeds, lo, hi)
    decreases hi - lo
  {
    LastHop(p, seeds, lo, hi, hops);
    if lo < hi {
      var n := |hops| - 1;
      if hops[n].since < hi {
        SpreadComplete(p, seeds, lo, hi - 1, hops);
      } else {
        SpreadComplete(p, seeds, lo, hi - 1, hops[..n]);
        assert LinkAt(p, hops[n].since - 1, hops[n - 1].reg, hops[n].reg);
        FlowInto(p[hi - 1].value, Spread(p, seeds, lo, hi - 1), hops[n - 1].reg, hops[n].reg);
      }
    }
  }

  lemma UnbrokenBefore(p: Thread, hi: int, hops: seq<Hop>, before: seq<Hop>)
    requires Unbroken(p, hi, hops) && hops != []
    requires before == hops || (before == hops[..|hops| - 1] && hops[|hops| - 1].since == hi)
    ensures Unbroken(p, hi - 1, before)
  {
    hide WritesAt;
    forall i, j | 0 <= i < |before| && before[i].since <= j < Until(before, i, hi - 1)
      ensures !WritesAt(p, j, before[i].reg)
    {
      assert before[i] == hops[i] && j < Until(hops, i, hi);
    }
  }

  /** The register survives the instruction, or is linked to by it from one that was touched. */
  predicate Carried(p: Thread, k: int, a: RegisterField, r: RegisterField) {
    (a == r && !WritesAt(p, k, r)) || LinkAt(p, k, a, r)
  }

  /** An unbroken chain, one instruction earlier. */
  lemma UnbrokenStep(p: Thread, seeds: set<RegisterField>, lo: int, hi: int, hops: seq<Hop>) returns (before: seq<Hop>)
    requires lo < hi && Chain(p, seeds, lo, hi, hops) && Unbroken(p, hi, hops)
    ensures Chain(p, seeds, lo, hi - 1, before) && Unbroken(p, hi - 1, before)
    ensures Carried(p, hi - 1, before[|before| - 1].reg, hops[|hops| - 1].reg)
  {
    LastHop(p, seeds, lo, hi, hops);
    var n := |hops| - 1;
    if hops[n].since < hi {
      assert Until(hops, n, hi) == hi;
      assert !WritesAt(p, hi - 1, hops[n].reg);
      before := hops;
    } else {
      assert LinkAt(p, hops[n].since - 1, hops[n - 1].reg, hops[n].reg);
      before := hops[..n];
    }
    UnbrokenBefore(p, hi, hops, before);
    hide Unbroken, Chain;
  }

  lemma CarriedAdvances(p: Thread, k: int, touched: set<RegisterField>, a: RegisterField, r: RegisterField)
    requires a in touched && Carried(p, k, a, r)
    ensures 0 <= k < |p| && p[k].Some? ==> r in Advanced(p[k].value, touched)
    ensures !(0 <= k < |p| && p[k].Some?) ==> r == a
  {
    if LinkAt(p, k, a, r) { FlowInto(p[k].value, touched, a, r); }
  }

  /** The touched set misses no register that an unbroken chain reaches. */
  lemma {:induction false} TouchedLower(p: Thread, seeds: set<RegisterField>, lo: int, hi: int, hops: seq<Hop>)
    requires lo <= hi && Chain(p, seeds, lo, hi, hops) && Unbroken(p, hi, hops)
    ensures hops[|hops| - 1].reg in Touched(p, seeds, lo, hi)
    decreases hi - lo
  {
    if lo == hi {
      LastHop(p, seeds, lo, hi, hops);
    } else {
      var before := UnbrokenStep(p, seeds, lo, hi, hops);
      TouchedLower(p, seeds, lo, hi - 1, before);
      CarriedAdvances(p, hi - 1, Touched(p, seeds, lo, hi - 1), before[|before| - 1].reg, hops[|hops| - 1].reg);
      hide Unbroken, Chain, Advanced;
    }
  }

  lemma {:induction false} TouchedUpper(p: Thread, seeds: set<RegisterField>, lo: int, hi: int)
    requires lo <= hi
    ensures Touched(p, seeds, lo, hi) <= Spread(p, seeds, lo, hi)
    decreases hi - lo
  {
    if lo < hi {
      TouchedUpper(p, seeds, lo, hi - 1);
      if 0 <= hi - 1 < |p| && p[hi - 1].Some? {
        var fp := p[hi - 1].value;
        var t := Touched(p, seeds, lo, hi - 1);
        forall w | w in Flow(fp, t)
          ensures w in Flow(fp, Spread(p, seeds, lo, hi - 1))
        {
          var r := FlowFrom(fp, t, w);
          FlowInto(fp, Spread(p, seeds, lo, hi - 1), r, w);
        }
      }
    }
  }

  /** The touched set is bracketed by the unbroken chains and by all chains. */
  lemma TouchedBracket(p: Thread, seeds: set<RegisterField>, lo: int, hi: int, r: RegisterField)
    requires lo <= hi
    ensures ReachesUnbroken(p, seeds, lo, hi, r) ==> r in Touched(p, seeds, lo, hi)
    ensures r in Touched(p, seeds, lo, hi) ==> Reaches(p, seeds, lo, hi, r)
  {
    if ReachesUnbroken(p, seeds, lo, hi, r) {
      var hops: seq<Hop> :| Chain(p, seeds, lo, hi, hops) && Unbroken(p, hi, hops) && hops[|hops| - 1].reg == r;
      TouchedLower(p, seeds, lo, hi, hops);
    }
    if r in Touched(p, seeds, lo, hi) {
      TouchedUpper(p, seeds, lo, hi);
      SpreadSound(p, seeds, lo, hi, r);
    }
  }
}
