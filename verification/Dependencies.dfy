/** The dependency tests of the footprint analysis, and the chains they answer for. */
module Dependencies {
  import opened Wrappers
  import opened Footprints
  import opened Survivors

  predicate HasFootprints(instrs: seq<Option<Opcode>>, footprints: map<Opcode, Footprint>) {
    forall i | 0 <= i < |instrs| && instrs[i].Some? :: instrs[i].value in footprints
  }

  /** The thread the analysis looks at. */
  function ThreadOf(instrs: seq<Option<Opcode>>, footprints: map<Opcode, Footprint>): (p: Thread)
    requires HasFootprints(instrs, footprints)
    ensures |p| == |instrs|
  {
    seq(|instrs|, i requires 0 <= i < |instrs| => if instrs[i].None? then None else Some(footprints[instrs[i].value]))
  }

  function Seeds(p: Thread, from: nat): set<RegisterField> {
    if from < |p| && p[from].Some? then p[from].value.writesTainted else {}
  }

  // ----- loops over sets

  method WritesFrom(fp: Footprint, r: RegisterField) returns (linked: set<RegisterField>)
    requires r in fp.regReads
    ensures linked == set w | w in fp.regWrites && Link(fp, r, w)
    ensures forall w :: w in linked <==>
              w in fp.regWrites && (None, w.0) !in fp.writesIgnored && (Some(r.0), w.0) !in fp.writesIgnored
  {
    linked := {};
    var writes := fp.regWrites;
    while writes != {}
      invariant writes <= fp.regWrites
      invariant linked == set w | w in fp.regWrites - writes && !Ignored(fp, r, w)
      decreases |writes|
    {
      var w :| w in writes;
      if !Ignored(fp, r, w) { linked := linked + {w}; }
      writes := writes - {w};
    }
  }

  method FlowOf(fp: Footprint, touched: set<RegisterField>) returns (flow: set<RegisterField>)
    ensures flow == Flow(fp, touched)
    ensures forall w :: w in flow <==> exists a :: a in touched && Link(fp, a, w)
  {
    FlowLinks(fp, touched);
    flow := {};
    var readers := touched;
    assert touched - readers == {};
    while readers != {}
      invariant readers <= touched
      invariant flow == Flow(fp, touched - readers)
      decreases |readers|
    {
      var r :| r in readers;
      FlowGrows(fp, touched - readers, r);
      if r in fp.regReads {
        var linked := WritesFrom(fp, r);
        flow := flow + linked;
      }
      assert touched - (readers - {r}) == touched - readers + {r};
      hide Flow;
      readers := readers - {r};
    }
    assert touched - readers == touched;
  }

  lemma FlowGrows(fp: Footprint, touched: set<RegisterField>, r: RegisterField)
    ensures Flow(fp, touched + {r}) == Flow(fp, touched) + set w | w in fp.regWrites && Link(fp, r, w)
  {
    forall w
      ensures w in Flow(fp, touched + {r}) <==> w in Flow(fp, touched) || (w in fp.regWrites && Link(fp, r, w))
    {
      if w in Flow(fp, touched + {r}) {
        var a := FlowFrom(fp, touched + {r}, w);
        if a in touched { FlowInto(fp, touched, a, w); }
      }
      if w in Flow(fp, touched) {
        var a := FlowFrom(fp, touched, w);
        FlowInto(fp, touched + {r}, a, w);
      }
      if w in fp.regWrites && Link(fp, r, w) { FlowInto(fp, touched + {r}, r, w); }
    }
  }

  /** A register stays touched unless the instruction writes it and links no touched register to another;
      a register linked from a touched one is touched. */
  method AdvanceDeps(fp: Footprint, touched: set<RegisterField>) returns (after: set<RegisterField>)
    ensures after == Advanced(fp, touched)
    ensures forall r :: r in after <==>
              || (exists a :: a in touched && Link(fp, a, r))
              || (r in touched && (r !in fp.regWrites || exists a, w :: a in touched && Link(fp, a, w)))
  {
    AdvancedLinks(fp, touched);
    hide Advanced;
    var flow := FlowOf(fp, touched);
    after := touched;
    if flow == {} {
      var writes := fp.regWrites;
      while writes != {}
        invariant writes <= fp.regWrites && after == touched - (fp.regWrites - writes)
        decreases |writes|
      {
        var w :| w in writes;
        after, writes := after - {w}, writes - {w};
      }
    } else {
      after := after + flow;
    }
  }

  lemma AdvancedLinks(fp: Footprint, touched: set<RegisterField>)
    ensures Advanced(fp, touched) == if Flow(fp, touched) == {} then touched - fp.regWrites else touched + Flow(fp, touched)
    ensures forall r :: r in Advanced(fp, touched) <==>
              || (exists a :: a in touched && Link(fp, a, r))
              || (r in touched && (r !in fp.regWrites || exists a, w :: a in touched && Link(fp, a, w)))
  {
    FlowLinks(fp, touched);
    hide Link;
    assert Flow(fp, touched) == {} <==> !exists a, w :: a in touched && Link(fp, a, w) by {
      if a, w :| a in touched && Link(fp, a, w) { assert w in Flow(fp, touched); }
      hide Flow;
    }
    hide Flow;
  }

  method AnyTouched(regs: set<RegisterField>, touched: set<RegisterField>) returns (any: bool)
    ensures any <==> exists r :: r in regs && r in touched
  {
    var rest := regs;
    while rest != {}
      invariant rest <= regs && forall r | r in regs - rest :: r !in touched
      decreases |rest|
    {
      var r :| r in rest;
      if r in touched { return true; }
      rest := rest - {r};
    }
    any := false;
  }

  /** The registers the first instruction can touch before the second: exactly what surviving chains reach,
      so all that an unbroken chain reaches, and only what some chain reaches. */
  method TouchedBy(from: nat, to: nat, instrs: seq<Option<Opcode>>, footprints: map<Opcode, Footprint>)
      returns (touched: set<RegisterField>)
    requires HasFootprints(instrs, footprints) && from < |instrs| && to <= |instrs|
    ensures from < to ==> forall r :: r in touched <==> Lasts(ThreadOf(instrs, footprints), from, to, r)
    ensures from < to ==> Brackets(ThreadOf(instrs, footprints), Seeds(ThreadOf(instrs, footprints), from), from + 1, to, touched)
    ensures from >= to ==> touched == Seeds(ThreadOf(instrs, footprints), from)
  {
    ghost var p := ThreadOf(instrs, footprints);
    ghost var seeds := Seeds(p, from);
    if instrs[from].None? {
      if from < to {
        TouchedNothing(p, from + 1, to);
        BracketsTouched(p, seeds, from + 1, to);
        LastsTouched(p, from, to);
      }
      return {};
    }
    touched := footprints[instrs[from].value].writesTainted;
    if from < to {
      for i := from + 1 to to
        invariant touched == Touched(p, seeds, from + 1, i)
      {
        hide Advanced;
        if instrs[i].Some? { touched := AdvanceDeps(footprints[instrs[i].value], touched); }
      }
      BracketsTouched(p, seeds, from + 1, to);
      LastsTouched(p, from, to);
    }
  }

  /** A surviving chain leads from what the instruction writes to the register. */
  ghost predicate Lasts(p: Thread, from: nat, to: nat, r: RegisterField) {
    Survives(p, map[from + 1 := Seeds(p, from)], from + 1, to, r)
  }

  lemma LastsTouched(p: Thread, from: nat, to: nat)
    requires from < to
    ensures forall r :: r in Touched(p, Seeds(p, from), from + 1, to) <==> Lasts(p, from, to, r)
  {
    forall r
      ensures r in Touched(p, Seeds(p, from), from + 1, to) <==> Lasts(p, from, to, r)
    {
      TouchedExact(p, Seeds(p, from), from + 1, to, r);
    }
  }

  /** The set has all that an unbroken chain reaches, and only what some chain reaches. */
  ghost predicate Brackets(p: Thread, seeds: set<RegisterField>, lo: int, hi: int, touched: set<RegisterField>) {
    && (forall r :: ReachesUnbroken(p, seeds, lo, hi, r) ==> r in touched)
    && (forall r | r in touched :: Reaches(p, seeds, lo, hi, r))
  }

  lemma BracketsTouched(p: Thread, seeds: set<RegisterField>, lo: int, hi: int)
    requires lo <= hi
    ensures Brackets(p, seeds, lo, hi, Touched(p, seeds, lo, hi))
  {
    forall r
      ensures ReachesUnbroken(p, seeds, lo, hi, r) ==> r in Touched(p, seeds, lo, hi)
      ensures r in Touched(p, seeds, lo, hi) ==> Reaches(p, seeds, lo, hi, r)
    {
      TouchedBracket(p, seeds, lo, hi, r);
    }
  }

  lemma {:induction false} TouchedNothing(p: Thread, lo: int, hi: int)
    ensures Touched(p, {}, lo, hi) == {}
    decreases hi - lo
  {
    if lo < hi { TouchedNothing(p, lo, hi - 1); }
  }

  // ----- the dependencies

  /** A chain from the earlier instruction leads into one of the registers at the later one. */
  ghost predicate Feeds(p: Thread, from: nat, to: nat, regs: set<RegisterField>) {
    exists r :: r in regs && Reaches(p, Seeds(p, from), from + 1, to, r)
  }

  ghost predicate FeedsUnbroken(p: Thread, from: nat, to: nat, regs: set<RegisterField>) {
    exists r :: r in regs && ReachesUnbroken(p, Seeds(p, from), from + 1, to, r)
  }

  /** A surviving chain from the earlier instruction leads into one of the registers at the later one. */
  ghost predicate FeedsLasting(p: Thread, from: nat, to: nat, regs: set<RegisterField>) {
    exists r :: r in regs && Lasts(p, from, to, r)
  }

  method AddrDep(from: nat, to: nat, instrs: seq<Option<Opcode>>, footprints: map<Opcode, Footprint>) returns (dep: bool)
    requires HasFootprints(instrs, footprints) && from < |instrs| && to < |instrs|
    ensures from >= to || instrs[to].None? ==> !dep
    ensures from < to && instrs[to].Some? ==>
              var p := ThreadOf(instrs, footprints);
              var regs := footprints[instrs[to].value].memAddrTaints;
              && (dep <==> FeedsLasting(p, from, to, regs))
              && (FeedsUnbroken(p, from, to, regs) ==> dep) && (dep ==> Feeds(p, from, to, regs))
  {
    if from >= to || instrs[to].None? { return false; }
    var touched := TouchedBy(from, to, instrs, footprints);
    dep := AnyTouched(footprints[instrs[to].value].memAddrTaints, touched);
  }

  method DataDep(from: nat, to: nat, instrs: seq<Option<Opcode>>, footprints: map<Opcode, Footprint>) returns (dep: bool)
    requires HasFootprints(instrs, footprints) && from < |instrs| && to < |instrs|
    ensures from >= to || instrs[to].None? ==> !dep
    ensures from < to && instrs[to].Some? ==>
              var p := ThreadOf(instrs, footprints);
              var fp := footprints[instrs[to].value];
              var regs := fp.writeDataTaints + if fp.isSystemRegisterWrite then fp.regReads else {};
              && (dep <==> FeedsLasting(p, from, to, regs))
              && (FeedsUnbroken(p, from, to, regs) ==> dep) && (dep ==> Feeds(p, from, to, regs))
  {
    if from >= to || instrs[to].None? { return false; }
    var touched := TouchedBy(from, to, instrs, footprints);
    var fp := footprints[instrs[to].value];
    dep := AnyTouched(fp.writeDataTaints, touched);
    if !dep && fp.isSystemRegisterWrite { dep := AnyTouched(fp.regReads, touched); }
  }

  /** A control dependency: the earlier instruction is a load or store — the kind of the later one is
      not looked at — and feeds the address of a branch in between, overwritten or not. */
  ghost predicate CtrlDepends(p: Thread, from: nat, to: nat) {
    && from < to && from < |p| && p[from].Some? && (p[from].value.isLoad || p[from].value.isStore)
    && exists i :: from < i < to && FeedsBranch(p, from, i)
  }

  ghost predicate FeedsBranch(p: Thread, from: nat, i: nat) {
    i < |p| && p[i].Some? && p[i].value.isBranch && Feeds(p, from, i, p[i].value.branchAddrTaints)
  }

  method CtrlDep(from: nat, to: nat, instrs: seq<Option<Opcode>>, footprints: map<Opcode, Footprint>) returns (dep: bool)
    requires HasFootprints(instrs, footprints) && from < |instrs| && to < |instrs|
    ensures dep <==> CtrlDepends(ThreadOf(instrs, footprints), from, to)
  {
    ghost var p := ThreadOf(instrs, footprints);
    if instrs[from].None? { return false; }
    var fromFootprint := footprints[instrs[from].value];
    if !(fromFootprint.isLoad || fromFootprint.isStore) || from >= to { return false; }
    var touched := fromFootprint.writesTainted;
    assert touched == Spread(p, Seeds(p, from), from + 1, from + 1);
    ThreadAt(instrs, footprints);
    hide CtrlDepends, FeedsBranch, Spread, Flow, Seeds, ThreadOf, NoneFed;
    CtrlStarts(p, from);
    for i := from + 1 to to
      invariant touched == Spread(p, Seeds(p, from), from + 1, i) && NoneFed(p, from, i)
    {
      BranchFed(p, from, i);
      CtrlNext(p, from, i, to);
      if instrs[i].Some? {
        var fp := footprints[instrs[i].value];
        if fp.isBranch {
          var any := AnyTouched(fp.branchAddrTaints, touched);
          if any { return true; }
        }
        var flow := FlowOf(fp, touched);
        touched := touched + flow;
      }
    }
    CtrlEnds(p, from, to);
    dep := false;
  }

  lemma ThreadAt(instrs: seq<Option<Opcode>>, footprints: map<Opcode, Footprint>)
    requires HasFootprints(instrs, footprints)
    ensures var p := ThreadOf(instrs, footprints);
            forall i | 0 <= i < |p| :: p[i] == if instrs[i].None? then None else Some(footprints[instrs[i].value])
  {
  }

  /** No branch between `from` and `i` is fed. */
  ghost predicate NoneFed(p: Thread, from: nat, i: nat) { forall j | from < j < i :: !FeedsBranch(p, from, j) }

  lemma CtrlStarts(p: Thread, from: nat)
    ensures NoneFed(p, from, from + 1)
  {
  }

  lemma CtrlNext(p: Thread, from: nat, i: nat, to: nat)
    requires from < i < to && from < |p| && p[from].Some? && (p[from].value.isLoad || p[from].value.isStore)
    requires NoneFed(p, from, i)
    ensures if FeedsBranch(p, from, i) then CtrlDepends(p, from, to) else NoneFed(p, from, i + 1)
  {
    hide FeedsBranch;
  }

  lemma CtrlEnds(p: Thread, from: nat, to: nat)
    requires NoneFed(p, from, to)
    ensures !CtrlDepends(p, from, to)
  {
    hide FeedsBranch;
  }

  /** Whether a branch is fed, in terms of the set; and the set one instruction later. */
  lemma BranchFed(p: Thread, from: nat, i: nat)
    requires from < i < |p|
    ensures FeedsBranch(p, from, i) <==>
              && p[i].Some? && p[i].value.isBranch
              && exists r :: r in p[i].value.branchAddrTaints && r in Spread(p, Seeds(p, from), from + 1, i)
    ensures var t := Spread(p, Seeds(p, from), from + 1, i);
            Spread(p, Seeds(p, from), from + 1, i + 1) == if p[i].Some? then t + Flow(p[i].value, t) else t
  {
    hide Feeds, Flow;
    if p[i].Some? { SpreadIs(p, from, i, p[i].value.branchAddrTaints); }
  }

  lemma SpreadIs(p: Thread, from: nat, i: nat, regs: set<RegisterField>)
    requires from < i
    ensures Feeds(p, from, i, regs) <==> exists r :: r in regs && r in Spread(p, Seeds(p, from), from + 1, i)
  {
    forall r | r in regs
      ensures r in Spread(p, Seeds(p, from), from + 1, i) <==> Reaches(p, Seeds(p, from), from + 1, i, r)
    {
      SpreadExact(p, Seeds(p, from), from + 1, i, r);
    }
  }

  /** A control dependency to one instruction is one to every later instruction. */
  lemma CtrlMonotone(p: Thread, from: nat, to: nat, later: nat)
    requires CtrlDepends(p, from, to) && to <= later
    ensures CtrlDepends(p, from, later)
  {
  }

  // ----- pick dependencies

  /** The registers picked at an instruction because of what is touched before it. */
  function Picks(fp: Footprint, touched: set<RegisterField>): set<RegisterField> {
    set r | r in fp.pickDeps && fp.pickDeps[r] * touched != {} :: (r, [])
  }

  function PicksAt(p: Thread, i: int, touched: set<RegisterField>): set<RegisterField> {
    if 0 <= i < |p| && p[i].Some? then Picks(p[i].value, touched) else {}
  }

  /** What is touched by way of a pick before instruction `hi`. */
  function Picked(p: Thread, seeds: set<RegisterField>, lo: int, hi: int): set<RegisterField>
    decreases hi - lo
  {
    if lo >= hi then {}
    else AdvancedAt(p, hi - 1, Picked(p, seeds, lo, hi - 1) + PicksAt(p, hi - 1, Touched(p, seeds, lo, hi - 1)))
  }

  /** A chain into a pick at `i`, and a chain on from the register it picks. */
  ghost predicate PickChain(p: Thread, seeds: set<RegisterField>, lo: int, i: int, hi: int, t: RegisterField, r: RegisterField) {
    && lo <= i < hi && 0 <= i < |p| && p[i].Some? && t.1 == [] && t.0 in p[i].value.pickDeps
    && (exists a :: a in p[i].value.pickDeps[t.0] && Reaches(p, seeds, lo, i, a))
    && Reaches(p, {t}, i, hi, r)
  }

  ghost predicate PickChainUnbroken(p: Thread, seeds: set<RegisterField>, lo: int, i: int, hi: int, t: RegisterField,
                                    r: RegisterField) {
    && lo <= i < hi && 0 <= i < |p| && p[i].Some? && t.1 == [] && t.0 in p[i].value.pickDeps
    && (exists a :: a in p[i].value.pickDeps[t.0] && ReachesUnbroken(p, seeds, lo, i, a))
    && ReachesUnbroken(p, {t}, i, hi, r)
  }

  lemma {:induction false} PickedLower(p: Thread, seeds: set<RegisterField>, lo: int, i: int, hi: int, t: RegisterField,
                                       hops: seq<Hop>)
    requires lo <= i <= hi && t in PicksAt(p, i, Touched(p, seeds, lo, i))
    requires Chain(p, {t}, i, hi, hops) && Unbroken(p, hi, hops)
    ensures hops[|hops| - 1].reg in Picked(p, seeds, lo, hi) + PicksAt(p, hi, Touched(p, seeds, lo, hi))
    ensures i < hi ==> hops[|hops| - 1].reg in Picked(p, seeds, lo, hi)
    decreases hi - i
  {
    if i == hi {
      LastHop(p, {t}, i, hi, hops);
      hide PicksAt;
    } else {
      var before := UnbrokenStep(p, {t}, i, hi, hops);
      PickedLower(p, seeds, lo, i, hi - 1, t, before);
      CarriedAdvances(p, hi - 1, Picked(p, seeds, lo, hi - 1) + PicksAt(p, hi - 1, Touched(p, seeds, lo, hi - 1)),
                      before[|before| - 1].reg, hops[|hops| - 1].reg);
      hide Unbroken, Chain, Advanced, PicksAt;
    }
  }

  lemma AdvancedFrom(p: Thread, k: int, touched: set<RegisterField>, r: RegisterField) returns (a: RegisterField)
    requires r in AdvancedAt(p, k, touched)
    ensures a in touched && (a == r || LinkAt(p, k, a, r))
  {
    if r in touched { a := r; } else { a := FlowFrom(p[k].value, touched, r); }
  }

  lemma ReachesMore(p: Thread, seeds: set<RegisterField>, lo: int, hi: int, a: RegisterField, r: RegisterField)
    requires lo < hi && Reaches(p, seeds, lo, hi - 1, a) && (a == r || LinkAt(p, hi - 1, a, r))
    ensures Reaches(p, seeds, lo, hi, r)
  {
    var hops: seq<Hop> :| Chain(p, seeds, lo, hi - 1, hops) && hops[|hops| - 1].reg == a;
    LastHop(p, seeds, lo, hi - 1, hops);
    if a == r {
      assert Chain(p, seeds, lo, hi, hops);
    } else {
      ChainExtends(p, seeds, lo, hi, hops, r);
      assert Chain(p, seeds, lo, hi, hops + [Hop(r, hi)]);
    }
  }

  lemma {:induction false} PickedUpper(p: Thread, seeds: set<RegisterField>, lo: int, hi: int, r: RegisterField)
      returns (i: int, t: RegisterField)
    requires lo <= hi && r in Picked(p, seeds, lo, hi)
    ensures PickChain(p, seeds, lo, i, hi, t, r)
    decreases hi - lo
  {
    var here := PicksAt(p, hi - 1, Touched(p, seeds, lo, hi - 1));
    var a := AdvancedFrom(p, hi - 1, Picked(p, seeds, lo, hi - 1) + here, r);
    hide Reaches, LinkAt, Touched, PicksAt, Picked, AdvancedAt;
    if a in here {
      i, t := hi - 1, a;
      PickedHere(p, seeds, lo, i, t);
    } else {
      i, t := PickedUpper(p, seeds, lo, hi - 1, a);
    }
    ReachesMore(p, {t}, i, hi, a, r);
  }

  /** A register picked at an instruction starts a chain there. */
  lemma PickedHere(p: Thread, seeds: set<RegisterField>, lo: int, i: int, t: RegisterField)
    requires lo <= i && t in PicksAt(p, i, Touched(p, seeds, lo, i))
    ensures 0 <= i < |p| && p[i].Some? && t.1 == [] && t.0 in p[i].value.pickDeps
    ensures exists a :: a in p[i].value.pickDeps[t.0] && Reaches(p, seeds, lo, i, a)
    ensures Reaches(p, {t}, i, i, t)
  {
    var use :| use in p[i].value.pickDeps[t.0] && use in Touched(p, seeds, lo, i);
    TouchedBracket(p, seeds, lo, i, use);
    assert Chain(p, {t}, i, i, [Hop(t, i)]);
  }

  /** A chain reaches one of the registers by way of a pick. */
  ghost predicate PickFeeds(p: Thread, seeds: set<RegisterField>, lo: int, hi: int, regs: set<RegisterField>) {
    exists i, t, r :: r in regs && PickChain(p, seeds, lo, i, hi, t, r)
  }

  ghost predicate PickFeedsUnbroken(p: Thread, seeds: set<RegisterField>, lo: int, hi: int, regs: set<RegisterField>) {
    exists i, t, r :: r in regs && PickChainUnbroken(p, seeds, lo, i, hi, t, r)
  }

  lemma PickedBracket(p: Thread, seeds: set<RegisterField>, lo: int, hi: int, regs: set<RegisterField>)
    requires lo <= hi
    ensures PickFeedsUnbroken(p, seeds, lo, hi, regs) ==> exists r :: r in regs && r in Picked(p, seeds, lo, hi)
    ensures (exists r :: r in regs && r in Picked(p, seeds, lo, hi)) ==> PickFeeds(p, seeds, lo, hi, regs)
  {
    if PickFeedsUnbroken(p, seeds, lo, hi, regs) {
      var i, t, r :| r in regs && PickChainUnbroken(p, seeds, lo, i, hi, t, r);
      var a :| a in p[i].value.pickDeps[t.0] && ReachesUnbroken(p, seeds, lo, i, a);
      TouchedBracket(p, seeds, lo, i, a);
      assert a in p[i].value.pickDeps[t.0] * Touched(p, seeds, lo, i);
      assert t == (t.0, []);
      var hops: seq<Hop> :| Chain(p, {t}, i, hi, hops) && Unbroken(p, hi, hops) && hops[|hops| - 1].reg == r;
      PickedLower(p, seeds, lo, i, hi, t, hops);
    }
    if r :| r in regs && r in Picked(p, seeds, lo, hi) {
      var i, t := PickedUpper(p, seeds, lo, hi, r);
    }
  }

  /** The registers picked at an instruction because a surviving chain leads into the pick. */
  ghost function LastingPicks(p: Thread, from: nat, i: int): set<RegisterField> {
    if 0 <= i < |p| && p[i].Some? then
      set t | t in p[i].value.pickDeps && (exists a :: a in p[i].value.pickDeps[t] && Lasts(p, from, i, a)) :: (t, [])
    else {}
  }

  ghost function PickStarts(p: Thread, from: nat, to: int): Starts {
    map i | from < i < to :: LastingPicks(p, from, i)
  }

  /** A surviving chain leads from a register picked on the way to one of the registers. */
  ghost predicate PickFeedsLasting(p: Thread, from: nat, to: nat, regs: set<RegisterField>) {
    exists r :: r in regs && Survives(p, PickStarts(p, from, to), from + 1, to, r)
  }

  lemma PicksLast(p: Thread, from: nat, i: nat)
    requires from < i
    ensures PicksAt(p, i, Touched(p, Seeds(p, from), from + 1, i)) == LastingPicks(p, from, i)
  {
    LastsTouched(p, from, i);
    var touched := Touched(p, Seeds(p, from), from + 1, i);
    hide Touched, Lasts;
    if i < |p| && p[i].Some? {
      var deps := p[i].value.pickDeps;
      forall t | t in deps
        ensures deps[t] * touched != {} <==> exists a :: a in deps[t] && Lasts(p, from, i, a)
      {
        if deps[t] * touched != {} { var a :| a in deps[t] * touched; }
        if a :| a in deps[t] && Lasts(p, from, i, a) { assert a in deps[t] * touched; }
      }
    }
  }

  lemma {:induction false} PickedFlows(p: Thread, from: nat, k: int, to: int)
    requires from < k <= to
    ensures Flowing(p, PickStarts(p, from, to), from + 1, k)
         == Picked(p, Seeds(p, from), from + 1, k) + if k < to then LastingPicks(p, from, k) else {}
    decreases k
  {
    hide AdvancedAt, LastingPicks;
    if k > from + 1 {
      PickedFlows(p, from, k - 1, to);
      PicksLast(p, from, k - 1);
      hide PicksAt, Touched;
    }
  }

  /** The picked set is exactly the registers that surviving chains from a pick reach. */
  lemma PickedExact(p: Thread, from: nat, to: nat, r: RegisterField)
    requires from < to
    ensures r in Picked(p, Seeds(p, from), from + 1, to) <==> Survives(p, PickStarts(p, from, to), from + 1, to, r)
  {
    PickedFlows(p, from, to, to);
    FlowingExact(p, PickStarts(p, from, to), from + 1, to, r);
    hide Survives, Picked, Flowing;
  }

  lemma PickedLasts(p: Thread, from: nat, to: nat, regs: set<RegisterField>)
    requires from < to
    ensures (exists r :: r in regs && r in Picked(p, Seeds(p, from), from + 1, to)) <==> PickFeedsLasting(p, from, to, regs)
  {
    hide Survives, Picked;
    if r :| r in regs && r in Picked(p, Seeds(p, from), from + 1, to) { PickedExact(p, from, to, r); }
    if PickFeedsLasting(p, from, to, regs) {
      var r :| r in regs && Survives(p, PickStarts(p, from, to), from + 1, to, r);
      PickedExact(p, from, to, r);
    }
  }

  method AddPicks(fp: Footprint, before: set<RegisterField>, after: set<RegisterField>) returns (picked: set<RegisterField>)
    ensures picked == after + Picks(fp, before)
  {
    picked := after;
    var targets := fp.pickDeps.Keys;
    while targets != {}
      invariant targets <= fp.pickDeps.Keys
      invariant picked == after + set r | r in fp.pickDeps.Keys - targets && fp.pickDeps[r] * before != {} :: (r, [])
      decreases |targets|
    {
      var target :| target in targets;
      var any := AnyTouched(fp.pickDeps[target], before);
      assert any <==> fp.pickDeps[target] * before != {} by {
        if any { var r :| r in fp.pickDeps[target] && r in before; assert r in fp.pickDeps[target] * before; }
      }
      if any { picked := picked + {(target, [])}; }
      targets := targets - {target};
    }
  }

  lemma PickNext(p: Thread, seeds: set<RegisterField>, lo: nat, i: nat)
    requires lo <= i < |p|
    ensures Touched(p, seeds, lo, i + 1)
         == if p[i].Some? then Advanced(p[i].value, Touched(p, seeds, lo, i)) else Touched(p, seeds, lo, i)
    ensures Picked(p, seeds, lo, i + 1)
         == if p[i].Some? then Advanced(p[i].value, Picked(p, seeds, lo, i) + Picks(p[i].value, Touched(p, seeds, lo, i)))
            else Picked(p, seeds, lo, i)
  {
    hide Advanced, Picks;
    if p[i].None? { assert Picked(p, seeds, lo, i) + {} == Picked(p, seeds, lo, i); }
  }

  method PickDep(from: nat, to: nat, instrs: seq<Option<Opcode>>, footprints: map<Opcode, Footprint>) returns (dep: bool)
    requires HasFootprints(instrs, footprints) && from < |instrs| && to < |instrs|
    ensures from >= to || instrs[from].None? || instrs[to].None? ==> !dep
    ensures from < to && instrs[from].Some? && instrs[to].Some? ==>
              var p := ThreadOf(instrs, footprints);
              var fp := footprints[instrs[to].value];
              && (!fp.isLoad && !fp.isStore ==> !dep)
              && (fp.isLoad || fp.isStore ==> (dep <==> PickFeedsLasting(p, from, to, fp.regReads)))
              && ((fp.isLoad || fp.isStore) && PickFeedsUnbroken(p, Seeds(p, from), from + 1, to, fp.regReads) ==> dep)
              && (dep ==> PickFeeds(p, Seeds(p, from), from + 1, to, fp.regReads))
  {
    ghost var p := ThreadOf(instrs, footprints);
    if instrs[from].None? || instrs[to].None? { return false; }
    var toFootprint := footprints[instrs[to].value];
    if !(toFootprint.isLoad || toFootprint.isStore) || from >= to { return false; }
    var before: set<RegisterField>, after: set<RegisterField> := footprints[instrs[from].value].writesTainted, {};
    ghost var seeds := Seeds(p, from);
    assert before == Touched(p, seeds, from + 1, from + 1) && after == Picked(p, seeds, from + 1, from + 1);
    hide Advanced, Picks, Flow, PickFeeds, PickFeedsUnbroken, PickFeedsLasting, Touched, Picked;
    for i := from + 1 to to
      invariant before == Touched(p, seeds, from + 1, i) && after == Picked(p, seeds, from + 1, i)
    {
      PickNext(p, seeds, from + 1, i);
      if instrs[i].Some? {
        var fp := footprints[instrs[i].value];
        assert p[i] == Some(fp);
        after := AddPicks(fp, before, after);
        before := AdvanceDeps(fp, before);
        after := AdvanceDeps(fp, after);
      }
    }
    PickedBracket(p, Seeds(p, from), from + 1, to, toFootprint.regReads);
    PickedLasts(p, from, to, toFootprint.regReads);
    dep := AnyTouched(after, toFootprint.regReads);
  }

  /** A load-exclusive and the next exclusive after it, a store. */
  method RmwDep(from: nat, to: nat, instrs: seq<Option<Opcode>>, footprints: map<Opcode, Footprint>) returns (dep: bool)
    requires HasFootprints(instrs, footprints) && from < |instrs| && to < |instrs|
    ensures var p := ThreadOf(instrs, footprints);
            dep <==> && from <= to && p[from].Some? && p[to].Some?
                     && p[from].value.isExclusive && p[from].value.isLoad && p[to].value.isExclusive && p[to].value.isStore
                     && forall i | from < i < to && p[i].Some? :: !p[i].value.isExclusive
  {
    if from > to || instrs[from].None? || instrs[to].None? { return false; }
    var fromFootprint := footprints[instrs[from].value];
    if !(fromFootprint.isExclusive && fromFootprint.isLoad) { return false; }
    var i := from + 1;
    while i < to
      invariant forall j | from < j < i && j < to && instrs[j].Some? :: !footprints[instrs[j].value].isExclusive
    {
      if instrs[i].Some? && footprints[instrs[i].value].isExclusive {
        assert ThreadOf(instrs, footprints)[i].value.isExclusive;
        return false;
      }
      i := i + 1;
    }
    var toFootprint := footprints[instrs[to].value];
    dep := toFootprint.isExclusive && toFootprint.isStore;
  }
}
