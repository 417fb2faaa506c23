/** Encoding a relation between the events of a candidate as an S-expression. */
module EventRels {
  import opened Wrappers
  import opened Sexps
  import opened CatCompiler
  import opened CatModels

  /** Position (i, j) comes before position (k, l) in row order. */
  predicate Before(i: nat, j: nat, k: nat, l: nat) { i < k || (i == k && j < l) }

  /** The iterator over all ordered pairs of a slice; `col` is one past the column yielded last. */
  class Pairs<A> {
    var row: nat
    var col: nat
    const slice: seq<A>

    ghost predicate Valid() reads this { slice != [] ==> col <= |slice| }

    /** The position has been yielded. */
    predicate Done(i: nat, j: nat)
      reads this
    {
      i < |slice| && j < |slice| && Before(i, j, row, col)
    }

    constructor (slice: seq<A>)
      ensures Valid() && this.slice == slice
      ensures forall i: nat, j: nat :: !Done(i, j)
    {
      this.slice := slice;
      row, col := 0, 0;
    }

    /** Yields the first pair in row order not yielded before, or nothing once all were, and then
        nothing forever. */
    method Next() returns (item: Option<(A, A)>, ghost i: nat, ghost j: nat)
      requires Valid()
      modifies this
      ensures Valid()
      ensures item.Some? ==> i < |slice| && j < |slice| && item.value == (slice[i], slice[j]) && !old(Done(i, j))
      ensures item.Some? ==> forall k: nat, l: nat :: Done(k, l) <==> old(Done(k, l)) || (k == i && l == j)
      ensures item.Some? ==> row < |slice| && (row > old(row) || (row == old(row) && col > old(col)))
      ensures item.None? <==> forall k: nat, l: nat | k < |slice| && l < |slice| :: old(Done(k, l))
      ensures item.None? ==> forall k: nat, l: nat | k < |slice| && l < |slice| :: Done(k, l)
    {
      i, j := 0, 0;
      col := col + 1;
      if col > |slice| {
        col := 1;
        row := row + 1;
      }
      if row >= |slice| {
        return None, 0, 0;
      }
      item, i, j := Some((slice[row], slice[col - 1])), row, col - 1;
      assert !old(Done(i, j));
    }
  }

  datatype AxEvent<T> = AxEvent(name: string, info: T)

  /** Distinct events have distinct names, and the solver gives them distinct values. */
  ghost predicate NamesDistinct<T>(events: seq<AxEvent<T>>, m: Interp) {
    forall i, j | 0 <= i < |events| && 0 <= j < |events| && m.Const(events[i].name) == m.Const(events[j].name) :: i == j
  }

  function Clause(name1: string, name2: string): Sexp {
    And([Eq(Var(1), Literal(name1)), Eq(Var(2), Literal(name2))])
  }

  lemma ClauseMeans(name1: string, name2: string, m: Interp, x: Event, y: Event)
    ensures IsBool(Clause(name1, name2))
    ensures Holds(Clause(name1, name2), m, Args(x, y)) <==> x == m.Const(name1) && y == m.Const(name2)
  {
    var env := Args(x, y);
    EqualsConst(1, name1, m, env);
    EqualsConst(2, name2, m, env);
    hide Holds, IsBool, Eval, IsEvent;
    BothMean(Eq(Var(1), Literal(name1)), Eq(Var(2), Literal(name2)), m, env);
  }

  lemma EqualsConst(v: EventId, name: string, m: Interp, env: Env)
    ensures IsBool(Eq(Var(v), Literal(name)))
    ensures Holds(Eq(Var(v), Literal(name)), m, env) == (Lookup(env, v) == m.Const(name))
  {
    assert Eval(Var(v), m, env) == E(Lookup(env, v)) && Eval(Literal(name), m, env) == E(m.Const(name));
    assert IsEvent(Var(v)) && IsEvent(Literal(name));
  }

  /** The pair at positions `p` is related, and x and y are the values of its names. */
  ghost predicate Matches<T>(p: (nat, nat), rel: (AxEvent<T>, AxEvent<T>) -> bool, events: seq<AxEvent<T>>,
                             m: Interp, x: Event, y: Event)
  {
    && p.0 < |events| && p.1 < |events| && rel(events[p.0], events[p.1])
    && x == m.Const(events[p.0].name) && y == m.Const(events[p.1].name)
  }

  /** The clauses so far cover exactly the related pairs already seen. */
  ghost predicate Encoded<T>(deps: seq<Sexp>, seen: set<(nat, nat)>, rel: (AxEvent<T>, AxEvent<T>) -> bool,
                             events: seq<AxEvent<T>>)
  {
    AllBool(deps) && forall m, x, y ::
      SomeHolds(deps, m, Args(x, y)) <==> exists p | p in seen :: Matches(p, rel, events, m, x, y)
  }

  lemma EncodeStep<T>(deps: seq<Sexp>, seen: set<(nat, nat)>, rel: (AxEvent<T>, AxEvent<T>) -> bool,
                      events: seq<AxEvent<T>>, i: nat, j: nat)
    requires i < |events| && j < |events| && Encoded(deps, seen, rel, events)
    ensures var clause := Clause(events[i].name, events[j].name);
            Encoded(if rel(events[i], events[j]) then deps + [clause] else deps, seen + {(i, j)}, rel, events)
  {
    var clause := Clause(events[i].name, events[j].name);
    var related := rel(events[i], events[j]);
    var deps' := if related then deps + [clause] else deps;
    var m0 := Interp(iset{}, map[], map[], map[]);
    ClauseMeans(events[i].name, events[j].name, m0, 0, 0);
    Single(clause, m0, map[]);
    AllConcat(deps, [clause], m0, map[]);
    forall m, x, y
      ensures SomeHolds(deps', m, Args(x, y)) <==> exists p | p in seen + {(i, j)} :: Matches(p, rel, events, m, x, y)
    {
      ClauseMeans(events[i].name, events[j].name, m, x, y);
      Single(clause, m, Args(x, y));
      AllConcat(deps, [clause], m, Args(x, y));
      assert (related && x == m.Const(events[i].name) && y == m.Const(events[j].name)) == Matches((i, j), rel, events, m, x, y);
      assert forall p :: p in seen + {(i, j)} <==> p in seen || p == (i, j);
    }
  }

  lemma EncodedAll<T>(deps: seq<Sexp>, seen: set<(nat, nat)>, rel: (AxEvent<T>, AxEvent<T>) -> bool,
                      events: seq<AxEvent<T>>, m: Interp, i: nat, j: nat)
    requires Encoded(deps, seen, rel, events)
    requires forall k: nat, l: nat | k < |events| && l < |events| :: (k, l) in seen
    requires WellFormed(m) && NamesDistinct(events, m) && i < |events| && j < |events|
    ensures Holds(Simplify(Or(deps), {}), m, Args(m.Const(events[i].name), m.Const(events[j].name)))
            <==> rel(events[i], events[j])
  {
    var x, y := m.Const(events[i].name), m.Const(events[j].name);
    SimplifyPreserves(Or(deps), {}, m, Args(x, y));
    assert Holds(Or(deps), m, Args(x, y)) == SomeHolds(deps, m, Args(x, y));
    assert rel(events[i], events[j]) ==> (i, j) in seen && Matches((i, j), rel, events, m, x, y);
    forall p | p in seen && Matches(p, rel, events, m, x, y)
      ensures p.0 == i && p.1 == j
    {
    }
  }

  /** Encodes `rel` on the events: the formula holds of two events' names exactly when `rel` holds of
      the events. */
  method SmtBasicRel<T>(rel: (AxEvent<T>, AxEvent<T>) -> bool, events: seq<AxEvent<T>>) returns (sexp: Sexp)
    ensures forall m, i: nat, j: nat | WellFormed(m) && NamesDistinct(events, m) && i < |events| && j < |events| ::
              Holds(sexp, m, Args(m.Const(events[i].name), m.Const(events[j].name))) <==> rel(events[i], events[j])
  {
    var deps: seq<Sexp> := [];
    ghost var seen: set<(nat, nat)> := {};
    var pairs := new Pairs(events);
    var more := true;
    while more
      invariant pairs.Valid() && pairs.slice == events
      invariant Encoded(deps, seen, rel, events)
      invariant more ==> forall k: nat, l: nat | k < |events| && l < |events| :: pairs.Done(k, l) <==> (k, l) in seen
      invariant !more ==> forall k: nat, l: nat | k < |events| && l < |events| :: (k, l) in seen
      decreases more, |events| - pairs.row, |events| - pairs.col
    {
      ghost var i: nat, j: nat;
      var item;
      label before:
      item, i, j := pairs.Next();
      if item.Some? {
        var (ev1, ev2) := item.value;
        EncodeStep(deps, seen, rel, events, i, j);
        if rel(ev1, ev2) {
          deps := deps + [Clause(ev1.name, ev2.name)];
        }
        seen := seen + {(i, j)};
      } else {
        assert forall k: nat, l: nat | k < |events| && l < |events| :: old@before(pairs.Done(k, l));
        more := false;
      }
    }
    forall m, i: nat, j: nat | WellFormed(m) && NamesDistinct(events, m) && i < |events| && j < |events|
      ensures Holds(Simplify(Or(deps), {}), m, Args(m.Const(events[i].name), m.Const(events[j].name)))
              <==> rel(events[i], events[j])
    {
      EncodedAll(deps, seen, rel, events, m, i, j);
    }
    sexp := Simplify(Or(deps), {});
  }
}
