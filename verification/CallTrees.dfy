/** When calls balance: the calls and returns of a thread are the text of a forest of calls. */
module CallTrees {
  import opened Wrappers
  import opened Extraction

  /** A call with the calls made during it. */
  datatype Tree = Tree(f: Name, body: seq<Tree>)

  /** The calls and returns of some calls, one after the other. */
  function Text(trees: seq<Tree>): seq<Event> {
    if trees == [] then []
    else [Function(trees[0].f, true)] + Text(trees[0].body) + [Function(trees[0].f, false)] + Text(trees[1..])
  }

  /** The calls and returns among the events. */
  function CallsIn(events: seq<Event>): seq<Event> {
    if events == [] then []
    else
      var n := |events| - 1;
      CallsIn(events[..n]) + if events[n].Function? then [events[n]] else []
  }

  function Flat(cycles: seq<seq<Event>>): seq<Event> {
    if cycles == [] then [] else Flat(cycles[..|cycles| - 1]) + cycles[|cycles| - 1]
  }

  /** All events of a thread but those of its initialisation. */
  function AfterInit(thread: seq<Event>): seq<Event> { Flat(Cycles(thread)[1..]) }

  ghost predicate IsForest(events: seq<Event>) { exists trees :: Text(trees) == CallsIn(events) }

  // ----- the names on the stack

  function Step(stack: seq<Name>, e: Event): Option<seq<Name>> {
    if !e.Function? then Some(stack)
    else if e.call then Some(stack + [e.name])
    else if stack == [] || stack[|stack| - 1] != e.name then None
    else Some(stack[..|stack| - 1])
  }

  function Run(stack: seq<Name>, events: seq<Event>): Option<seq<Name>> {
    if events == [] then Some(stack)
    else
      var n := |events| - 1;
      var before := Run(stack, events[..n]);
      if before.None? then None else Step(before.value, events[n])
  }

  function NamesOf(stack: seq<(Name, nat)>): seq<Name> { seq(|stack|, i requires 0 <= i < |stack| => stack[i].0) }

  lemma {:induction false} RunConcat(stack: seq<Name>, a: seq<Event>, b: seq<Event>)
    ensures Run(stack, a + b) == if Run(stack, a).None? then None else Run(Run(stack, a).value, b)
    decreases |b|
  {
    if b == [] {
      assert a + b == a;
    } else {
      var n := |b| - 1;
      assert (a + b)[..|a| + n] == a + b[..n] && (a + b)[|a| + n] == b[n];
      RunConcat(stack, a, b[..n]);
    }
  }

  lemma StepNames(calls: Calls, e: Event)
    ensures Step(NamesOf(calls.stack), e) ==
            if AfterEvent(calls, e).None? then None else Some(NamesOf(AfterEvent(calls, e).value.stack))
  {
    var stack := calls.stack;
    if e.Function? && e.call { assert NamesOf(stack + [(e.name, calls.count)]) == NamesOf(stack) + [e.name]; }
    if stack != [] { assert NamesOf(stack[..|stack| - 1]) == NamesOf(stack)[..|stack| - 1]; }
  }

  lemma {:induction false} RunNames(calls: Calls, cycle: seq<Event>, n: nat)
    requires n <= |cycle|
    ensures Run(NamesOf(calls.stack), cycle[..n]) ==
            if AfterEvents(calls, cycle, n).None? then None else Some(NamesOf(AfterEvents(calls, cycle, n).value.stack))
    decreases n
  {
    hide NamesOf, Step, AfterEvent;
    if n > 0 {
      RunNames(calls, cycle, n - 1);
      assert cycle[..n][..n - 1] == cycle[..n - 1];
      var before := AfterEvents(calls, cycle, n - 1);
      if before.Some? { StepNames(before.value, cycle[n - 1]); }
    }
  }

  lemma {:induction false} RunCycles(calls: Calls, cycles: seq<seq<Event>>, n: nat)
    requires 1 <= n <= |cycles|
    ensures Run(NamesOf(calls.stack), Flat(cycles[1..n])) ==
            if AfterCycles(calls, cycles, n).None? then None else Some(NamesOf(AfterCycles(calls, cycles, n).value.stack))
    decreases n
  {
    hide NamesOf, Step, AfterEvent, AfterEvents;
    if n > 1 {
      RunCycles(calls, cycles, n - 1);
      var cycle := cycles[n - 1];
      assert cycles[1..n][..n - 2] == cycles[1..n - 1] && cycles[1..n][n - 2] == cycle;
      RunConcat(NamesOf(calls.stack), Flat(cycles[1..n - 1]), cycle);
      var before := AfterCycles(calls, cycles, n - 1);
      if before.Some? {
        RunNames(before.value, cycle, |cycle|);
        assert cycle[..|cycle|] == cycle;
      }
    }
  }

  lemma {:induction false} ThreadsRun(candidate: Candidate, n: nat)
    requires n <= |candidate|
    ensures AfterThreads(candidate, n).Some? <==> forall t | 0 <= t < n :: Run([], AfterInit(candidate[t])) == Some([])
    ensures AfterThreads(candidate, n).Some? ==> AfterThreads(candidate, n).value.stack == []
    decreases n
  {
    if n > 0 {
      ThreadsRun(candidate, n - 1);
      var before := AfterThreads(candidate, n - 1);
      if before.Some? {
        ThreadRun(before.value, candidate[n - 1]);
      }
    }
  }

  lemma ThreadRun(calls: Calls, thread: seq<Event>)
    requires calls.stack == []
    ensures var cycles := Cycles(thread);
            var after := AfterCycles(calls, cycles, |cycles|);
            Run([], AfterInit(thread)) == Some([]) <==> after.Some? && after.value.stack == []
  {
    var cycles := Cycles(thread);
    assert cycles[1..|cycles|] == cycles[1..] && NamesOf([]) == [];
    hide Run, AfterCycles;
    RunCycles(calls, cycles, |cycles|);
    var after := AfterCycles(calls, cycles, |cycles|);
    if after.Some? { assert |NamesOf(after.value.stack)| == |after.value.stack|; }
  }

  lemma {:induction false} RunCalls(stack: seq<Name>, events: seq<Event>)
    ensures Run(stack, CallsIn(events)) == Run(stack, events)
    decreases |events|
  {
    if events != [] {
      var n := |events| - 1;
      RunCalls(stack, events[..n]);
      if events[n].Function? {
        RunConcat(stack, CallsIn(events[..n]), [events[n]]);
        RunOne(events[n]);
      } else {
        assert CallsIn(events) == CallsIn(events[..n]);
      }
    }
  }

  lemma RunOne(e: Event)
    ensures forall stack :: Run(stack, [e]) == Step(stack, e)
  {
    assert [e][..0] == [];
  }

  // ----- balance and forests

  function Call(f: Name): Event { Function(f, true) }

  function Ret(f: Name): Event { Function(f, false) }

  /** The text of a forest leaves the stack as it was. */
  lemma {:induction false} TextRuns(stack: seq<Name>, trees: seq<Tree>)
    ensures Run(stack, Text(trees)) == Some(stack)
    decreases trees
  {
    if trees != [] {
      var t := trees[0];
      TextRuns(stack + [t.f], t.body);
      TextRuns(stack, trees[1..]);
      var a, b, c := [Call(t.f)], Text(t.body), [Ret(t.f)];
      RunOne(Call(t.f));
      RunOne(Ret(t.f));
      assert (stack + [t.f])[..|stack|] == stack;
      assert Text(trees) == a + b + c + Text(trees[1..]);
      hide Run, Text;
      RunConcat(stack, a, b);
      RunConcat(stack, a + b, c);
      RunConcat(stack, a + b + c, Text(trees[1..]));
    }
  }

  /** What is left to return from a stack: the forests in between, the innermost first. */
  function Unwound(forests: seq<seq<Tree>>, stack: seq<Name>): seq<Event>
    requires |forests| == |stack| + 1
    decreases |stack|
  {
    if stack == [] then Text(forests[0])
    else Text(forests[0]) + [Ret(stack[|stack| - 1])] + Unwound(forests[1..], stack[..|stack| - 1])
  }

  lemma {:induction false} TextConcat(a: seq<Tree>, b: seq<Tree>)
    ensures Text(a + b) == Text(a) + Text(b)
    decreases a
  {
    if a == [] {
      assert a + b == b;
    } else {
      assert (a + b)[0] == a[0] && (a + b)[1..] == a[1..] + b;
      TextConcat(a[1..], b);
      var head := [Call(a[0].f)] + Text(a[0].body) + [Ret(a[0].f)];
      Assoc(head, Text(a[1..]), Text(b));
    }
  }

  lemma Assoc<T>(a: seq<T>, b: seq<T>, c: seq<T>)
    ensures a + (b + c) == a + b + c
  {
  }

  /** Calls and returns that empty the stack are what is left to return from it. */
  lemma {:induction false} Parse(stack: seq<Name>, events: seq<Event>) returns (forests: seq<seq<Tree>>)
    requires Run(stack, events) == Some([]) && forall e | e in events :: e.Function?
    ensures |forests| == |stack| + 1 && Unwound(forests, stack) == events
    decreases |events|
  {
    if events == [] {
      forests := [[]];
    } else {
      var e, rest := events[0], events[1..];
      assert events == [e] + rest;
      RunConcat(stack, [e], rest);
      RunOne(e);
      assert e in events;
      if e.call {
        var inner := Parse(stack + [e.name], rest);
        forests := CallFirst(stack, e.name, inner);
      } else {
        var n := |stack| - 1;
        var inner := Parse(stack[..n], rest);
        forests := [[]] + inner;
        assert forests[1..] == inner;
        assert Unwound(forests, stack) == [] + [Ret(stack[n])] + Unwound(inner, stack[..n]);
      }
    }
  }

  lemma Shuffle<T>(c: T, x: seq<T>, r: T, y: seq<T>, z: seq<T>, u: seq<T>)
    ensures [c] + x + [r] + [] + y == [c] + (x + [r] + y)
    ensures [c] + x + [r] + [] + y + z + u == [c] + (x + [r] + (y + z + u))
  {
  }

  lemma TextOne(t: Tree)
    ensures Text([t]) == [Call(t.f)] + Text(t.body) + [Ret(t.f)] + []
  {
    assert [t][1..] == [];
  }

  lemma UnwoundTop(forests: seq<seq<Tree>>, stack: seq<Name>, f: Name)
    requires |forests| == |stack| + 2
    ensures Unwound(forests, stack + [f]) == Text(forests[0]) + [Ret(f)] + Unwound(forests[1..], stack)
  {
    assert (stack + [f])[..|stack|] == stack;
  }

  /** A call in front of its own forest and return. */
  lemma CallFirst(stack: seq<Name>, f: Name, inner: seq<seq<Tree>>) returns (forests: seq<seq<Tree>>)
    requires |inner| == |stack| + 2
    ensures |forests| == |stack| + 1 && Unwound(forests, stack) == [Call(f)] + Unwound(inner, stack + [f])
  {
    var t := Tree(f, inner[0]);
    forests := [[t] + inner[1]] + inner[2..];
    assert inner[1..][1..] == inner[2..] && forests[1..] == inner[2..];
    var rest := inner[1..];
    var z, u := [], [];
    if stack != [] { z, u := [Ret(stack[|stack| - 1])], Unwound(inner[2..], stack[..|stack| - 1]); }
    assert stack == [] ==> Unwound(rest, stack) == Text(inner[1]) && Unwound(forests, stack) == Text([t] + inner[1]);
    assert stack != [] ==>
        Unwound(rest, stack) == Text(inner[1]) + z + u && Unwound(forests, stack) == Text([t] + inner[1]) + z + u;
    hide *;
    UnwoundTop(inner, stack, f);
    TextConcat([t], inner[1]);
    TextOne(t);
    Shuffle(Call(f), Text(inner[0]), Ret(f), Text(inner[1]), z, u);
  }

  lemma {:induction false} OnlyCalls(events: seq<Event>)
    ensures forall e | e in CallsIn(events) :: e.Function?
    decreases |events|
  {
    if events != [] { OnlyCalls(events[..|events| - 1]); }
  }

  /** From an empty stack to an empty stack: exactly the forests. */
  lemma RunForest(events: seq<Event>)
    ensures Run([], events) == Some([]) <==> IsForest(events)
  {
    RunCalls([], events);
    if Run([], events) == Some([]) {
      OnlyCalls(events);
      var forests := Parse([], CallsIn(events));
      assert Text(forests[0]) == CallsIn(events);
    }
    if trees :| Text(trees) == CallsIn(events) { TextRuns([], trees); }
  }

  /** Calls balance exactly if in every thread, initialisation aside, the calls and returns are those of
      some calls one after the other, each with calls of its own during it. */
  lemma BalancedExactly(candidate: Candidate)
    ensures Balanced(candidate) <==> forall t | 0 <= t < |candidate| :: IsForest(AfterInit(candidate[t]))
  {
    ThreadsRun(candidate, |candidate|);
    hide Run, AfterThreads, IsForest, AfterInit;
    forall t | 0 <= t < |candidate|
      ensures Run([], AfterInit(candidate[t])) == Some([]) <==> IsForest(AfterInit(candidate[t]))
    {
      RunForest(AfterInit(candidate[t]));
    }
  }
}
