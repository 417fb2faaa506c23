/** When the scheduler can always come to its end: exactly when no id was given twice. */
module SchedulerTermination {
  import opened Fractions
  import opened Scheduler
  import opened SchedulerProofs
  import opened SchedulerTheorems

  // ----- continuations

  /** Some run leads from one state to the other. */
  ghost predicate Leads(s: State, s': State) { exists es :: Runs(s, es) && After(s, es) == s' }

  lemma LeadsSelf(s: State)
    ensures Leads(s, s)
  {
    assert Runs(s, []) && After(s, []) == s;
  }

  lemma LeadsNext(s: State, e: Event, s': State)
    requires Enabled(s, e) && Leads(Apply(s, e), s')
    ensures Leads(s, s')
  {
    var es :| Runs(Apply(s, e), es) && After(Apply(s, e), es) == s';
    assert ([e] + es)[1..] == es;
    assert Runs(s, [e] + es) && After(s, [e] + es) == s';
  }

  lemma {:induction false} RunConcat(s: State, es: seq<Event>, fs: seq<Event>)
    requires Runs(s, es) && Runs(After(s, es), fs)
    ensures Runs(s, es + fs) && After(s, es + fs) == After(After(s, es), fs)
    decreases |es|
  {
    hide Apply, Enabled;
    if es == [] {
      assert [] + fs == fs;
    } else {
      RunConcat(Apply(s, es[0]), es[1..], fs);
      assert (es + fs)[1..] == es[1..] + fs;
    }
  }

  lemma LeadsTrans(s: State, s1: State, s2: State)
    requires Leads(s, s1) && Leads(s1, s2)
    ensures Leads(s, s2)
  {
    var es :| Runs(s, es) && After(s, es) == s1;
    var fs :| Runs(s1, fs) && After(s1, fs) == s2;
    RunConcat(s, es, fs);
  }

  lemma LeadsReachable(s: State, s': State, threads: nat, ids: seq<TaskId>)
    requires Reachable(s, threads, ids) && Leads(s, s')
    ensures Reachable(s', threads, ids)
  {
    assert Leads(Start(threads, ids), s);
    LeadsTrans(Start(threads, ids), s, s');
  }

  // ----- the workers come to rest

  /** The worker can do nothing before the main thread writes to it. */
  predicate AtRest(w: Worker) { w.phase.Gone? || (w.phase.Wait? && w.inbox == []) }

  predicate Quiet(s: State) { forall i | 0 <= i < |s.workers| :: AtRest(s.workers[i]) }

  /** How far a worker is from its rest, apart from the tasks it may still find and its messages. */
  function Rank(p: Phase, n: nat): nat {
    match p
    case Gone => 0
    case Wait => 0
    case Announce => 1
    case Scan(next, retry) => (if retry then n + 3 else 2) + if next <= n then n - next else 0
    case Seek => 2 * n + 4
    case Report(_, _) => 2 * n + 5
    case Working(_) => 2 * n + 6
  }

  datatype Gauge = Tasks | Messages | Ranks

  function Reading(w: Worker, g: Gauge, n: nat): nat {
    match g case Tasks => |w.deque| case Messages => |w.inbox| case Ranks => Rank(w.phase, n)
  }

  function Sum(ws: seq<Worker>, g: Gauge, n: nat): nat {
    if ws == [] then 0 else Sum(ws[..|ws| - 1], g, n) + Reading(ws[|ws| - 1], g, n)
  }

  lemma {:induction false} SumUpdate(ws: seq<Worker>, i: nat, w: Worker, g: Gauge, n: nat)
    requires i < |ws|
    ensures Sum(ws[i := w], g, n) + Reading(ws[i], g, n) == Sum(ws, g, n) + Reading(w, g, n)
    decreases |ws|
  {
    hide Reading;
    var k := |ws| - 1;
    if i < k {
      SumUpdate(ws[..k], i, w, g, n);
      assert ws[i := w][..k] == ws[..k][i := w];
    } else {
      assert ws[i := w][..k] == ws[..k];
    }
  }

  function QueuedTasks(s: State): nat { |s.global| + Sum(s.workers, Tasks, |s.workers|) }

  function Unread(s: State): nat { Sum(s.workers, Messages, |s.workers|) }

  function Distance(s: State): nat { Sum(s.workers, Ranks, |s.workers|) }

  /** Fewer queued tasks, or as many and fewer messages, or as many of both and a shorter way. */
  predicate Closer(s': State, s: State) {
    || QueuedTasks(s') < QueuedTasks(s)
    || (QueuedTasks(s') == QueuedTasks(s) && Unread(s') < Unread(s))
    || (QueuedTasks(s') == QueuedTasks(s) && Unread(s') == Unread(s) && Distance(s') < Distance(s))
  }

  /** The step of a worker that brings it closer to its rest. */
  function Calming(s: State, w: Worker): Action {
    match w.phase
    case Seek => if w.deque != [] then PopLocal else StartScan
    case Scan(next, _) =>
      if next < |s.workers| then (if s.workers[next].deque != [] then Steal else Pass)
      else if s.global != [] then TakeGlobal(1) else GiveUp
    case Working(_) => Finish
    case Report(_, _) => SendFinished
    case Announce => SendIdle
    case Wait => if w.inbox != [] && w.inbox[0].Poke? then Wake else Leave
    case Gone => Leave
  }

  /** The three gauges after a change of one worker. */
  lemma GaugesUpdate(s: State, s': State, i: nat, w: Worker)
    requires i < |s.workers| && s'.workers == s.workers[i := w]
    ensures Sum(s'.workers, Tasks, |s.workers|) + |s.workers[i].deque| == Sum(s.workers, Tasks, |s.workers|) + |w.deque|
    ensures Unread(s') + |s.workers[i].inbox| == Unread(s) + |w.inbox|
    ensures Distance(s') + Rank(s.workers[i].phase, |s.workers|) == Distance(s) + Rank(w.phase, |s.workers|)
  {
    SumUpdate(s.workers, i, w, Tasks, |s.workers|);
    SumUpdate(s.workers, i, w, Messages, |s.workers|);
    SumUpdate(s.workers, i, w, Ranks, |s.workers|);
  }

  lemma CalmingCloser(s: State, i: nat)
    requires QueuesDrained(s) && i < |s.workers| && !AtRest(s.workers[i])
    ensures var a := Calming(s, s.workers[i]);
            && Enabled(s, Work(i, a)) && Closer(Apply(s, Work(i, a)), s)
            && Apply(s, Work(i, a)).main == s.main && Apply(s, Work(i, a)).progress == s.progress
  {
    assert s.workers[i] in s.workers;
    CalmingEnabled(s, i);
    var a := Calming(s, s.workers[i]);
    hide QueuesDrained, Calming, AtRest, Sum, Rank, WorkerEnabled, WorkerApply;
    if a.Steal? {
      StealCloser(s, i);
    } else if a.TakeGlobal? {
      TakeCloser(s, i);
    } else {
      CalmingLess(s, i);
      LocalCloser(s, WorkerApply(s, i, a), i);
    }
    CalmingSame(s, i, a);
  }

  lemma CalmingEnabled(s: State, i: nat)
    requires QueuesDrained(s) && i < |s.workers| && !AtRest(s.workers[i])
    ensures Enabled(s, Work(i, Calming(s, s.workers[i])))
    ensures Calming(s, s.workers[i]).TakeGlobal? ==> Calming(s, s.workers[i]) == TakeGlobal(1)
  {
    assert s.workers[i] in s.workers;
  }

  lemma CalmingSame(s: State, i: nat, a: Action)
    requires Enabled(s, Work(i, a))
    ensures WorkerApply(s, i, a).main == s.main && WorkerApply(s, i, a).progress == s.progress
  {
  }

  /** A worker with fewer tasks, messages or steps before it than another, in this order. */
  predicate Less(w: Worker, v: Worker, n: nat) {
    || |w.deque| < |v.deque|
    || (|w.deque| == |v.deque| && |w.inbox| < |v.inbox|)
    || (|w.deque| == |v.deque| && |w.inbox| == |v.inbox| && Rank(w.phase, n) < Rank(v.phase, n))
  }

  lemma CalmingLess(s: State, i: nat)
    requires QueuesDrained(s) && i < |s.workers| && !AtRest(s.workers[i])
    requires Enabled(s, Work(i, Calming(s, s.workers[i])))
    requires !Calming(s, s.workers[i]).Steal? && !Calming(s, s.workers[i]).TakeGlobal?
    ensures var s' := WorkerApply(s, i, Calming(s, s.workers[i]));
            && |s'.workers| == |s.workers| && s'.workers == s.workers[i := s'.workers[i]] && s'.global == s.global
            && Less(s'.workers[i], s.workers[i], |s.workers|)
  {
    assert s.workers[i] in s.workers;
  }

  lemma LocalCloser(s: State, s': State, i: nat)
    requires i < |s.workers| == |s'.workers| && s'.workers == s.workers[i := s'.workers[i]] && s'.global == s.global
    requires Less(s'.workers[i], s.workers[i], |s.workers|)
    ensures Closer(s', s)
  {
    GaugesUpdate(s, s', i, s'.workers[i]);
    hide Sum, Rank;
  }

  lemma StealCloser(s: State, i: nat)
    requires Enabled(s, Work(i, Steal))
    ensures QueuedTasks(WorkerApply(s, i, Steal)) < QueuedTasks(s)
  {
    var j := s.workers[i].phase.next;
    var d := s.workers[j].deque;
    var s1 := SetDeque(s, j, d[1..]);
    var s' := WorkerApply(s, i, Steal);
    GaugesUpdate(s, s1, j, s.workers[j].(deque := d[1..]));
    GaugesUpdate(s1, s', i, s'.workers[i]);
    hide Sum, Rank;
    assert s'.workers[i].deque == s1.workers[i].deque;
  }

  lemma TakeCloser(s: State, i: nat)
    requires Enabled(s, Work(i, TakeGlobal(1)))
    ensures QueuedTasks(WorkerApply(s, i, TakeGlobal(1))) < QueuedTasks(s)
  {
    var s' := WorkerApply(s, i, TakeGlobal(1));
    assert s'.workers == s.workers[i := s'.workers[i]];
    GaugesUpdate(s, s', i, s'.workers[i]);
    hide Sum, Rank;
  }

  /** Left alone by the main thread, the workers come to rest. */
  lemma {:induction false} Quiesce(s: State, threads: nat, ids: seq<TaskId>) returns (s': State)
    requires Reachable(s, threads, ids)
    ensures Reachable(s', threads, ids) && Leads(s, s') && Quiet(s')
    ensures s'.main == s.main && s'.progress == s.progress
    decreases QueuedTasks(s), Unread(s), Distance(s)
  {
    hide *;
    if Quiet(s) {
      LeadsSelf(s);
      s' := s;
    } else {
      var i := Restless(s);
      ReachableDrained(s, threads, ids);
      CalmingCloser(s, i);
      var e := Work(i, Calming(s, s.workers[i]));
      CloserDecreases(Apply(s, e), s);
      ReachStep(s, e, threads, ids);
      s' := Quiesce(Apply(s, e), threads, ids);
      LeadsNext(s, e, s');
    }
  }

  lemma Restless(s: State) returns (i: nat)
    requires !Quiet(s)
    ensures i < |s.workers| && !AtRest(s.workers[i])
  {
    var k :| 0 <= k < |s.workers| && !AtRest(s.workers[k]);
    i := k;
  }

  lemma CloserDecreases(s': State, s: State)
    requires Closer(s', s)
    ensures QueuedTasks(s') < QueuedTasks(s)
            || (QueuedTasks(s') == QueuedTasks(s) && Unread(s') < Unread(s))
            || (QueuedTasks(s') == QueuedTasks(s) && Unread(s') == Unread(s) && Distance(s') < Distance(s))
  {
  }

  lemma ReachableDrained(s: State, threads: nat, ids: seq<TaskId>)
    requires Reachable(s, threads, ids)
    ensures QueuesDrained(s) && KillOrder(s) && |s.workers| == threads
  {
    ReachableInv(s, threads, ids);
    hide Reachable, Positive, QueuesDrained, KillOrder, Total, Expected;
  }

  // ----- what the main thread does on its own

  /** The workers' tasks and phases, the queues and the table are as they were. */
  predicate SameWork(s: State, s': State) {
    && s'.global == s.global && s'.channel == s.channel && s'.progress == s.progress && |s'.workers| == |s.workers|
  }

  lemma {:induction false} PokeAll(s: State, threads: nat, ids: seq<TaskId>) returns (s': State)
    requires Reachable(s, threads, ids) && s.main.Poking?
    ensures Reachable(s', threads, ids) && Leads(s, s') && s'.main.Deciding? && SameWork(s, s')
    decreases |s.workers| - s.main.next
  {
    ReachableDrained(s, threads, ids);
    var e := Main(PokeNext);
    ReachStep(s, e, threads, ids);
    var s1 := Apply(s, e);
    hide Reachable, QueuesDrained, Leads;
    if s1.main.Deciding? {
      LeadsSelf(s1);
      s' := s1;
    } else {
      s' := PokeAll(s1, threads, ids);
    }
    LeadsNext(s, e, s');
  }

  lemma {:induction false} KillAll(s: State, threads: nat, ids: seq<TaskId>) returns (s': State)
    requires Reachable(s, threads, ids) && s.main.Killing?
    ensures Reachable(s', threads, ids) && Leads(s, s') && s'.main.Stopped?
    decreases |s.workers| - s.main.next
  {
    ReachableDrained(s, threads, ids);
    var e := Main(KillNext);
    ReachStep(s, e, threads, ids);
    var s1 := Apply(s, e);
    hide Reachable, QueuesDrained, Leads;
    if s1.main.Stopped? {
      LeadsSelf(s1);
      s' := s1;
    } else {
      s' := KillAll(s1, threads, ids);
    }
    LeadsNext(s, e, s');
  }

  lemma {:induction false} ReceiveAll(s: State, threads: nat, ids: seq<TaskId>) returns (s': State)
    requires Reachable(s, threads, ids) && s.main.Drain?
    ensures Reachable(s', threads, ids) && Leads(s, s') && s'.main.Drain? && s'.channel == []
    ensures s'.workers == s.workers && s'.global == s.global
    decreases |s.channel|
  {
    if s.channel == [] {
      LeadsSelf(s);
      s' := s;
    } else {
      ReachableDrained(s, threads, ids);
      assert s.channel[0] in s.channel;
      var e := Main(Receive);
      ReachStep(s, e, threads, ids);
      hide Reachable, QueuesDrained, Leads;
      s' := ReceiveAll(Apply(s, e), threads, ids);
      LeadsNext(s, e, s');
    }
  }

  // ----- nothing outstanding

  ghost predicate AllDone(s: State) { forall id :: !Outstanding(s, id) }

  /** Where all workers rest and all messages are read, nothing is outstanding. */
  lemma RestDone(s: State, threads: nat, ids: seq<TaskId>)
    requires Reachable(s, threads, ids) && threads >= 1 && Quiet(s) && s.channel == []
    ensures AllDone(s)
  {
    ReachableDrained(s, threads, ids);
    assert s.workers[0] in s.workers && AtRest(s.workers[0]);
    forall id
      ensures !Outstanding(s, id)
    {
      forall w | w in s.workers
        ensures !HoldsTask(w, id)
      {
        var i :| 0 <= i < |s.workers| && s.workers[i] == w;
        assert AtRest(s.workers[i]);
      }
    }
  }

  predicate EachOnce(ids: seq<TaskId>) { forall id | id in ids :: Occurrences(id, ids) == 1 }

  /** Once nothing is outstanding the next decision is the kill. */
  lemma NextDecision(s: State, threads: nat, ids: seq<TaskId>)
    requires Reachable(s, threads, ids) && EachOnce(ids) && AllDone(s) && s.main.Deciding?
    ensures Enabled(s, Main(Decide)) && Apply(s, Main(Decide)).main == Killing(0)
  {
    DoneOne(s, threads, ids);
  }

  lemma DoneOne(s: State, threads: nat, ids: seq<TaskId>)
    requires Reachable(s, threads, ids) && EachOnce(ids) && AllDone(s)
    ensures AllOne(s.progress)
  {
    hide Reachable, Outstanding;
    forall id | id in s.progress
      ensures s.progress[id].IsOne()
    {
      if id in ids { DetectionExact(s, threads, ids, id); } else { ForeignIds(s, threads, ids, id); }
    }
  }

  // ----- the end can always be reached

  lemma FromStopped(s: State, threads: nat, ids: seq<TaskId>) returns (s': State)
    requires Reachable(s, threads, ids) && s.main.Stopped?
    ensures Leads(s, s') && AllGone(s')
  {
    s' := Quiesce(s, threads, ids);
    ReachableDrained(s', threads, ids);
    hide Reachable, QueuesDrained, Leads;
    forall i | 0 <= i < |s'.workers|
      ensures s'.workers[i].phase.Gone?
    {
      assert InboxOrder(s'.workers[i], Killed(s', i)) && AtRest(s'.workers[i]);
    }
  }

  lemma FromKilling(s: State, threads: nat, ids: seq<TaskId>) returns (s': State)
    requires Reachable(s, threads, ids) && s.main.Killing?
    ensures Leads(s, s') && AllGone(s')
  {
    hide *;
    var s1 := KillAll(s, threads, ids);
    s' := FromStopped(s1, threads, ids);
    LeadsTrans(s, s1, s');
  }

  /** From a state in which the main thread decides with nothing outstanding. */
  lemma FromDone(s: State, threads: nat, ids: seq<TaskId>) returns (s': State)
    requires Reachable(s, threads, ids) && EachOnce(ids) && AllOne(s.progress) && s.main.Deciding?
    ensures Leads(s, s') && AllGone(s')
  {
    var e := Main(Decide);
    assert Enabled(s, e) && Apply(s, e).main == Killing(0);
    hide *;
    ReachStep(s, e, threads, ids);
    s' := FromKilling(Apply(s, e), threads, ids);
    LeadsNext(s, e, s');
  }

  lemma FromDrain(s: State, threads: nat, ids: seq<TaskId>) returns (s': State)
    requires Reachable(s, threads, ids) && EachOnce(ids) && threads >= 1 && s.main.Drain?
    ensures Leads(s, s') && AllGone(s')
  {
    hide Reachable, Leads, Runs, After, Quiet, AllDone, EachOnce, AllOne, AllGone;
    var s1 := Quiesce(s, threads, ids);
    var s2 := ReceiveAll(s1, threads, ids);
    assert Quiet(s2) by { StillQuiet(s1, s2); }
    RestDone(s2, threads, ids);
    DoneOne(s2, threads, ids);
    var e := Main(Drained);
    ReachStep(s2, e, threads, ids);
    var s3 := PokeAll(Apply(s2, e), threads, ids);
    s' := FromDone(s3, threads, ids);
    LeadsTrans(Apply(s2, e), s3, s');
    LeadsNext(s2, e, s');
    LeadsTrans(s1, s2, s');
    LeadsTrans(s, s1, s');
  }

  lemma StillQuiet(s: State, s': State)
    requires Quiet(s) && s'.workers == s.workers
    ensures Quiet(s')
  {
  }

  lemma FromDeciding(s: State, threads: nat, ids: seq<TaskId>) returns (s': State)
    requires Reachable(s, threads, ids) && EachOnce(ids) && threads >= 1 && s.main.Deciding?
    ensures Leads(s, s') && AllGone(s')
  {
    var e := Main(Decide);
    hide Reachable, Leads, Runs, After, EachOnce, AllOne, AllGone;
    ReachStep(s, e, threads, ids);
    var s1 := Apply(s, e);
    if s1.main.Drain? { s' := FromDrain(s1, threads, ids); } else { s' := FromKilling(s1, threads, ids); }
    LeadsNext(s, e, s');
  }

  lemma FromAnywhere(s: State, threads: nat, ids: seq<TaskId>) returns (s': State)
    requires Reachable(s, threads, ids) && EachOnce(ids) && threads >= 1
    ensures Leads(s, s') && AllGone(s')
  {
    hide *;
    match s.main {
      case Drain => s' := FromDrain(s, threads, ids);
      case Poking(_) =>
        var s1 := PokeAll(s, threads, ids);
        s' := FromDeciding(s1, threads, ids);
        LeadsTrans(s, s1, s');
      case Deciding => s' := FromDeciding(s, threads, ids);
      case Killing(_) => s' := FromKilling(s, threads, ids);
      case Stopped => s' := FromStopped(s, threads, ids);
    }
  }

  // ----- an id given twice

  /** The id has recovered more than one unit, and the kill is not under way. */
  ghost predicate Overfull(s: State, id: TaskId) {
    id in s.progress && s.progress[id].Value() > 1.0 && !s.main.Killing? && !s.main.Stopped?
  }

  lemma OverfullStep(s: State, e: Event, id: TaskId)
    requires Enabled(s, e) && Overfull(s, id)
    ensures Overfull(Apply(s, e), id)
  {
    if e.Main? {
      if e.control.Receive? {
        var msg := s.channel[0];
        if msg.Finished? && msg.taskId == id {
          AddValue(s.progress[id], msg.frac);
          ValueSign(msg.frac);
        }
      } else if e.control.Decide? {
        ValueSign(s.progress[id]);
        assert !s.progress[id].IsOne();
      }
    }
  }

  lemma {:induction false} OverfullStays(s: State, es: seq<Event>, id: TaskId)
    requires Runs(s, es) && Overfull(s, id)
    ensures Overfull(After(s, es), id)
    decreases |es|
  {
    hide Overfull;
    if es != [] {
      OverfullStep(s, es[0], id);
      OverfullStays(Apply(s, es[0]), es[1..], id);
    }
  }

  /** With an id given twice there is a reachable state in which it is overfull. */
  lemma BecomesOverfull(threads: nat, ids: seq<TaskId>, id: TaskId) returns (s: State)
    requires threads >= 1 && Occurrences(id, ids) >= 2
    ensures Reachable(s, threads, ids) && Overfull(s, id)
  {
    var s0 := Start(threads, ids);
    assert Runs(s0, []) && After(s0, []) == s0;
    assert Reachable(s0, threads, ids);
    assert s0.main.Drain?;
    hide Start, Reachable, Runs, After, Leads;
    var s1 := Quiesce(s0, threads, ids);
    s := ReceiveAll(s1, threads, ids);
    assert Quiet(s) by { StillQuiet(s1, s); }
    RestDone(s, threads, ids);
    CreditConserved(s, threads, ids, id);
    assert !Outstanding(s, id);
    hide Outstanding, Total, Positive;
    OutstandingCredit(s, id);
  }

  lemma NeverGone(s: State, s': State, threads: nat, ids: seq<TaskId>, id: TaskId)
    requires Reachable(s, threads, ids) && threads >= 1 && Overfull(s, id) && Leads(s, s')
    ensures !AllGone(s')
  {
    var es :| Runs(s, es) && After(s, es) == s';
    OverfullStays(s, es, id);
    LeadsReachable(s, s', threads, ids);
    ReachableDrained(s', threads, ids);
    hide Reachable, Runs, After, Leads, QueuesDrained;
    assert s'.workers[0] in s'.workers && InboxOrder(s'.workers[0], Killed(s', 0));
  }

  /** From every reachable state the workers can still all leave. */
  ghost predicate CanAlwaysEnd(threads: nat, ids: seq<TaskId>) {
    forall s | Reachable(s, threads, ids) :: CanEnd(s)
  }

  ghost predicate CanEnd(s: State) { exists s' :: Leads(s, s') && AllGone(s') }

  /** The end can be reached from every reachable state exactly when no id was given twice, or there is
      no worker at all. */
  lemma EndsExactly(threads: nat, ids: seq<TaskId>)
    ensures CanAlwaysEnd(threads, ids) <==> threads == 0 || EachOnce(ids)
  {
    hide Reachable, Leads, AllGone, EachOnce, Occurrences;
    if threads == 0 {
      forall s | Reachable(s, threads, ids)
        ensures CanEnd(s)
      {
        LeadsSelf(s);
        WithoutWorkers(s, ids);
      }
    } else if EachOnce(ids) {
      forall s | Reachable(s, threads, ids)
        ensures CanEnd(s)
      {
        var s' := FromAnywhere(s, threads, ids);
      }
    } else {
      var id := GivenTwice(ids);
      var s := BecomesOverfull(threads, ids, id);
      forall s' | Leads(s, s')
        ensures !AllGone(s')
      {
        NeverGone(s, s', threads, ids, id);
      }
      assert !CanEnd(s);
    }
  }

  lemma WithoutWorkers(s: State, ids: seq<TaskId>)
    requires Reachable(s, 0, ids)
    ensures AllGone(s)
  {
    ReachableDrained(s, 0, ids);
  }

  lemma GivenTwice(ids: seq<TaskId>) returns (id: TaskId)
    requires !EachOnce(ids)
    ensures Occurrences(id, ids) >= 2
  {
    id :| id in ids && Occurrences(id, ids) != 1;
    OccursIn(id, ids);
  }
}
