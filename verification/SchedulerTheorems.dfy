/** What holds of every run of the scheduler, whatever the interleaving. */
module SchedulerTheorems {
  import opened Fractions
  import opened Scheduler
  import opened SchedulerProofs

  ghost predicate Inv(s: State, threads: nat, ids: seq<TaskId>) {
    && |s.workers| == threads
    && Positive(s) && QueuesDrained(s) && KillOrder(s)
    && forall m :: Total(s, m) == Expected(s, ids, m)
  }

  lemma {:induction false} InitialWeight(ids: seq<TaskId>, m: Measure)
    ensures m.Credit? ==> QueueWeight(InitialTasks(ids), m) == Occurrences(m.id, ids) as real
    ensures m.Copies? ==> QueueWeight(InitialTasks(ids), m) == if m.uid < |ids| then 1.0 else 0.0
    ensures QueuePositive(InitialTasks(ids))
    decreases |ids|
  {
    if ids != [] {
      var n := |ids| - 1;
      InitialWeight(ids[..n], m);
      assert InitialTasks(ids)[..n] == InitialTasks(ids[..n]);
      ValueSign(ONE);
    }
  }

  lemma StartTotal(threads: nat, ids: seq<TaskId>, m: Measure)
    ensures Total(Start(threads, ids), m) == Expected(Start(threads, ids), ids, m)
  {
    var s := Start(threads, ids);
    InitialWeight(ids, m);
    assert forall w | w in s.workers :: w == Worker([], Seek, []) && WorkerWeight(w, m) == 0.0;
    WorkersSign(s.workers, m);
  }

  lemma StartInv(threads: nat, ids: seq<TaskId>)
    ensures Inv(Start(threads, ids), threads, ids)
  {
    InitialWeight(ids, Credit(0));
    forall m
      ensures Total(Start(threads, ids), m) == Expected(Start(threads, ids), ids, m)
    {
      StartTotal(threads, ids, m);
    }
  }

  lemma StepExpected(s: State, e: Event, threads: nat, ids: seq<TaskId>, m: Measure)
    requires Enabled(s, e) && Total(s, m) == Expected(s, ids, m)
    ensures Total(Apply(s, e), m) == Expected(Apply(s, e), ids, m)
  {
    hide Total;
    StepTotal(s, e, m);
  }

  lemma StepInv(s: State, e: Event, threads: nat, ids: seq<TaskId>)
    requires Enabled(s, e) && Inv(s, threads, ids)
    ensures Inv(Apply(s, e), threads, ids)
  {
    forall m
      ensures Total(Apply(s, e), m) == Expected(Apply(s, e), ids, m)
    {
      StepExpected(s, e, threads, ids, m);
    }
    assert |Apply(s, e).workers| == threads;
    hide Total, Expected, Positive, QueuesDrained, KillOrder, WorkerApply, MainApply, WorkerEnabled, MainEnabled;
    match e {
      case Work(w, a) =>
        WorkPositive(s, w, a);
        WorkDrained(s, w, a);
        WorkKillOrder(s, w, a);
      case Main(c) =>
        ControlPositive(s, c);
        ControlKillOrder(s, c);
        ControlDrained(s, c);
    }
  }

  lemma {:induction false} RunInv(s: State, es: seq<Event>, threads: nat, ids: seq<TaskId>)
    requires Runs(s, es) && Inv(s, threads, ids)
    ensures Inv(After(s, es), threads, ids)
    decreases |es|
  {
    if es != [] {
      StepInv(s, es[0], threads, ids);
      RunInv(Apply(s, es[0]), es[1..], threads, ids);
    }
  }

  lemma {:induction false} RunSnoc(s: State, es: seq<Event>, e: Event)
    requires Runs(s, es) && Enabled(After(s, es), e)
    ensures Runs(s, es + [e]) && After(s, es + [e]) == Apply(After(s, es), e)
    decreases |es|
  {
    if es == [] {
      assert [] + [e] == [e] && [e][1..] == [];
    } else {
      RunSnoc(Apply(s, es[0]), es[1..], e);
      assert (es + [e])[1..] == es[1..] + [e];
    }
  }

  /** The state reached by some run of the scheduler on `ids` with `threads` workers. */
  ghost predicate Reachable(s: State, threads: nat, ids: seq<TaskId>) {
    exists es :: Runs(Start(threads, ids), es) && After(Start(threads, ids), es) == s
  }

  lemma ReachStep(s: State, e: Event, threads: nat, ids: seq<TaskId>)
    requires Reachable(s, threads, ids) && Enabled(s, e)
    ensures Reachable(Apply(s, e), threads, ids)
  {
    var es :| Runs(Start(threads, ids), es) && After(Start(threads, ids), es) == s;
    RunSnoc(Start(threads, ids), es, e);
  }

  lemma ReachableInv(s: State, threads: nat, ids: seq<TaskId>)
    requires Reachable(s, threads, ids)
    ensures Inv(s, threads, ids)
  {
    var es :| Runs(Start(threads, ids), es) && After(Start(threads, ids), es) == s;
    StartInv(threads, ids);
    RunInv(Start(threads, ids), es, threads, ids);
  }

  // ----- credit and termination detection

  predicate HoldsTask(w: Worker, id: TaskId) {
    || (exists t | t in w.deque :: t.id == id)
    || (w.phase.Working? && w.phase.task.id == id)
    || (w.phase.Report? && w.phase.taskId == id)
  }

  /** Some work of `id` is queued, running, or finished without the main thread knowing. */
  predicate Outstanding(s: State, id: TaskId) {
    || (exists t | t in s.global :: t.id == id)
    || (exists w | w in s.workers :: HoldsTask(w, id))
    || (exists p | p in s.channel :: p.Finished? && p.taskId == id)
  }

  lemma QueueCredit(q: seq<Task>, id: TaskId)
    requires QueuePositive(q)
    ensures QueueWeight(q, Credit(id)) == 0.0 <==> !exists t | t in q :: t.id == id
  {
    QueueSign(q, Credit(id));
    forall t | t in q
      ensures TaskWeight(t, Credit(id)) == 0.0 <==> t.id != id
    {
      ValueSign(t.frac);
    }
  }

  lemma WorkerCredit(w: Worker, id: TaskId)
    requires WorkerPositive(w)
    ensures WorkerWeight(w, Credit(id)) == 0.0 <==> !HoldsTask(w, id)
  {
    WorkerSign(w, Credit(id));
    QueueCredit(w.deque, id);
    match w.phase
    case Working(t) => ValueSign(t.frac);
    case Report(_, frac) => ValueSign(frac);
    case _ =>
  }

  /** The credit outside the main thread's table is zero exactly when nothing is outstanding. */
  lemma OutstandingCredit(s: State, id: TaskId)
    requires Positive(s)
    ensures Total(s, Credit(id)) >= ProgressWeight(s.progress, Credit(id))
    ensures Total(s, Credit(id)) == ProgressWeight(s.progress, Credit(id)) <==> !Outstanding(s, id)
  {
    var m := Credit(id);
    QueueSign(s.global, m);
    QueueCredit(s.global, id);
    WorkersSign(s.workers, m);
    forall w | w in s.workers
      ensures WorkerWeight(w, m) == 0.0 <==> !HoldsTask(w, id)
    {
      WorkerCredit(w, id);
    }
    ChannelSign(s.channel, m);
    forall p | p in s.channel
      ensures MessageWeight(p, m) == 0.0 <==> !(p.Finished? && p.taskId == id)
    {
      if p.Finished? { ValueSign(p.frac); }
    }
  }

  /** Recovered credit plus everything in flight is one unit per initial task of the id, always. */
  lemma CreditConserved(s: State, threads: nat, ids: seq<TaskId>, id: TaskId)
    requires Reachable(s, threads, ids)
    ensures Total(s, Credit(id)) == Occurrences(id, ids) as real
    ensures Positive(s)
  {
    ReachableInv(s, threads, ids);
  }

  /** The recovered fraction of an id reads one exactly when none of its work is outstanding. */
  lemma DetectionExact(s: State, threads: nat, ids: seq<TaskId>, id: TaskId)
    requires Reachable(s, threads, ids) && Occurrences(id, ids) == 1
    ensures (id in s.progress && s.progress[id].IsOne()) <==> !Outstanding(s, id)
  {
    CreditConserved(s, threads, ids, id);
    OutstandingCredit(s, id);
    if id in s.progress { ValueSign(s.progress[id]); }
  }

  lemma {:induction false} OccursIn<T>(x: T, s: seq<T>)
    ensures Occurrences(x, s) >= 1 <==> x in s
    decreases |s|
  {
    if s != [] {
      OccursIn(x, s[..|s| - 1]);
      assert s == s[..|s| - 1] + [s[|s| - 1]];
    }
  }

  /** Ids outside the initial ones never appear anywhere. */
  lemma ForeignIds(s: State, threads: nat, ids: seq<TaskId>, id: TaskId)
    requires Reachable(s, threads, ids) && id !in ids
    ensures id !in s.progress && !Outstanding(s, id)
  {
    CreditConserved(s, threads, ids, id);
    OccursIn(id, ids);
    OutstandingCredit(s, id);
    if id in s.progress { ValueSign(s.progress[id]); }
  }

  predicate AllReported(s: State, ids: seq<TaskId>) { forall id | id in ids :: id in s.progress }

  /** The main thread's test, which ignores ids it has not heard of, is right exactly when it has
      heard of all of them. */
  lemma DecisionExact(s: State, threads: nat, ids: seq<TaskId>)
    requires Reachable(s, threads, ids)
    requires forall id :: Occurrences(id, ids) <= 1
    ensures (AllOne(s.progress) && AllReported(s, ids)) <==> (forall id :: !Outstanding(s, id))
    ensures AllOne(s.progress) ==> ((forall id :: !Outstanding(s, id)) <==> AllReported(s, ids))
  {
    forall id
      ensures id in ids ==> ((id in s.progress && s.progress[id].IsOne()) <==> !Outstanding(s, id))
      ensures id !in ids ==> id !in s.progress && !Outstanding(s, id)
    {
      OccursIn(id, ids);
      if id in ids { DetectionExact(s, threads, ids, id); } else { ForeignIds(s, threads, ids, id); }
    }
  }

  /** The kill can be broadcast while the only task still waits to be started. */
  lemma EarlyKill()
    ensures exists s :: Reachable(s, 1, [7]) && s.main == Killing(0) && Outstanding(s, 7)
  {
    var s0 := Start(1, [7]);
    assert Runs(s0, []) && After(s0, []) == s0;
    assert Reachable(s0, 1, [7]);
    ReachStep(s0, Main(Drained), 1, [7]);
    ReachStep(s0.(main := Poking(0)), Main(PokeNext), 1, [7]);
    ReachStep(s0.(main := Poking(1)), Main(PokeNext), 1, [7]);
    ReachStep(s0.(main := Deciding), Main(Decide), 1, [7]);
    assert s0.global == [Task(0, 7, ONE)] by { assert InitialTasks([]) == []; }
    assert s0.(main := Killing(0)).global[0].id == 7;
  }

  // ----- no task is lost

  predicate AllGone(s: State) { forall w | w in s.workers :: w.phase.Gone? }

  /** At every moment each task created so far is in exactly one place: queued, running or collected. */
  lemma EachTaskOnce(s: State, threads: nat, ids: seq<TaskId>, uid: nat)
    requires Reachable(s, threads, ids)
    ensures QueueWeight(s.global, Copies(uid)) + WorkersWeight(s.workers, Copies(uid))
            + Occurrences(uid, s.collected) as real == if uid < s.next then 1.0 else 0.0
  {
    ReachableInv(s, threads, ids);
    assert Total(s, Copies(uid)) == Expected(s, ids, Copies(uid));
    ChannelSign(s.channel, Copies(uid));
  }

  /** When every worker has left, each initial or forked task has been run and collected once, even
      if the kill was broadcast early. */
  lemma NoTaskLost(s: State, threads: nat, ids: seq<TaskId>, uid: nat)
    requires Reachable(s, threads, ids) && AllGone(s) && threads >= 1
    ensures Occurrences(uid, s.collected) == if uid < s.next then 1 else 0
    ensures forall id :: !Outstanding(s, id) || exists p | p in s.channel :: p.Finished? && p.taskId == id
  {
    ReachableInv(s, threads, ids);
    EachTaskOnce(s, threads, ids, uid);
    assert s.workers[0] in s.workers && s.global == [];
    assert forall w | w in s.workers :: w.deque == [] && WorkerWeight(w, Copies(uid)) == 0.0;
    WorkersSign(s.workers, Copies(uid));
  }

  /** Without workers nothing is ever run. */
  lemma {:induction false} NoWorkers(s: State, es: seq<Event>)
    requires s.workers == [] && Runs(s, es)
    ensures After(s, es).collected == s.collected && After(s, es).next == s.next
    ensures After(s, es).workers == []
    decreases |es|
  {
    if es != [] { NoWorkers(Apply(s, es[0]), es[1..]); }
  }

  /** Leaving workers means finished work exactly when there was a worker or nothing to do. */
  lemma CompleteExactly(s: State, threads: nat, ids: seq<TaskId>)
    requires Reachable(s, threads, ids) && AllGone(s)
    ensures (forall uid: nat :: Occurrences(uid, s.collected) == if uid < s.next then 1 else 0)
            <==> (threads >= 1 || ids == [])
  {
    if threads >= 1 {
      forall uid: nat
        ensures Occurrences(uid, s.collected) == if uid < s.next then 1 else 0
      {
        NoTaskLost(s, threads, ids, uid);
      }
    } else {
      var es :| Runs(Start(threads, ids), es) && After(Start(threads, ids), es) == s;
      NoWorkers(Start(threads, ids), es);
      assert s.collected == [] && s.next == |ids|;
      assert forall uid: nat :: Occurrences(uid, s.collected) == 0;
      if ids != [] {
        assert 0 < s.next && Occurrences(0, s.collected) != 1;
      }
    }
  }

  // ----- no reachable state is stuck

  lemma WorkerProgress(s: State, i: nat) returns (e: Event)
    requires KillOrder(s) && QueuesDrained(s) && i < |s.workers| && !s.workers[i].phase.Gone?
    ensures Enabled(s, e)
  {
    var w := s.workers[i];
    assert w in s.workers;
    match w.phase
    case Seek => e := Work(i, if w.deque == [] then StartScan else PopLocal);
    case Scan(_, _) => e := Work(i, Contend);
    case Working(_) => e := Work(i, Finish);
    case Report(_, _) => e := Work(i, SendFinished);
    case Announce => e := Work(i, SendIdle);
    case Wait =>
      assert InboxOrder(w, Killed(s, i));
      if w.inbox != [] {
        e := Work(i, if w.inbox[0].Poke? then Wake else Leave);
      } else {
        match s.main
        case Drain =>
          assert s.channel != [] ==> s.channel[0] in s.channel;
          e := Main(if s.channel == [] then Drained else Receive);
        case Poking(_) => e := Main(PokeNext);
        case Deciding => e := Main(Decide);
        case Killing(_) => e := Main(KillNext);
        case Stopped => assert false;
      }
  }

  /** As long as a worker has not left, some thread can take a step: no lost wake-up, no deadlock. */
  lemma DeadlockFree(s: State, threads: nat, ids: seq<TaskId>)
    requires Reachable(s, threads, ids) && !AllGone(s)
    ensures exists e :: Enabled(s, e)
  {
    ReachableInv(s, threads, ids);
    var i :| 0 <= i < |s.workers| && !s.workers[i].phase.Gone?;
    var e := WorkerProgress(s, i);
  }

  // ----- which end of a queue, and who is woken

  /** A fork goes to the back of its worker's queue; the worker takes from the back and thieves from the
      front, and nothing else in the queue moves. */
  lemma QueueEnds(s: State, w: nat, a: Action)
    requires Enabled(s, Work(w, a))
    ensures var before, after := s.workers[w], Apply(s, Work(w, a)).workers[w];
            && (a.ForkHalf? || a.ForkSplit? ==>
                  exists given :: after.deque == before.deque + [Task(s.next, before.phase.task.id, given)])
            && (a.PopLocal? ==> after.phase.Working? && before.deque == after.deque + [after.phase.task])
            && (a.Steal? ==>
                  var v := before.phase.next;
                  after.phase.Working? && s.workers[v].deque == [after.phase.task] + Apply(s, Work(w, a)).workers[v].deque)
            && (a.TakeGlobal? ==>
                  after.phase.Working? && s.global == [after.phase.task] + s.global[1..a.batch] + Apply(s, Work(w, a)).global
                  && after.deque == before.deque + s.global[1..a.batch])
  {
    var before, after := s.workers[w], Apply(s, Work(w, a)).workers[w];
    match a
    case ForkHalf => assert after.deque == before.deque + [Task(s.next, before.phase.task.id, before.phase.task.frac.Half())];
    case ForkSplit =>
      assert after.deque == before.deque + [Task(s.next, before.phase.task.id, before.phase.task.frac.Rest(SPLIT_POW))];
    case _ =>
  }

  /** Messages are read in the order in which they were sent, on every channel. */
  lemma MessagesInOrder(s: State, e: Event)
    requires Enabled(s, e)
    ensures var s' := Apply(s, e);
            && (e.Main? && e.control.Receive? ==> s.channel == [s.channel[0]] + s'.channel && s' == Record(s, s.channel[0]).(channel := s'.channel))
            && (!(e.Main? && e.control.Receive?) ==> s.channel <= s'.channel)
            && (e.Work? && e.action.Wake? ==> s.workers[e.w].inbox == [Poke] + s'.workers[e.w].inbox)
            && (e.Work? && e.action.Leave? ==> s.workers[e.w].inbox == [Kill] + s'.workers[e.w].inbox)
  {
  }

  /** A poke is sent to exactly the workers that reported to be idle and nothing since. */
  lemma PokedExactly(s: State)
    requires Enabled(s, Main(PokeNext)) && s.main.next < |s.workers|
    ensures var i, s' := s.main.next, Apply(s, Main(PokeNext));
            && s'.main == Poking(i + 1)
            && s'.workers[i].inbox == s.workers[i].inbox + (if s.isIdle[i] then [Poke] else [])
            && forall k | 0 <= k < |s.workers| && k != i :: s'.workers[k] == s.workers[k]
  {
  }

  /** The main thread takes a worker for idle exactly after reading from it that it is, until it reads that
      it has finished a task. */
  lemma IdleExactly(s: State)
    requires Enabled(s, Main(Receive))
    ensures var msg, s' := s.channel[0], Apply(s, Main(Receive));
            && |s'.isIdle| == |s.isIdle| && s'.isIdle[msg.tid] == msg.Idle?
            && forall k | 0 <= k < |s.isIdle| && k != msg.tid :: s'.isIdle[k] == s.isIdle[k]
  {
  }

  // ----- when a worker reports that it is idle

  /** The looks at other queues of a worker's current scan, after one more event. A worker that met
      contention starts its scan again. */
  function NextLooks(looks: seq<Action>, e: Event, w: nat, threads: nat): seq<Action> {
    if !e.Work? || e.w != w then looks
    else
      match e.action
      case StartScan => []
      case Pass => looks + [Pass]
      case Contend => if |looks| < threads then looks + [Contend] else []
      case GiveUp => if Contend in looks then [] else looks
      case _ => looks
  }

  function Looks(looks: seq<Action>, es: seq<Event>, w: nat, threads: nat): seq<Action>
    decreases |es|
  {
    if es == [] then looks else Looks(NextLooks(looks, es[0], w, threads), es[1..], w, threads)
  }

  /** A queue that was looked at was empty or contended. */
  predicate AllPassed(looks: seq<Action>) { forall k | 0 <= k < |looks| :: looks[k] == Pass }

  ghost predicate ScanInv(s: State, w: nat, looks: seq<Action>, threads: nat) {
    && |s.workers| == threads && w < threads
    && (s.workers[w].phase.Scan? ==>
          && s.workers[w].phase.next == |looks| <= threads
          && (s.workers[w].phase.retry <==> Contend in looks)
          && forall k | 0 <= k < |looks| :: looks[k] == Pass || looks[k] == Contend)
    && (s.workers[w].phase.Announce? ==> |looks| == threads && AllPassed(looks))
  }

  lemma OtherPhase(s: State, e: Event, w: nat)
    requires Enabled(s, e) && w < |s.workers| && (!e.Work? || e.w != w)
    ensures |Apply(s, e).workers| == |s.workers| && Apply(s, e).workers[w].phase == s.workers[w].phase
  {
    match e
    case Work(v, a) => OtherWork(s, v, a, w);
    case Main(c) => OtherMain(s, c, w);
  }

  lemma OtherWork(s: State, v: nat, a: Action, w: nat)
    requires v < |s.workers| && WorkerEnabled(s, s.workers[v], a) && w < |s.workers| && v != w
    ensures |WorkerApply(s, v, a).workers| == |s.workers| && WorkerApply(s, v, a).workers[w].phase == s.workers[w].phase
  {
    hide Frac.Half, Frac.Kept, Frac.Rest;
  }

  lemma OtherMain(s: State, c: Control, w: nat)
    requires MainEnabled(s, c) && w < |s.workers|
    ensures |MainApply(s, c).workers| == |s.workers| && MainApply(s, c).workers[w].phase == s.workers[w].phase
  {
    hide AllOne;
  }

  lemma ScanStep(s: State, e: Event, w: nat, looks: seq<Action>, threads: nat)
    requires Enabled(s, e) && ScanInv(s, w, looks, threads)
    ensures ScanInv(Apply(s, e), w, NextLooks(looks, e, w, threads), threads)
  {
    if !e.Work? || e.w != w {
      OtherPhase(s, e, w);
    }
  }

  lemma {:induction false} ScanRun(s: State, es: seq<Event>, w: nat, looks: seq<Action>, threads: nat)
    requires Runs(s, es) && ScanInv(s, w, looks, threads)
    ensures ScanInv(After(s, es), w, Looks(looks, es, w, threads), threads)
    decreases |es|
  {
    hide ScanInv, NextLooks;
    if es != [] {
      ScanStep(s, es[0], w, looks, threads);
      ScanRun(Apply(s, es[0]), es[1..], w, NextLooks(looks, es[0], w, threads), threads);
    }
  }

  /** A worker is about to report that it is idle only after a scan in which it found every queue empty
      when it looked, without contention on any of them. */
  lemma IdleAfterEmptyScan(threads: nat, ids: seq<TaskId>, es: seq<Event>, w: nat)
    requires Runs(Start(threads, ids), es) && w < threads
    ensures |After(Start(threads, ids), es).workers| == threads
    ensures After(Start(threads, ids), es).workers[w].phase.Announce? ==>
              |Looks([], es, w, threads)| == threads && AllPassed(Looks([], es, w, threads))
  {
    assert ScanInv(Start(threads, ids), w, [], threads);
    ScanRun(Start(threads, ids), es, w, [], threads);
  }
}
