/** Invariants of the scheduler over all runs: credit is conserved, no task is lost or run twice,
    and no reachable state is stuck before every worker has left. */
module SchedulerProofs {
  import opened Fractions
  import opened Scheduler

  /** What is summed over the state: the credit of one task id, or the copies of one task. */
  datatype Measure = Credit(id: TaskId) | Copies(uid: nat)

  ghost function TaskWeight(t: Task, m: Measure): real {
    match m
    case Credit(id) => if t.id == id then t.frac.Value() else 0.0
    case Copies(uid) => if t.uid == uid then 1.0 else 0.0
  }

  ghost function QueueWeight(q: seq<Task>, m: Measure): real {
    if q == [] then 0.0 else QueueWeight(q[..|q| - 1], m) + TaskWeight(q[|q| - 1], m)
  }

  ghost function PhaseWeight(p: Phase, m: Measure): real {
    match p
    case Working(t) => TaskWeight(t, m)
    case Report(id, frac) => if m == Credit(id) then frac.Value() else 0.0
    case _ => 0.0
  }

  ghost function WorkerWeight(w: Worker, m: Measure): real {
    QueueWeight(w.deque, m) + PhaseWeight(w.phase, m)
  }

  ghost function WorkersWeight(ws: seq<Worker>, m: Measure): real {
    if ws == [] then 0.0 else WorkersWeight(ws[..|ws| - 1], m) + WorkerWeight(ws[|ws| - 1], m)
  }

  ghost function MessageWeight(p: Progress, m: Measure): real {
    if p.Finished? && m == Credit(p.taskId) then p.frac.Value() else 0.0
  }

  ghost function ChannelWeight(c: seq<Progress>, m: Measure): real {
    if c == [] then 0.0 else MessageWeight(c[0], m) + ChannelWeight(c[1..], m)
  }

  ghost function ProgressWeight(progress: map<TaskId, Frac>, m: Measure): real {
    if m.Credit? && m.id in progress then progress[m.id].Value() else 0.0
  }

  function Occurrences<T(==)>(x: T, s: seq<T>): nat {
    if s == [] then 0 else Occurrences(x, s[..|s| - 1]) + (if s[|s| - 1] == x then 1 else 0)
  }

  ghost function CollectedWeight(collected: seq<nat>, m: Measure): real {
    if m.Copies? then Occurrences(m.uid, collected) as real else 0.0
  }

  ghost function Total(s: State, m: Measure): real {
    QueueWeight(s.global, m) + WorkersWeight(s.workers, m)
    + ChannelWeight(s.channel, m) + ProgressWeight(s.progress, m) + CollectedWeight(s.collected, m)
  }

  /** The total a run keeps: one unit of credit per initial task, one copy of every task created. */
  ghost function Expected(s: State, ids: seq<TaskId>, m: Measure): real {
    match m
    case Credit(id) => Occurrences(id, ids) as real
    case Copies(uid) => if uid < s.next then 1.0 else 0.0
  }

  // ----- arithmetic of the sums

  lemma {:induction false} WorkersUpdate(ws: seq<Worker>, i: nat, w: Worker, m: Measure)
    requires i < |ws|
    ensures WorkersWeight(ws[i := w], m) == WorkersWeight(ws, m) - WorkerWeight(ws[i], m) + WorkerWeight(w, m)
    decreases |ws|
  {
    var n := |ws| - 1;
    if i < n {
      WorkersUpdate(ws[..n], i, w, m);
      assert ws[i := w][..n] == ws[..n][i := w];
    } else {
      assert ws[i := w][..n] == ws[..n];
    }
  }

  lemma {:induction false} QueueConcat(a: seq<Task>, b: seq<Task>, m: Measure)
    ensures QueueWeight(a + b, m) == QueueWeight(a, m) + QueueWeight(b, m)
    decreases |b|
  {
    if b == [] {
      assert a + b == a;
    } else {
      QueueConcat(a, b[..|b| - 1], m);
      assert (a + b)[..|a + b| - 1] == a + b[..|b| - 1];
    }
  }

  lemma QueueOne(t: Task, m: Measure)
    ensures QueueWeight([t], m) == TaskWeight(t, m)
  {
    assert QueueWeight([t], m) == QueueWeight([], m) + TaskWeight(t, m);
  }

  lemma {:induction false} ChannelSnoc(c: seq<Progress>, p: Progress, m: Measure)
    ensures ChannelWeight(c + [p], m) == ChannelWeight(c, m) + MessageWeight(p, m)
    decreases |c|
  {
    if c == [] {
      assert ([] + [p])[1..] == [];
    } else {
      ChannelSnoc(c[1..], p, m);
      assert (c + [p])[1..] == c[1..] + [p];
    }
  }

  lemma {:induction false} QueueSign(q: seq<Task>, m: Measure)
    ensures QueueWeight(q, m) >= 0.0
    ensures (forall t | t in q :: TaskWeight(t, m) == 0.0) <==> QueueWeight(q, m) == 0.0
    decreases |q|
  {
    if q != [] {
      var n := |q| - 1;
      QueueSign(q[..n], m);
      ValueSign(q[n].frac);
      assert q == q[..n] + [q[n]];
    }
  }

  lemma WorkerSign(w: Worker, m: Measure)
    ensures WorkerWeight(w, m) >= 0.0
    ensures WorkerWeight(w, m) == 0.0 <==> QueueWeight(w.deque, m) == 0.0 && PhaseWeight(w.phase, m) == 0.0
  {
    QueueSign(w.deque, m);
    match w.phase
    case Working(t) => ValueSign(t.frac);
    case Report(id, frac) => ValueSign(frac);
    case _ =>
  }

  lemma {:induction false} WorkersSign(ws: seq<Worker>, m: Measure)
    ensures WorkersWeight(ws, m) >= 0.0
    ensures (forall w | w in ws :: WorkerWeight(w, m) == 0.0) <==> WorkersWeight(ws, m) == 0.0
    decreases |ws|
  {
    if ws != [] {
      var n := |ws| - 1;
      WorkersSign(ws[..n], m);
      WorkerSign(ws[n], m);
      assert ws == ws[..n] + [ws[n]];
    }
  }

  lemma {:induction false} ChannelSign(c: seq<Progress>, m: Measure)
    ensures ChannelWeight(c, m) >= 0.0
    ensures (forall p | p in c :: MessageWeight(p, m) == 0.0) <==> ChannelWeight(c, m) == 0.0
    decreases |c|
  {
    if c != [] {
      ChannelSign(c[1..], m);
      if c[0].Finished? { ValueSign(c[0].frac); }
      assert c == [c[0]] + c[1..];
    }
  }

  // ----- every step keeps the total

  lemma PhaseChange(s: State, w: nat, p: Phase, m: Measure)
    requires w < |s.workers|
    ensures Total(SetPhase(s, w, p), m) == Total(s, m) - PhaseWeight(s.workers[w].phase, m) + PhaseWeight(p, m)
  {
    WorkersUpdate(s.workers, w, s.workers[w].(phase := p), m);
  }

  lemma DequeChange(s: State, w: nat, d: seq<Task>, m: Measure)
    requires w < |s.workers|
    ensures Total(SetDeque(s, w, d), m) == Total(s, m) - QueueWeight(s.workers[w].deque, m) + QueueWeight(d, m)
  {
    WorkersUpdate(s.workers, w, s.workers[w].(deque := d), m);
  }

  lemma InboxChange(s: State, w: nat, inbox: seq<Response>, m: Measure)
    requires w < |s.workers|
    ensures Total(SetInbox(s, w, inbox), m) == Total(s, m)
  {
    WorkersUpdate(s.workers, w, s.workers[w].(inbox := inbox), m);
  }

  lemma ForkTotal(s: State, w: nat, kept: Frac, given: Frac, m: Measure)
    requires w < |s.workers| && s.workers[w].phase.Working?
    requires kept.Value() + given.Value() == s.workers[w].phase.task.frac.Value()
    ensures Total(Fork(s, w, kept, given), m) == Total(s, m) + (if m == Copies(s.next) then 1.0 else 0.0)
  {
    var t := s.workers[w].phase.task;
    var child := Task(s.next, t.id, given);
    var s1 := SetPhase(s, w, Working(t.(frac := kept)));
    PhaseChange(s, w, Working(t.(frac := kept)), m);
    DequeChange(s1, w, s1.workers[w].deque + [child], m);
    QueueConcat(s1.workers[w].deque, [child], m);
    QueueOne(child, m);
  }

  lemma BatchWeight(g: seq<Task>, batch: nat, m: Measure)
    requires 1 <= batch <= |g|
    ensures QueueWeight(g, m) == TaskWeight(g[0], m) + QueueWeight(g[1..batch], m) + QueueWeight(g[batch..], m)
  {
    QueueConcat([g[0]], g[1..batch], m);
    QueueConcat(g[..batch], g[batch..], m);
    QueueOne(g[0], m);
    assert g == g[..batch] + g[batch..];
    assert g[..batch] == [g[0]] + g[1..batch];
  }

  lemma TakeTotal(s: State, w: nat, batch: nat, m: Measure)
    requires Enabled(s, Work(w, TakeGlobal(batch)))
    ensures Total(WorkerApply(s, w, TakeGlobal(batch)), m) == Total(s, m)
  {
    var g, d := s.global, s.workers[w].deque;
    var s1 := SetDeque(s, w, d + g[1..batch]);
    DequeChange(s, w, d + g[1..batch], m);
    PhaseChange(s1, w, Working(g[0]), m);
    QueueConcat(d, g[1..batch], m);
    BatchWeight(g, batch, m);
  }

  lemma StealTotal(s: State, w: nat, m: Measure)
    requires Enabled(s, Work(w, Steal))
    ensures Total(WorkerApply(s, w, Steal), m) == Total(s, m)
  {
    var victim := s.workers[w].phase.next;
    var d := s.workers[victim].deque;
    DequeChange(s, victim, d[1..], m);
    PhaseChange(SetDeque(s, victim, d[1..]), w, Working(d[0]), m);
    QueueConcat([d[0]], d[1..], m);
    QueueOne(d[0], m);
    assert d == [d[0]] + d[1..];
  }

  lemma PopTotal(s: State, w: nat, m: Measure)
    requires Enabled(s, Work(w, PopLocal))
    ensures Total(WorkerApply(s, w, PopLocal), m) == Total(s, m)
  {
    var d := s.workers[w].deque;
    DequeChange(s, w, d[..|d| - 1], m);
    PhaseChange(SetDeque(s, w, d[..|d| - 1]), w, Working(d[|d| - 1]), m);
  }

  lemma FinishTotal(s: State, w: nat, m: Measure)
    requires Enabled(s, Work(w, Finish))
    ensures Total(WorkerApply(s, w, Finish), m) == Total(s, m)
  {
    var t := s.workers[w].phase.task;
    PhaseChange(s, w, Report(t.id, t.frac), m);
    assert (s.collected + [t.uid])[..|s.collected|] == s.collected;
  }

  lemma SendTotal(s: State, w: nat, a: Action, m: Measure)
    requires (a.SendIdle? || a.SendFinished?) && Enabled(s, Work(w, a))
    ensures Total(WorkerApply(s, w, a), m) == Total(s, m)
  {
    var p := s.workers[w].phase;
    if a.SendIdle? {
      PhaseChange(s, w, Wait, m);
      ChannelSnoc(s.channel, Idle(w), m);
    } else {
      PhaseChange(s, w, Seek, m);
      ChannelSnoc(s.channel, Finished(w, p.taskId, p.frac), m);
    }
  }

  lemma WakeTotal(s: State, w: nat, a: Action, m: Measure)
    requires (a.Wake? || a.Leave?) && Enabled(s, Work(w, a))
    ensures Total(WorkerApply(s, w, a), m) == Total(s, m)
  {
    var inbox := s.workers[w].inbox[1..];
    InboxChange(s, w, inbox, m);
    PhaseChange(SetInbox(s, w, inbox), w, if a.Wake? then Seek else Gone, m);
  }

  lemma SearchTotal(s: State, w: nat, a: Action, m: Measure)
    requires (a.StartScan? || a.Pass? || a.Contend? || a.GiveUp?) && Enabled(s, Work(w, a))
    ensures Total(WorkerApply(s, w, a), m) == Total(s, m)
  {
    PhaseChange(s, w, WorkerApply(s, w, a).workers[w].phase, m);
  }

  lemma ForkStepTotal(s: State, w: nat, a: Action, m: Measure)
    requires (a.ForkHalf? || a.ForkSplit?) && Enabled(s, Work(w, a))
    ensures Total(WorkerApply(s, w, a), m) == Total(s, m) + (if m == Copies(s.next) then 1.0 else 0.0)
  {
    var f := s.workers[w].phase.task.frac;
    if a.ForkHalf? {
      HalfValue(f);
      ForkTotal(s, w, f.Half(), f.Half(), m);
    } else {
      SplitValue(f, SPLIT_POW);
      ForkTotal(s, w, f.Kept(SPLIT_POW), f.Rest(SPLIT_POW), m);
    }
  }

  predicate IsFork(a: Action) { a.ForkHalf? || a.ForkSplit? }

  lemma WorkTotal(s: State, w: nat, a: Action, m: Measure)
    requires Enabled(s, Work(w, a))
    ensures Total(WorkerApply(s, w, a), m) ==
            Total(s, m) + (if m == Copies(s.next) && IsFork(a) then 1.0 else 0.0)
  {
    match a
    case PopLocal => PopTotal(s, w, m);
    case Steal => StealTotal(s, w, m);
    case TakeGlobal(batch) => TakeTotal(s, w, batch, m);
    case SendIdle => SendTotal(s, w, a, m);
    case SendFinished => SendTotal(s, w, a, m);
    case Wake => WakeTotal(s, w, a, m);
    case Leave => WakeTotal(s, w, a, m);
    case ForkHalf => ForkStepTotal(s, w, a, m);
    case ForkSplit => ForkStepTotal(s, w, a, m);
    case Finish => FinishTotal(s, w, m);
    case StartScan => SearchTotal(s, w, a, m);
    case Pass => SearchTotal(s, w, a, m);
    case Contend => SearchTotal(s, w, a, m);
    case GiveUp => SearchTotal(s, w, a, m);
  }

  lemma RecordTotal(s: State, m: Measure)
    requires MainEnabled(s, Receive)
    ensures Total(MainApply(s, Receive), m) == Total(s, m)
  {
    var msg := s.channel[0];
    if msg.Finished? {
      var current := if msg.taskId in s.progress then s.progress[msg.taskId] else ZERO;
      AddValue(current, msg.frac);
      ValueSign(ZERO);
    }
  }

  lemma ControlTotal(s: State, c: Control, m: Measure)
    requires MainEnabled(s, c)
    ensures Total(MainApply(s, c), m) == Total(s, m)
  {
    if c.Receive? {
      RecordTotal(s, m);
    } else if c.PokeNext? || c.KillNext? {
      var i := s.main.next;
      if i < |s.workers| {
        InboxChange(s, i, s.workers[i].inbox + [if c.PokeNext? then Poke else Kill], m);
      }
    }
  }

  lemma StepTotal(s: State, e: Event, m: Measure)
    requires Enabled(s, e)
    ensures Total(Apply(s, e), m) ==
            Total(s, m) + (if m == Copies(s.next) && e.Work? && IsFork(e.action) then 1.0 else 0.0)
  {
    match e
    case Work(w, a) => WorkTotal(s, w, a, m);
    case Main(c) => ControlTotal(s, c, m);
  }

  // ----- local invariants

  predicate Live(f: Frac) { f.num >= 1 }

  predicate QueuePositive(q: seq<Task>) { forall t | t in q :: Live(t.frac) }

  predicate WorkerPositive(w: Worker) {
    && QueuePositive(w.deque)
    && (w.phase.Working? ==> Live(w.phase.task.frac))
    && (w.phase.Report? ==> Live(w.phase.frac))
  }

  /** Every fraction in flight or recovered is positive. */
  predicate Positive(s: State) {
    && QueuePositive(s.global)
    && (forall w | w in s.workers :: WorkerPositive(w))
    && (forall p | p in s.channel :: p.Finished? ==> Live(p.frac))
    && (forall id | id in s.progress :: Live(s.progress[id]))
  }

  /** A worker searches elsewhere, sleeps or leaves only with an empty queue of its own, and it
      never sleeps or leaves before the global queue is empty for good. */
  predicate QueuesDrained(s: State) {
    forall w | w in s.workers ::
      && (w.phase.Scan? || w.phase.Announce? || w.phase.Wait? || w.phase.Gone? ==> w.deque == [])
      && (w.phase.Scan? ==> w.phase.next <= |s.workers|)
      && (w.phase.Announce? || w.phase.Wait? || w.phase.Gone? ==> s.global == [])
  }

  predicate Killed(s: State, i: nat) { s.main.Stopped? || (s.main.Killing? && i < s.main.next) }

  /** A worker gets its kill message exactly once, after all its pokes, and leaves only by it. */
  predicate KillOrder(s: State) {
    && |s.isIdle| == |s.workers|
    && (s.main.Poking? || s.main.Killing? ==> s.main.next <= |s.workers|)
    && (forall p | p in s.channel :: p.tid < |s.workers|)
    && forall i | 0 <= i < |s.workers| :: InboxOrder(s.workers[i], Killed(s, i))
  }

  predicate InboxOrder(w: Worker, killed: bool) {
    if w.phase.Gone? then killed && w.inbox == []
    else if killed then w.inbox != [] && w.inbox[|w.inbox| - 1].Kill? && Pokes(w.inbox[..|w.inbox| - 1])
    else Pokes(w.inbox)
  }

  predicate Pokes(inbox: seq<Response>) { forall r | r in inbox :: r.Poke? }

  lemma StealPositive(s: State, w: nat)
    requires Enabled(s, Work(w, Steal)) && Positive(s)
    ensures Positive(WorkerApply(s, w, Steal))
  {
    var victim := s.workers[w].phase.next;
    var d := s.workers[victim].deque;
    assert WorkerPositive(s.workers[victim]) && d[0] in d;
    var s1 := SetDeque(s, victim, d[1..]);
    assert forall v | v in s1.workers :: WorkerPositive(v);
    assert WorkerPositive(s1.workers[w]);
  }

  lemma WorkPositive(s: State, w: nat, a: Action)
    requires Enabled(s, Work(w, a)) && Positive(s)
    ensures Positive(WorkerApply(s, w, a))
  {
    assert WorkerPositive(s.workers[w]);
    if a.Steal? {
      StealPositive(s, w);
    } else if a.ForkSplit? {
      SplitValue(s.workers[w].phase.task.frac, SPLIT_POW);
    }
  }

  lemma InboxPositive(s: State, i: nat, inbox: seq<Response>)
    requires Positive(s) && i < |s.workers|
    ensures Positive(SetInbox(s, i, inbox))
  {
    assert WorkerPositive(s.workers[i]);
  }

  lemma ControlPositive(s: State, c: Control)
    requires MainEnabled(s, c) && Positive(s)
    ensures Positive(MainApply(s, c))
  {
    if c.Receive? && s.channel[0].Finished? {
      var current := if s.channel[0].taskId in s.progress then s.progress[s.channel[0].taskId] else ZERO;
      AddValue(current, s.channel[0].frac);
      ValueSign(current);
      ValueSign(s.channel[0].frac);
      ValueSign(current.Add(s.channel[0].frac));
    } else if (c.PokeNext? || c.KillNext?) && s.main.next < |s.workers| {
      var i := s.main.next;
      InboxPositive(s, i, s.workers[i].inbox + [if c.PokeNext? then Poke else Kill]);
    }
  }

  lemma WorkDrained(s: State, w: nat, a: Action)
    requires Enabled(s, Work(w, a)) && QueuesDrained(s)
    ensures QueuesDrained(WorkerApply(s, w, a))
  {
  }

  lemma ControlDrained(s: State, c: Control)
    requires MainEnabled(s, c) && QueuesDrained(s)
    ensures QueuesDrained(MainApply(s, c))
  {
  }

  /** Taking the first message off an ordered inbox leaves it ordered. */
  lemma InboxStep(w: Worker, killed: bool)
    requires InboxOrder(w, killed) && w.phase.Wait? && w.inbox != []
    ensures w.inbox[0].Poke? ==> InboxOrder(w.(phase := Seek, inbox := w.inbox[1..]), killed)
    ensures w.inbox[0].Kill? ==> InboxOrder(w.(phase := Gone, inbox := w.inbox[1..]), killed)
  {
    var n := |w.inbox| - 1;
    if killed {
      var pokes := w.inbox[..n];
      assert n > 0 ==> w.inbox[0] == pokes[0] && pokes[0] in pokes;
      assert n > 0 ==> w.inbox[1..][..n - 1] == pokes[1..];
    } else {
      assert w.inbox[0] in w.inbox;
    }
  }

  lemma InboxAppend(w: Worker, r: Response)
    requires InboxOrder(w, false)
    ensures InboxOrder(w.(inbox := w.inbox + [r]), r.Kill?)
  {
    assert (w.inbox + [r])[..|w.inbox|] == w.inbox;
  }

  lemma WorkKillOrder(s: State, w: nat, a: Action)
    requires Enabled(s, Work(w, a)) && KillOrder(s)
    ensures KillOrder(WorkerApply(s, w, a))
  {
    var s' := WorkerApply(s, w, a);
    forall i | 0 <= i < |s.workers|
      ensures InboxOrder(s'.workers[i], Killed(s', i))
    {
      assert InboxOrder(s.workers[i], Killed(s, i));
      if (a.Wake? || a.Leave?) && w == i {
        InboxStep(s.workers[i], Killed(s, i));
      }
    }
  }

  lemma ControlKillOrder(s: State, c: Control)
    requires MainEnabled(s, c) && KillOrder(s)
    ensures KillOrder(MainApply(s, c))
  {
    var s' := MainApply(s, c);
    forall i | 0 <= i < |s.workers|
      ensures InboxOrder(s'.workers[i], Killed(s', i))
    {
      assert InboxOrder(s.workers[i], Killed(s, i));
      if c.PokeNext? && i == s.main.next && s.isIdle[i] {
        InboxAppend(s.workers[i], Poke);
      } else if c.KillNext? && i == s.main.next {
        InboxAppend(s.workers[i], Kill);
      }
    }
  }
}
