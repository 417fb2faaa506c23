/** The parallel scheduler of the symbolic executor: work-stealing workers, a main thread that
    collects progress messages, and termination detection by recovered credit. Every step below is
    one atomic action of one thread; a run is any sequence of steps. */
module Scheduler {
  import opened Fractions

  type TaskId = nat

  /** `uid` numbers the tasks in order of creation; it exists only to say which tasks were run. */
  datatype Task = Task(uid: nat, id: TaskId, frac: Frac)

  datatype Progress =
    | Finished(tid: nat, taskId: TaskId, frac: Frac)
    | Idle(tid: nat)

  datatype Response = Poke | Kill

  /** Where a worker is. `Scan(i, retry)` is the search of `find_task` about to try stealer `i`, or
      the global queue once every stealer was tried. */
  datatype Phase =
    | Seek
    | Scan(next: nat, retry: bool)
    | Working(task: Task)
    | Report(taskId: TaskId, frac: Frac)
    | Announce
    | Wait
    | Gone

  datatype Worker = Worker(deque: seq<Task>, phase: Phase, inbox: seq<Response>)

  datatype MainPhase = Drain | Poking(next: nat) | Deciding | Killing(next: nat) | Stopped

  datatype State = State(
    global: seq<Task>,
    workers: seq<Worker>,
    channel: seq<Progress>,
    progress: map<TaskId, Frac>,
    isIdle: seq<bool>,
    main: MainPhase,
    next: nat,
    collected: seq<nat>)

  /** One atomic action of a worker. */
  datatype Action =
    | PopLocal
    | StartScan
    | Steal
    | Pass
    | Contend
    | TakeGlobal(batch: nat)
    | GiveUp
    | SendIdle
    | Wake
    | Leave
    | ForkHalf
    | ForkSplit
    | Finish
    | SendFinished

  /** One atomic action of the orchestrating thread. */
  datatype Control = Receive | Drained | PokeNext | Decide | KillNext

  datatype Event = Work(w: nat, action: Action) | Main(control: Control)

  /** `min_split` is always called with this power. */
  const SPLIT_POW := 6

  function InitialTasks(ids: seq<TaskId>): (ts: seq<Task>)
    ensures |ts| == |ids|
  {
    if ids == [] then []
    else InitialTasks(ids[..|ids| - 1]) + [Task(|ids| - 1, ids[|ids| - 1], ONE)]
  }

  function Start(threads: nat, ids: seq<TaskId>): State {
    State(InitialTasks(ids), seq(threads, _ => Worker([], Seek, [])), [], map[],
          seq(threads, _ => false), Drain, |ids|, [])
  }

  predicate AllOne(progress: map<TaskId, Frac>) {
    forall id | id in progress :: progress[id].IsOne()
  }

  predicate Enabled(s: State, e: Event) {
    match e
    case Work(w, action) => w < |s.workers| && WorkerEnabled(s, s.workers[w], action)
    case Main(control) => MainEnabled(s, control)
  }

  predicate MainEnabled(s: State, c: Control) {
    match c
    case Receive => s.main.Drain? && s.channel != [] && s.channel[0].tid < |s.isIdle|
    case Drained => s.main.Drain? && s.channel == []
    case PokeNext => s.main.Poking? && s.main.next <= |s.workers| == |s.isIdle|
    case Decide => s.main.Deciding?
    case KillNext => s.main.Killing? && s.main.next <= |s.workers|
  }

  predicate WorkerEnabled(s: State, w: Worker, a: Action) {
    match a
    case PopLocal => w.phase.Seek? && w.deque != []
    case StartScan => w.phase.Seek? && w.deque == []
    case Steal => w.phase.Scan? && w.phase.next < |s.workers| && s.workers[w.phase.next].deque != []
    case Pass => w.phase.Scan? && w.phase.next < |s.workers| && s.workers[w.phase.next].deque == []
    case Contend => w.phase.Scan? && w.phase.next <= |s.workers|
    case TakeGlobal(batch) => w.phase.Scan? && w.phase.next == |s.workers| && 1 <= batch <= |s.global|
    case GiveUp => w.phase.Scan? && w.phase.next == |s.workers| && s.global == []
    case SendIdle => w.phase.Announce?
    case Wake => w.phase.Wait? && w.inbox != [] && w.inbox[0].Poke?
    case Leave => w.phase.Wait? && w.inbox != [] && w.inbox[0].Kill?
    case ForkHalf => w.phase.Working?
    case ForkSplit => w.phase.Working? && w.phase.task.frac.num >= 1
    case Finish => w.phase.Working?
    case SendFinished => w.phase.Report?
  }

  function SetPhase(s: State, w: nat, p: Phase): State
    requires w < |s.workers|
  {
    s.(workers := s.workers[w := s.workers[w].(phase := p)])
  }

  function SetDeque(s: State, w: nat, d: seq<Task>): State
    requires w < |s.workers|
  {
    s.(workers := s.workers[w := s.workers[w].(deque := d)])
  }

  function SetInbox(s: State, w: nat, inbox: seq<Response>): State
    requires w < |s.workers|
  {
    s.(workers := s.workers[w := s.workers[w].(inbox := inbox)])
  }

  /** A running task keeps `kept` and pushes a sibling carrying `given` on its own queue. */
  function Fork(s: State, w: nat, kept: Frac, given: Frac): State
    requires w < |s.workers| && s.workers[w].phase.Working?
  {
    var t := s.workers[w].phase.task;
    var s1 := SetPhase(s, w, Working(t.(frac := kept)));
    SetDeque(s1, w, s1.workers[w].deque + [Task(s.next, t.id, given)]).(next := s.next + 1)
  }

  function Record(s: State, msg: Progress): State
    requires msg.tid < |s.isIdle|
  {
    match msg
    case Finished(tid, id, frac) =>
      var current := if id in s.progress then s.progress[id] else ZERO;
      s.(progress := s.progress[id := current.Add(frac)], isIdle := s.isIdle[tid := false])
    case Idle(tid) => s.(isIdle := s.isIdle[tid := true])
  }

  function WorkerApply(s: State, w: nat, a: Action): State
    requires w < |s.workers| && WorkerEnabled(s, s.workers[w], a)
  {
    var Worker(deque, phase, inbox) := s.workers[w];
    match a
    case PopLocal => SetPhase(SetDeque(s, w, deque[..|deque| - 1]), w, Working(deque[|deque| - 1]))
    case StartScan => SetPhase(s, w, Scan(0, false))
    case Steal =>
      var d := s.workers[phase.next].deque;
      SetPhase(SetDeque(s, phase.next, d[1..]), w, Working(d[0]))
    case Pass => SetPhase(s, w, Scan(phase.next + 1, phase.retry))
    case Contend => SetPhase(s, w, if phase.next < |s.workers| then Scan(phase.next + 1, true) else Scan(0, false))
    case TakeGlobal(batch) =>
      SetPhase(SetDeque(s, w, deque + s.global[1..batch]), w, Working(s.global[0])).(global := s.global[batch..])
    case GiveUp => SetPhase(s, w, if phase.retry then Scan(0, false) else Announce)
    case SendIdle => SetPhase(s, w, Wait).(channel := s.channel + [Idle(w)])
    case Wake => SetPhase(SetInbox(s, w, inbox[1..]), w, Seek)
    case Leave => SetPhase(SetInbox(s, w, inbox[1..]), w, Gone)
    case ForkHalf => Fork(s, w, phase.task.frac.Half(), phase.task.frac.Half())
    case ForkSplit => Fork(s, w, phase.task.frac.Kept(SPLIT_POW), phase.task.frac.Rest(SPLIT_POW))
    case Finish =>
      SetPhase(s, w, Report(phase.task.id, phase.task.frac)).(collected := s.collected + [phase.task.uid])
    case SendFinished =>
      SetPhase(s, w, Seek).(channel := s.channel + [Finished(w, phase.taskId, phase.frac)])
  }

  function MainApply(s: State, c: Control): State
    requires MainEnabled(s, c)
  {
    match c
    case Receive => Record(s, s.channel[0]).(channel := s.channel[1..])
    case Drained => s.(main := Poking(0))
    case PokeNext =>
      var i := s.main.next;
      if i == |s.workers| then s.(main := Deciding)
      else if s.isIdle[i] then SetInbox(s, i, s.workers[i].inbox + [Poke]).(main := Poking(i + 1))
      else s.(main := Poking(i + 1))
    case Decide => s.(main := if AllOne(s.progress) then Killing(0) else Drain)
    case KillNext =>
      var i := s.main.next;
      if i == |s.workers| then s.(main := Stopped)
      else SetInbox(s, i, s.workers[i].inbox + [Kill]).(main := Killing(i + 1))
  }

  function Apply(s: State, e: Event): State
    requires Enabled(s, e)
  {
    match e
    case Work(w, action) => WorkerApply(s, w, action)
    case Main(control) => MainApply(s, control)
  }

  /** The events form a run from `s`, each enabled where it happens. */
  predicate Runs(s: State, es: seq<Event>)
    decreases |es|
  {
    es == [] || (Enabled(s, es[0]) && Runs(Apply(s, es[0]), es[1..]))
  }

  function After(s: State, es: seq<Event>): State
    requires Runs(s, es)
    decreases |es|
  {
    if es == [] then s else After(Apply(s, es[0]), es[1..])
  }
}
